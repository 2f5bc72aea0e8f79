/** The `Schema` class of src/index.ts:117-297: it compiles its specification once,
    in the constructor, and validates values against the compiled tree. */
module Schemas {
  import opened Wrappers
  import opened JsValues
  import opened Records
  import opened Json
  import opened Compiler
  import opened Validation
  import opened ExampleGen

  /** A node as `parse` builds it. */
  type CompiledNode = n: Node | WellFormed(n) witness Blank([])

  class Schema {
    /** `_schema`, set once by the constructor. */
    const root: CompiledNode

    constructor (spec: Value)
      requires Compilable(spec)
      ensures root == Parse(spec, [])
    {
      root := Parse(spec, []);
    }

    /** `validate(value)`: returns the validated value, or the failure that escapes,
        and the caller's value as the in-place element writes left it. */
    method Validate(h: Host, v: Value) returns (r: Result<Value, Failure>, after: Value)
      ensures Step(r, after) == ValidateTop(h, root, v)
    {
      r, after := ValidateNode(h, root, v, Key("v"));
      if r.Ok? && IsPureObject(r.value) {
        r := Ok(JsonOf(h, r.value).value);
      }
    }

    /** `example()`; None where it throws. */
    function Example(h: Host, now: Number): (r: Option<Value>)
      ensures r.None? ==> root.name != Some("null") && !Has(root.extra, "default")
    {
      ExampleOf(h, root, now)
    }

    /** `_validate(n, v, key)`: default, required, transformer, the checks in source
        order, then the in-place rewriting of children and elements. */
    method ValidateNode(h: Host, n: Node, v: Value, key: Seg) returns (r: Result<Value, Failure>, after: Value)
      requires WellFormed(n)
      ensures Step(r, after) == Run(h, n, v, key)
      decreases n
    {
      var value := v;
      if value.Undefined? && Has(n.extra, "default") {
        value := Lookup(n.extra, "default");
      }
      if value.Undefined? {
        if RequiredIsFalse(n.extra) {
          return Ok(Undefined), v;
        }
        return Err(Catch(n, key, Assertion(IsRequired))), v;
      }
      var t := Transform(h, n.transformer, value);
      if t.None? {
        return Err(Catch(n, key, Generic)), v;
      }
      value := t.value;
      var e := LeadingChecks(h, n, value);
      if e.Some? {
        return Err(Catch(n, key, e.value)), v;
      }
      if n.multiple {
        var found := SomeVariant(h, n, value);
        if !found {
          return Err(Catch(n, key, Generic)), v;
        }
      }
      if n.isObject && !IsPureObject(value) {
        return Err(Catch(n, key, Generic)), v;
      }
      if n.hasChildren {
        var cr := ValidateChildren(h, n, value.fields);
        if cr.Err? {
          return Err(Catch(n, key, Nested(cr.error))), v;
        }
        return Ok(Obj(cr.value)), v;
      }
      if n.element.Some? {
        var w := ValidateElements(h, n, value.items);
        after := if v.Undefined? then v else Arr(w.items);
        if w.failed.Some? {
          return Err(Catch(n, key, Nested(w.failed.value))), after;
        }
        return Ok(Arr(w.items)), after;
      }
      return Ok(value), v;
    }

    /** `schemas.some(s => _validate(s, value))`: stops at the first variant that
        validates. */
    method SomeVariant(h: Host, n: Node, x: Value) returns (found: bool)
      requires WellFormed(n) && n.multiple
      ensures found == AnyVariant(h, n, x, 0)
      decreases n, 1
    {
      found := false;
      var i := 0;
      while i < |n.schemas| && !found
        invariant 0 <= i <= |n.schemas|
        invariant AnyVariant(h, n, x, 0) == (found || AnyVariant(h, n, x, i))
      {
        var vr, _ := ValidateNode(h, n.schemas[i], x, Key("v"));
        found := vr.Ok?;
        i := i + 1;
      }
    }

    /** The children loop: each declared key is validated and written back into the
        record; the first failure stops the loop. */
    method ValidateChildren(h: Host, n: Node, fields: seq<Field>) returns (r: Result<seq<Field>, Failure>)
      requires WellFormed(n)
      ensures r == RunChildren(h, n, fields, 0)
      decreases n, 1
    {
      var fs := fields;
      var i := 0;
      while i < |n.children|
        invariant 0 <= i <= |n.children|
        invariant RunChildren(h, n, fields, 0) == RunChildren(h, n, fs, i)
      {
        var c := n.children[i];
        var cr, _ := ValidateNode(h, c.node, Lookup(fs, c.key), Key(c.key));
        if cr.Err? {
          return Err(cr.error);
        }
        fs := Put(fs, c.key, cr.value);
        i := i + 1;
      }
      return Ok(fs);
    }

    /** The element loop: each slot is validated and overwritten in place; a failing
        slot keeps what that call left in it. */
    method ValidateElements(h: Host, n: Node, elements: seq<Value>) returns (w: Walk)
      requires WellFormed(n) && n.element.Some?
      ensures w == RunElements(h, n, elements, 0)
      decreases n, 1
    {
      var items := elements;
      var i := 0;
      while i < |items|
        invariant 0 <= i <= |items| == |elements|
        invariant RunElements(h, n, elements, 0) == RunElements(h, n, items, i)
      {
        var er, ea := ValidateNode(h, n.element.value, items[i], Index(i));
        if er.Err? {
          return Walk(Some(er.error), items[i := ea]);
        }
        items := items[i := er.value];
        i := i + 1;
      }
      return Walk(None, items);
    }
  }
}
