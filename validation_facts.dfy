/** Properties of `_validate` (src/index.ts:137-244) and `validate`
    (src/index.ts:124-131), proved about the functions of `Validation`. */
module ValidationFacts {
  import opened Wrappers
  import opened JsValues
  import opened Records
  import opened Json
  import opened Compiler
  import opened Validation

  // ---------------------------------------------------------------------------
  // Absent input

  /** An undefined value takes the node's default; when there is none (or it is
      undefined too) the node fails with "is required" unless `required` is exactly
      false, in which case undefined comes back. */
  lemma AbsentInput(h: Host, n: Node, k: Seg)
    requires WellFormed(n)
    ensures var d := Lookup(n.extra, "default");
      Has(n.extra, "default") && !d.Undefined? ==> Run(h, n, Undefined, k).res == Run(h, n, d, k).res
    ensures !Has(n.extra, "default") || Lookup(n.extra, "default").Undefined? ==>
      Run(h, n, Undefined, k) ==
        Step(if RequiredIsFalse(n.extra) then Ok(Undefined) else Err(Failure([k], IsRequired)), Undefined)
  {
  }

  /** `_validate` under the node of `new Schema()` accepts every value and returns it
      unchanged. */
  lemma AbsentSpecAcceptsAll(h: Host, v: Value, k: Seg)
    ensures Run(h, Parse(Undefined, []), v, k) == Step(Ok(v), v)
  {
    var n := Parse(Undefined, []);
    assert n.extra == [Field("required", Bool(false))];
    assert !Has(n.extra, "default") && !Has(n.extra, "match") && !Has(n.extra, "invalid")
        && !Has(n.extra, "enums");
  }

  /** `new Schema().validate(v)` fails on nothing; it returns v itself unless v is a
      plain object, Buffer or RegExp, which come back as their JSON copy. */
  lemma AbsentSpecValidate(h: Host, v: Value)
    ensures ValidateTop(h, Parse(Undefined, []), v) ==
      Step(Ok(if IsPureObject(v) then JsonOf(h, v).value else v), v)
  {
    AbsentSpecAcceptsAll(h, v, Key("v"));
  }

  // ---------------------------------------------------------------------------
  // The checks, in order

  /** The leading checks pass exactly when the type, bound, list and shape checks all
      pass. */
  lemma LeadingChecksExactly(h: Host, n: Node, x: Value)
    ensures LeadingChecks(h, n, x).None? <==>
      && KindCheck(n, x).None? && BoundsCheck(h, n, OptionsOf(n.extra), x).None?
      && ListChecks(h, OptionsOf(n.extra), x).None? && ShapeCheck(n, x).None?
  {
  }

  /** All checks pass exactly when the leading checks pass, some variant accepts the
      value on an alternative, and an object node has a pure object. */
  lemma ChecksExactly(h: Host, n: Node, x: Value)
    requires WellFormed(n)
    ensures Checks(h, n, x).None? <==>
      LeadingChecks(h, n, x).None? && (n.multiple ==> AnyVariant(h, n, x, 0)) && (n.isObject ==> IsPureObject(x))
  {
  }

  /** A failing check on the transformed value is what `_validate` reports, under its
      own key. */
  lemma ChecksRejectRun(h: Host, n: Node, v: Value, x: Value, k: Seg)
    requires WellFormed(n) && !v.Undefined? && Transform(h, n.transformer, v) == Some(x)
    requires Checks(h, n, x).Some?
    ensures Run(h, n, v, k) == Step(Err(Catch(n, k, Checks(h, n, x).value)), v)
  {
  }

  /** Once the type and bound checks pass, a value that fails `match`, is found in
      `invalid` or is missing from `enums` makes `_validate` fail with that check's
      outcome. */
  lemma ListChecksRejectRun(h: Host, n: Node, v: Value, x: Value, k: Seg)
    requires WellFormed(n) && !v.Undefined? && Transform(h, n.transformer, v) == Some(x)
    requires KindCheck(n, x).None? && BoundsCheck(h, n, OptionsOf(n.extra), x).None?
    requires ListChecks(h, OptionsOf(n.extra), x).Some?
    ensures Run(h, n, v, k).res == Err(Catch(n, k, ListChecks(h, OptionsOf(n.extra), x).value))
  {
    assert LeadingChecks(h, n, x) == ListChecks(h, OptionsOf(n.extra), x);
    ChecksRejectRun(h, n, v, x, k);
  }

  // ---------------------------------------------------------------------------
  // Number nodes

  /** A Number node does not coerce: any defined value that is not a number fails the
      `typeof` check, whatever options the node has. */
  lemma NumberNoCoercion(h: Host, extra: seq<Field>, v: Value, k: Seg)
    requires !v.Undefined? && !v.Num?
    ensures Run(h, Parse(Fn(NumberFn), extra), v, k).res == Err(Failure([k], NotMatchKind(Some("Number"))))
  {
  }

  /** A number is checked against `min`, then `max`; nothing else is checked when the
      node has no `match`, `invalid` or `enums`. */
  lemma NumberBounds(h: Host, extra: seq<Field>, x: Number, k: Seg)
    requires !Has(extra, "match") && !Has(extra, "invalid") && !Has(extra, "enums")
    ensures var min := Lookup(extra, "min"); var max := Lookup(extra, "max");
      Run(h, Parse(Fn(NumberFn), extra), Num(x), k).res ==
        if Has(extra, "min") && !Ge(x, ToNumber(h, min)) then Err(Failure([k], ShouldGe(min)))
        else if Has(extra, "max") && !Le(x, ToNumber(h, max)) then Err(Failure([k], ShouldLe(max)))
        else Ok(Num(x))
  {
  }

  /** Without bounds every number passes, NaN and the infinities included. */
  lemma NumberWithoutBounds(h: Host, x: Number, k: Seg)
    ensures Run(h, Parse(Fn(NumberFn), []), Num(x), k) == Step(Ok(Num(x)), Num(x))
  {
  }

  // ---------------------------------------------------------------------------
  // Array nodes

  /** Element j is the first of items[i..] that the element node rejects. */
  ghost predicate FirstRejected(h: Host, e: Node, items: seq<Value>, i: nat, j: nat)
    requires WellFormed(e)
  {
    && i <= j < |items|
    && (forall l | i <= l < j :: SlotRun(h, e, items, l).res.Ok?)
    && SlotRun(h, e, items, j).res.Err?
  }

  /** Element node `e` on slot j of `items`. */
  function SlotRun(h: Host, e: Node, items: seq<Value>, j: nat): Step
    requires WellFormed(e) && j < |items|
  {
    Run(h, e, items[j], Index(j))
  }

  /** The element loop from slot i leaves the slots before i untouched. */
  lemma {:induction false} ElementsKeepPrefix(h: Host, n: Node, items: seq<Value>, i: nat)
    requires WellFormed(n) && n.element.Some? && i <= |items|
    ensures RunElements(h, n, items, i).items[..i] == items[..i]
    decreases |items| - i
  {
    if i < |items| {
      var s := SlotRun(h, n.element.value, items, i);
      if s.res.Ok? {
        var next := items[i := s.res.value];
        ElementsKeepPrefix(h, n, next, i + 1);
        var w := RunElements(h, n, next, i + 1);
        assert w.items[..i] == w.items[..i + 1][..i];
      }
    }
  }

  /** The element loop from slot i succeeds iff every remaining slot validates. */
  lemma {:induction false} ElementsAllOk(h: Host, n: Node, items: seq<Value>, i: nat)
    requires WellFormed(n) && n.element.Some? && i <= |items|
    ensures RunElements(h, n, items, i).failed.None? <==>
      forall j | i <= j < |items| :: SlotRun(h, n.element.value, items, j).res.Ok?
    decreases |items| - i
  {
    var e := n.element.value;
    if i < |items| {
      var s := SlotRun(h, e, items, i);
      if s.res.Ok? {
        var next := items[i := s.res.value];
        ElementsAllOk(h, n, next, i + 1);
        assert forall j | i < j < |items| :: SlotRun(h, e, next, j) == SlotRun(h, e, items, j);
      }
    }
  }

  /** When the element loop from slot i succeeds, each remaining slot holds its
      element's result. */
  lemma {:induction false} ElementsResults(h: Host, n: Node, items: seq<Value>, i: nat)
    requires WellFormed(n) && n.element.Some? && i <= |items|
    requires RunElements(h, n, items, i).failed.None?
    ensures forall j | i <= j < |items| ::
      SlotRun(h, n.element.value, items, j).res == Ok(RunElements(h, n, items, i).items[j])
    decreases |items| - i
  {
    var e := n.element.value;
    if i < |items| {
      var s := SlotRun(h, e, items, i);
      var next := items[i := s.res.value];
      ElementsResults(h, n, next, i + 1);
      ElementsKeepPrefix(h, n, next, i + 1);
      var w := RunElements(h, n, next, i + 1);
      assert forall j | i < j < |items| :: SlotRun(h, e, next, j) == SlotRun(h, e, items, j);
      assert w.items[i] == s.res.value by {
        assert w.items[..i + 1][i] == next[i];
      }
    }
  }

  /** When the element loop from slot i fails, it stopped at the first rejected slot j,
      which keeps what that call left in it. */
  lemma {:induction false} ElementsFirstFailure(h: Host, n: Node, items: seq<Value>, i: nat)
    requires WellFormed(n) && n.element.Some? && i <= |items|
    requires RunElements(h, n, items, i).failed.Some?
    ensures var w := RunElements(h, n, items, i); var e := n.element.value;
      exists j: nat :: (FirstRejected(h, e, items, i, j)
        && SlotRun(h, e, items, j) == Step(Err(w.failed.value), w.items[j]))
    decreases |items| - i
  {
    var e := n.element.value;
    var s := SlotRun(h, e, items, i);
    var w := RunElements(h, n, items, i);
    if s.res.Ok? {
      var next := items[i := s.res.value];
      ElementsFirstFailure(h, n, next, i + 1);
      assert w == RunElements(h, n, next, i + 1);
      var j: nat :| FirstRejected(h, e, next, i + 1, j)
        && SlotRun(h, e, next, j) == Step(Err(w.failed.value), w.items[j]);
      assert forall l | i < l < |items| :: SlotRun(h, e, next, l) == SlotRun(h, e, items, l);
      assert FirstRejected(h, e, items, i, j);
    } else {
      assert FirstRejected(h, e, items, i, i);
    }
  }

  /** What a failing element loop leaves in the array: when slot j is the first slot
      from i that its element rejects, the loop fails with j's failure, every slot from
      i before j holds its result, slot j holds what its call left there, and every
      slot after j is untouched. */
  lemma {:induction false} ElementsStopAt(h: Host, n: Node, items: seq<Value>, i: nat, j: nat)
    requires WellFormed(n) && n.element.Some? && FirstRejected(h, n.element.value, items, i, j)
    ensures var w := RunElements(h, n, items, i); var e := n.element.value;
      && w.failed == Some(SlotRun(h, e, items, j).res.error)
      && w.items[j] == SlotRun(h, e, items, j).after
      && (forall l | i <= l < j :: w.items[l] == SlotRun(h, e, items, l).res.value)
      && w.items[j + 1..] == items[j + 1..]
    decreases |items| - i
  {
    var e := n.element.value;
    var s := SlotRun(h, e, items, i);
    var w := RunElements(h, n, items, i);
    if i == j {
      assert w.items == items[i := s.after];
      assert w.items[i + 1..] == items[i + 1..];
    } else {
      var next := items[i := s.res.value];
      assert forall l | i < l < |items| :: SlotRun(h, e, next, l) == SlotRun(h, e, items, l);
      assert FirstRejected(h, e, next, i + 1, j);
      ElementsStopAt(h, n, next, i + 1, j);
      ElementsKeepPrefix(h, n, next, i + 1);
      assert w == RunElements(h, n, next, i + 1);
      assert w.items[i] == s.res.value by {
        assert w.items[..i + 1][i] == next[i];
      }
      assert next[j + 1..] == items[j + 1..];
    }
  }

  /** An array node whose checks pass validates every element in place: the result has
      the input's length and slot j holds the element node's result for input j; a
      rejected element is reported under its index. The caller's array is rewritten. */
  lemma ArrayElements(h: Host, n: Node, items: seq<Value>, k: Seg)
    requires WellFormed(n) && n.element.Some? && Checks(h, n, Arr(items)).None?
    ensures var s := Run(h, n, Arr(items), k); var e := n.element.value;
      && s.after.Arr? && |s.after.items| == |items|
      && (s.res.Ok? <==> forall j | 0 <= j < |items| :: SlotRun(h, e, items, j).res.Ok?)
      && (s.res.Ok? ==> s.res.value == s.after)
      && (s.res.Ok? ==> forall j | 0 <= j < |items| :: SlotRun(h, e, items, j).res == Ok(s.after.items[j]))
      && (s.res.Err? ==> exists j: nat :: (FirstRejected(h, e, items, 0, j)
            && s.res.error == Catch(n, k, Nested(SlotRun(h, e, items, j).res.error))
            && s.res.error.routes[..2] == [k, Index(j)]))
  {
    var w := RunElements(h, n, items, 0);
    assert Run(h, n, Arr(items), k).after == Arr(w.items);
    ElementsAllOk(h, n, items, 0);
    if w.failed.None? {
      ElementsResults(h, n, items, 0);
    } else {
      var e := n.element.value;
      ElementsFirstFailure(h, n, items, 0);
      var j: nat :| FirstRejected(h, e, items, 0, j)
        && SlotRun(h, e, items, j) == Step(Err(w.failed.value), w.items[j]);
    }
  }

  // ---------------------------------------------------------------------------
  // Object nodes

  /** Child j of `n` validating its key of the record `fs`. */
  function ChildRun(h: Host, n: Node, fs: seq<Field>, j: nat): Step
    requires WellFormed(n) && j < |n.children|
  {
    var c := n.children[j];
    Run(h, c.node, Lookup(fs, c.key), Key(c.key))
  }

  /** Child j is the first of children i.. that rejects its key of `fs`. */
  ghost predicate FirstRejectingChild(h: Host, n: Node, fs: seq<Field>, i: nat, j: nat)
    requires WellFormed(n)
  {
    && i <= j < |n.children|
    && (forall l | i <= l < j :: ChildRun(h, n, fs, l).res.Ok?)
    && ChildRun(h, n, fs, j).res.Err?
  }

  /** Writing child i's result leaves every later child's input as it was. */
  lemma LaterChildrenUnaffected(h: Host, n: Node, fs: seq<Field>, i: nat, y: Value)
    requires WellFormed(n) && DistinctChildKeys(n) && i < |n.children|
    ensures forall j | i < j < |n.children| ::
      ChildRun(h, n, Put(fs, n.children[i].key, y), j) == ChildRun(h, n, fs, j)
  {
    forall j | i < j < |n.children|
      ensures ChildRun(h, n, Put(fs, n.children[i].key, y), j) == ChildRun(h, n, fs, j)
    {
      PutGet(fs, n.children[i].key, y, n.children[j].key);
    }
  }

  /** The children loop from child i succeeds iff every remaining child accepts its key
      of the record as it was; otherwise the first rejecting child's failure escapes. */
  lemma {:induction false} ChildWalk(h: Host, n: Node, fs: seq<Field>, i: nat)
    requires WellFormed(n) && DistinctChildKeys(n) && i <= |n.children|
    ensures var r := RunChildren(h, n, fs, i);
      && (r.Ok? <==> forall j | i <= j < |n.children| :: ChildRun(h, n, fs, j).res.Ok?)
      && (r.Err? ==> exists j: nat :: (FirstRejectingChild(h, n, fs, i, j)
            && r.error == ChildRun(h, n, fs, j).res.error))
    decreases |n.children| - i
  {
    if i < |n.children| {
      var s := ChildRun(h, n, fs, i);
      if s.res.Ok? {
        var next := Put(fs, n.children[i].key, s.res.value);
        ChildWalk(h, n, next, i + 1);
        LaterChildrenUnaffected(h, n, fs, i, s.res.value);
        var r := RunChildren(h, n, next, i + 1);
        assert RunChildren(h, n, fs, i) == r;
        if r.Err? {
          var j: nat :| FirstRejectingChild(h, n, next, i + 1, j)
            && r.error == ChildRun(h, n, next, j).res.error;
          assert FirstRejectingChild(h, n, fs, i, j);
        }
      } else {
        assert FirstRejectingChild(h, n, fs, i, i);
      }
    }
  }

  /** When the children loop from child i succeeds, each remaining child's key holds
      that child's result and every other key keeps its value. */
  lemma {:induction false} ChildWalkResult(h: Host, n: Node, fs: seq<Field>, i: nat)
    requires WellFormed(n) && DistinctChildKeys(n) && i <= |n.children|
    requires RunChildren(h, n, fs, i).Ok?
    ensures var r := RunChildren(h, n, fs, i).value;
      && (forall j | i <= j < |n.children| ::
            ChildRun(h, n, fs, j).res.Ok? && Get(r, n.children[j].key) == Some(ChildRun(h, n, fs, j).res.value))
      && (forall key | (forall j | i <= j < |n.children| :: n.children[j].key != key) :: Get(r, key) == Get(fs, key))
    decreases |n.children| - i
  {
    if i < |n.children| {
      var c := n.children[i];
      var y := ChildRun(h, n, fs, i).res.value;
      var next := Put(fs, c.key, y);
      ChildWalkResult(h, n, next, i + 1);
      LaterChildrenUnaffected(h, n, fs, i, y);
      var r := RunChildren(h, n, next, i + 1).value;
      assert RunChildren(h, n, fs, i).value == r;
      forall key | (forall j | i <= j < |n.children| :: n.children[j].key != key)
        ensures Get(r, key) == Get(fs, key)
      {
        PutGet(fs, c.key, y, key);
      }
      PutGet(fs, c.key, y, c.key);
      assert Get(r, c.key) == Get(next, c.key);
    }
  }

  /** The children loop keeps the record's keys unique. */
  lemma {:induction false} ChildWalkUnique(h: Host, n: Node, fs: seq<Field>, i: nat)
    requires WellFormed(n) && i <= |n.children| && UniqueKeys(fs)
    ensures RunChildren(h, n, fs, i).Ok? ==> UniqueKeys(RunChildren(h, n, fs, i).value)
    decreases |n.children| - i
  {
    if i < |n.children| {
      var s := ChildRun(h, n, fs, i);
      if s.res.Ok? {
        PutUnique(fs, n.children[i].key, s.res.value);
        ChildWalkUnique(h, n, Put(fs, n.children[i].key, s.res.value), i + 1);
      }
    }
  }

  /** An object node whose checks pass on the JSON copy of the value validates each
      declared key of the copy with its child, keeps every undeclared key, and reports
      the first rejecting child under its key. The caller's value is not touched. */
  lemma ObjectChildren(h: Host, n: Node, v: Value, k: Seg)
    requires WellFormed(n) && n.hasChildren && DistinctChildKeys(n)
    requires !v.Undefined? && !v.Fn? && Checks(h, n, JsonOf(h, v).value).None?
    ensures var x := JsonOf(h, v).value; var s := Run(h, n, v, k);
      && x.Obj? && s.after == v
      && (s.res.Ok? <==> forall j | 0 <= j < |n.children| :: ChildRun(h, n, x.fields, j).res.Ok?)
      && (s.res.Ok? ==> s.res.value.Obj?)
      && (s.res.Ok? ==> forall j | 0 <= j < |n.children| ::
            Get(s.res.value.fields, n.children[j].key) == Some(ChildRun(h, n, x.fields, j).res.value))
      && (s.res.Ok? ==> forall key | (forall j | 0 <= j < |n.children| :: n.children[j].key != key) ::
            Get(s.res.value.fields, key) == Get(x.fields, key))
      && (s.res.Err? ==> exists j: nat :: (FirstRejectingChild(h, n, x.fields, 0, j)
            && s.res.error == Catch(n, k, Nested(ChildRun(h, n, x.fields, j).res.error))))
  {
    var x := JsonOf(h, v).value;
    assert IsJson(x) && IsPureObject(x);
    var r := RunChildren(h, n, x.fields, 0);
    assert Run(h, n, v, k) == match r
      case Ok(fs) => Step(Ok(Obj(fs)), v)
      case Err(f) => Step(Err(Catch(n, k, Nested(f))), v);
    ChildWalk(h, n, x.fields, 0);
    if r.Ok? {
      ChildWalkResult(h, n, x.fields, 0);
    }
  }

  /** An object node accepts exactly the pure objects (when it has no `match`,
      `invalid` or `enums`): anything else, a Date, an array or null included, is
      "not match [Object]". */
  lemma ObjectNeedsPureObject(h: Host, children: seq<Child>, extra: seq<Field>, v: Value, k: Seg)
    requires WellFormed(ObjectNode(children, extra))
    requires !Has(extra, "match") && !Has(extra, "invalid") && !Has(extra, "enums")
    requires !v.Undefined? && !v.Fn?
    ensures Checks(h, ObjectNode(children, extra), JsonOf(h, v).value).None? <==> IsPureObject(v)
    ensures !IsPureObject(v) ==>
      Run(h, ObjectNode(children, extra), v, k).res == Err(Failure([k], NotMatchKind(Some("Object"))))
  {
  }

  /** What `validate` returns for an object root: each declared key holds the JSON copy
      of its child's result, so a child that came back undefined disappears; each
      undeclared key of the input holds the JSON copy of its value. */
  lemma ValidateObject(h: Host, root: Node, v: Value)
    requires WellFormed(root) && root.hasChildren && DistinctChildKeys(root)
    requires v.Obj? && UniqueKeys(v.fields) && Checks(h, root, JsonOf(h, v).value).None?
    requires ValidateTop(h, root, v).res.Ok?
    ensures var x := JsonOf(h, v).value; var r := ValidateTop(h, root, v).res.value;
      && r.Obj?
      && (forall j | 0 <= j < |root.children| ::
            ChildRun(h, root, x.fields, j).res.Ok?
            && Get(r.fields, root.children[j].key) == JsonOf(h, ChildRun(h, root, x.fields, j).res.value))
      && (forall key | (forall j | 0 <= j < |root.children| :: root.children[j].key != key) ::
            Get(r.fields, key) == match Get(v.fields, key) case None => None case Some(y) => JsonOf(h, y))
  {
    var x := JsonOf(h, v).value;
    ObjectChildren(h, root, v, Key("v"));
    JsonFieldsUnique(h, v, v.fields);
    ChildWalkUnique(h, root, x.fields, 0);
    var fs := Run(h, root, v, Key("v")).res.value.fields;
    var r := ValidateTop(h, root, v).res.value;
    assert r == Obj(JsonFields(h, Obj(fs), fs));
    forall key ensures Get(r.fields, key) == match Get(fs, key) case None => None case Some(y) => JsonOf(h, y) {
      JsonFieldsGet(h, Obj(fs), fs, key);
    }
    forall key ensures Get(x.fields, key) == match Get(v.fields, key) case None => None case Some(y) => JsonOf(h, y) {
      JsonFieldsGet(h, v, v.fields, key);
    }
    forall key | Get(x.fields, key).Some? ensures JsonOf(h, Get(x.fields, key).value) == Get(x.fields, key) {
      JsonFieldIsJson(x.fields, key);
      JsonFixesJson(h, Get(x.fields, key).value);
    }
  }

  /** A field of a JSON object holds a JSON value. */
  lemma {:induction false} JsonFieldIsJson(fs: seq<Field>, key: string)
    requires forall i | 0 <= i < |fs| :: IsJson(fs[i].val)
    ensures Get(fs, key).Some? ==> IsJson(Get(fs, key).value)
    decreases |fs|
  {
    if fs != [] && fs[0].key != key {
      assert forall i | 0 <= i < |fs[1..]| :: fs[1..][i] == fs[i + 1];
      JsonFieldIsJson(fs[1..], key);
    }
  }

  // ---------------------------------------------------------------------------
  // Alternative nodes

  /** `schemas.some(...)` from variant i holds iff some later variant validates the value. */
  lemma {:induction false} AnyVariantExists(h: Host, n: Node, x: Value, i: nat)
    requires WellFormed(n) && i <= |n.schemas|
    ensures AnyVariant(h, n, x, i) <==>
      exists j | i <= j < |n.schemas| :: Accepts(h, n.schemas[j], x)
    decreases |n.schemas| - i
  {
    if i < |n.schemas| {
      AnyVariantExists(h, n, x, i + 1);
    }
  }

  /** A compiled alternative `[A, B, ...]` accepts a value iff one of its variants does,
      and then returns the value it was given, not any variant's output; otherwise it
      fails with "not match" naming the variants joined by '|'. */
  lemma Alternatives(h: Host, items: seq<Value>, extra: seq<Field>, v: Value, k: Seg)
    requires Compilable(Arr(items)) && |items| >= 2 && !v.Undefined?
    requires !Has(extra, "match") && !Has(extra, "invalid") && !Has(extra, "enums")
    ensures var n := Parse(Arr(items), extra);
      && |n.schemas| == |items|
      && (forall j | 0 <= j < |items| :: n.schemas[j] == Parse(items[j], []))
      && n.name.Some? && '|' in n.name.value
      && Run(h, n, v, k) ==
        Step(if exists j | 0 <= j < |items| :: Run(h, n.schemas[j], v, Key("v")).res.Ok?
             then Ok(v) else Err(Failure([k], NotMatchKind(n.name))), v)
  {
    var n := Parse(Arr(items), extra);
    AnyVariantExists(h, n, v, 0);
  }

  // ---------------------------------------------------------------------------
  // Failure routes

  /** The reason `msg` belongs to node `m`: an assertion message quotes m's own option,
      and "not match [name]" carries m's name. */
  predicate Explains(m: Node, msg: Message)
  {
    match msg
    case IsRequired => !RequiredIsFalse(m.extra)
    case ShouldGe(b) => m.kind == Some(NumberType) && OptionsOf(m.extra).min == Some(b)
    case ShouldLe(b) => m.kind == Some(NumberType) && OptionsOf(m.extra).max == Some(b)
    case NotMatch(p) => OptionsOf(m.extra).pattern == Some(p)
    case ShouldNotIn(l) => OptionsOf(m.extra).invalid == Some(l)
    case NotInEnums(l) => OptionsOf(m.extra).enums == Some(l)
    case NotMatchKind(name) => name == m.name
  }

  /** `path` leads from `n` through child keys and element indices to a node that
      `msg` belongs to. */
  ghost predicate RouteTo(n: Node, path: seq<Seg>, msg: Message)
    decreases |path|
  {
    if path == [] then Explains(n, msg)
    else match path[0]
      case Key(key) =>
        exists j | 0 <= j < |n.children| :: n.children[j].key == key && RouteTo(n.children[j].node, path[1..], msg)
      case Index(_) => n.element.Some? && RouteTo(n.element.value, path[1..], msg)
  }

  /** A failure's route starts with the key it was validated under, continues with the
      child keys and element indices that lead to the failing node, and ends with that
      node's own reason. */
  lemma {:induction false} FailureRoute(h: Host, n: Node, v: Value, k: Seg)
    requires WellFormed(n) && Run(h, n, v, k).res.Err?
    ensures var f := Run(h, n, v, k).res.error;
      |f.routes| >= 1 && f.routes[0] == k && RouteTo(n, f.routes[1..], f.originalMessage)
    decreases n, 3
  {
    var f := Run(h, n, v, k).res.error;
    var value := if v.Undefined? && Has(n.extra, "default") then Lookup(n.extra, "default") else v;
    if !value.Undefined? && Transform(h, n.transformer, value).Some? {
      var x := Transform(h, n.transformer, value).value;
      if Checks(h, n, x).Some? {
        CheckFailureExplained(h, n, x);
      } else if n.hasChildren {
        ChildrenFailureRoute(h, n, x.fields, 0);
        assert f.routes[1..] == RunChildren(h, n, x.fields, 0).error.routes;
      } else if n.element.Some? {
        ElementsFailureRoute(h, n, x.items, 0);
        assert f.routes[1..] == RunElements(h, n, x.items, 0).failed.value.routes;
      }
    }
  }

  /** A check that fails reports a reason that belongs to the node. */
  lemma CheckFailureExplained(h: Host, n: Node, x: Value)
    requires WellFormed(n) && Checks(h, n, x).Some?
    ensures !Checks(h, n, x).value.Nested?
    ensures Checks(h, n, x).value.Assertion? ==> Explains(n, Checks(h, n, x).value.msg)
  {
    if LeadingChecks(h, n, x).Some? {
      LeadingFailureExplained(h, n, x);
    }
  }

  lemma LeadingFailureExplained(h: Host, n: Node, x: Value)
    requires LeadingChecks(h, n, x).Some?
    ensures !LeadingChecks(h, n, x).value.Nested?
    ensures LeadingChecks(h, n, x).value.Assertion? ==> Explains(n, LeadingChecks(h, n, x).value.msg)
  {
  }

  lemma {:induction false} ChildrenFailureRoute(h: Host, n: Node, fs: seq<Field>, i: nat)
    requires WellFormed(n) && i <= |n.children| && RunChildren(h, n, fs, i).Err?
    ensures var f := RunChildren(h, n, fs, i).error;
      |f.routes| >= 1 && RouteTo(n, f.routes, f.originalMessage)
    decreases n, 1, |n.children| - i
  {
    var c := n.children[i];
    var s := Run(h, c.node, Lookup(fs, c.key), Key(c.key));
    if s.res.Err? {
      FailureRoute(h, c.node, Lookup(fs, c.key), Key(c.key));
      assert n.children[i].key == c.key && RouteTo(n.children[i].node, s.res.error.routes[1..], s.res.error.originalMessage);
    } else {
      ChildrenFailureRoute(h, n, Put(fs, c.key, s.res.value), i + 1);
    }
  }

  lemma {:induction false} ElementsFailureRoute(h: Host, n: Node, items: seq<Value>, i: nat)
    requires WellFormed(n) && n.element.Some? && i <= |items| && RunElements(h, n, items, i).failed.Some?
    ensures var f := RunElements(h, n, items, i).failed.value;
      |f.routes| >= 1 && RouteTo(n, f.routes, f.originalMessage)
    decreases n, 1, |items| - i
  {
    var s := Run(h, n.element.value, items[i], Index(i));
    if s.res.Err? {
      FailureRoute(h, n.element.value, items[i], Index(i));
    } else {
      ElementsFailureRoute(h, n, items[i := s.res.value], i + 1);
    }
  }

  /** `validate` reports failures from the root key "v". */
  lemma ValidateFailureRoute(h: Host, root: Node, v: Value)
    requires WellFormed(root) && ValidateTop(h, root, v).res.Err?
    ensures var f := ValidateTop(h, root, v).res.error;
      |f.routes| >= 1 && f.routes[0] == Key("v") && RouteTo(root, f.routes[1..], f.originalMessage)
  {
    FailureRoute(h, root, v, Key("v"));
  }
  // ---------------------------------------------------------------------------
  // Options the validator does not read

  /** Two `extra` records that agree on every option `_validate` reads. */
  predicate SameConstraints(a: seq<Field>, b: seq<Field>)
  {
    && Get(a, "default") == Get(b, "default")
    && RequiredIsFalse(a) == RequiredIsFalse(b)
    && Get(a, "min") == Get(b, "min")
    && Get(a, "max") == Get(b, "max")
    && Get(a, "match") == Get(b, "match")
    && Get(a, "invalid") == Get(b, "invalid")
    && Get(a, "enums") == Get(b, "enums")
  }

  /** Options other than default, required (as far as it is exactly false), min, max,
      match, invalid and enums have no effect on validation: `$type`, `explain`,
      `error` and `disallowEmpty` included. */
  lemma RunIgnoresOtherOptions(h: Host, n: Node, e: seq<Field>, v: Value, k: Seg)
    requires WellFormed(n) && SameConstraints(n.extra, e)
    ensures WellFormed(n.(extra := e))
    ensures Run(h, n.(extra := e), v, k) == Run(h, n, v, k)
  {
    var m := n.(extra := e);
    WellFormedAnyExtra(n, e);
    var value := if v.Undefined? && Has(n.extra, "default") then Lookup(n.extra, "default") else v;
    if !value.Undefined? && Transform(h, n.transformer, value).Some? {
      var x := Transform(h, n.transformer, value).value;
      SameOptions(n.extra, e);
      SameChecks(h, n, m, x);
      if n.hasChildren && x.Obj? {
        SameChildren(h, n, m, x.fields, 0);
      }
      if n.element.Some? && x.Arr? {
        SameElements(h, n, m, x.items, 0);
      }
    }
    SameStep(h, n, m, v, k);
  }

  /** `_validate` gives the same outcome on two nodes that differ only in options, when
      they agree on the default, on `required`, and on every step after the
      transformer. */
  lemma SameStep(h: Host, n: Node, m: Node, v: Value, k: Seg)
    requires WellFormed(n) && WellFormed(m) && m == n.(extra := m.extra)
    requires Get(n.extra, "default") == Get(m.extra, "default")
    requires RequiredIsFalse(n.extra) == RequiredIsFalse(m.extra)
    requires var value := if v.Undefined? && Has(n.extra, "default") then Lookup(n.extra, "default") else v;
      !value.Undefined? && Transform(h, n.transformer, value).Some? ==>
        var x := Transform(h, n.transformer, value).value;
        && Checks(h, m, x) == Checks(h, n, x)
        && (n.hasChildren && x.Obj? ==> RunChildren(h, m, x.fields, 0) == RunChildren(h, n, x.fields, 0))
        && (n.element.Some? && x.Arr? ==> RunElements(h, m, x.items, 0) == RunElements(h, n, x.items, 0))
    ensures Run(h, m, v, k) == Run(h, n, v, k)
  {
    var value := if v.Undefined? && Has(n.extra, "default") then Lookup(n.extra, "default") else v;
    if !value.Undefined? && Transform(h, n.transformer, value).Some? {
      var x := Transform(h, n.transformer, value).value;
      if Checks(h, n, x).Some? {
        SameStepRejected(h, n, m, v, x, k);
      } else if n.hasChildren {
        SameStepChildren(h, n, m, v, x, k);
      } else if n.element.Some? {
        SameStepElements(h, n, m, v, x, k);
      }
    } else {
      SameStepEarly(h, n, m, v, k);
    }
  }

  /** The two nodes agree when the value is absent or the transformer throws. */
  lemma SameStepEarly(h: Host, n: Node, m: Node, v: Value, k: Seg)
    requires WellFormed(n) && WellFormed(m) && m == n.(extra := m.extra)
    requires Get(n.extra, "default") == Get(m.extra, "default")
    requires RequiredIsFalse(n.extra) == RequiredIsFalse(m.extra)
    requires var value := if v.Undefined? && Has(n.extra, "default") then Lookup(n.extra, "default") else v;
      value.Undefined? || Transform(h, n.transformer, value).None?
    ensures Run(h, m, v, k) == Run(h, n, v, k)
  {
  }

  lemma SameStepChildren(h: Host, n: Node, m: Node, v: Value, x: Value, k: Seg)
    requires WellFormed(n) && WellFormed(m) && m == n.(extra := m.extra) && n.hasChildren
    requires Get(n.extra, "default") == Get(m.extra, "default")
    requires var value := if v.Undefined? && Has(n.extra, "default") then Lookup(n.extra, "default") else v;
      !value.Undefined? && Transform(h, n.transformer, value) == Some(x)
    requires Checks(h, m, x) == Checks(h, n, x) && Checks(h, n, x).None?
    requires x.Obj? ==> RunChildren(h, m, x.fields, 0) == RunChildren(h, n, x.fields, 0)
    ensures Run(h, m, v, k) == Run(h, n, v, k)
  {
    assert IsJson(x) && IsPureObject(x);
  }

  /** The same, when a check fails on the transformed value. */
  lemma SameStepRejected(h: Host, n: Node, m: Node, v: Value, x: Value, k: Seg)
    requires WellFormed(n) && WellFormed(m) && m == n.(extra := m.extra)
    requires Get(n.extra, "default") == Get(m.extra, "default")
    requires var value := if v.Undefined? && Has(n.extra, "default") then Lookup(n.extra, "default") else v;
      !value.Undefined? && Transform(h, n.transformer, value) == Some(x)
    requires Checks(h, m, x) == Checks(h, n, x) && Checks(h, n, x).Some?
    ensures Run(h, m, v, k) == Run(h, n, v, k)
  {
  }

  lemma SameStepElements(h: Host, n: Node, m: Node, v: Value, x: Value, k: Seg)
    requires WellFormed(n) && WellFormed(m) && m == n.(extra := m.extra)
    requires !n.hasChildren && n.element.Some?
    requires Get(n.extra, "default") == Get(m.extra, "default")
    requires var value := if v.Undefined? && Has(n.extra, "default") then Lookup(n.extra, "default") else v;
      !value.Undefined? && Transform(h, n.transformer, value) == Some(x)
    requires Checks(h, m, x) == Checks(h, n, x) && Checks(h, n, x).None?
    requires x.Arr? ==> RunElements(h, m, x.items, 0) == RunElements(h, n, x.items, 0)
    ensures Run(h, m, v, k) == Run(h, n, v, k)
  {
    assert x.Arr?;
  }

  /** A node's options play no part in its shape. */
  lemma WellFormedAnyExtra(n: Node, e: seq<Field>)
    requires WellFormed(n)
    ensures WellFormed(n.(extra := e))
  {
  }

  lemma SameOptions(a: seq<Field>, b: seq<Field>)
    requires SameConstraints(a, b)
    ensures OptionsOf(a) == OptionsOf(b)
  {
  }

  lemma SameLeadingChecks(h: Host, n: Node, m: Node, x: Value)
    requires m == n.(extra := m.extra) && OptionsOf(n.extra) == OptionsOf(m.extra)
    ensures LeadingChecks(h, m, x) == LeadingChecks(h, n, x)
  {
  }

  lemma SameChecks(h: Host, n: Node, m: Node, x: Value)
    requires WellFormed(n) && WellFormed(m)
    requires m == n.(extra := m.extra) && OptionsOf(n.extra) == OptionsOf(m.extra)
    ensures Checks(h, m, x) == Checks(h, n, x)
  {
    SameLeadingChecks(h, n, m, x);
    if n.multiple {
      SameVariants(h, n, m, x, 0);
    }
  }

  lemma {:induction false} SameVariants(h: Host, n: Node, m: Node, x: Value, i: nat)
    requires WellFormed(n) && WellFormed(m) && m.schemas == n.schemas && i <= |n.schemas|
    ensures AnyVariant(h, m, x, i) == AnyVariant(h, n, x, i)
    decreases |n.schemas| - i
  {
    if i < |n.schemas| {
      SameVariants(h, n, m, x, i + 1);
    }
  }

  lemma {:induction false} SameChildren(h: Host, n: Node, m: Node, fs: seq<Field>, i: nat)
    requires WellFormed(n) && WellFormed(m) && m.children == n.children && i <= |n.children|
    ensures RunChildren(h, m, fs, i) == RunChildren(h, n, fs, i)
    decreases |n.children| - i
  {
    if i < |n.children| {
      var c := n.children[i];
      var s := Run(h, c.node, Lookup(fs, c.key), Key(c.key));
      if s.res.Ok? {
        SameChildren(h, n, m, Put(fs, c.key, s.res.value), i + 1);
      }
    }
  }

  lemma {:induction false} SameElements(h: Host, n: Node, m: Node, items: seq<Value>, i: nat)
    requires WellFormed(n) && WellFormed(m) && n.element.Some? && m.element == n.element && i <= |items|
    ensures RunElements(h, m, items, i) == RunElements(h, n, items, i)
    decreases |items| - i
  {
    if i < |items| {
      var s := Run(h, n.element.value, items[i], Index(i));
      if s.res.Ok? {
        SameElements(h, n, m, items[i := s.res.value], i + 1);
      }
    }
  }
}
