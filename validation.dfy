/** What `Schema._validate` (src/index.ts:137-244) and `Schema.validate`
    (src/index.ts:124-131) compute, as functions. The imperative `Schemas.Schema`
    is proved to compute exactly these. */
module Validation {
  import opened Wrappers
  import opened JsValues
  import opened Records
  import opened Json
  import opened Compiler

  /** One segment of a failure's route: the root "v", a child key or an element index. */
  datatype Seg = Key(name: string) | Index(i: nat)

  /** The `originalMessage` of a failure; "not match [name]" is `NotMatchKind(name)`. */
  datatype Message =
    | IsRequired                   // "is required"
    | ShouldGe(min: Value)         // "should ≥ min"
    | ShouldLe(max: Value)         // "should ≤ max"
    | NotMatch(pattern: Value)     // "not match /pattern/"
    | ShouldNotIn(invalid: Value)  // "should not in [invalid]"
    | NotInEnums(enums: Value)     // "is not in [enums]"
    | NotMatchKind(name: Option<string>)

  /** The ValidationError that escapes `_validate`: the route from the root to the
      failing node and the innermost reason. */
  datatype Failure = Failure(routes: seq<Seg>, originalMessage: Message)

  /** What a frame of `_validate` catches: its own assertion with a message, an
      assertion without one or any other exception, or a child frame's ValidationError. */
  datatype Raised = Assertion(msg: Message) | Generic | Nested(inner: Failure)

  /** The outcome of one `_validate` call, and the caller's value after it: array slots
      are rewritten in place, so an array passed in can change even when the call fails. */
  datatype Step = Step(res: Result<Value, Failure>, after: Value)

  /** The element loop's outcome: the first failure, if any, and the array's slots. */
  datatype Walk = Walk(failed: Option<Failure>, items: seq<Value>)

  /** The catch block (src/index.ts:208-242): the frame's key goes in front of the
      route; a generic failure is reported as "not match [name]" of this node. */
  function Catch(n: Node, key: Seg, e: Raised): (f: Failure)
    ensures |f.routes| >= 1 && f.routes[0] == key
    ensures e.Nested? ==> f.routes[1..] == e.inner.routes && f.originalMessage == e.inner.originalMessage
  {
    match e
    case Assertion(m) => Failure([key], m)
    case Generic => Failure([key], NotMatchKind(n.name))
    case Nested(inner) => Failure([key] + inner.routes, inner.originalMessage)
  }

  /** `extra.required === false`. */
  predicate RequiredIsFalse(extra: seq<Field>)
  {
    Get(extra, "required") == Some(Bool(false))
  }

  /** A node's transformer applied to a defined value; None where it throws. */
  function Transform(h: Host, t: Option<Transformer>, v: Value): (r: Option<Value>)
    ensures t.None? ==> r == Some(v)
    ensures t == Some(DecodeBuffer) ==> r.Some? && (v.Buf? ==> r.value.Str?) && (!v.Buf? ==> r.value == v)
    ensures t == Some(DecodeBuffer) && v.Buf? ==> r == Some(Str(h.decode(v.bytes)))
    ensures t == Some(ToDate) && v.DateObj? ==> r == Some(v)
    ensures t == Some(ToDate) && !v.DateObj? ==> (r.Some? <==> h.timeOf(v).Finite?)
    ensures t == Some(ToDate) && !v.DateObj? && h.timeOf(v).Finite? ==> r == Some(DateObj(h.timeOf(v)))
    ensures t == Some(ToDate) && r.Some? ==> r.value.DateObj?
    ensures t == Some(JsonRoundTrip) ==> r == JsonOf(h, v)
    ensures t == Some(JsonRoundTrip) && r.Some? ==> IsJson(r.value)
  {
    match t
    case None => Some(v)
    case Some(DecodeBuffer) => if v.Buf? then Some(Str(h.decode(v.bytes))) else Some(v)
    case Some(ToDate) =>
      if v.DateObj? then Some(v)
      else
        // toISOString() throws a RangeError on an invalid date
        var time := h.timeOf(v);
        if time.Finite? then Some(DateObj(time)) else None
    case Some(JsonRoundTrip) => JsonOf(h, v)
  }

  /** `list.includes(v)`; None where it throws. */
  function Includes(h: Host, list: Value, v: Value): (r: Option<bool>)
    ensures list.Null? || list.Undefined? ==> r.None?
    ensures list.Arr? ==> (r == Some(true) <==> exists j | 0 <= j < |list.items| :: SameValueZero(list.items[j], v))
    ensures list.Arr? ==> r.Some?
  {
    match list
    case Arr(items) => Some(FindValue(items, v) >= 0)
    // `null.includes` and `undefined.includes` throw a TypeError
    case Null => None
    case Undefined => None
    case _ => h.includesOther(list, v)
  }

  /** `extra.match.test(v)`: a RegExp is tested, anything else has no `test` method. */
  function PatternCheck(h: Host, pattern: Value, v: Value): (e: Option<Raised>)
    ensures e.None? <==> pattern.RegExp? && h.regexTest(pattern.source, v)
    ensures e.Some? && pattern.RegExp? ==> e == Some(Assertion(NotMatch(pattern)))
  {
    match pattern
    case RegExp(source) => if h.regexTest(source, v) then None else Some(Assertion(NotMatch(pattern)))
    case _ => Some(Generic)
  }

  /** The options of `extra` that the checks read; None where the key is absent. */
  datatype Options = Options(
    min: Option<Value>, max: Option<Value>, pattern: Option<Value>,
    invalid: Option<Value>, enums: Option<Value>)

  function OptionsOf(extra: seq<Field>): Options
  {
    Options(Get(extra, "min"), Get(extra, "max"), Get(extra, "match"), Get(extra, "invalid"), Get(extra, "enums"))
  }

  /** The `typeof` and literal-null checks (src/index.ts:156-161). */
  function KindCheck(n: Node, x: Value): (e: Option<Raised>)
    ensures e.None? <==> (n.kind.Some? ==> TypeOf(x) == n.kind.value) && (n.literalNull ==> x == Null)
    ensures e.Some? ==> e == Some(Generic)
  {
    if n.kind.Some? && TypeOf(x) != n.kind.value then Some(Generic)
    else if n.literalNull && x != Null then Some(Generic)
    else None
  }

  /** `min` and `max` of a number node (src/index.ts:162-169). */
  function BoundsCheck(h: Host, n: Node, o: Options, x: Value): (e: Option<Raised>)
    ensures e.Some? ==> n.kind == Some(NumberType) && x.Num? && e.value.Assertion?
    ensures n.kind == Some(NumberType) && x.Num? ==>
      (e.None? <==> (o.min.Some? ==> Ge(x.n, ToNumber(h, o.min.value))) && (o.max.Some? ==> Le(x.n, ToNumber(h, o.max.value))))
  {
    if n.kind != Some(NumberType) || !x.Num? then None
    else if o.min.Some? && !Ge(x.n, ToNumber(h, o.min.value)) then Some(Assertion(ShouldGe(o.min.value)))
    else if o.max.Some? && !Le(x.n, ToNumber(h, o.max.value)) then Some(Assertion(ShouldLe(o.max.value)))
    else None
  }

  /** `match`, `invalid` and `enums` (src/index.ts:170-178). */
  function ListChecks(h: Host, o: Options, x: Value): (e: Option<Raised>)
    ensures e.None? <==>
      (o.pattern.Some? ==> PatternCheck(h, o.pattern.value, x).None?) &&
      (o.invalid.Some? ==> Includes(h, o.invalid.value, x) == Some(false)) &&
      (o.enums.Some? ==> Includes(h, o.enums.value, x) == Some(true))
  {
    if o.pattern.Some? && PatternCheck(h, o.pattern.value, x).Some? then
      PatternCheck(h, o.pattern.value, x)
    else if o.invalid.Some? && Includes(h, o.invalid.value, x) != Some(false) then
      if Includes(h, o.invalid.value, x).None? then Some(Generic)
      else Some(Assertion(ShouldNotIn(o.invalid.value)))
    else if o.enums.Some? && Includes(h, o.enums.value, x) != Some(true) then
      if Includes(h, o.enums.value, x).None? then Some(Generic)
      else Some(Assertion(NotInEnums(o.enums.value)))
    else None
  }

  /** The Date and array checks (src/index.ts:179-184). */
  function ShapeCheck(n: Node, x: Value): (e: Option<Raised>)
    ensures e.None? <==> (n.isDate ==> x.DateObj?) && (n.isArray ==> x.Arr?)
    ensures e.Some? ==> e == Some(Generic)
  {
    if n.isDate && !x.DateObj? then Some(Generic)
    else if n.isArray && !x.Arr? then Some(Generic)
    else None
  }

  /** The checks of src/index.ts:156-184, in their order; None when all pass. */
  function LeadingChecks(h: Host, n: Node, x: Value): (e: Option<Raised>)
    ensures
      || (n.kind.Some? && TypeOf(x) != n.kind.value) || (n.literalNull && x != Null)
      || (n.isDate && !x.DateObj?) || (n.isArray && !x.Arr?)
      ==> e.Some?
    ensures e.None? ==>
      (n.kind.Some? ==> TypeOf(x) == n.kind.value) && (n.literalNull ==> x == Null) &&
      (n.isDate ==> x.DateObj?) && (n.isArray ==> x.Arr?)
  {
    var o := OptionsOf(n.extra);
    var kind := KindCheck(n, x);
    if kind.Some? then kind
    else
      var bounds := BoundsCheck(h, n, o, x);
      if bounds.Some? then bounds
      else
        var lists := ListChecks(h, o, x);
        if lists.Some? then lists else ShapeCheck(n, x)
  }

  /** All checks of src/index.ts:156-197: the leading ones, then the alternatives,
      then the pure-object check. */
  function Checks(h: Host, n: Node, x: Value): (e: Option<Raised>)
    requires WellFormed(n)
    ensures LeadingChecks(h, n, x).Some? ==> e == LeadingChecks(h, n, x)
    ensures e.None? ==> n.multiple ==> AnyVariant(h, n, x, 0)
    ensures e.None? ==> (n.isArray ==> x.Arr?) && (n.isObject ==> IsPureObject(x))
    decreases n, 2
  {
    var e := LeadingChecks(h, n, x);
    if e.Some? then e
    else if n.multiple && !AnyVariant(h, n, x, 0) then Some(Generic)
    else if n.isObject && !IsPureObject(x) then Some(Generic)
    else None
  }

  /** `schemas.some(...)` from the i-th alternative on: does some variant validate
      `x` without failing? Every variant is tried on `x` as it was handed to the
      alternative node (see Findings for the code as written). */
  predicate AnyVariant(h: Host, n: Node, x: Value, i: nat)
    requires WellFormed(n) && i <= |n.schemas|
    decreases n, 1, |n.schemas| - i
  {
    i < |n.schemas| && (Accepts(h, n.schemas[i], x) || AnyVariant(h, n, x, i + 1))
  }

  /** One variant's `_validate(schema, v, 'v')` completes without failing. */
  predicate Accepts(h: Host, variant: Node, x: Value)
    requires WellFormed(variant)
    decreases variant, 4
  {
    Run(h, variant, x, Key("v")).res.Ok?
  }

  /** The children loop (src/index.ts:198-202) from child i on, over the record `fs`. */
  function RunChildren(h: Host, n: Node, fs: seq<Field>, i: nat): Result<seq<Field>, Failure>
    requires WellFormed(n) && i <= |n.children|
    decreases n, 1, |n.children| - i
  {
    if i == |n.children| then Ok(fs)
    else
      var c := n.children[i];
      var s := Run(h, c.node, Lookup(fs, c.key), Key(c.key));
      match s.res
      case Err(f) => Err(f)
      case Ok(y) => RunChildren(h, n, Put(fs, c.key, y), i + 1)
  }

  /** The element loop (src/index.ts:203-206) from slot i on: slot i is validated and
      overwritten; a failing slot is left as that call left it. */
  function RunElements(h: Host, n: Node, items: seq<Value>, i: nat): (w: Walk)
    requires WellFormed(n) && n.element.Some? && i <= |items|
    ensures |w.items| == |items|
    decreases n, 1, |items| - i
  {
    if i == |items| then Walk(None, items)
    else
      var s := Run(h, n.element.value, items[i], Index(i));
      match s.res
      case Err(f) => Walk(Some(f), items[i := s.after])
      case Ok(y) => RunElements(h, n, items[i := y], i + 1)
  }

  /** `_validate(n, v, key)`. */
  function Run(h: Host, n: Node, v: Value, key: Seg): (s: Step)
    requires WellFormed(n)
    ensures s.res.Err? ==> |s.res.error.routes| >= 1 && s.res.error.routes[0] == key
    ensures !v.Arr? ==> s.after == v
    ensures v.Arr? ==> s.after.Arr? && |s.after.items| == |v.items|
    decreases n, 3
  {
    var value := if v.Undefined? && Has(n.extra, "default") then Lookup(n.extra, "default") else v;
    if value.Undefined? then
      if RequiredIsFalse(n.extra) then Step(Ok(Undefined), v)
      else Step(Err(Catch(n, key, Assertion(IsRequired))), v)
    else
      match Transform(h, n.transformer, value)
      case None => Step(Err(Catch(n, key, Generic)), v)
      case Some(x) =>
        match Checks(h, n, x)
        case Some(e) => Step(Err(Catch(n, key, e)), v)
        case None =>
          if n.hasChildren then
            match RunChildren(h, n, x.fields, 0)
            case Ok(fs) => Step(Ok(Obj(fs)), v)
            case Err(f) => Step(Err(Catch(n, key, Nested(f))), v)
          else if n.element.Some? then
            var w := RunElements(h, n, x.items, 0);
            var after := if v.Undefined? then v else Arr(w.items);
            match w.failed
            case None => Step(Ok(Arr(w.items)), after)
            case Some(f) => Step(Err(Catch(n, key, Nested(f))), after)
          else Step(Ok(x), v)
  }

  /** `validate(v)`: `_validate` from the root key "v", then a plain-object result is
      JSON-copied. */
  function ValidateTop(h: Host, root: Node, v: Value): (s: Step)
    requires WellFormed(root)
    ensures var t := Run(h, root, v, Key("v"));
      s.after == t.after && (s.res.Err? <==> t.res.Err?) && (t.res.Err? ==> s.res == t.res) &&
      (t.res.Ok? && !IsPureObject(t.res.value) ==> s.res == t.res) &&
      (t.res.Ok? && IsPureObject(t.res.value) ==> s.res == Ok(JsonOf(h, t.res.value).value)) &&
      (t.res.Ok? && IsPureObject(t.res.value) ==> s.res.value.Obj? && IsJson(s.res.value))
  {
    var s := Run(h, root, v, Key("v"));
    if s.res.Ok? && IsPureObject(s.res.value) then Step(Ok(JsonOf(h, s.res.value).value), s.after)
    else s
  }
}
