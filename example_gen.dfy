/** `Schema._example` (src/index.ts:246-295): one sample value for a compiled node,
    chosen by a fixed priority order. */
module ExampleGen {
  import opened Wrappers
  import opened JsValues
  import opened Records
  import opened Compiler

  /** What `enums.length > 0 ? enums[0] : (go on)` does with one value of `enums`:
      throw, go on to the next rule, or pick the first entry. */
  datatype Pick = Throws | Skip | First(v: Value)

  /** `n > 0` for a number. */
  predicate Positive(n: Number)
  {
    n.PosInf? || (n.Finite? && n.r > 0.0)
  }

  /** The first entry of `list` when its `length` is positive. Reading `length` of
      null or undefined throws; arrays, strings and Buffers have their own length;
      an object's `length` is its field of that name, compared as a number; the six
      built-in constructors take one argument or more and have no entry "0"; every
      other value has no `length` at all. */
  function FirstOf(h: Host, list: Value): (r: Pick)
    ensures r.Throws? <==> list.Null? || list.Undefined?
    ensures list.Arr? ==> (r.First? <==> |list.items| > 0)
    ensures r.First? && list.Arr? ==> r.v == list.items[0]
  {
    match list
    case Null => Throws
    case Undefined => Throws
    case Arr(items) => if |items| > 0 then First(items[0]) else Skip
    case Str(s) => if |s| > 0 then First(Str([s[0]])) else Skip
    case Buf(bytes) => if |bytes| > 0 then First(Num(Finite(bytes[0] as int as real))) else Skip
    case Obj(fs) => if Positive(ToNumber(h, Lookup(fs, "length"))) then First(Lookup(fs, "0")) else Skip
    case Fn(b) => if b != OtherFn then First(Undefined) else Skip
    case _ => Skip
  }

  /** The text of `${v}`: a RegExp shows as /source/. */
  function Show(h: Host, v: Value): string
  {
    match v
    case RegExp(source) => "/" + source + "/"
    case _ => h.show(v)
  }

  /** `_example(n)`; `now` is the time `new Date()` reads. None where it throws: an
      `enums` option that is null or undefined, here or in a sample it builds from. */
  function ExampleOf(h: Host, n: Node, now: Number): (r: Option<Value>)
    requires WellFormed(n)
    ensures n.name == Some("null") ==> r == Some(Null)
    ensures r.None? ==> n.name != Some("null") && !Has(n.extra, "default")
    ensures n.name != Some("null") && !Has(n.extra, "default") && Has(n.extra, "enums") ==>
      (Lookup(n.extra, "enums").Null? || Lookup(n.extra, "enums").Undefined? ==> r.None?)
    decreases n, 1
  {
    var extra := n.extra;
    if n.name == Some("null") then Some(Null)
    else if Has(extra, "default") then Some(Lookup(extra, "default"))
    else
      var pick := if Has(extra, "enums") then FirstOf(h, Lookup(extra, "enums")) else Skip;
      match pick
      case Throws => None
      case First(v) => Some(v)
      case Skip =>
        if n.name == Some("String") then
          if Has(extra, "match") then Some(Str("string matches " + Show(h, Lookup(extra, "match"))))
          else Some(Str("string"))
        else if n.name == Some("Number") then
          if Has(extra, "min") then Some(Lookup(extra, "min"))
          else if Has(extra, "max") then Some(Lookup(extra, "max"))
          else Some(Num(Finite(1206.0)))
        else if n.name == Some("Boolean") then Some(Bool(true))
        else if n.name == Some("Date") then Some(DateObj(now))
        else if n.name == Some("Array") then
          if n.element.Some? then
            match ExampleOf(h, n.element.value, now)
            case None => None
            case Some(y) => Some(Arr([y]))
          else Some(Arr([]))
        else if n.multiple then ExampleOf(h, n.schemas[0], now)
        else if n.name == Some("Object") then
          match ExampleFields(h, n, now, [], 0)
          case None => None
          case Some(fs) => Some(Obj(fs))
        else Some(Undefined)
  }

  /** The `reduce` over the children from child i on, into the record `memo`; it
      throws as soon as one child's sample throws. */
  function ExampleFields(h: Host, n: Node, now: Number, memo: seq<Field>, i: nat): (r: Option<seq<Field>>)
    requires WellFormed(n) && i <= |n.children|
    ensures r.None? <==> exists j | i <= j < |n.children| :: ExampleOf(h, n.children[j].node, now).None?
    decreases n, 0, |n.children| - i
  {
    if i == |n.children| then Some(memo)
    else
      var c := n.children[i];
      match ExampleOf(h, c.node, now)
      case None => assert ExampleOf(h, n.children[i].node, now).None?; None
      case Some(y) =>
        var rest := ExampleFields(h, n, now, Put(memo, c.key, y), i + 1);
        assert rest.None? <==> exists j | i + 1 <= j < |n.children| :: ExampleOf(h, n.children[j].node, now).None?;
        rest
  }
}
