/** The schema compiler `parse` of src/index.ts:34-115: a user specification becomes
    an `IParsedSchema` tree, here `Node`. A node is a bag of flags, as in the source:
    the checks of the validator are driven by whichever flags are set. */
module Compiler {
  import opened Wrappers
  import opened JsValues
  import opened Records

  /** The coercions the compiler attaches (src/index.ts:52-57, 66-71, 91, 101). */
  datatype Transformer = DecodeBuffer | ToDate | JsonRoundTrip

  datatype Child = Child(key: string, node: Node)

  /** `IParsedSchema` (src/index.ts:8-32). `kind` is its `type`, `literalNull` says that
      `value: null` is present, `hasChildren` that `children` is present. */
  datatype Node = Node(
    kind: Option<JsType>,
    name: Option<string>,
    literalNull: bool,
    transformer: Option<Transformer>,
    isDate: bool,
    isArray: bool,
    element: Option<Node>,
    isObject: bool,
    hasChildren: bool,
    children: seq<Child>,
    multiple: bool,
    schemas: seq<Node>,
    extra: seq<Field>)

  /** `{}` with its `extra`: no flag set. */
  function Blank(extra: seq<Field>): Node
  {
    Node(None, None, false, None, false, false, None, false, false, [], false, [], extra)
  }

  function ArrayNode(element: Option<Node>, extra: seq<Field>): Node
  {
    Blank(extra).(kind := Some(ObjectType), name := Some("Array"), isArray := true, element := element)
  }

  function ObjectNode(children: seq<Child>, extra: seq<Field>): Node
  {
    Blank(extra).(kind := Some(ObjectType), name := Some("Object"), isObject := true,
                  hasChildren := true, children := children, transformer := Some(JsonRoundTrip))
  }

  /** The shape every compiled node has; the validator and the example generator rely
      on it. */
  predicate WellFormed(n: Node)
    decreases n
  {
    && (n.hasChildren ==> n.isObject && n.transformer == Some(JsonRoundTrip))
    && (forall i | 0 <= i < |n.children| :: WellFormed(n.children[i].node))
    && (n.element.Some? ==> n.isArray && n.transformer.None? && WellFormed(n.element.value))
    && (n.multiple ==> |n.schemas| >= 1)
    && (forall i | 0 <= i < |n.schemas| :: WellFormed(n.schemas[i]))
    && (n.name == Some("Object") ==> n.hasChildren)
  }

  /** No two children of a node share a key, as the keys of one object never do. */
  predicate DistinctChildKeys(n: Node)
  {
    forall i, j | 0 <= i < j < |n.children| :: n.children[i].key != n.children[j].key
  }

  /** `'type' in v`, for a value on which `in` does not throw. */
  predicate HasTypeKey(v: Value)
    requires IsObjectLike(v)
  {
    v.Obj? && Has(v.fields, "type")
  }

  /** The specifications `parse` accepts without throwing: wherever it evaluates
      `'type' in schema.type` (src/index.ts:94), `schema.type` is an object or a
      function. */
  predicate Compilable(spec: Value)
    decreases spec
  {
    match spec
    case Arr(items) =>
      if |items| <= 1 then (|items| == 1 && Truthy(items[0]) ==> Compilable(items[0]))
      else forall i | 0 <= i < |items| :: Compilable(items[i])
    case Obj(fs) =>
      var i := IndexOf(fs, "type");
      if i >= 0 then
        IsObjectLike(fs[i].val) &&
        if !HasTypeKey(fs[i].val) then Compilable(fs[i].val)
        else forall j | 0 <= j < |fs| :: Compilable(fs[j].val)
      else forall j | 0 <= j < |fs| :: Compilable(fs[j].val)
    case _ => true
  }

  /** The names of alternatives joined by '|'; an absent name joins as "". */
  function JoinNames(vs: seq<Node>): (s: string)
    requires |vs| >= 1
    ensures |vs| >= 2 ==> '|' in s
  {
    var first := match vs[0].name case Some(x) => x case None => "";
    if |vs| == 1 then first
    else
      var s := first + "|" + JoinNames(vs[1..]);
      assert s[|first|] == '|';
      s
  }

  /** `parse(schema, extra)`. */
  function Parse(spec: Value, extra: seq<Field>): (n: Node)
    requires Compilable(spec)
    ensures WellFormed(n)
    decreases spec
  {
    match spec
    case Undefined => Blank(Put(extra, "required", Bool(false)))
    case Null => Blank(extra).(kind := Some(ObjectType), literalNull := true, name := Some("null"))
    case Fn(StringFn) =>
      Blank(extra).(kind := Some(StringType), name := Some("String"), transformer := Some(DecodeBuffer))
    case Fn(NumberFn) => Blank(extra).(kind := Some(NumberType), name := Some("Number"))
    case Fn(BooleanFn) => Blank(extra).(kind := Some(BooleanType), name := Some("Boolean"))
    case Fn(DateFn) =>
      Blank(extra).(kind := Some(ObjectType), name := Some("Date"), isDate := true, transformer := Some(ToDate))
    case Fn(ArrayFn) => ArrayNode(None, extra)
    case Arr(items) =>
      if |items| <= 1 then
        ArrayNode(if |items| == 1 && Truthy(items[0]) then Some(Parse(items[0], [])) else None, extra)
      else
        var vs := seq(|items|, i requires 0 <= i < |items| => Parse(items[i], []));
        var alt := Blank(extra).(multiple := true, schemas := vs, name := Some(JoinNames(vs)));
        assert alt.name != Some("Object") by { assert '|' !in "Object"; }
        alt
    case Fn(ObjectFn) => ObjectNode([], extra)
    case Obj(fs) =>
      var i := IndexOf(fs, "type");
      if i >= 0 && !HasTypeKey(fs[i].val) then
        Parse(fs[i].val, Remove(fs, "type"))
      else
        ObjectNode(seq(|fs|, j requires 0 <= j < |fs| => Child(fs[j].key, Parse(fs[j].val, []))), extra)
    case Buf(bytes) =>
      // Object.keys of a Buffer are its indices; each child spec is a number, which
      // compiles to the blank node with an empty `extra`.
      ObjectNode(seq(|bytes|, j requires 0 <= j < |bytes| => Child(NatToString(j), Blank([]))), extra)
    case RegExp(_) => ObjectNode([], extra)
    case _ => Blank(extra)
  }
}
