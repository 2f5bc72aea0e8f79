/** Properties of `parse` (src/index.ts:34-115): how each form of specification
    compiles. */
module CompilerFacts {
  import opened Wrappers
  import opened JsValues
  import opened Records
  import opened Compiler

  /** Options passed to `parse` land on the top node and nowhere else, for every
      specification other than undefined and the `type` escape hatch. */
  lemma ParseExtraTop(spec: Value, extra: seq<Field>)
    requires Compilable(spec) && !spec.Undefined? && !(spec.Obj? && Has(spec.fields, "type"))
    ensures Parse(spec, extra) == Parse(spec, []).(extra := extra)
  {
    match spec
    case Obj(fs) => ParseExtraObj(fs, extra);
    case Arr(items) => ParseExtraArr(items, extra);
    case Fn(f) => ParseExtraFn(f, extra);
    case _ =>
  }

  lemma ParseExtraObj(fs: seq<Field>, extra: seq<Field>)
    requires Compilable(Obj(fs)) && !Has(fs, "type")
    ensures Parse(Obj(fs), extra) == Parse(Obj(fs), []).(extra := extra)
  {
    GetIndexOf(fs, "type");
  }

  lemma ParseExtraArr(items: seq<Value>, extra: seq<Field>)
    requires Compilable(Arr(items))
    ensures Parse(Arr(items), extra) == Parse(Arr(items), []).(extra := extra)
  {
  }

  lemma ParseExtraFn(f: Builtin, extra: seq<Field>)
    ensures Parse(Fn(f), extra) == Parse(Fn(f), []).(extra := extra)
  {
    match f
    case StringFn =>
    case NumberFn =>
    case BooleanFn =>
    case DateFn =>
    case ArrayFn =>
    case ObjectFn =>
    case OtherFn =>
  }

  /** `[]` and `[X]` compile to an array node; it has an element node, compiled from
      X, exactly when X is truthy. */
  lemma ArraySpec(items: seq<Value>, extra: seq<Field>)
    requires Compilable(Arr(items)) && |items| <= 1
    ensures var n := Parse(Arr(items), extra);
      && n.isArray && n.kind == Some(ObjectType) && n.name == Some("Array") && !n.multiple
      && n.extra == extra
      && (n.element.Some? <==> |items| == 1 && Truthy(items[0]))
      && (n.element.Some? ==> n.element.value == Parse(items[0], []))
  {
  }

  /** `{type: T, ...rest}`, where T is an object or function without an own `type`
      key, compiles T with `rest` as its options; options passed from outside are
      dropped. */
  lemma EscapeHatch(t: Value, rest: seq<Field>, extra: seq<Field>)
    requires IsObjectLike(t) && !HasTypeKey(t) && Compilable(t) && !Has(rest, "type")
    ensures Compilable(Obj([Field("type", t)] + rest))
    ensures Parse(Obj([Field("type", t)] + rest), extra) == Parse(t, []).(extra := rest)
  {
    var fs := [Field("type", t)] + rest;
    assert IndexOf(fs, "type") == 0;
    assert Remove(fs, "type") == Remove(rest, "type");
    RemoveAbsent(rest, "type");
    ParseExtraTop(t, rest);
  }

  /** `{type: T}` compiles exactly as T does. */
  lemma TypeOnly(t: Value)
    requires IsObjectLike(t) && !HasTypeKey(t) && Compilable(t)
    ensures Compilable(Obj([Field("type", t)]))
    ensures Parse(Obj([Field("type", t)]), []) == Parse(t, [])
  {
    EscapeHatch(t, [], []);
    assert [Field("type", t)] + [] == [Field("type", t)];
    ParseExtraTop(t, []);
  }

  /** A plain object compiles to an object node with one child per own key, in key
      order, each compiled on its own, when it has no `type` key or its `type` is itself
      an object with a `type` key (`{type: {type: String}}` declares a field "type"). */
  lemma ObjectSpec(fs: seq<Field>, extra: seq<Field>)
    requires Compilable(Obj(fs))
    requires !Has(fs, "type") || (var t := Lookup(fs, "type"); IsObjectLike(t) && HasTypeKey(t))
    requires forall j | 0 <= j < |fs| :: Compilable(fs[j].val)
    ensures var n := Parse(Obj(fs), extra);
      && n == ObjectNode(n.children, extra)
      && |n.children| == |fs|
      && (forall j | 0 <= j < |fs| :: n.children[j] == Child(fs[j].key, Parse(fs[j].val, [])))
      && (UniqueKeys(fs) ==> DistinctChildKeys(n))
  {
    GetIndexOf(fs, "type");
  }

  /** Alternatives compile one variant per entry, named by the variants' names joined
      with '|'. */
  lemma AlternativeSpec(items: seq<Value>, extra: seq<Field>)
    requires Compilable(Arr(items)) && |items| >= 2
    ensures var n := Parse(Arr(items), extra);
      && n.multiple && |n.schemas| == |items| && n.kind.None? && n.transformer.None?
      && !n.isArray && !n.isObject && !n.hasChildren && n.element.None? && n.extra == extra
      && (forall j | 0 <= j < |items| :: n.schemas[j] == Parse(items[j], []))
      && n.name == Some(JoinNames(n.schemas)) && '|' in n.name.value
  {
  }
}
