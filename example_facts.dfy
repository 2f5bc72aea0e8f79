/** What `_example` (src/index.ts:246-295) produces: its priority order, and that the
    sample it builds for a specification made of constructors, `null`, arrays and
    plain field maps passes `_validate` against that same specification. */
module ExampleFacts {
  import opened Wrappers
  import opened JsValues
  import opened Records
  import opened Json
  import opened Compiler
  import opened CompilerFacts
  import opened Validation
  import opened ValidationFacts
  import opened ExampleGen

  // ---------------------------------------------------------------------------
  // Priority order

  /** Options that leave the sample to the node's kind: no `default`, and no `enums`
      that throws or has a first entry. */
  predicate NoPreset(h: Host, extra: seq<Field>)
  {
    !Has(extra, "default") && !(Has(extra, "enums") && !FirstOf(h, Lookup(extra, "enums")).Skip?)
  }

  /** The null node's sample is null, whatever its options say. */
  lemma NullExample(h: Host, extra: seq<Field>, now: Number)
    ensures ExampleOf(h, Parse(Null, extra), now) == Some(Null)
  {
  }

  /** Only the spec `null` compiles to the null node. */
  lemma NotNullNode(spec: Value)
    requires Compilable(spec) && !spec.Null?
    requires !(spec.Obj? && Has(spec.fields, "type"))
    ensures Parse(spec, []).name != Some("null")
  {
    match spec
    case Arr(items) =>
      if |items| >= 2 {
        AlternativeSpec(items, []);
        assert '|' !in "null";
      }
    case Obj(fs) => GetIndexOf(fs, "type");
    case _ =>
  }

  /** Apart from the null node, a `default` is the sample. */
  lemma DefaultFirst(h: Host, spec: Value, extra: seq<Field>, now: Number)
    requires Compilable(spec) && !spec.Undefined? && !spec.Null?
    requires !(spec.Obj? && Has(spec.fields, "type"))
    requires Has(extra, "default")
    ensures ExampleOf(h, Parse(spec, extra), now) == Some(Lookup(extra, "default"))
  {
    ParseExtraTop(spec, extra);
    NotNullNode(spec);
  }

  /** Without a default, the first entry of a non-empty `enums` is the sample. */
  lemma EnumsNext(h: Host, spec: Value, extra: seq<Field>, now: Number)
    requires Compilable(spec) && !spec.Undefined? && !spec.Null?
    requires !(spec.Obj? && Has(spec.fields, "type"))
    requires !Has(extra, "default") && Has(extra, "enums")
    requires Lookup(extra, "enums").Arr? && |Lookup(extra, "enums").items| > 0
    ensures ExampleOf(h, Parse(spec, extra), now) == Some(Lookup(extra, "enums").items[0])
  {
    ParseExtraTop(spec, extra);
    NotNullNode(spec);
  }

  /** Without a default, an `enums` that is null or undefined makes the sample throw:
      its `length` cannot be read. */
  lemma EnumsAbsentThrows(h: Host, spec: Value, extra: seq<Field>, now: Number)
    requires Compilable(spec) && !spec.Undefined? && !spec.Null?
    requires !(spec.Obj? && Has(spec.fields, "type"))
    requires !Has(extra, "default") && Has(extra, "enums")
    requires Lookup(extra, "enums").Null? || Lookup(extra, "enums").Undefined?
    ensures ExampleOf(h, Parse(spec, extra), now).None?
  {
    ParseExtraTop(spec, extra);
    NotNullNode(spec);
  }

  /** A number's sample is its `min`, else its `max`, else 1206. */
  lemma NumberExample(h: Host, extra: seq<Field>, now: Number)
    requires NoPreset(h, extra)
    ensures ExampleOf(h, Parse(Fn(NumberFn), extra), now) ==
      if Has(extra, "min") then Some(Lookup(extra, "min"))
      else if Has(extra, "max") then Some(Lookup(extra, "max"))
      else Some(Num(Finite(1206.0)))
  {
  }

  /** An array's sample holds one sample of its element, or nothing without one; it
      throws when the element's sample throws. */
  lemma ArrayExample(h: Host, items: seq<Value>, extra: seq<Field>, now: Number)
    requires Compilable(Arr(items)) && |items| <= 1 && NoPreset(h, extra)
    ensures !(|items| == 1 && Truthy(items[0])) ==> ExampleOf(h, Parse(Arr(items), extra), now) == Some(Arr([]))
    ensures |items| == 1 && Truthy(items[0]) ==>
      var ex := ExampleOf(h, Parse(Arr(items), extra), now);
      var y := ExampleOf(h, Parse(items[0], []), now);
      (ex.Some? <==> y.Some?) && (ex.Some? ==> ex.value == Arr([y.value]))
  {
    ArraySpec(items, extra);
  }

  /** An alternative's sample is its first variant's sample. */
  lemma AlternativeExample(h: Host, items: seq<Value>, extra: seq<Field>, now: Number)
    requires Compilable(Arr(items)) && |items| >= 2 && NoPreset(h, extra)
    ensures ExampleOf(h, Parse(Arr(items), extra), now) == ExampleOf(h, Parse(items[0], []), now)
  {
    AlternativeSpec(items, extra);
    // no kind name tested before alternatives contains '|'
    assert '|' !in "null" && '|' !in "String" && '|' !in "Number";
    assert '|' !in "Boolean" && '|' !in "Date" && '|' !in "Array";
  }

  /** The reduce over the children from child i, when it does not throw: each
      remaining child's key holds that child's sample, every other key keeps what
      `memo` had. */
  lemma {:induction false} ExampleFieldsGet(h: Host, n: Node, now: Number, memo: seq<Field>, i: nat)
    requires WellFormed(n) && DistinctChildKeys(n) && i <= |n.children| && UniqueKeys(memo)
    ensures var r := ExampleFields(h, n, now, memo, i);
      r.Some? ==>
      && UniqueKeys(r.value)
      && (forall j | i <= j < |n.children| ::
            Get(r.value, n.children[j].key) == ExampleOf(h, n.children[j].node, now))
      && (forall key | (forall j | i <= j < |n.children| :: n.children[j].key != key) ::
            Get(r.value, key) == Get(memo, key))
    decreases |n.children| - i
  {
    if i < |n.children| && ExampleFields(h, n, now, memo, i).Some? {
      var c := n.children[i];
      assert ExampleOf(h, n.children[i].node, now).Some?;
      var y := ExampleOf(h, c.node, now).value;
      var next := Put(memo, c.key, y);
      PutUnique(memo, c.key, y);
      ExampleFieldsGet(h, n, now, next, i + 1);
      var r := ExampleFields(h, n, now, next, i + 1).value;
      forall key | (forall j | i <= j < |n.children| :: n.children[j].key != key)
        ensures Get(r, key) == Get(memo, key)
      {
        PutGet(memo, c.key, y, key);
      }
      forall j | i + 1 <= j < |n.children|
        ensures n.children[j].key != c.key
      {
      }
      PutGet(memo, c.key, y, c.key);
    }
  }

  /** An object node's sample throws exactly when some child's sample throws;
      otherwise it holds each child's sample under the child's key and has no other
      key. */
  lemma ObjectNodeExample(h: Host, n: Node, now: Number)
    requires WellFormed(n) && n.name == Some("Object") && !n.multiple
    requires DistinctChildKeys(n) && NoPreset(h, n.extra)
    ensures var ex := ExampleOf(h, n, now);
      && (ex.Some? <==> forall j | 0 <= j < |n.children| :: ExampleOf(h, n.children[j].node, now).Some?)
      && (ex.Some? ==>
        && ex.value.Obj? && UniqueKeys(ex.value.fields)
        && (forall j | 0 <= j < |n.children| ::
              Get(ex.value.fields, n.children[j].key) == ExampleOf(h, n.children[j].node, now))
        && (forall key | (forall j | 0 <= j < |n.children| :: n.children[j].key != key) ::
              Get(ex.value.fields, key) == None))
  {
    var r := ExampleFields(h, n, now, [], 0);
    assert ExampleOf(h, n, now) == if r.Some? then Some(Obj(r.value)) else None;
    ExampleFieldsGet(h, n, now, [], 0);
  }

  /** A plain field map's sample maps each key to its own field's sample and has no
      other key. */
  lemma ObjectExample(h: Host, fs: seq<Field>, extra: seq<Field>, now: Number)
    requires Compilable(Obj(fs)) && !Has(fs, "type") && UniqueKeys(fs) && NoPreset(h, extra)
    requires forall j | 0 <= j < |fs| :: Compilable(fs[j].val)
    ensures var ex := ExampleOf(h, Parse(Obj(fs), extra), now);
      && (ex.Some? <==> forall j | 0 <= j < |fs| :: ExampleOf(h, Parse(fs[j].val, []), now).Some?)
      && (ex.Some? ==>
        && ex.value.Obj? && UniqueKeys(ex.value.fields)
        && (forall j | 0 <= j < |fs| :: Get(ex.value.fields, fs[j].key) == ExampleOf(h, Parse(fs[j].val, []), now))
        && (forall key | !Has(fs, key) :: Get(ex.value.fields, key) == None))
  {
    ObjectSpec(fs, extra);
    var n := Parse(Obj(fs), extra);
    ObjectNodeExample(h, n, now);
    forall key | !Has(fs, key)
      ensures forall j | 0 <= j < |n.children| :: n.children[j].key != key
    {
      GetAbsent(fs, key);
    }
  }

  // ---------------------------------------------------------------------------
  // Samples pass validation

  /** The specifications built only from `undefined`, `null`, the six constructors,
      arrays of such (no entry `undefined`) and plain field maps without a `type`
      key. */
  predicate PlainSpec(spec: Value)
    decreases spec
  {
    match spec
    case Undefined => true
    case Null => true
    case Fn(b) => b != OtherFn
    case Arr(items) => forall i | 0 <= i < |items| :: !items[i].Undefined? && PlainSpec(items[i])
    case Obj(fs) => !Has(fs, "type") && UniqueKeys(fs) && forall j | 0 <= j < |fs| :: PlainSpec(fs[j].val)
    case _ => false
  }

  /** The clock reads a valid date, and the host parses the ISO text of that date
      back to a valid date. */
  predicate SaneClock(h: Host, now: Number)
  {
    now.Finite? && h.timeOf(Str(h.iso(now.r))).Finite?
  }

  /** The sample of node `n` passes `_validate` under any key and is undefined exactly
      when `absent` says so; when it is defined, so does its JSON copy, which is what a
      parent object node hands to its children. */
  ghost predicate NodeSamplePasses(h: Host, n: Node, now: Number, absent: bool)
    requires WellFormed(n)
  {
    && ExampleOf(h, n, now).Some?
    && var ex := ExampleOf(h, n, now).value;
    && (ex.Undefined? <==> absent)
    && (forall k: Seg :: Run(h, n, ex, k).res.Ok?)
    && (!absent ==> JsonOf(h, ex).Some? && forall k: Seg :: Run(h, n, JsonOf(h, ex).value, k).res.Ok?)
  }

  /** The sample of `spec`'s compiled node passes, and is undefined only for `undefined`. */
  ghost predicate SamplePasses(h: Host, spec: Value, now: Number)
    requires Compilable(spec)
  {
    NodeSamplePasses(h, Parse(spec, []), now, spec.Undefined?)
  }

  /** `undefined`, `null` and the six constructors. */
  lemma LeafSamplePasses(h: Host, spec: Value, now: Number)
    requires spec.Undefined? || spec.Null? || (spec.Fn? && spec.f != OtherFn)
    requires SaneClock(h, now)
    ensures Compilable(spec) && SamplePasses(h, spec, now)
  {
    match spec
    case Undefined => UndefinedSamplePasses(h, now);
    case Null => NullSamplePasses(h, now);
    case Fn(StringFn) => StringSamplePasses(h, now);
    case Fn(NumberFn) => NumberSamplePasses(h, now);
    case Fn(BooleanFn) => BooleanSamplePasses(h, now);
    case Fn(DateFn) => DateSamplePasses(h, now);
    case Fn(ArrayFn) => ArrayFnSamplePasses(h, now);
    case Fn(ObjectFn) => ObjectFnSamplePasses(h, now);
  }

  /** `undefined` samples as undefined, which its node lets through. */
  lemma UndefinedSamplePasses(h: Host, now: Number)
    ensures SamplePasses(h, Undefined, now)
  {
    assert ExampleOf(h, Parse(Undefined, []), now) == Some(Undefined);
  }

  lemma NullSamplePasses(h: Host, now: Number)
    ensures SamplePasses(h, Null, now)
  {
    var n := Parse(Null, []);
    assert ExampleOf(h, n, now) == Some(Null);
    ScalarPasses(h, n, Null);
  }

  lemma StringSamplePasses(h: Host, now: Number)
    ensures SamplePasses(h, Fn(StringFn), now)
  {
    var n := Parse(Fn(StringFn), []);
    assert ExampleOf(h, n, now) == Some(Str("string"));
    ScalarPasses(h, n, Str("string"));
  }

  lemma NumberSamplePasses(h: Host, now: Number)
    ensures SamplePasses(h, Fn(NumberFn), now)
  {
    var n := Parse(Fn(NumberFn), []);
    assert ExampleOf(h, n, now) == Some(Num(Finite(1206.0)));
    ScalarPasses(h, n, Num(Finite(1206.0)));
  }

  lemma BooleanSamplePasses(h: Host, now: Number)
    ensures SamplePasses(h, Fn(BooleanFn), now)
  {
    var n := Parse(Fn(BooleanFn), []);
    assert ExampleOf(h, n, now) == Some(Bool(true));
    ScalarPasses(h, n, Bool(true));
  }

  /** A node without options, children, elements or variants accepts a JSON value
      that its transformer keeps and its checks pass. */
  lemma ScalarPasses(h: Host, n: Node, x: Value)
    requires WellFormed(n) && n.extra == [] && !n.multiple && !n.hasChildren && n.element.None?
    requires n.transformer != Some(ToDate) && n.transformer != Some(JsonRoundTrip)
    requires IsJson(x) && !x.Buf? && LeadingChecks(h, n, x).None? && !n.isObject
    ensures JsonOf(h, x) == Some(x)
    ensures forall k: Seg :: Run(h, n, x, k).res.Ok?
  {
    JsonFixesJson(h, x);
    assert Transform(h, n.transformer, x) == Some(x);
    assert Checks(h, n, x).None?;
  }

  /** The Date sample is the clock's date; its JSON copy is the ISO text, which the
      Date node parses back. */
  lemma DateSamplePasses(h: Host, now: Number)
    requires SaneClock(h, now)
    ensures SamplePasses(h, Fn(DateFn), now)
  {
    var n := Parse(Fn(DateFn), []);
    var ex := DateObj(now);
    var iso := Str(h.iso(now.r));
    assert ExampleOf(h, n, now) == Some(ex);
    assert JsonOf(h, ex) == Some(iso);
    assert Transform(h, n.transformer, ex) == Some(ex);
    assert Transform(h, n.transformer, iso) == Some(DateObj(h.timeOf(iso)));
    assert Checks(h, n, ex).None? && Checks(h, n, DateObj(h.timeOf(iso))).None?;
  }

  lemma ArrayFnSamplePasses(h: Host, now: Number)
    ensures SamplePasses(h, Fn(ArrayFn), now)
  {
    var n := Parse(Fn(ArrayFn), []);
    assert ExampleOf(h, n, now) == Some(Arr([]));
    ScalarPasses(h, n, Arr([]));
  }

  lemma ObjectFnSamplePasses(h: Host, now: Number)
    ensures SamplePasses(h, Fn(ObjectFn), now)
  {
    var n := Parse(Fn(ObjectFn), []);
    assert ExampleOf(h, n, now) == Some(Obj([]));
    assert JsonOf(h, Obj([])) == Some(Obj([]));
    ObjectNodePasses(h, n, Obj([]), Obj([]));
  }

  /** `[]` and `[X]`, given that X's sample passes. */
  lemma ArraySamplePasses(h: Host, items: seq<Value>, now: Number)
    requires Compilable(Arr(items)) && |items| <= 1
    requires forall i | 0 <= i < |items| ::
      !items[i].Undefined? && Compilable(items[i]) && SamplePasses(h, items[i], now)
    ensures SamplePasses(h, Arr(items), now)
  {
    ArraySpec(items, []);
    ArrayExample(h, items, [], now);
    var n := Parse(Arr(items), []);
    var ex := ExampleOf(h, n, now);
    if n.element.None? {
      ScalarPasses(h, n, Arr([]));
    } else {
      var e := n.element.value;
      var y := ExampleOf(h, e, now).value;
      var jy := JsonOf(h, y).value;
      JsonOfSingleton(h, y);
      OneElementPasses(h, n, y);
      OneElementPasses(h, n, jy);
    }
  }

  /** The JSON copy of a one-element array holds the copy of its element. */
  lemma JsonOfSingleton(h: Host, y: Value)
    requires JsonOf(h, y).Some?
    ensures JsonOf(h, Arr([y])) == Some(Arr([JsonOf(h, y).value]))
  {
    var items := [y];
    assert items[1..] == [];
    assert JsonItems(h, Arr(items), items[1..]) == [];
    assert JsonItems(h, Arr(items), items) == [JsonOf(h, y).value];
  }

  /** An array node with an element node accepts `[y]` when the element node accepts y. */
  lemma OneElementPasses(h: Host, n: Node, y: Value)
    requires WellFormed(n) && n == ArrayNode(n.element, []) && n.element.Some?
    requires forall k: Seg :: Run(h, n.element.value, y, k).res.Ok?
    ensures forall k: Seg :: Run(h, n, Arr([y]), k).res.Ok?
  {
    forall k: Seg ensures Run(h, n, Arr([y]), k).res.Ok? {
      var s := Run(h, n.element.value, y, Index(0));
      assert Checks(h, n, Arr([y])).None?;
      assert RunElements(h, n, [y], 0) == RunElements(h, n, [s.res.value], 1);
    }
  }

  /** An alternative, given that its first variant's sample passes. */
  lemma AltSamplePasses(h: Host, items: seq<Value>, now: Number)
    requires Compilable(Arr(items)) && |items| >= 2
    requires forall i | 0 <= i < |items| ::
      !items[i].Undefined? && Compilable(items[i]) && SamplePasses(h, items[i], now)
    ensures SamplePasses(h, Arr(items), now)
  {
    AlternativeSpec(items, []);
    AlternativeExample(h, items, [], now);
    var n := Parse(Arr(items), []);
    var ex := ExampleOf(h, n, now).value;
    FirstVariantPasses(h, n, ex);
    FirstVariantPasses(h, n, JsonOf(h, ex).value);
  }

  /** An alternative node without options accepts what its first variant accepts. */
  lemma FirstVariantPasses(h: Host, n: Node, x: Value)
    requires WellFormed(n) && n.multiple && n.extra == [] && !x.Undefined?
    requires n.kind.None? && n.transformer.None? && !n.literalNull && !n.isDate && !n.isArray
    requires !n.isObject && !n.hasChildren && n.element.None?
    requires Run(h, n.schemas[0], x, Key("v")).res.Ok?
    ensures forall k: Seg :: Run(h, n, x, k).res.Ok?
  {
    assert AnyVariant(h, n, x, 0);
    assert Checks(h, n, x).None?;
  }

  /** An object node without options whose children accept the JSON copy of its
      sample accepts the sample and that copy. */
  lemma ObjectNodeSamplePasses(h: Host, n: Node, now: Number)
    requires WellFormed(n) && n == ObjectNode(n.children, [])
    requires ExampleOf(h, n, now).Some? && ExampleOf(h, n, now).value.Obj?
    requires var ex := ExampleOf(h, n, now).value;
      RunChildren(h, n, JsonFields(h, ex, ex.fields), 0).Ok?
    ensures NodeSamplePasses(h, n, now, false)
  {
    var ex := ExampleOf(h, n, now).value;
    var x := JsonOf(h, ex).value;
    JsonIdempotent(h, ex);
    ObjectNodePasses(h, n, ex, x);
    ObjectNodePasses(h, n, x, x);
  }

  /** A plain field map, given that each field's sample passes. */
  lemma ObjectSamplePasses(h: Host, fs: seq<Field>, now: Number)
    requires Compilable(Obj(fs)) && !Has(fs, "type") && UniqueKeys(fs)
    requires forall j | 0 <= j < |fs| :: Compilable(fs[j].val) && SamplePasses(h, fs[j].val, now)
    ensures NodeSamplePasses(h, Parse(Obj(fs), []), now, false)
  {
    ObjectSpec(fs, []);
    var n := Parse(Obj(fs), []);
    ObjectNodeExample(h, n, now);
    var ex := ExampleOf(h, n, now).value;
    var xfs := JsonFields(h, ex, ex.fields);
    forall j | 0 <= j < |n.children| ensures ChildRun(h, n, xfs, j).res.Ok? {
      ChildSamplePasses(h, ex, fs[j].val, fs[j].key, now);
    }
    ChildWalk(h, n, xfs, 0);
    ObjectNodeSamplePasses(h, n, now);
  }

  /** A field of an object's sample, read from the sample's JSON copy, passes its own
      node. */
  lemma ChildSamplePasses(h: Host, ex: Value, spec: Value, key: string, now: Number)
    requires ex.Obj? && UniqueKeys(ex.fields) && Compilable(spec) && SamplePasses(h, spec, now)
    requires Get(ex.fields, key) == ExampleOf(h, Parse(spec, []), now)
    ensures Run(h, Parse(spec, []), Lookup(JsonFields(h, ex, ex.fields), key), Key(key)).res.Ok?
  {
    JsonFieldsGet(h, ex, ex.fields, key);
  }

  /** An object node without options accepts v when the children accept the fields of
      v's JSON copy x. */
  lemma ObjectNodePasses(h: Host, n: Node, v: Value, x: Value)
    requires WellFormed(n) && n == ObjectNode(n.children, [])
    requires JsonOf(h, v) == Some(x) && x.Obj? && RunChildren(h, n, x.fields, 0).Ok?
    ensures forall k: Seg :: Run(h, n, v, k).res.Ok?
  {
    assert Checks(h, n, x).None?;
  }

  /** Every plain specification's sample, and its JSON copy, pass `_validate`. */
  lemma {:induction false} ExampleValidates(h: Host, spec: Value, now: Number)
    requires PlainSpec(spec) && SaneClock(h, now)
    ensures Compilable(spec) && SamplePasses(h, spec, now)
    decreases spec
  {
    match spec
    case Arr(items) =>
      forall i | 0 <= i < |items| ensures Compilable(items[i]) && SamplePasses(h, items[i], now) {
        ExampleValidates(h, items[i], now);
      }
      if |items| <= 1 {
        ArraySamplePasses(h, items, now);
      } else {
        AltSamplePasses(h, items, now);
      }
    case Obj(fs) =>
      forall j | 0 <= j < |fs| ensures Compilable(fs[j].val) && SamplePasses(h, fs[j].val, now) {
        ExampleValidates(h, fs[j].val, now);
      }
      GetIndexOf(fs, "type");
      ObjectSamplePasses(h, fs, now);
    case _ =>
      LeafSamplePasses(h, spec, now);
  }

  /** `schema.validate(schema.example())` succeeds for every plain specification. */
  lemma ExamplePassesValidate(h: Host, spec: Value, now: Number)
    requires PlainSpec(spec) && SaneClock(h, now)
    ensures Compilable(spec) && ExampleOf(h, Parse(spec, []), now).Some?
    ensures ValidateTop(h, Parse(spec, []), ExampleOf(h, Parse(spec, []), now).value).res.Ok?
  {
    ExampleValidates(h, spec, now);
    assert Run(h, Parse(spec, []), ExampleOf(h, Parse(spec, []), now).value, Key("v")).res.Ok?;
  }
}
