/** `JSON.parse(JSON.stringify(v))`, the deep copy that object nodes apply to their
    input (src/index.ts:91, 101) and that `validate` applies to a plain-object result
    (src/index.ts:127). The text in between is not modelled: only the value that
    comes back. */
module Json {
  import opened Wrappers
  import opened JsValues
  import opened Records

  /** A value that a JSON round trip reproduces: null, booleans, finite numbers,
      strings, and arrays and plain objects of such values. */
  predicate IsJson(v: Value)
  {
    match v
    case Null => true
    case Bool(_) => true
    case Num(n) => n.Finite?
    case Str(_) => true
    case Arr(items) => forall i | 0 <= i < |items| :: IsJson(items[i])
    case Obj(fs) => forall i | 0 <= i < |fs| :: IsJson(fs[i].val)
    case _ => false
  }

  /** The round trip of one value. None where `JSON.stringify` omits the value
      (undefined, a function): at top level that makes `JSON.parse` throw, inside an
      array it becomes null, inside an object the property disappears. */
  function JsonOf(h: Host, v: Value): (r: Option<Value>)
    ensures r.None? <==> v.Undefined? || v.Fn?
    ensures r.Some? ==> IsJson(r.value)
    ensures IsPureObject(v) ==> r.Some? && r.value.Obj?
    ensures v.DateObj? ==> r == Some(if v.time.Finite? then Str(h.iso(v.time.r)) else Null)
    ensures v.Num? ==> r == Some(if v.n.Finite? then v else Null)
    decreases v, 1
  {
    match v
    case Undefined => None
    case Fn(_) => None
    case Null => Some(Null)
    case Bool(_) => Some(v)
    case Num(n) => if n.Finite? then Some(v) else Some(Null)
    case Str(_) => Some(v)
    case DateObj(t) => if t.Finite? then Some(Str(h.iso(t.r))) else Some(Null)
    case Buf(bytes) =>
      Some(Obj([Field("type", Str("Buffer")),
                Field("data", Arr(seq(|bytes|, i requires 0 <= i < |bytes| => Num(Finite(bytes[i] as int as real)))))]))
    case RegExp(_) => Some(Obj([]))
    case Arr(items) => Some(Arr(JsonItems(h, v, items)))
    case Obj(fs) => Some(Obj(JsonFields(h, v, fs)))
  }

  /** Slot i of a copied array is the copy of item i, or null where the item has no
      copy (undefined or a function). */
  lemma {:induction false} JsonItemsAt(h: Host, parent: Value, items: seq<Value>, i: nat)
    requires (forall j | 0 <= j < |items| :: items[j] < parent) && i < |items|
    ensures JsonItems(h, parent, items)[i] == match JsonOf(h, items[i]) case Some(x) => x case None => Null
    decreases i
  {
    if i > 0 {
      JsonItemsAt(h, parent, items[1..], i - 1);
    }
  }

  /** Array elements after the round trip: omitted values become null. */
  function JsonItems(h: Host, ghost parent: Value, items: seq<Value>): (r: seq<Value>)
    requires forall i | 0 <= i < |items| :: items[i] < parent
    ensures |r| == |items|
    ensures forall i | 0 <= i < |r| :: IsJson(r[i])
    decreases parent, 0, |items|
  {
    if items == [] then []
    else
      var head := match JsonOf(h, items[0]) case Some(x) => x case None => Null;
      [head] + JsonItems(h, parent, items[1..])
  }

  /** Object fields after the round trip: omitted values drop their key. */
  function JsonFields(h: Host, ghost parent: Value, fs: seq<Field>): (r: seq<Field>)
    requires forall i | 0 <= i < |fs| :: fs[i].val < parent
    ensures |r| <= |fs|
    ensures forall i | 0 <= i < |r| :: IsJson(r[i].val)
    decreases parent, 0, |fs|
  {
    if fs == [] then []
    else
      var rest := JsonFields(h, parent, fs[1..]);
      match JsonOf(h, fs[0].val)
      case Some(x) => [Field(fs[0].key, x)] + rest
      case None => rest
  }

  // ---------------------------------------------------------------------------
  // Lemmas

  /** A JSON value survives the round trip unchanged. */
  lemma {:induction false} JsonFixesJson(h: Host, v: Value)
    requires IsJson(v)
    ensures JsonOf(h, v) == Some(v)
    decreases v, 1
  {
    match v
    case Arr(items) => JsonItemsFix(h, v, items);
    case Obj(fs) => JsonFieldsFix(h, v, fs);
    case _ =>
  }

  lemma {:induction false} JsonItemsFix(h: Host, parent: Value, items: seq<Value>)
    requires forall i | 0 <= i < |items| :: items[i] < parent && IsJson(items[i])
    ensures JsonItems(h, parent, items) == items
    decreases parent, 0, |items|
  {
    if items != [] {
      JsonFixesJson(h, items[0]);
      JsonItemsFix(h, parent, items[1..]);
    }
  }

  lemma {:induction false} JsonFieldsFix(h: Host, parent: Value, fs: seq<Field>)
    requires forall i | 0 <= i < |fs| :: fs[i].val < parent && IsJson(fs[i].val)
    ensures JsonFields(h, parent, fs) == fs
    decreases parent, 0, |fs|
  {
    if fs != [] {
      JsonFixesJson(h, fs[0].val);
      JsonFieldsFix(h, parent, fs[1..]);
    }
  }

  /** The round trip is idempotent: copying a copy gives the copy back. */
  lemma JsonIdempotent(h: Host, v: Value)
    requires JsonOf(h, v).Some?
    ensures JsonOf(h, JsonOf(h, v).value) == JsonOf(h, v)
  {
    JsonFixesJson(h, JsonOf(h, v).value);
  }
  /** Reading a field after the round trip: a field whose value is omitted is gone,
      any other field holds its value's round trip. */
  lemma {:induction false} JsonFieldsGet(h: Host, parent: Value, fs: seq<Field>, k: string)
    requires forall i | 0 <= i < |fs| :: fs[i].val < parent
    requires UniqueKeys(fs)
    ensures Get(JsonFields(h, parent, fs), k) == match Get(fs, k) case None => None case Some(v) => JsonOf(h, v)
    decreases |fs|
  {
    if fs != [] {
      JsonFieldsGet(h, parent, fs[1..], k);
      if fs[0].key == k {
        GetAbsent(fs[1..], k);
        assert forall i | 0 <= i < |fs[1..]| :: fs[1..][i] == fs[i + 1];
      }
    }
  }

  /** The round trip keeps keys unique. */
  lemma {:induction false} JsonFieldsUnique(h: Host, parent: Value, fs: seq<Field>)
    requires forall i | 0 <= i < |fs| :: fs[i].val < parent
    requires UniqueKeys(fs)
    ensures UniqueKeys(JsonFields(h, parent, fs))
    decreases |fs|
  {
    if fs != [] {
      var rest := JsonFields(h, parent, fs[1..]);
      JsonFieldsUnique(h, parent, fs[1..]);
      if JsonOf(h, fs[0].val).Some? {
        var k := fs[0].key;
        JsonFieldsGet(h, parent, fs[1..], k);
        assert forall i | 0 <= i < |fs[1..]| :: fs[1..][i] == fs[i + 1];
        GetAbsent(fs[1..], k);
        GetAbsent(rest, k);
        var r := JsonFields(h, parent, fs);
        assert r == [Field(k, JsonOf(h, fs[0].val).value)] + rest;
        forall i, j | 0 <= i < j < |r| ensures r[i].key != r[j].key {
          assert r[j] == rest[j - 1];
        }
      }
    }
  }
}
