/** How the records the builder produces behave once `parse` and `_validate` see
    them (src/type.ts against src/index.ts). */
module TypeBuilderFacts {
  import opened Wrappers
  import opened JsValues
  import opened Records
  import opened Compiler
  import opened CompilerFacts
  import opened Validation
  import opened ValidationFacts
  import opened TypeBuilder

  /** `parse` does not recognise a Type instance: it compiles as an object node with
      the single child `schema`, whose record goes through the `type` escape hatch. */
  lemma InstanceCompilesToSchemaChild(fs: seq<Field>)
    requires Compilable(Obj(fs))
    ensures Compilable(Obj([Field("schema", Obj(fs))]))
    ensures Parse(Obj([Field("schema", Obj(fs))]), []) == ObjectNode([Child("schema", Parse(Obj(fs), []))], [])
  {
  }

  /** A record whose `type` is an object or function T without an own `type` key
      compiles T with the rest of the record as its options. */
  lemma EscapeRecord(fs: seq<Field>, t: Value)
    requires Get(fs, "type") == Some(t) && IsObjectLike(t) && !HasTypeKey(t) && Compilable(t)
    ensures Compilable(Obj(fs))
    ensures Parse(Obj(fs), []) == Parse(t, []).(extra := Remove(fs, "type"))
  {
    GetIndexOf(fs, "type");
    ParseExtraTop(t, Remove(fs, "type"));
  }

  /** The options the builder leaves beside `type`: `$type` and `required`. */
  function BuilderOptions(t: Value, required: bool): seq<Field>
  {
    [Field("$type", t), Field("required", Bool(required))]
  }

  /** Of the options `_validate` reads, the builder's record sets only `required`. */
  lemma BuilderOptionsGet(t: Value, required: bool, name: string)
    requires name != "$type"
    ensures Get(BuilderOptions(t, required), name)
      == if name == "required" then Some(Bool(required)) else None
  {
    var e := BuilderOptions(t, required);
    assert Get(e, name) == Get(e[1..], name);
    if name != "required" {
      assert Get(e[1..], name) == Get([], name);
    }
  }

  /** With `required` left true, the builder's options constrain nothing. */
  lemma BuilderConstraints(t: Value)
    ensures SameConstraints([], BuilderOptions(t, true))
  {
    BuilderOptionsGet(t, true, "default");
    BuilderOptionsGet(t, true, "required");
    BuilderOptionsGet(t, true, "min");
    BuilderOptionsGet(t, true, "max");
    BuilderOptionsGet(t, true, "match");
    BuilderOptionsGet(t, true, "invalid");
    BuilderOptionsGet(t, true, "enums");
  }

  /** The initial record without its `type`, and the same after `.optional()`. */
  lemma InitialOptions(t: Value)
    ensures Remove(InitialRecord(t), "type") == BuilderOptions(t, true)
    ensures Get(Put(InitialRecord(t), "required", Bool(false)), "type") == Some(t)
    ensures Remove(Put(InitialRecord(t), "required", Bool(false)), "type") == BuilderOptions(t, false)
  {
    var r := InitialRecord(t);
    var on := [Field("required", Bool(true))];
    var off := [Field("required", Bool(false))];
    assert r[2..] == on;
    assert Remove(on, "type") == on;
    assert Remove(r[1..], "type") == on;
    assert Put(r[2..], "required", Bool(false)) == off;
    assert Put(r[1..], "required", Bool(false)) == [r[1]] + off;
    assert Remove(off, "type") == off;
    assert Remove([r[1]] + off, "type") == off;
  }

  /** The record of `$(T)`, compiled, validates every value exactly as T does, when
      T is an object or function without an own `type` key (for any other T the `in`
      test of the escape hatch throws). */
  lemma RecordValidatesLikeT(h: Host, t: Value, v: Value, k: Seg)
    requires IsObjectLike(t) && !HasTypeKey(t) && Compilable(t)
    ensures Compilable(Obj(InitialRecord(t)))
    ensures Run(h, Parse(Obj(InitialRecord(t)), []), v, k) == Run(h, Parse(t, []), v, k)
  {
    var e := BuilderOptions(t, true);
    InitialOptions(t);
    EscapeRecord(InitialRecord(t), t);
    ParseExtraTop(t, []);
    BuilderConstraints(t);
    RunIgnoresOtherOptions(h, Parse(t, []), e, v, k);
  }

  /** After `.optional()` an absent value passes as undefined, whatever T is. */
  lemma OptionalAcceptsAbsent(h: Host, t: Value, k: Seg)
    requires IsObjectLike(t) && !HasTypeKey(t) && Compilable(t)
    ensures Compilable(Obj(Put(InitialRecord(t), "required", Bool(false))))
    ensures Run(h, Parse(Obj(Put(InitialRecord(t), "required", Bool(false))), []), Undefined, k)
      == Step(Ok(Undefined), Undefined)
  {
    InitialOptions(t);
    EscapeRecord(Put(InitialRecord(t), "required", Bool(false)), t);
    BuilderOptionsGet(t, false, "default");
    BuilderOptionsGet(t, false, "required");
  }

  /** Assigning `key` and removing `type` leaves any third key as it was. */
  lemma PutOtherGet(fs: seq<Field>, key: string, val: Value, name: string)
    requires name != key && name != "type"
    ensures Get(Remove(fs, "type"), name) == Get(Remove(Put(fs, key, val), "type"), name)
  {
    RemoveGet(Put(fs, key, val), "type", name);
    RemoveGet(fs, "type", name);
    PutGet(fs, key, val, name);
  }

  /** Removing `type` and assigning a key the validator does not read leaves every
      option it reads as it was. */
  lemma PutOtherKeepsConstraints(fs: seq<Field>, key: string, val: Value)
    requires key !in ["type", "default", "required", "min", "max", "match", "invalid", "enums"]
    ensures SameConstraints(Remove(fs, "type"), Remove(Put(fs, key, val), "type"))
  {
    PutOtherGet(fs, key, val, "default");
    PutOtherGet(fs, key, val, "required");
    PutOtherGet(fs, key, val, "min");
    PutOtherGet(fs, key, val, "max");
    PutOtherGet(fs, key, val, "match");
    PutOtherGet(fs, key, val, "invalid");
    PutOtherGet(fs, key, val, "enums");
  }

  /** Keys that `_validate` does not read (`$type`, `explain`, `error`,
      `disallowEmpty` and any other) can be set on a builder record without changing
      what it validates. */
  lemma OtherOptionsInert(h: Host, fs: seq<Field>, t: Value, key: string, val: Value, v: Value, k: Seg)
    requires Get(fs, "type") == Some(t) && IsObjectLike(t) && !HasTypeKey(t) && Compilable(t)
    requires key !in ["type", "default", "required", "min", "max", "match", "invalid", "enums"]
    ensures Compilable(Obj(fs)) && Compilable(Obj(Put(fs, key, val)))
    ensures Run(h, Parse(Obj(Put(fs, key, val)), []), v, k) == Run(h, Parse(Obj(fs), []), v, k)
  {
    PutGet(fs, key, val, "type");
    EscapeRecord(fs, t);
    EscapeRecord(Put(fs, key, val), t);
    PutOtherKeepsConstraints(fs, key, val);
    RunIgnoresOtherOptions(h, Parse(Obj(fs), []), Remove(Put(fs, key, val), "type"), v, k);
  }
}
