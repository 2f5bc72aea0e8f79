/** The fluent builder `Type` of src/type.ts and its factory `$`: a mutable record
    of options whose setters assign one field and return the instance itself. */
module TypeBuilder {
  import opened Wrappers
  import opened JsValues
  import opened Records

  /** The record `new Type(T)` starts from when T is not a Type: exactly
      `{$type: T, type: T, required: true}`. */
  function InitialRecord(t: Value): (r: seq<Field>)
    ensures UniqueKeys(r) && |r| == 3
    ensures Get(r, "$type") == Some(t) && Get(r, "type") == Some(t) && Get(r, "required") == Some(Bool(true))
  {
    var r := [Field("$type", t), Field("type", t), Field("required", Bool(true))];
    assert Get(r[1..], "required") == Get(r[2..], "required");
    r
  }

  /** What the constructor and `mix` are given: a Type instance or any other value. */
  datatype Arg = Plain(v: Value) | Instance(t: Type)

  /** The own entries `mix(o)` spreads: `o.schema` for a Type, o's own for any other. */
  function Spread(o: Arg): seq<Field>
    reads if o.Instance? then {o.t} else {}
  {
    if o.Instance? then o.t.schema else OwnEntries(o.v)
  }

  class Type {
    /** `schema`, the record of options, keys in insertion order. */
    var schema: seq<Field>

    /** Like every JavaScript object, the record has no key twice. */
    ghost predicate Valid()
      reads this
    {
      UniqueKeys(schema)
    }

    /** `new Type(T)`: a copy of T's record when T is a Type, the initial record
        otherwise. */
    constructor (a: Arg)
      requires a.Instance? ==> a.t.Valid()
      ensures Valid()
      ensures schema == if a.Plain? then InitialRecord(a.v) else a.t.schema
    {
      if a.Instance? {
        schema := a.t.schema;
      } else {
        schema := InitialRecord(a.v);
      }
    }

    /** `this.schema[key] = value`: that key reads as `value` afterwards and every
        other key as before. */
    method Set(key: string, value: Value)
      requires Valid()
      modifies this
      ensures Valid()
      ensures schema == Put(old(schema), key, value)
      ensures forall k :: Get(schema, k) == if k == key then Some(value) else Get(old(schema), k)
    {
      PutUnique(schema, key, value);
      forall k ensures Get(Put(schema, key, value), k) == if k == key then Some(value) else Get(schema, k) {
        PutGet(schema, key, value, k);
      }
      schema := Put(schema, key, value);
    }

    method Default(value: Value) returns (self: Type)
      requires Valid()
      modifies this
      ensures self == this && Valid()
      ensures schema == Put(old(schema), "default", value)
      ensures forall k :: Get(schema, k) == if k == "default" then Some(value) else Get(old(schema), k)
    {
      Set("default", value);
      self := this;
    }

    method Required() returns (self: Type)
      requires Valid()
      modifies this
      ensures self == this && Valid()
      ensures schema == Put(old(schema), "required", Bool(true))
      ensures forall k :: Get(schema, k) == if k == "required" then Some(Bool(true)) else Get(old(schema), k)
    {
      Set("required", Bool(true));
      self := this;
    }

    method Optional() returns (self: Type)
      requires Valid()
      modifies this
      ensures self == this && Valid()
      ensures schema == Put(old(schema), "required", Bool(false))
      ensures forall k :: Get(schema, k) == if k == "required" then Some(Bool(false)) else Get(old(schema), k)
    {
      Set("required", Bool(false));
      self := this;
    }

    method Min(value: Value) returns (self: Type)
      requires Valid()
      modifies this
      ensures self == this && Valid()
      ensures schema == Put(old(schema), "min", value)
      ensures forall k :: Get(schema, k) == if k == "min" then Some(value) else Get(old(schema), k)
    {
      Set("min", value);
      self := this;
    }

    method Max(value: Value) returns (self: Type)
      requires Valid()
      modifies this
      ensures self == this && Valid()
      ensures schema == Put(old(schema), "max", value)
      ensures forall k :: Get(schema, k) == if k == "max" then Some(value) else Get(old(schema), k)
    {
      Set("max", value);
      self := this;
    }

    method Match(reg: Value) returns (self: Type)
      requires Valid()
      modifies this
      ensures self == this && Valid()
      ensures schema == Put(old(schema), "match", reg)
      ensures forall k :: Get(schema, k) == if k == "match" then Some(reg) else Get(old(schema), k)
    {
      Set("match", reg);
      self := this;
    }

    method Invalid(values: Value) returns (self: Type)
      requires Valid()
      modifies this
      ensures self == this && Valid()
      ensures schema == Put(old(schema), "invalid", values)
      ensures forall k :: Get(schema, k) == if k == "invalid" then Some(values) else Get(old(schema), k)
    {
      Set("invalid", values);
      self := this;
    }

    method Enums(values: Value) returns (self: Type)
      requires Valid()
      modifies this
      ensures self == this && Valid()
      ensures schema == Put(old(schema), "enums", values)
      ensures forall k :: Get(schema, k) == if k == "enums" then Some(values) else Get(old(schema), k)
    {
      Set("enums", values);
      self := this;
    }

    method Explain(explain: string) returns (self: Type)
      requires Valid()
      modifies this
      ensures self == this && Valid()
      ensures schema == Put(old(schema), "explain", Str(explain))
      ensures forall k :: Get(schema, k) == if k == "explain" then Some(Str(explain)) else Get(old(schema), k)
    {
      Set("explain", Str(explain));
      self := this;
    }

    method Error(error: string) returns (self: Type)
      requires Valid()
      modifies this
      ensures self == this && Valid()
      ensures schema == Put(old(schema), "error", Str(error))
      ensures forall k :: Get(schema, k) == if k == "error" then Some(Str(error)) else Get(old(schema), k)
    {
      Set("error", Str(error));
      self := this;
    }

    method DisallowEmpty() returns (self: Type)
      requires Valid()
      modifies this
      ensures self == this && Valid()
      ensures schema == Put(old(schema), "disallowEmpty", Bool(true))
      ensures forall k :: Get(schema, k) == if k == "disallowEmpty" then Some(Bool(true)) else Get(old(schema), k)
    {
      Set("disallowEmpty", Bool(true));
      self := this;
    }

    /** `mix(o)`: the record becomes `{...schema, ...o}` (or `...o.schema`): each key
        of o takes o's value, every other key keeps its own. */
    method Mix(o: Arg) returns (self: Type)
      requires Valid() && (o.Instance? ==> o.t.Valid())
      modifies this
      ensures self == this && Valid()
      ensures schema == Merge(old(schema), old(Spread(o)))
      ensures UniqueKeys(old(Spread(o))) ==> forall k ::
        Get(schema, k) == if Has(old(Spread(o)), k) then Get(old(Spread(o)), k) else Get(old(schema), k)
    {
      var src := Spread(o);
      MergeUnique(schema, src);
      if UniqueKeys(src) {
        forall k ensures Get(Merge(schema, src), k) == if Has(src, k) then Get(src, k) else Get(schema, k) {
          MergeGet(schema, src, k);
        }
      }
      schema := Merge(schema, src);
      self := this;
    }

    /** How an instance looks to `parse`: a pure object whose one own key is `schema`. */
    function AsValue(): (v: Value)
      reads this
      ensures IsPureObject(v) && OwnEntries(v) == [Field("schema", Obj(schema))]
    {
      Obj([Field("schema", Obj(schema))])
    }
  }

  /** `$(T)`: the same as `new Type(T)`. */
  method Dollar(a: Arg) returns (t: Type)
    requires a.Instance? ==> a.t.Valid()
    ensures fresh(t) && t.Valid()
    ensures t.schema == if a.Plain? then InitialRecord(a.v) else a.t.schema
  {
    t := new Type(a);
  }

  /** A copy made by `new Type(t)` is a record of its own: a setter called on the copy
      and another called on the original each change only their own instance. */
  method CopyIsIndependent(t: Type, low: Value, high: Value) returns (c: Type)
    requires t.Valid()
    modifies t
    ensures fresh(c) && c.Valid() && t.Valid()
    ensures c.schema == Put(old(t.schema), "min", low)
    ensures t.schema == Put(old(t.schema), "max", high)
  {
    c := new Type(Instance(t));
    var c' := c.Min(low);
    var t' := t.Max(high);
  }
}
