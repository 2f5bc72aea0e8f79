/** The JavaScript values the compiler reads as specifications and the validator
    checks, seen only as far as `src/index.ts` and `src/type.ts` observe them. */
module JsValues {
  import opened Wrappers

  /** An IEEE-754 double; only its comparisons matter to the validator. */
  datatype Number = Finite(r: real) | NaN | PosInf | NegInf

  /** The built-in constructor functions a specification may name, and any other function. */
  datatype Builtin = StringFn | NumberFn | BooleanFn | DateFn | ArrayFn | ObjectFn | OtherFn

  datatype Value =
    | Undefined
    | Null
    | Bool(b: bool)
    | Num(n: Number)
    | Str(s: string)
    | Buf(bytes: seq<bv8>)        // a Node.js Buffer
    | DateObj(time: Number)       // a Date; NaN is an Invalid Date
    | Arr(items: seq<Value>)
    | Obj(fields: seq<Field>)     // a plain object, keys in insertion order
    | RegExp(source: string)
    | Fn(f: Builtin)

  /** One own enumerable property of an object. */
  datatype Field = Field(key: string, val: Value)

  /** The results of the `typeof` operator that can occur here. */
  datatype JsType = UndefinedType | ObjectType | BooleanType | NumberType | StringType | FunctionType

  /** Behaviour of the runtime that the model does not interpret: each field stands
      for one built-in the source calls. */
  datatype Host = Host(
    decode: seq<bv8> -> string,          // Buffer#toString()
    timeOf: Value -> Number,             // new Date(v).getTime() for a non-Date v
    iso: real -> string,                 // Date#toISOString() of a valid date
    regexTest: (string, Value) -> bool,  // new RegExp(source).test(v)
    toNumber: Value -> Number,           // ToNumber of a string or an object
    includesOther: (Value, Value) -> Option<bool>,  // list.includes(v) on a non-array list; None if it throws
    show: Value -> string)               // String(v) of a non-RegExp value

  function TypeOf(v: Value): JsType
  {
    match v
    case Undefined => UndefinedType
    case Bool(_) => BooleanType
    case Num(_) => NumberType
    case Str(_) => StringType
    case Fn(_) => FunctionType
    case _ => ObjectType
  }

  /** `isPureObject`: not null, of type "object", not an array and not a Date. */
  predicate IsPureObject(v: Value)
    ensures IsPureObject(v) <==> v.Obj? || v.Buf? || v.RegExp?
  {
    !v.Null? && TypeOf(v) == ObjectType && !v.Arr? && !v.DateObj?
  }

  /** JavaScript truthiness. */
  predicate Truthy(v: Value)
  {
    match v
    case Undefined => false
    case Null => false
    case Bool(b) => b
    case Num(n) => n != Finite(0.0) && n != NaN
    case Str(s) => s != ""
    case _ => true
  }

  /** A value whose `in` operator does not throw: an object or a function. */
  predicate IsObjectLike(v: Value)
  {
    v.Obj? || v.Arr? || v.Buf? || v.DateObj? || v.RegExp? || v.Fn?
  }

  /** `a >= b` on doubles: false whenever either side is NaN. */
  predicate Ge(a: Number, b: Number)
    ensures Ge(a, b) ==> a != NaN && b != NaN
    ensures a.Finite? && b.Finite? ==> (Ge(a, b) <==> a.r >= b.r)
  {
    match (a, b)
    case (NaN, _) => false
    case (_, NaN) => false
    case (PosInf, _) => true
    case (_, NegInf) => true
    case (NegInf, _) => false
    case (_, PosInf) => false
    case (Finite(x), Finite(y)) => x >= y
  }

  /** `a <= b` on doubles. */
  predicate Le(a: Number, b: Number)
  {
    Ge(b, a)
  }

  /** ToNumber, as `>=` and `<=` apply it to a bound. */
  function ToNumber(h: Host, v: Value): Number
  {
    match v
    case Num(n) => n
    case Undefined => NaN
    case Null => Finite(0.0)
    case Bool(b) => if b then Finite(1.0) else Finite(0.0)
    case _ => h.toNumber(v)
  }

  /** SameValueZero, the equality of `Array.prototype.includes`, on values compared by
      content; objects are never found (their identity is not modelled). */
  predicate SameValueZero(a: Value, b: Value)
  {
    || (a.Undefined? && b.Undefined?)
    || (a.Null? && b.Null?)
    || (a.Bool? && b.Bool? && a.b == b.b)
    || (a.Num? && b.Num? && a.n == b.n)
    || (a.Str? && b.Str? && a.s == b.s)
    || (a.Fn? && b.Fn? && a.f == b.f && a.f != OtherFn)
  }

  /** Position of the first item SameValueZero-equal to `v`, or -1. */
  function FindValue(items: seq<Value>, v: Value): (i: int)
    ensures -1 <= i < |items|
    ensures i >= 0 ==> SameValueZero(items[i], v)
    ensures i < 0 ==> forall j | 0 <= j < |items| :: !SameValueZero(items[j], v)
    decreases |items|
  {
    if items == [] then -1
    else if SameValueZero(items[0], v) then 0
    else
      var j := FindValue(items[1..], v);
      if j < 0 then -1 else j + 1
  }

  /** The decimal text of a natural number, as an array index is written as a key. */
  function NatToString(n: nat): (s: string)
    ensures |s| >= 1
    decreases n
  {
    var d := ['0', '1', '2', '3', '4', '5', '6', '7', '8', '9'][n % 10];
    if n < 10 then [d] else NatToString(n / 10) + [d]
  }

  /** The own enumerable properties of a value, in order, as `Object.keys` and object
      spread see them. */
  function OwnEntries(v: Value): (fs: seq<Field>)
    ensures v.Obj? ==> fs == v.fields
    ensures v.Arr? ==> |fs| == |v.items|
    ensures v.Buf? ==> |fs| == |v.bytes|
    ensures v.Str? ==> |fs| == |v.s|
    ensures !(v.Obj? || v.Arr? || v.Buf? || v.Str?) ==> fs == []
  {
    match v
    case Obj(fields) => fields
    case Arr(items) => seq(|items|, i requires 0 <= i < |items| => Field(NatToString(i), items[i]))
    case Buf(bytes) => seq(|bytes|, i requires 0 <= i < |bytes| => Field(NatToString(i), Num(Finite(bytes[i] as int as real))))
    case Str(s) => seq(|s|, i requires 0 <= i < |s| => Field(NatToString(i), Str([s[i]])))
    case _ => []
  }
}
