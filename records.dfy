/** Plain-object records as insertion-ordered field lists: property read, `in`,
    assignment, `delete` and object spread. */
module Records {
  import opened Wrappers
  import opened JsValues

  /** Position of the first field named `k`, or -1. */
  function IndexOf(fs: seq<Field>, k: string): (i: int)
    ensures -1 <= i < |fs|
    ensures i >= 0 ==> fs[i].key == k && forall j | 0 <= j < i :: fs[j].key != k
    ensures i < 0 ==> forall j | 0 <= j < |fs| :: fs[j].key != k
    decreases |fs|
  {
    if fs == [] then -1
    else if fs[0].key == k then 0
    else
      var j := IndexOf(fs[1..], k);
      if j < 0 then -1 else j + 1
  }

  /** The value stored under `k`, if the key is present. */
  function Get(fs: seq<Field>, k: string): (r: Option<Value>)
    decreases |fs|
  {
    if fs == [] then None
    else if fs[0].key == k then Some(fs[0].val)
    else Get(fs[1..], k)
  }

  /** `k in record`. */
  predicate Has(fs: seq<Field>, k: string)
  {
    Get(fs, k).Some?
  }

  /** `record[k]`: an absent key reads as undefined. */
  function Lookup(fs: seq<Field>, k: string): Value
  {
    match Get(fs, k)
    case Some(v) => v
    case None => Undefined
  }

  /** `record[k] = v`: an existing key keeps its place, a new key goes last. */
  function Put(fs: seq<Field>, k: string, v: Value): (r: seq<Field>)
    decreases |fs|
  {
    if fs == [] then [Field(k, v)]
    else if fs[0].key == k then [Field(k, v)] + fs[1..]
    else [fs[0]] + Put(fs[1..], k, v)
  }

  /** `delete record[k]`. */
  function Remove(fs: seq<Field>, k: string): (r: seq<Field>)
    decreases |fs|
  {
    if fs == [] then []
    else if fs[0].key == k then Remove(fs[1..], k)
    else [fs[0]] + Remove(fs[1..], k)
  }

  /** `{...fs, ...src}`: every field of `src`, in order, assigned onto `fs`. */
  function Merge(fs: seq<Field>, src: seq<Field>): (r: seq<Field>)
    decreases |src|
  {
    if src == [] then fs else Merge(Put(fs, src[0].key, src[0].val), src[1..])
  }

  /** No key occurs twice, as in every JavaScript object. */
  predicate UniqueKeys(fs: seq<Field>)
  {
    forall i, j | 0 <= i < j < |fs| :: fs[i].key != fs[j].key
  }

  // ---------------------------------------------------------------------------
  // Lemmas

  /** `Get` finds the field that `IndexOf` locates. */
  lemma {:induction false} GetIndexOf(fs: seq<Field>, k: string)
    ensures Get(fs, k) == if IndexOf(fs, k) < 0 then None else Some(fs[IndexOf(fs, k)].val)
    decreases |fs|
  {
    if fs != [] && fs[0].key != k {
      GetIndexOf(fs[1..], k);
    }
  }

  /** Reading back after an assignment: the assigned key gives the new value, every
      other key what it gave before. */
  lemma {:induction false} PutGet(fs: seq<Field>, k: string, v: Value, k': string)
    ensures Get(Put(fs, k, v), k') == if k' == k then Some(v) else Get(fs, k')
    decreases |fs|
  {
    if fs != [] && fs[0].key != k {
      PutGet(fs[1..], k, v, k');
      assert Put(fs, k, v)[1..] == Put(fs[1..], k, v);
    } else if fs != [] {
      assert Put(fs, k, v)[1..] == fs[1..];
    }
  }

  /** An assignment keeps keys unique. */
  lemma {:induction false} PutUnique(fs: seq<Field>, k: string, v: Value)
    requires UniqueKeys(fs)
    ensures UniqueKeys(Put(fs, k, v))
    decreases |fs|
  {
    if fs != [] {
      var r := Put(fs, k, v);
      assert forall i | 0 <= i < |fs[1..]| :: fs[1..][i] == fs[i + 1];
      if fs[0].key == k {
        assert r[1..] == fs[1..];
        forall i, j | 0 <= i < j < |r| ensures r[i].key != r[j].key {
          assert r[j] == fs[j];
          if i > 0 {
            assert r[i] == fs[i];
          }
        }
      } else {
        var rest := Put(fs[1..], k, v);
        PutUnique(fs[1..], k, v);
        GetAbsent(fs[1..], fs[0].key);
        PutGet(fs[1..], k, v, fs[0].key);
        GetAbsent(rest, fs[0].key);
        assert r == [fs[0]] + rest;
        forall i, j | 0 <= i < j < |r| ensures r[i].key != r[j].key {
          assert r[j] == rest[j - 1];
          if i > 0 {
            assert r[i] == rest[i - 1];
          }
        }
      }
    }
  }

  /** The last of two assignments to one key wins, and repeating an assignment
      changes nothing. */
  lemma {:induction false} PutPut(fs: seq<Field>, k: string, a: Value, b: Value)
    ensures Put(Put(fs, k, a), k, b) == Put(fs, k, b)
    ensures Put(Put(fs, k, b), k, b) == Put(fs, k, b)
    decreases |fs|
  {
    if fs != [] && fs[0].key != k {
      PutPut(fs[1..], k, a, b);
      assert Put(fs, k, a)[1..] == Put(fs[1..], k, a);
      assert Put(fs, k, b)[1..] == Put(fs[1..], k, b);
    }
  }

  /** Deleting a key removes it and keeps every other key. */
  lemma {:induction false} RemoveGet(fs: seq<Field>, k: string, k': string)
    ensures Get(Remove(fs, k), k') == if k' == k then None else Get(fs, k')
    decreases |fs|
  {
    if fs != [] {
      RemoveGet(fs[1..], k, k');
      GetCons(fs[0], fs[1..], k');
      assert fs == [fs[0]] + fs[1..];
      if fs[0].key != k {
        GetCons(fs[0], Remove(fs[1..], k), k');
      }
    }
  }

  /** Reading a record whose first field is `f`. */
  lemma GetCons(f: Field, fs: seq<Field>, k: string)
    ensures Get([f] + fs, k) == if f.key == k then Some(f.val) else Get(fs, k)
  {
    var r := [f] + fs;
    var i := IndexOf(r, k);
    if f.key != k {
      var j := IndexOf(fs, k);
      if j >= 0 {
        assert r[j + 1] == fs[j];
      }
      if i >= 0 {
        assert r[i] == fs[i - 1];
      }
    }
  }

  /** In a record with unique keys, every entry is what its key reads. */
  lemma GetAt(fs: seq<Field>, j: nat)
    requires UniqueKeys(fs) && j < |fs|
    ensures Get(fs, fs[j].key) == Some(fs[j].val)
  {
    GetIndexOf(fs, fs[j].key);
  }

  /** A key reads as absent exactly when no field carries it. */
  lemma {:induction false} GetAbsent(fs: seq<Field>, k: string)
    ensures Get(fs, k) == None <==> forall i | 0 <= i < |fs| :: fs[i].key != k
    decreases |fs|
  {
    if fs != [] {
      GetAbsent(fs[1..], k);
      assert forall i | 0 <= i < |fs[1..]| :: fs[1..][i] == fs[i + 1];
    }
  }

  /** Object spread: a key of `src` takes `src`'s value, any other key keeps the
      value it had. */
  lemma {:induction false} MergeGet(fs: seq<Field>, src: seq<Field>, k: string)
    requires UniqueKeys(src)
    ensures Get(Merge(fs, src), k) == if Has(src, k) then Get(src, k) else Get(fs, k)
    decreases |src|
  {
    if src != [] {
      var f := src[0];
      assert UniqueKeys(src[1..]) by {
        forall i, j | 0 <= i < j < |src[1..]| ensures src[1..][i].key != src[1..][j].key {
          assert src[1..][i] == src[i + 1] && src[1..][j] == src[j + 1];
        }
      }
      MergeGet(Put(fs, f.key, f.val), src[1..], k);
      PutGet(fs, f.key, f.val, k);
      if f.key == k {
        assert forall i | 0 <= i < |src[1..]| :: src[1..][i].key != k by {
          forall i | 0 <= i < |src[1..]| ensures src[1..][i].key != k {
            assert src[1..][i] == src[i + 1];
          }
        }
        GetAbsent(src[1..], k);
      }
    }
  }

  /** Object spread keeps keys unique. */
  lemma {:induction false} MergeUnique(fs: seq<Field>, src: seq<Field>)
    requires UniqueKeys(fs)
    ensures UniqueKeys(Merge(fs, src))
    decreases |src|
  {
    if src != [] {
      PutUnique(fs, src[0].key, src[0].val);
      MergeUnique(Put(fs, src[0].key, src[0].val), src[1..]);
    }
  }
  /** Deleting a key that is absent changes nothing. */
  lemma {:induction false} RemoveAbsent(fs: seq<Field>, k: string)
    requires !Has(fs, k)
    ensures Remove(fs, k) == fs
    decreases |fs|
  {
    if fs != [] {
      RemoveAbsent(fs[1..], k);
      assert fs == [fs[0]] + fs[1..];
    }
  }
}
