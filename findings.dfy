/** The alternatives check of src/index.ts:185-194 as the code is written: every
    variant runs on the same value, and `_validate` overwrites array slots in place,
    so a variant that fails after rewriting some slots hands the rewritten array to
    the next variant. `Validation.AnyVariant` models the evidently intended check,
    where each variant sees the value the alternative node was given. */
module Findings {
  import opened Wrappers
  import opened JsValues
  import opened Records
  import opened Compiler
  import opened CompilerFacts
  import opened Validation
  import opened ValidationFacts

  /** The outcome of `schemas.some(...)` from variant i on, as written: whether some
      variant completed, and the value as the variants tried so far left it. */
  datatype Trial = Trial(found: bool, current: Value)

  /** `schemas.some(...)` as written: each variant runs on what the previous one left. */
  function AltAsWritten(h: Host, n: Node, x: Value, i: nat): (t: Trial)
    requires WellFormed(n) && i <= |n.schemas|
    ensures t.found ==> i < |n.schemas|
    ensures !x.Arr? ==> t.current == x
    ensures x.Arr? ==> t.current.Arr? && |t.current.items| == |x.items|
    decreases |n.schemas| - i
  {
    if i == |n.schemas| then Trial(false, x)
    else
      var s := Run(h, n.schemas[i], x, Key("v"));
      if s.res.Ok? then Trial(true, s.after)
      else AltAsWritten(h, n, s.after, i + 1)
  }

  /** On a value no variant rewrites, the code as written and the intended check
      agree. */
  lemma {:induction false} AsWrittenAgreesWithoutRewrites(h: Host, n: Node, x: Value, i: nat)
    requires WellFormed(n) && i <= |n.schemas|
    requires forall j | i <= j < |n.schemas| :: Run(h, n.schemas[j], x, Key("v")).after == x
    ensures AltAsWritten(h, n, x, i).found == AnyVariant(h, n, x, i)
    decreases |n.schemas| - i
  {
    if i < |n.schemas| {
      AsWrittenAgreesWithoutRewrites(h, n, x, i + 1);
    }
  }

  /** Only an array can be rewritten by a variant, so on any other value the code as
      written and the intended check agree. */
  lemma AsWrittenAgreesOffArrays(h: Host, n: Node, x: Value)
    requires WellFormed(n) && !x.Arr?
    ensures AltAsWritten(h, n, x, 0).found == AnyVariant(h, n, x, 0)
  {
    AsWrittenAgreesWithoutRewrites(h, n, x, 0);
  }

  /** The specification `[[Date], [String]]`. */
  function DateOrStringList(): Value
  {
    Arr([Arr([Fn(DateFn)]), Arr([Fn(StringFn)])])
  }

  /** A `Date` slot converts a parseable string and rejects an unparseable one,
      leaving it as it was. */
  lemma DateSlot(h: Host, s: Value, k: Seg)
    requires s.Str?
    ensures var r := Run(h, Parse(Fn(DateFn), []), s, k);
      && (h.timeOf(s).Finite? ==> r.res == Ok(DateObj(h.timeOf(s))))
      && (h.timeOf(s).NaN? ==> r.res.Err? && r.after == s)
  {
    var n := Parse(Fn(DateFn), []);
    if h.timeOf(s).Finite? {
      assert Transform(h, n.transformer, s) == Some(DateObj(h.timeOf(s)));
      assert Checks(h, n, DateObj(h.timeOf(s))).None?;
    } else if h.timeOf(s).NaN? {
      assert Transform(h, n.transformer, s).None?;
    }
  }

  /** A `String` slot accepts a string and rejects a Date. */
  lemma StringSlot(h: Host, s: Value, k: Seg)
    requires s.Str? || s.DateObj?
    ensures var r := Run(h, Parse(Fn(StringFn), []), s, k);
      && (s.Str? ==> r.res == Ok(s))
      && (s.DateObj? ==> r.res.Err?)
  {
    var n := Parse(Fn(StringFn), []);
    assert Transform(h, n.transformer, s) == Some(s);
    if s.Str? {
      assert Checks(h, n, s).None?;
    } else {
      assert KindCheck(n, s).Some?;
    }
  }

  /** The `[Date]` variant fails on `["2020-01-01", "garbage"]` after it has
      converted slot 0 in place. */
  lemma DateVariantLeaks(h: Host, d: Value, g: Value)
    requires d.Str? && g.Str? && h.timeOf(d).Finite? && h.timeOf(g).NaN?
    ensures var r := Run(h, Parse(Arr([Fn(DateFn)]), []), Arr([d, g]), Key("v"));
      r.res.Err? && r.after == Arr([DateObj(h.timeOf(d)), g])
  {
    var n := Parse(Arr([Fn(DateFn)]), []);
    ArraySpec([Fn(DateFn)], []);
    DateSlot(h, d, Index(0));
    DateSlot(h, g, Index(1));
    var dd := DateObj(h.timeOf(d));
    assert [d, g][0 := dd] == [dd, g];
    assert [dd, g][1 := g] == [dd, g];
    assert RunElements(h, n, [d, g], 0) == RunElements(h, n, [dd, g], 1);
    assert RunElements(h, n, [dd, g], 1).items == [dd, g];
    assert Checks(h, n, Arr([d, g])).None?;
  }

  /** The `[String]` variant accepts a list of two strings and rejects a list
      whose first slot is a Date. */
  lemma StringVariant(h: Host, a: Value, b: Value)
    requires (a.Str? || a.DateObj?) && b.Str?
    ensures var r := Run(h, Parse(Arr([Fn(StringFn)]), []), Arr([a, b]), Key("v"));
      && (a.Str? ==> r.res.Ok?)
      && (a.DateObj? ==> r.res.Err?)
  {
    var n := Parse(Arr([Fn(StringFn)]), []);
    ArraySpec([Fn(StringFn)], []);
    StringSlot(h, a, Index(0));
    StringSlot(h, b, Index(1));
    assert Checks(h, n, Arr([a, b])).None?;
    if a.Str? {
      assert [a, b][0 := a] == [a, b];
      assert [a, b][1 := b] == [a, b];
      assert RunElements(h, n, [a, b], 1).failed.None?;
    }
  }

  /** Against `[[Date], [String]]`, the list `["2020-01-01", "garbage"]` is a list of
      strings, which the second variant alone accepts; but the first variant converts
      slot 0 to a Date before it fails on slot 1, and the second variant then sees
      that Date. The code as written rejects the list, the intended check accepts it. */
  lemma LeakRejectsStrings(h: Host)
    requires h.timeOf(Str("2020-01-01")).Finite? && h.timeOf(Str("garbage")).NaN?
    ensures Compilable(DateOrStringList())
    ensures var n := Parse(DateOrStringList(), []); var v := Arr([Str("2020-01-01"), Str("garbage")]);
      && Run(h, n.schemas[1], v, Key("v")).res.Ok?
      && !AltAsWritten(h, n, v, 0).found
      && Run(h, n, v, Key("v")).res == Ok(v)
  {
    var items := [Arr([Fn(DateFn)]), Arr([Fn(StringFn)])];
    var n := Parse(Arr(items), []);
    var v := Arr([Str("2020-01-01"), Str("garbage")]);
    AlternativeSpec(items, []);
    DateVariantLeaks(h, Str("2020-01-01"), Str("garbage"));
    var leaked := Arr([DateObj(h.timeOf(Str("2020-01-01"))), Str("garbage")]);
    StringVariant(h, leaked.items[0], Str("garbage"));
    StringVariant(h, Str("2020-01-01"), Str("garbage"));
    assert AltAsWritten(h, n, v, 0) == AltAsWritten(h, n, leaked, 1);
    Alternatives(h, items, [], v, Key("v"));
  }
}
