/**
 * The orders in which base versions are compared. `StrLess` is Python's `<`
 * on `str`, which is what the range check applies to the `base_version`
 * strings; `ReleaseLess` is the numeric, segment-by-segment order of release
 * numbers that `packaging.version.Version` uses.
 */
module VersionOrder {
  import opened Optional
  import opened PyStr
  import opened Numerals

  /** Python's `a < b` on `str`: by code point, a proper prefix first. */
  predicate StrLess(a: string, b: string)
    decreases |a|
    ensures StrLess(a, b) ==> a != b
    ensures |a| < |b| && a == b[..|a|] ==> StrLess(a, b)
  {
    if |a| == 0 then |b| > 0
    else if |b| == 0 then false
    else if a[0] != b[0] then a[0] < b[0]
    else StrLess(a[1..], b[1..])
  }

  /**
   * Lexicographic order stated directly: `a` is a proper prefix of `b`, or at
   * the first position where they differ `a` has the smaller character.
   */
  ghost predicate LexicallyBefore(a: string, b: string) {
    || (|a| < |b| && a == b[..|a|])
    || exists k :: 0 <= k < |a| && k < |b| && a[..k] == b[..k] && a[k] < b[k]
  }

  /** Two different strings are ordered one way round and never both. */
  lemma {:induction false} StrLessTrichotomy(a: string, b: string)
    ensures StrLess(a, b) ==> !StrLess(b, a)
    ensures a != b ==> StrLess(a, b) || StrLess(b, a)
    decreases |a|
  {
    if |a| > 0 && |b| > 0 && a[0] == b[0] {
      StrLessTrichotomy(a[1..], b[1..]);
      if a != b {
        assert a == [a[0]] + a[1..] && b == [b[0]] + b[1..];
      }
    }
  }

  /** The character-by-character comparison is exactly lexicographic order. */
  lemma {:induction false} StrLessIsLexicographic(a: string, b: string)
    ensures StrLess(a, b) <==> LexicallyBefore(a, b)
    decreases |a|
  {
    if |a| > 0 && |b| > 0 {
      if a[0] != b[0] {
        assert a[..0] == b[..0];
        if LexicallyBefore(a, b) {
          if !(|a| < |b| && a == b[..|a|]) {
            var k :| 0 <= k < |a| && k < |b| && a[..k] == b[..k] && a[k] < b[k];
          }
        }
      } else {
        StrLessIsLexicographic(a[1..], b[1..]);
        if StrLess(a, b) {
          if |a[1..]| < |b[1..]| && a[1..] == b[1..][..|a| - 1] {
            assert a == [a[0]] + a[1..] && b[..|a|] == [b[0]] + b[1..][..|a| - 1];
          } else {
            var k :| 0 <= k < |a| - 1 && k < |b| - 1 && a[1..][..k] == b[1..][..k] && a[1..][k] < b[1..][k];
            assert a[..k + 1] == [a[0]] + a[1..][..k] && b[..k + 1] == [b[0]] + b[1..][..k];
            assert a[k + 1] < b[k + 1];
          }
        }
        if LexicallyBefore(a, b) {
          if |a| < |b| && a == b[..|a|] {
            assert a[1..] == b[1..][..|a| - 1];
          } else {
            var k :| 0 <= k < |a| && k < |b| && a[..k] == b[..k] && a[k] < b[k];
            assert k > 0;
            assert a[1..][..k - 1] == a[..k][1..] && b[1..][..k - 1] == b[..k][1..];
            assert a[1..][k - 1] < b[1..][k - 1];
          }
        }
      }
    }
  }

  /**
   * The release numbers of a version string such as "1.10.0": one number per
   * dot-separated part, or `None` unless every part is a non-empty run of
   * ASCII digits.
   */
  function ReleaseNumbers(s: string): Option<seq<nat>> {
    Numbers(Split(s, "."))
  }

  function Numbers(parts: seq<string>): (r: Option<seq<nat>>)
    ensures r.Some? ==> |r.value| == |parts|
  {
    if |parts| == 0 then Some([])
    else if |parts[0]| > 0 && AllDigits(parts[0]) then
      match Numbers(parts[1..])
      case None => None
      case Some(rest) => Some([DigitsValue(parts[0])] + rest)
    else None
  }

  /**
   * Numeric order of release tuples, a missing trailing number counting as 0
   * (so "1.0" and "1.0.0" are the same release).
   */
  predicate TupleLess(a: seq<nat>, b: seq<nat>)
    decreases |a| + |b|
  {
    if |a| == 0 && |b| == 0 then false
    else
      var x := if |a| > 0 then a[0] else 0;
      var y := if |b| > 0 then b[0] else 0;
      if x != y then x < y
      else TupleLess(if |a| > 0 then a[1..] else [], if |b| > 0 then b[1..] else [])
  }

  lemma {:induction false} TupleLessIrreflexive(a: seq<nat>)
    ensures !TupleLess(a, a)
    decreases |a|
  {
    if |a| > 0 {
      TupleLessIrreflexive(a[1..]);
    }
  }

  lemma {:induction false} TupleLessTransitive(a: seq<nat>, b: seq<nat>, c: seq<nat>)
    requires TupleLess(a, b) && TupleLess(b, c)
    ensures TupleLess(a, c)
    decreases |a| + |b| + |c|
  {
    var x := if |a| > 0 then a[0] else 0;
    var y := if |b| > 0 then b[0] else 0;
    var z := if |c| > 0 then c[0] else 0;
    var a' := if |a| > 0 then a[1..] else [];
    var b' := if |b| > 0 then b[1..] else [];
    var c' := if |c| > 0 then c[1..] else [];
    if x == y && y == z {
      TupleLessTransitive(a', b', c');
    }
  }

  /**
   * Release order on base-version strings: numeric when both are release
   * numbers, Python's `str` order otherwise.
   */
  predicate ReleaseLess(a: string, b: string) {
    match (ReleaseNumbers(a), ReleaseNumbers(b))
    case (Some(x), Some(y)) => TupleLess(x, y)
    case _ => StrLess(a, b)
  }

  /** Which comparison the range check applies to base versions. */
  datatype Ordering =
    | StringOrder   // Python `str` comparison of `base_version` strings
    | ReleaseOrder  // numeric comparison of release numbers

  predicate Below(ord: Ordering, a: string, b: string) {
    match ord
    case StringOrder => StrLess(a, b)
    case ReleaseOrder => ReleaseLess(a, b)
  }

  /** Two-number releases with the same major number: the string order ranks "1.10" below "1.9". */
  lemma StringOrderRanksTenBelowNine()
    ensures StrLess("1.10", "1.9")
  {
  }

  /**
   * Release order compares the minor number numerically: for every major `x`,
   * "x.y" is below "x.z" exactly when `y < z`.
   */
  lemma ReleaseOrderIsNumeric(x: nat, y: nat, z: nat)
    ensures ReleaseLess(Decimal(x) + "." + Decimal(y), Decimal(x) + "." + Decimal(z)) <==> y < z
  {
    DotNumbers(x, y);
    DotNumbers(x, z);
    TwoNumbersLess(x, y, z);
  }

  lemma TwoNumbersLess(x: nat, y: nat, z: nat)
    ensures TupleLess([x, y], [x, z]) <==> y < z
  {
    assert [x, y][1..] == [y] && [x, z][1..] == [z];
    assert TupleLess([x, y], [x, z]) == TupleLess([y], [z]);
    assert [y][1..] == [] && [z][1..] == [];
    assert TupleLess([y], [z]) == (y < z);
  }

  lemma DotNumbers(x: nat, y: nat)
    ensures ReleaseNumbers(Decimal(x) + "." + Decimal(y)) == Some([x, y])
  {
    DotSplits(x, y);
    NumberOfDecimal(Decimal(y), [], y);
    assert Numbers([]) == Some([]);
    assert [Decimal(y)] + [] == [Decimal(y)] && [y] + [] == [y];
    assert Numbers([Decimal(y)]) == Some([y]);
    NumberOfDecimal(Decimal(x), [Decimal(y)], x);
    assert [Decimal(x)] + [Decimal(y)] == [Decimal(x), Decimal(y)];
    assert [x] + [y] == [x, y];
  }

  /** A part that is the decimal numeral of `n` contributes `n` to the release numbers. */
  lemma NumberOfDecimal(d: string, rest: seq<string>, n: nat)
    requires d == Decimal(n)
    ensures Numbers([d] + rest) == match Numbers(rest) case None => None case Some(ns) => Some([n] + ns)
  {
    assert ([d] + rest)[0] == d && ([d] + rest)[1..] == rest;
  }

  lemma DotSplits(x: nat, y: nat)
    ensures Split(Decimal(x) + "." + Decimal(y), ".") == [Decimal(x), Decimal(y)]
  {
    NoDotInDecimal(x);
    NoDotInDecimal(y);
    assert Unbordered(".");
    SplitAtFirst(Decimal(x), Decimal(y), ".");
    SplitUncut(Decimal(y), ".");
  }

  lemma NoDotInDecimal(n: nat)
    ensures !Contains(Decimal(n), ".")
  {
    var s := Decimal(n);
    forall j: nat
      ensures !OccursAt(s, ".", j)
    {
      if j + 1 <= |s| {
        assert s[j..j + 1][0] == s[j];
        assert IsDigit(s[j]);
      }
    }
  }
}
