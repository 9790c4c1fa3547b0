/**
 * The Python `str` operations the environment checker is built from:
 * `sep in s`, `s.split(sep)` and taking the last part of a split.
 */
module PyStr {
  import opened Optional

  /** `sep` occurs in `s` starting at position `i`. */
  predicate OccursAt(s: string, sep: string, i: nat) {
    i + |sep| <= |s| && s[i..i + |sep|] == sep
  }

  /** The leftmost position at or after `from` where `sep` occurs in `s`. */
  function FindFrom(s: string, sep: string, from: nat): (r: Option<nat>)
    requires from <= |s|
    decreases |s| - from
    ensures r.Some? ==> from <= r.value && OccursAt(s, sep, r.value)
    ensures r.Some? ==> forall j: nat :: from <= j < r.value ==> !OccursAt(s, sep, j)
    ensures r.None? ==> forall j: nat :: from <= j ==> !OccursAt(s, sep, j)
  {
    if OccursAt(s, sep, from) then Some(from)
    else if from == |s| then None
    else FindFrom(s, sep, from + 1)
  }

  /** Python's `sep in s`. */
  predicate Contains(s: string, sep: string) {
    FindFrom(s, sep, 0).Some?
  }

  lemma OccurrenceIsContained(s: string, sep: string, i: nat)
    requires OccursAt(s, sep, i)
    ensures Contains(s, sep)
  {
  }

  /** An occurrence inside a prefix is an occurrence in the whole string. */
  lemma OccursInPrefix(s: string, n: nat, sep: string, j: nat)
    requires n <= |s| && OccursAt(s[..n], sep, j)
    ensures OccursAt(s, sep, j) && j + |sep| <= n
  {
    assert s[..n][j..j + |sep|] == s[j..j + |sep|];
  }

  /** Python's `s.split(sep)` for a non-empty separator: cut at every leftmost occurrence, scanning left to right. */
  function Split(s: string, sep: string): (parts: seq<string>)
    requires |sep| > 0
    decreases |s|, 1
    ensures |parts| >= 1
  {
    SplitAt(s, sep, FindFrom(s, sep, 0))
  }

  /** The split of `s` given where the first cut is, if any. */
  function SplitAt(s: string, sep: string, cut: Option<nat>): (parts: seq<string>)
    requires |sep| > 0 && (cut.Some? ==> cut.value + |sep| <= |s|)
    decreases |s|, 0
    ensures |parts| >= 1
  {
    if cut.None? then [s] else [s[..cut.value]] + Split(s[cut.value + |sep|..], sep)
  }

  /** A split has exactly one part when the separator does not occur. */
  lemma SplitCount(s: string, sep: string)
    requires |sep| > 0
    ensures |Split(s, sep)| == 1 <==> !Contains(s, sep)
  {
  }

  /** Python's `sep.join(parts)`. */
  function Join(parts: seq<string>, sep: string): string
    requires |parts| >= 1
  {
    if |parts| == 1 then parts[0] else parts[0] + sep + Join(parts[1..], sep)
  }

  function Last(parts: seq<string>): string
    requires |parts| >= 1
  {
    parts[|parts| - 1]
  }

  /** One step of a split: the piece before the leftmost occurrence, then the split of what follows it. */
  lemma SplitStep(s: string, sep: string, i: nat)
    requires |sep| > 0 && FindFrom(s, sep, 0) == Some(i)
    ensures i + |sep| <= |s|
    ensures Split(s, sep) == [s[..i]] + Split(s[i + |sep|..], sep)
  {
    assert Split(s, sep) == SplitAt(s, sep, Some(i));
  }

  lemma JoinStep(x: string, tail: seq<string>, sep: string)
    requires |tail| >= 1
    ensures Join([x] + tail, sep) == x + sep + Join(tail, sep)
  {
    assert ([x] + tail)[1..] == tail;
  }

  /** A split into two parts is the first part, one separator, and the second part. */
  lemma SplitPair(s: string, sep: string)
    requires |sep| > 0 && |Split(s, sep)| == 2
    ensures s == Split(s, sep)[0] + sep + Split(s, sep)[1]
    ensures !Contains(Split(s, sep)[0], sep) && !Contains(Split(s, sep)[1], sep)
  {
    var parts := Split(s, sep);
    JoinSplit(s, sep);
    SplitPartsAvoidSep(s, sep);
    assert parts[1..] == [parts[1]];
    assert Join(parts, sep) == parts[0] + sep + parts[1];
  }

  /** A string is the piece before an occurrence, the separator, and the piece after it. */
  lemma CutAround(s: string, sep: string, i: nat)
    requires OccursAt(s, sep, i)
    ensures s == s[..i] + sep + s[i + |sep|..]
  {
    assert s == s[..i] + s[i..i + |sep|] + s[i + |sep|..];
  }

  /** Splitting loses nothing: joining the parts back with the separator gives the input. */
  lemma {:induction false} JoinSplit(s: string, sep: string)
    requires |sep| > 0
    ensures Join(Split(s, sep), sep) == s
    decreases |s|
  {
    var r := FindFrom(s, sep, 0);
    if r.Some? {
      var i := r.value;
      var rest := s[i + |sep|..];
      SplitStep(s, sep, i);
      JoinSplit(rest, sep);
      JoinStep(s[..i], Split(rest, sep), sep);
      CutAround(s, sep, i);
    }
  }

  /** No part of a split contains the separator. */
  lemma {:induction false} SplitPartsAvoidSep(s: string, sep: string)
    requires |sep| > 0
    ensures forall k :: 0 <= k < |Split(s, sep)| ==> !Contains(Split(s, sep)[k], sep)
    decreases |s|
  {
    var r := FindFrom(s, sep, 0);
    if r.Some? {
      var i := r.value;
      var rest := s[i + |sep|..];
      SplitStep(s, sep, i);
      SplitPartsAvoidSep(rest, sep);
      if Contains(s[..i], sep) {
        var j := FindFrom(s[..i], sep, 0).value;
        OccursInPrefix(s, i, sep, j);
        assert false;
      }
    }
  }

  /** Joining is associative at the end: the last part can be peeled off. */
  lemma {:induction false} JoinSnoc(parts: seq<string>, sep: string)
    requires |parts| >= 2
    ensures Join(parts, sep) == Join(parts[..|parts| - 1], sep) + sep + Last(parts)
    decreases |parts|
  {
    if |parts| > 2 {
      JoinSnoc(parts[1..], sep);
      assert parts[1..][..|parts| - 2] == parts[..|parts| - 1][1..];
    }
  }

  /**
   * The last part of a split is what follows the separator at the end of the
   * input, or the whole input when the separator does not occur. The cut
   * before it is the final one of the left-to-right scan: the other parts
   * are the split of what precedes it.
   */
  lemma SplitLast(s: string, sep: string)
    requires |sep| > 0
    ensures !Contains(s, sep) ==> Last(Split(s, sep)) == s
    ensures Contains(s, sep) ==>
              |Last(Split(s, sep))| + |sep| <= |s|
              && s == s[..|s| - |Last(Split(s, sep))| - |sep|] + sep + Last(Split(s, sep))
              && Split(s, sep) == Split(s[..|s| - |Last(Split(s, sep))| - |sep|], sep) + [Last(Split(s, sep))]
  {
    var parts := Split(s, sep);
    if Contains(s, sep) {
      SplitCount(s, sep);
      JoinSplit(s, sep);
      JoinSnoc(parts, sep);
      var prefix := Join(parts[..|parts| - 1], sep);
      assert s == prefix + sep + Last(parts);
      assert |s| - |Last(parts)| - |sep| == |prefix|;
      assert prefix == s[..|prefix|];
      SplitBeforeLast(s, sep);
    } else {
      SplitUncut(s, sep);
    }
  }

  /** A prefix that still holds the leftmost occurrence has it as its own leftmost occurrence. */
  lemma {:induction false} FirstOccurrenceInPrefix(s: string, sep: string, from: nat, i: nat, m: nat)
    requires from <= i && i + |sep| <= m <= |s| && FindFrom(s, sep, from) == Some(i)
    ensures FindFrom(s[..m], sep, from) == Some(i)
    decreases i - from
  {
    OccursInPrefixAt(s, sep, from, m);
    if !OccursAt(s, sep, from) {
      FirstOccurrenceInPrefix(s, sep, from + 1, i, m);
    }
  }

  /** Whether `sep` occurs at a position is decided inside any prefix long enough to hold it. */
  lemma OccursInPrefixAt(s: string, sep: string, j: nat, m: nat)
    requires j + |sep| <= m <= |s|
    ensures OccursAt(s[..m], sep, j) == OccursAt(s, sep, j)
  {
    assert s[..m][j..j + |sep|] == s[j..j + |sep|];
  }

  /** The parts before the last one are the split of the text before the final cut. */
  lemma {:induction false} SplitBeforeLast(s: string, sep: string)
    requires |sep| > 0 && Contains(s, sep)
    ensures |Last(Split(s, sep))| + |sep| <= |s|
    ensures Split(s, sep) == Split(s[..|s| - |Last(Split(s, sep))| - |sep|], sep) + [Last(Split(s, sep))]
    decreases |s|
  {
    var i := FindFrom(s, sep, 0).value;
    var rest := s[i + |sep|..];
    SplitStep(s, sep, i);
    if !Contains(rest, sep) {
      SplitOnce(s, sep, i);
    } else {
      SplitBeforeLast(rest, sep);
      SplitAgain(s, sep, i, Last(Split(rest, sep)));
    }
  }

  /** One cut only: the last part is what follows it, and the text before it is uncut. */
  lemma SplitOnce(s: string, sep: string, i: nat)
    requires |sep| > 0 && FindFrom(s, sep, 0) == Some(i) && !Contains(s[i + |sep|..], sep)
    ensures |Last(Split(s, sep))| + |sep| <= |s|
    ensures Split(s, sep) == Split(s[..|s| - |Last(Split(s, sep))| - |sep|], sep) + [Last(Split(s, sep))]
  {
    var rest := s[i + |sep|..];
    SplitStep(s, sep, i);
    SplitUncut(rest, sep);
    assert Split(s, sep) == [s[..i], rest];
    if Contains(s[..i], sep) {
      OccursInPrefix(s, i, sep, FindFrom(s[..i], sep, 0).value);
    }
    SplitUncut(s[..i], sep);
  }

  /** Several cuts: the final cut of `s` is the final cut of what follows its first. */
  lemma SplitAgain(s: string, sep: string, i: nat, last: string)
    requires |sep| > 0 && FindFrom(s, sep, 0) == Some(i)
    requires var rest := s[i + |sep|..];
             && Last(Split(rest, sep)) == last && |last| + |sep| <= |rest|
             && Split(rest, sep) == Split(rest[..|rest| - |last| - |sep|], sep) + [last]
    ensures |Last(Split(s, sep))| + |sep| <= |s|
    ensures Split(s, sep) == Split(s[..|s| - |Last(Split(s, sep))| - |sep|], sep) + [Last(Split(s, sep))]
  {
    var rest := s[i + |sep|..];
    SplitStep(s, sep, i);
    assert Last(Split(s, sep)) == last;
    var m := |s| - |last| - |sep|;
    var p := s[..m];
    FirstOccurrenceInPrefix(s, sep, 0, i, m);
    SplitStep(p, sep, i);
    assert p[..i] == s[..i];
    assert p[i + |sep|..] == rest[..|rest| - |last| - |sep|];
  }

  /** `sep` has no border: no proper non-empty prefix of it is also a suffix of it. */
  predicate Unbordered(sep: string) {
    forall k :: 0 < k < |sep| ==> sep[..k] != sep[|sep| - k..]
  }

  /**
   * For an unbordered separator, a string that starts with a separator-free
   * piece and then the separator is first cut right after that piece.
   */
  lemma SplitAtFirst(a: string, rest: string, sep: string)
    requires |sep| > 0 && Unbordered(sep) && !Contains(a, sep)
    ensures Split(a + sep + rest, sep) == [a] + Split(rest, sep)
  {
    var s := a + sep + rest;
    assert s[|a|..|a| + |sep|] == sep;
    assert OccursAt(s, sep, |a|);
    forall j: nat | j < |a|
      ensures !OccursAt(s, sep, j)
    {
      if j + |sep| <= |a| {
        assert s[j..j + |sep|] == a[j..j + |sep|];
        assert !OccursAt(a, sep, j);
      } else if j + |sep| <= |s| {
        var k := j + |sep| - |a|;
        assert sep[..k] != sep[|sep| - k..];
        var w := s[j..j + |sep|];
        assert w[|sep| - k..] == s[|a|..|a| + k] == sep[..k];
        assert w[|sep| - k..] != sep[|sep| - k..];
      }
    }
    assert FindFrom(s, sep, 0) == Some(|a|);
    assert s[..|a|] == a;
    assert s[|a| + |sep|..] == rest;
  }

  /** A one-character separator occurs only where that character does. */
  lemma CharAbsent(s: string, c: char)
    requires forall i :: 0 <= i < |s| ==> s[i] != c
    ensures !Contains(s, [c])
  {
    forall j: nat
      ensures !OccursAt(s, [c], j)
    {
      if j + 1 <= |s| {
        assert s[j..j + 1][0] == s[j];
      }
    }
  }

  /** A separator-free string splits into itself alone. */
  lemma SplitUncut(s: string, sep: string)
    requires |sep| > 0 && !Contains(s, sep)
    ensures Split(s, sep) == [s]
  {
  }

  lemma ConcatRegroup(x: string, sep: string, y: string, z: string)
    ensures x + sep + y + sep + z == x + sep + (y + sep + z)
  {
  }

  /** One separator between two separator-free pieces makes two parts. */
  lemma SplitTwo(x: string, y: string, sep: string)
    requires |sep| > 0 && Unbordered(sep) && !Contains(x, sep) && !Contains(y, sep)
    ensures Split(x + sep + y, sep) == [x, y]
  {
    SplitAtFirst(x, y, sep);
    SplitUncut(y, sep);
  }

  /** Two separators between three separator-free pieces make three parts. */
  lemma SplitThree(x: string, y: string, z: string, sep: string)
    requires |sep| > 0 && Unbordered(sep)
    requires !Contains(x, sep) && !Contains(y, sep) && !Contains(z, sep)
    ensures Split(x + sep + y + sep + z, sep) == [x, y, z]
  {
    var rest := y + sep + z;
    ConcatRegroup(x, sep, y, z);
    SplitTwo(y, z, sep);
    SplitAtFirst(x, rest, sep);
    assert [x] + [y, z] == [x, y, z];
  }
}
