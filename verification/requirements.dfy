/**
 * Turning the `dependencies` list of the environment file into the
 * requirements dict (notebooks/check_env.py, lines 35-50): each line is split
 * on `>=`, `,<=` or `=`, lines whose package part has a hyphen are skipped,
 * and the package part is keyed by what follows its last `::` cut.
 */
module Requirements {
  import opened Optional
  import opened PyStr
  import opened OrderedDict

  /** The value stored for a package, `req_version` in the check loop. */
  datatype Requirement =
    | Unpinned                                 // None: any version will do
    | Pinned(version: string)                  // `name=version`: one exact version
    | Range(min: string, max: Option<string>)  // `[min, max]`, or `[min, None]` without `,<=`
    | Overlong(bounds: seq<string>)            // a `,<=` split into three or more parts

  /** Python's truth value of `req_version`: `None` and `""` are false, a list never is. */
  predicate IsSet(r: Requirement) {
    match r
    case Unpinned => false
    case Pinned(v) => v != ""
    case _ => true
  }

  /**
   * What follows `>=`: split on `,<=` when it occurs, else `[versions, None]`.
   * The bounds always put the text back together: the upper bound is there
   * exactly when `,<=` occurs, and no bound contains `,<=`.
   */
  function Bounds(versions: string): (r: Requirement)
    ensures r.Range? || r.Overlong?
    ensures r.Range? && r.max.None? <==> !Contains(versions, ",<=")
    ensures r.Range? && r.max.None? ==> r.min == versions
    ensures r.Range? && r.max.Some? ==>
              versions == r.min + ",<=" + r.max.value && !Contains(r.min, ",<=") && !Contains(r.max.value, ",<=")
    ensures r.Overlong? ==> |r.bounds| >= 3 && Join(r.bounds, ",<=") == versions
    ensures r.Overlong? ==> forall k :: 0 <= k < |r.bounds| ==> !Contains(r.bounds[k], ",<=")
  {
    if Contains(versions, ",<=") then
      var parts := Split(versions, ",<=");
      SplitCount(versions, ",<=");
      if |parts| == 2 then
        SplitPair(versions, ",<=");
        Range(parts[0], Some(parts[1]))
      else
        JoinSplit(versions, ",<=");
        SplitPartsAvoidSep(versions, ",<=");
        Overlong(parts)
    else Range(versions, None)
  }

  /**
   * The package part of a dependency line and its requirement. A split into
   * any number of parts other than two is the `ValueError` of the tuple
   * unpacking, which falls back to the whole line with no requirement.
   */
  function ParseLine(line: string): (r: (string, Requirement))
    ensures r.1.Unpinned? ==> r.0 == line
    ensures r.1.Pinned? ==>
              !Contains(line, ">=") && line == r.0 + "=" + r.1.version
              && !Contains(r.0, "=") && !Contains(r.1.version, "=")
    ensures r.1.Range? || r.1.Overlong? ==>
              |r.0| + 2 <= |line| && line == r.0 + ">=" + line[|r.0| + 2..]
              && !Contains(r.0, ">=") && !Contains(line[|r.0| + 2..], ">=")
              && r.1 == Bounds(line[|r.0| + 2..])
    ensures Contains(line, ">=") && |Split(line, ">=")| == 2 ==> r.1.Range? || r.1.Overlong?
    ensures !Contains(line, ">=") && |Split(line, "=")| == 2 ==> r.1.Pinned?
  {
    if Contains(line, ">=") then
      var parts := Split(line, ">=");
      if |parts| == 2 then
        SplitPair(line, ">=");
        assert line[|parts[0]| + 2..] == parts[1];
        (parts[0], Bounds(parts[1]))
      else (line, Unpinned)
    else
      var parts := Split(line, "=");
      if |parts| == 2 then
        SplitPair(line, "=");
        (parts[0], Pinned(parts[1]))
      else (line, Unpinned)
  }

  function Package(line: string): string {
    ParseLine(line).0
  }

  function RequirementOf(line: string): Requirement {
    ParseLine(line).1
  }

  /** `pkg.split('::')[-1]`: the name after the last `::` cut, without any channel. */
  function ChannelKey(pkg: string): (key: string)
    ensures !Contains(key, "::")
    ensures !Contains(pkg, "::") ==> key == pkg
    ensures Contains(pkg, "::") ==> |key| + 2 <= |pkg| && pkg == pkg[..|pkg| - |key| - 2] + "::" + key
    ensures Contains(pkg, "::") ==> Split(pkg, "::") == Split(pkg[..|pkg| - |key| - 2], "::") + [key]
  {
    SplitPartsAvoidSep(pkg, "::");
    SplitLast(pkg, "::");
    Last(Split(pkg, "::"))
  }

  /** Three colons in a row are cut after the first two, as Python's split does. */
  lemma TripleColonKey()
    ensures ChannelKey("a:::b") == ":b"
  {
    var pkg := "a:::b";
    assert !OccursAt(pkg, "::", 0) by { assert pkg[0..2][0] == 'a'; }
    assert OccursAt(pkg, "::", 1) by { assert pkg[1..3] == "::"; }
    assert FindFrom(pkg, "::", 0) == Some(1);
    assert pkg[..1] == "a" && pkg[3..] == ":b";
    assert !Contains(":b", "::") by {
      assert !OccursAt(":b", "::", 0) by { assert ":b"[0..2][1] == 'b'; }
      forall j: nat | j > 0
        ensures !OccursAt(":b", "::", j)
      {
      }
    }
    SplitUncut(":b", "::");
    assert Split(pkg, "::") == ["a", ":b"];
  }

  /** A line is kept unless its package part, channel included, contains a hyphen. */
  predicate Kept(line: string) {
    !Contains(Package(line), "-")
  }

  function KeyOf(line: string): string {
    ChannelKey(Package(line))
  }

  /**
   * One turn of the loop at lines 36-50: a kept line sets its key to its
   * requirement and appends the key only when it is new; nothing else moves.
   */
  function AddLine(d: Dict<Requirement>, line: string): (d': Dict<Requirement>)
    ensures Keys(d') == if Kept(line) && KeyOf(line) !in Keys(d) then Keys(d) + [KeyOf(line)] else Keys(d)
    ensures forall k :: Get(d', k) == if Kept(line) && k == KeyOf(line) then Some(RequirementOf(line)) else Get(d, k)
  {
    if Kept(line) then
      var d' := Put(d, KeyOf(line), RequirementOf(line));
      assert forall k :: Get(d', k) == if k == KeyOf(line) then Some(RequirementOf(line)) else Get(d, k) by {
        forall k
          ensures Get(d', k) == if k == KeyOf(line) then Some(RequirementOf(line)) else Get(d, k)
        {
          PutGet(d, KeyOf(line), RequirementOf(line), k);
        }
      }
      d'
    else d
  }

  /** The requirements dict built from the dependency lines in order. */
  function Dependencies(lines: seq<string>): (d: Dict<Requirement>)
    ensures UniqueKeys(d)
  {
    if |lines| == 0 then []
    else
      var before := Dependencies(lines[..|lines| - 1]);
      PutKeepsKeysUnique(before, KeyOf(lines[|lines| - 1]), RequirementOf(lines[|lines| - 1]));
      AddLine(before, lines[|lines| - 1])
  }

  lemma DependenciesSnoc(lines: seq<string>, line: string)
    ensures Dependencies(lines + [line]) == AddLine(Dependencies(lines), line)
  {
    assert (lines + [line])[..|lines|] == lines;
  }

  // ----- Which lines end up in the dict, and with what -----

  /** A line whose package part has a hyphen changes nothing. */
  lemma HyphenatedLineSkipped(lines: seq<string>, line: string)
    requires Contains(Package(line), "-")
    ensures Dependencies(lines + [line]) == Dependencies(lines)
  {
    DependenciesSnoc(lines, line);
  }

  /**
   * A kept line sets its key to its requirement, leaves every other key as it
   * was, and adds its key at the end only when the key is new.
   */
  lemma KeptLineOverwrites(lines: seq<string>, line: string, k: string)
    requires Kept(line)
    ensures Get(Dependencies(lines + [line]), k) ==
              if k == KeyOf(line) then Some(RequirementOf(line)) else Get(Dependencies(lines), k)
    ensures Keys(Dependencies(lines + [line])) ==
              if KeyOf(line) in Keys(Dependencies(lines)) then Keys(Dependencies(lines))
              else Keys(Dependencies(lines)) + [KeyOf(line)]
  {
    DependenciesSnoc(lines, line);
  }

  /** The keys of the kept lines, in line order, repeats included. */
  function Names(lines: seq<string>): seq<string> {
    if |lines| == 0 then []
    else Names(lines[..|lines| - 1]) + (if Kept(lines[|lines| - 1]) then [KeyOf(lines[|lines| - 1])] else [])
  }

  /** The first occurrence of each name in `ks`, in order, skipping names already in `seen`. */
  function Distinct(ks: seq<string>, seen: set<string>): seq<string> {
    if |ks| == 0 then []
    else if ks[0] in seen then Distinct(ks[1..], seen)
    else [ks[0]] + Distinct(ks[1..], seen + {ks[0]})
  }

  lemma {:induction false} DistinctSnoc(ks: seq<string>, seen: set<string>, x: string)
    ensures Distinct(ks + [x], seen) == Distinct(ks, seen) + (if x in seen || x in ks then [] else [x])
    decreases |ks|
  {
    if |ks| == 0 {
      assert [x][1..] == [];
    } else {
      assert (ks + [x])[0] == ks[0] && (ks + [x])[1..] == ks[1..] + [x];
      if ks[0] in seen {
        DistinctSnoc(ks[1..], seen, x);
        assert x in ks <==> x in ks[1..] || x == ks[0];
      } else {
        DistinctSnoc(ks[1..], seen + {ks[0]}, x);
        assert x in ks <==> x in ks[1..] || x == ks[0];
      }
    }
  }

  /** The dict holds exactly the keys of the kept lines. */
  lemma {:induction false} DependencyKeysAreNames(lines: seq<string>, k: string)
    ensures k in Keys(Dependencies(lines)) <==> k in Names(lines)
    decreases |lines|
  {
    if |lines| > 0 {
      var init := lines[..|lines| - 1];
      var line := lines[|lines| - 1];
      assert lines == init + [line];
      DependencyKeysAreNames(init, k);
      if Kept(line) {
        KeptLineOverwrites(init, line, k);
      } else {
        DependenciesSnoc(init, line);
      }
    }
  }

  /**
   * Iteration order of the dict: each kept key once, at the position of the
   * first line that introduced it.
   */
  lemma {:induction false} DependencyOrder(lines: seq<string>)
    ensures Keys(Dependencies(lines)) == Distinct(Names(lines), {})
    decreases |lines|
  {
    if |lines| > 0 {
      var init := lines[..|lines| - 1];
      var line := lines[|lines| - 1];
      assert lines == init + [line];
      DependencyOrder(init);
      if Kept(line) {
        KeptLineOverwrites(init, line, KeyOf(line));
        DependencyKeysAreNames(init, KeyOf(line));
        DistinctSnoc(Names(init), {}, KeyOf(line));
      } else {
        DependenciesSnoc(init, line);
        assert Names(lines) == Names(init) + [] == Names(init);
      }
    }
  }

  /**
   * The last kept line for a key decides its requirement: later lines with
   * other keys, and skipped lines, do not disturb it.
   */
  lemma {:induction false} LastLineWins(lines: seq<string>, i: nat)
    requires i < |lines| && Kept(lines[i])
    requires forall j :: i < j < |lines| && Kept(lines[j]) ==> KeyOf(lines[j]) != KeyOf(lines[i])
    ensures Get(Dependencies(lines), KeyOf(lines[i])) == Some(RequirementOf(lines[i]))
    decreases |lines|
  {
    var init := lines[..|lines| - 1];
    var line := lines[|lines| - 1];
    assert lines == init + [line];
    if i == |lines| - 1 {
      KeptLineOverwrites(init, line, KeyOf(line));
    } else {
      assert init[i] == lines[i];
      forall j | i < j < |init| && Kept(init[j])
        ensures KeyOf(init[j]) != KeyOf(init[i])
      {
        assert init[j] == lines[j];
      }
      LastLineWins(init, i);
      if Kept(line) {
        KeptLineOverwrites(init, line, KeyOf(lines[i]));
      } else {
        DependenciesSnoc(init, line);
      }
    }
  }

  /** A name no kept line carries has no requirement. */
  lemma AbsentNameHasNoRequirement(lines: seq<string>, k: string)
    requires k !in Names(lines)
    ensures Get(Dependencies(lines), k) == None
  {
    DependencyKeysAreNames(lines, k);
  }

  // ----- The shapes of a dependency line -----

  lemma SeparatorsUnbordered()
    ensures Unbordered("=") && Unbordered(">=") && Unbordered(",<=")
  {
    forall k | 0 < k < 2
      ensures ">="[..k] != ">="[2 - k..]
    {
      assert k == 1 && ">="[..1][0] == '>' && ">="[1..][0] == '=';
    }
    forall k | 0 < k < 3
      ensures ",<="[..k] != ",<="[3 - k..]
    {
      assert ",<="[..k][0] == ',' && ",<="[3 - k..][0] != ',';
    }
  }

  /** `name=version` with no other `=` and no `>=` pins the exact version. */
  lemma ParsesPinned(pkg: string, v: string)
    requires !Contains(pkg, "=") && !Contains(v, "=") && !Contains(pkg + "=" + v, ">=")
    ensures ParseLine(pkg + "=" + v) == (pkg, Pinned(v))
  {
    SeparatorsUnbordered();
    SplitAtFirst(pkg, v, "=");
    SplitUncut(v, "=");
  }

  /** `name>=min` gives the range `[min, None]`. */
  lemma ParsesLowerBound(pkg: string, lo: string)
    requires !Contains(pkg, ">=") && !Contains(lo, ">=") && !Contains(lo, ",<=")
    ensures ParseLine(pkg + ">=" + lo) == (pkg, Range(lo, None))
  {
    var line := pkg + ">=" + lo;
    assert line[|pkg|..|pkg| + 2] == ">=";
    OccurrenceIsContained(line, ">=", |pkg|);
    SeparatorsUnbordered();
    SplitAtFirst(pkg, lo, ">=");
    SplitUncut(lo, ">=");
  }

  /** `min,<=max` after the `>=` gives the range `[min, max]`. */
  lemma BoundsOfPair(lo: string, hi: string)
    requires !Contains(lo, ",<=") && !Contains(hi, ",<=")
    ensures Bounds(lo + ",<=" + hi) == Range(lo, Some(hi))
  {
    var versions := lo + ",<=" + hi;
    assert versions[|lo|..|lo| + 3] == ",<=";
    OccurrenceIsContained(versions, ",<=", |lo|);
    SeparatorsUnbordered();
    SplitAtFirst(lo, hi, ",<=");
    SplitUncut(hi, ",<=");
  }

  /** `name>=min,<=max` gives the range `[min, max]`. */
  lemma ParsesBounds(pkg: string, lo: string, hi: string)
    requires !Contains(pkg, ">=") && !Contains(lo + ",<=" + hi, ">=")
    requires !Contains(lo, ",<=") && !Contains(hi, ",<=")
    ensures ParseLine(pkg + ">=" + lo + ",<=" + hi) == (pkg, Range(lo, Some(hi)))
  {
    var versions := lo + ",<=" + hi;
    assert pkg + ">=" + lo + ",<=" + hi == pkg + ">=" + versions;
    ParsesRange(pkg, versions);
    BoundsOfPair(lo, hi);
  }

  /** `name>=rest` with a single `>=` is keyed `name`, with the bounds of `rest`. */
  lemma ParsesRange(pkg: string, versions: string)
    requires !Contains(pkg, ">=") && !Contains(versions, ">=")
    ensures ParseLine(pkg + ">=" + versions) == (pkg, Bounds(versions))
  {
    var line := pkg + ">=" + versions;
    SeparatorsUnbordered();
    SplitTwo(pkg, versions, ">=");
    assert line[|pkg|..|pkg| + 2] == ">=";
    OccurrenceIsContained(line, ">=", |pkg|);
  }

  /**
   * `name>=a,<=b,<=c` is keyed `name` with all three bounds; the two-name
   * unpacking of those bounds comes later, only for a package that imports.
   */
  lemma ParsesOverlong(pkg: string, a: string, b: string, c: string)
    requires !Contains(pkg, ">=") && !Contains(a + ",<=" + b + ",<=" + c, ">=")
    requires !Contains(a, ",<=") && !Contains(b, ",<=") && !Contains(c, ",<=")
    ensures ParseLine(pkg + ">=" + a + ",<=" + b + ",<=" + c) == (pkg, Overlong([a, b, c]))
  {
    var versions := a + ",<=" + b + ",<=" + c;
    assert pkg + ">=" + a + ",<=" + b + ",<=" + c == pkg + ">=" + versions;
    ParsesRange(pkg, versions);
    BoundsOfTriple(a, b, c);
  }

  /** `a,<=b,<=c` after the `>=` keeps all three bounds. */
  lemma BoundsOfTriple(a: string, b: string, c: string)
    requires !Contains(a, ",<=") && !Contains(b, ",<=") && !Contains(c, ",<=")
    ensures Bounds(a + ",<=" + b + ",<=" + c) == Overlong([a, b, c])
  {
    var versions := a + ",<=" + b + ",<=" + c;
    SeparatorsUnbordered();
    SplitThree(a, b, c, ",<=");
    assert versions[|a|..|a| + 3] == ",<=";
    OccurrenceIsContained(versions, ",<=", |a|);
  }

  /** Every occurrence of `>=` carries an `=`. */
  lemma NoEqualsNoLowerBound(s: string)
    requires !Contains(s, "=")
    ensures !Contains(s, ">=")
  {
    forall j: nat
      ensures !OccursAt(s, ">=", j)
    {
      if j + 2 <= |s| {
        assert !OccursAt(s, "=", j + 1);
        assert s[j + 1..j + 2] == s[j..j + 2][1..];
      }
    }
  }

  /** A bare name is its own package with no requirement. */
  lemma ParsesBareName(name: string)
    requires !Contains(name, "=")
    ensures ParseLine(name) == (name, Unpinned)
  {
    NoEqualsNoLowerBound(name);
    SplitUncut(name, "=");
  }

  /** `name==version` splits into three parts and falls back to the whole line, unpinned. */
  lemma ParsesDoubleEquals(pkg: string, v: string)
    requires !Contains(pkg, "=") && !Contains(v, "=") && !Contains(pkg + "==" + v, ">=")
    ensures ParseLine(pkg + "==" + v) == (pkg + "==" + v, Unpinned)
  {
    SeparatorsUnbordered();
    assert pkg + "==" + v == pkg + "=" + ("" + "=" + v);
    assert !Contains("", "=");
    SplitAtFirst("", v, "=");
    SplitAtFirst(pkg, "" + "=" + v, "=");
    SplitUncut(v, "=");
  }

  /** A repeated `>=` splits into three parts and falls back to the whole line, unpinned. */
  lemma ParsesRepeatedLowerBound(pkg: string, a: string, b: string)
    requires !Contains(pkg, ">=") && !Contains(a, ">=") && !Contains(b, ">=")
    ensures ParseLine(pkg + ">=" + a + ">=" + b) == (pkg + ">=" + a + ">=" + b, Unpinned)
  {
    var line := pkg + ">=" + a + ">=" + b;
    SeparatorsUnbordered();
    SplitThree(pkg, a, b, ">=");
    assert line[|pkg|..|pkg| + 2] == ">=";
    OccurrenceIsContained(line, ">=", |pkg|);
  }

  lemma ContainsInPrefix(a: string, b: string, sep: string)
    requires Contains(a, sep)
    ensures Contains(a + b, sep)
  {
    var i := FindFrom(a, sep, 0).value;
    assert (a + b)[i..i + |sep|] == a[i..i + |sep|];
    OccurrenceIsContained(a + b, sep, i);
  }

  /**
   * The hyphen test looks at the package part before the channel is cut off,
   * so a bare `channel::name` line from a hyphenated channel is dropped.
   */
  lemma HyphenatedChannelDropped(lines: seq<string>, channel: string, name: string)
    requires Contains(channel, "-") && !Contains(channel + "::" + name, "=")
    ensures Dependencies(lines + [channel + "::" + name]) == Dependencies(lines)
  {
    var line := channel + "::" + name;
    ParsesBareName(line);
    assert line == channel + ("::" + name);
    ContainsInPrefix(channel, "::" + name, "-");
    HyphenatedLineSkipped(lines, line);
  }
}
