/**
 * The interpreter version check (notebooks/check_env.py, lines 53-68): the
 * running `(major, minor, micro)` against the dot-separated `python`
 * requirement, one component at a time, for as many components as the
 * requirement gives (at most three), stopping at the first mismatch.
 */
module Interpreter {
  import opened Optional
  import opened PyStr
  import opened Numerals
  import opened Reports

  /** The first three fields of `sys.version_info`. */
  datatype VersionInfo = VersionInfo(major: nat, minor: nat, micro: nat)

  /** `getattr(python_version, component)` for the i-th of 'major', 'minor', 'micro'. */
  function Component(info: VersionInfo, i: nat): nat
    requires i < 3
  {
    if i == 0 then info.major else if i == 1 then info.minor else info.micro
  }

  /** How many components the `zip` with the three field names pairs up. */
  function Compared(parts: seq<string>): nat {
    if |parts| < 3 then |parts| else 3
  }

  /** Component `i` of the interpreter equals `int(parts[i])`. */
  predicate Matches(parts: seq<string>, info: VersionInfo, i: nat)
    requires i < Compared(parts)
  {
    ParseInt(parts[i]) == Some(Component(info, i) as int)
  }

  /**
   * How the loop ends: every compared component matched (the `else` of the
   * `for`), a component differed (the `break`), or `int` raised on one.
   */
  datatype Scan = AllMatch | MismatchAt(index: nat) | NotAnInt(index: nat)

  /** The loop from component `i` on. */
  function ScanFrom(parts: seq<string>, info: VersionInfo, i: nat): (s: Scan)
    requires i <= Compared(parts)
    decreases Compared(parts) - i
    ensures s.AllMatch? <==> forall j :: i <= j < Compared(parts) ==> Matches(parts, info, j)
    ensures !s.AllMatch? ==> i <= s.index < Compared(parts)
    ensures !s.AllMatch? ==> forall j :: i <= j < s.index ==> Matches(parts, info, j)
    ensures s.MismatchAt? ==> ParseInt(parts[s.index]).Some? && !Matches(parts, info, s.index)
    ensures s.NotAnInt? ==> ParseInt(parts[s.index]).None?
  {
    if i == Compared(parts) then AllMatch
    else
      var n := ParseInt(parts[i]);
      if n.None? then
        assert !Matches(parts, info, i);
        NotAnInt(i)
      else if n.value != Component(info, i) as int then
        assert !Matches(parts, info, i);
        MismatchAt(i)
      else ScanFrom(parts, info, i + 1)
  }

  /** The components of a `python` requirement and how the loop ends on them. */
  function ScanRequirement(required: string, info: VersionInfo): Scan {
    ScanFrom(Components(required), info, 0)
  }

  /** `python_req.split('.')`. */
  function Components(required: string): seq<string> {
    Split(required, ".")
  }

  /** `f'{major}.{minor}'`, the installed text of a Python failure. */
  function MajorMinor(info: VersionInfo): string {
    Decimal(info.major) + "." + Decimal(info.minor)
  }

  /**
   * The report for a `python` requirement: OK when every compared component
   * matches, otherwise one failure naming the requirement and `major.minor`.
   * A component `int` cannot read raises out of `run_env_check`; callers
   * exclude it.
   */
  function CheckPython(required: string, info: VersionInfo): (r: Report)
    requires !ScanRequirement(required, info).NotAnInt?
    ensures r.item == "Python"
    ensures r.Ok? <==> forall j :: 0 <= j < Compared(Components(required)) ==> Matches(Components(required), info, j)
    ensures r.Fail? ==> r.message == "Python" + " version " + required + " is required, but " + MajorMinor(info) + " installed."
  {
    match ScanRequirement(required, info)
    case AllMatch => Ok("Python")
    case MismatchAt(_) => Fail("Python", FailureMessage("Python", required, Some(MajorMinor(info))))
  }

  /**
   * The loop stops at the first mismatch: components after it, well-formed
   * or not, are never looked at.
   */
  lemma {:induction false} ScanStopsAtMismatch(parts: seq<string>, other: seq<string>, info: VersionInfo, i: nat, k: nat)
    requires i <= Compared(parts) && ScanFrom(parts, info, i) == MismatchAt(k)
    requires k < |other| && other[..k + 1] == parts[..k + 1]
    ensures i <= Compared(other) && ScanFrom(other, info, i) == MismatchAt(k)
    decreases k - i
  {
    SamePart(parts, other, k, k);
    assert k < Compared(other);
    if i < k {
      SamePart(parts, other, k, i);
      assert Matches(parts, info, i);
      ScanStopsAtMismatch(parts, other, info, i + 1, k);
    } else {
      assert ParseInt(other[k]) == ParseInt(parts[k]);
    }
  }

  lemma SamePart(parts: seq<string>, other: seq<string>, k: nat, j: nat)
    requires j <= k < |parts| && k < |other| && other[..k + 1] == parts[..k + 1]
    ensures other[j] == parts[j]
  {
    assert other[j] == other[..k + 1][j];
  }

  /** Only the first three components are ever compared; a fourth and later are ignored. */
  lemma {:induction false} ScanSeesThreeComponents(parts: seq<string>, info: VersionInfo, i: nat)
    requires i <= Compared(parts)
    ensures ScanFrom(parts, info, i) == ScanFrom(parts[..Compared(parts)], info, i)
    decreases Compared(parts) - i
  {
    var front := parts[..Compared(parts)];
    assert Compared(front) == Compared(parts);
    if i < Compared(parts) {
      assert front[i] == parts[i];
      ScanSeesThreeComponents(parts, info, i + 1);
    }
  }

  /** Requirement "3.10.4" on a 3.9 interpreter fails at the minor number, whatever the micro. */
  lemma MinorMismatchExample(micro: nat)
    ensures ScanRequirement("3.10.4", VersionInfo(3, 9, micro)) == MismatchAt(1)
  {
    ComponentsOfRelease();
    assert ParseInt("3") == Some(3);
    assert ParseInt("10") == Some(10);
  }

  lemma ComponentsOfRelease()
    ensures Components("3.10.4") == ["3", "10", "4"]
  {
    assert "3.10.4" == "3" + "." + "10" + "." + "4";
    CharAbsent("3", '.');
    CharAbsent("10", '.');
    CharAbsent("4", '.');
    SplitThree("3", "10", "4", ".");
  }
}
