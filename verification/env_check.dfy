/**
 * One whole `run_env_check` (notebooks/check_env.py, lines 11-119) over the
 * dependency lines of the environment file: build the requirements dict, pop
 * and check `python`, check every other package in dict order, and raise in
 * strict mode when anything failed.
 */
module EnvCheck {
  import opened Optional
  import opened OrderedDict
  import opened VersionOrder
  import opened Requirements
  import opened Reports
  import opened Interpreter
  import opened Packages

  /** What the run reads from outside: the interpreter, the import results, `base_version`. */
  datatype Environment = Environment(info: VersionInfo, installed: string -> Installed, base: string -> string)

  /** The printed reports, the `failures` list, and whether the exception was raised. */
  datatype Outcome = Outcome(log: Log, raised: bool)

  /** The `python` entry, if any, is a string whose compared components `int` can read. */
  predicate PythonCheckable(entry: Option<Requirement>, info: VersionInfo) {
    match entry
    case None => true
    case Some(req) => req.Pinned? && !ScanRequirement(req.version, info).NotAnInt?
  }

  /** No package's decision ends in an uncaught exception. */
  predicate PackagesCheckable(d: Dict<Requirement>, installed: string -> Installed) {
    forall i :: 0 <= i < |d| ==> Checkable(d[i].1, installed(d[i].0))
  }

  /** The run reaches its verdict instead of raising from one of the crash paths. */
  predicate Completes(lines: seq<string>, env: Environment) {
    CompletesOn(Dependencies(lines), env)
  }

  predicate CompletesOn(d: Dict<Requirement>, env: Environment) {
    PythonCheckable(Get(d, "python"), env.info) && PackagesCheckable(Pop(d, "python").1, env.installed)
  }

  /** Lines 53-68: one `Python` report when the entry exists, nothing otherwise. */
  function CheckPythonEntry(log: Log, entry: Option<Requirement>, info: VersionInfo): (l: Log)
    requires PythonCheckable(entry, info)
    ensures entry.None? ==> l == log
    ensures entry.Some? ==> l.reports == log.reports + [CheckPython(entry.value.version, info)]
    ensures Consistent(log) ==> Consistent(l)
  {
    match entry
    case None => log
    case Some(req) =>
      Emit(log, CheckPython(req.version, info))
  }

  /** The report for the `i`-th entry of `d`. */
  function EntryReport(d: Dict<Requirement>, i: nat, env: Environment, ord: Ordering): Report
    requires i < |d| && PackagesCheckable(d, env.installed)
  {
    CheckPackage(d[i].0, d[i].1, env.installed(d[i].0), env.base, ord)
  }

  /** The decision for every entry of `d`, in the dict's order. */
  function PackageReports(d: Dict<Requirement>, env: Environment, ord: Ordering): (rs: seq<Report>)
    requires PackagesCheckable(d, env.installed)
    ensures |rs| == |d|
    ensures forall i :: 0 <= i < |d| ==> rs[i] == EntryReport(d, i, env, ord)
  {
    seq(|d|, i requires 0 <= i < |d| => EntryReport(d, i, env, ord))
  }

  /** Print the reports `rs` one after the other, each failure also going to `failures`. */
  function EmitAll(log: Log, rs: seq<Report>): (l: Log)
    ensures l.reports == log.reports + rs
    ensures Consistent(log) ==> Consistent(l)
    decreases |rs|
  {
    if |rs| == 0 then
      assert log.reports + rs == log.reports;
      log
    else
      EmitFirst(log, rs);
      EmitAll(Emit(log, rs[0]), rs[1..])
  }

  lemma EmitFirst(log: Log, rs: seq<Report>)
    requires |rs| > 0
    ensures Emit(log, rs[0]).reports + rs[1..] == log.reports + rs
    ensures Consistent(log) ==> Consistent(Emit(log, rs[0]))
  {
    assert rs == [rs[0]] + rs[1..];
  }

  /** Lines 70-116: the package loop prints one report per entry of `d`, in the dict's order. */
  function CheckPackages(log: Log, d: Dict<Requirement>, env: Environment, ord: Ordering): (l: Log)
    requires PackagesCheckable(d, env.installed)
    ensures l.reports == log.reports + PackageReports(d, env, ord)
    ensures Consistent(log) ==> Consistent(l)
  {
    EmitAll(log, PackageReports(d, env, ord))
  }

  /**
   * `run_env_check(raise_exc)` on the dependency lines, where `ord` is the
   * comparison the range test applies to base versions.
   */
  function RunEnvCheck(lines: seq<string>, env: Environment, ord: Ordering, raiseExc: bool): (o: Outcome)
    requires Completes(lines, env)
    ensures Consistent(o.log)
    ensures o.raised <==> raiseExc && exists i :: 0 <= i < |o.log.reports| && o.log.reports[i].Fail?
    ensures |o.log.reports| == |Keys(Dependencies(lines))|
    ensures Items(o.log.reports)
            == (if "python" in Keys(Dependencies(lines)) then ["Python"] else [])
               + Without(Keys(Dependencies(lines)), "python")
    ensures "python" in Keys(Dependencies(lines)) ==>
              |o.log.reports| > 0
              && o.log.reports[0] == CheckPython(Get(Dependencies(lines), "python").value.version, env.info)
    ensures PythonReports(Dependencies(lines)) <= |o.log.reports|
            && AllDecisions(Dependencies(lines), o.log.reports[PythonReports(Dependencies(lines))..], env, ord)
  {
    var o := Check(Dependencies(lines), env, ord, raiseExc);
    NoFailedItemsIffAllOk(o.log.reports);
    ReportsFollowKeys(Dependencies(lines), env, ord, raiseExc);
    ReportsAreDecisions(Dependencies(lines), env, ord, raiseExc);
    o
  }

  /** Lines 53-119 on the requirements dict `d`. */
  function Check(d: Dict<Requirement>, env: Environment, ord: Ordering, raiseExc: bool): (o: Outcome)
    requires CompletesOn(d, env)
    ensures Consistent(o.log)
  {
    var log := CheckPackages(CheckPythonEntry(Log([], []), Get(d, "python"), env.info), Pop(d, "python").1, env, ord);
    Outcome(log, |log.failures| > 0 && raiseExc)
  }

  /** How many interpreter reports a run on `d` prints first: one when there is a `python` entry. */
  function PythonReports(d: Dict<Requirement>): nat {
    if "python" in Keys(d) then 1 else 0
  }

  /**
   * `r` is the decision for its item: a key of `d` other than `python`,
   * checked against that key's requirement and import result.
   */
  predicate IsDecision(d: Dict<Requirement>, r: Report, env: Environment, ord: Ordering) {
    var k := r.item;
    && k in Keys(d) && k != "python"
    && Checkable(Get(d, k).value, env.installed(k))
    && r == CheckPackage(k, Get(d, k).value, env.installed(k), env.base, ord)
  }

  /** Every report of `rs` is the decision for its item. */
  predicate AllDecisions(d: Dict<Requirement>, rs: seq<Report>, env: Environment, ord: Ordering) {
    forall j :: 0 <= j < |rs| ==> IsDecision(d, rs[j], env, ord)
  }

  /**
   * Each report is the check of its own requirement: the interpreter check of
   * the `python` entry first when there is one, then for every other report
   * the decision for its key.
   */
  lemma ReportsAreDecisions(d: Dict<Requirement>, env: Environment, ord: Ordering, raiseExc: bool)
    requires CompletesOn(d, env) && UniqueKeys(d)
    ensures var reports := Check(d, env, ord, raiseExc).log.reports;
            && PythonReports(d) <= |reports|
            && ("python" in Keys(d) ==> reports[0] == CheckPython(Get(d, "python").value.version, env.info))
            && AllDecisions(d, reports[PythonReports(d)..], env, ord)
  {
    var rest := Pop(d, "python").1;
    var start := CheckPythonEntry(Log([], []), Get(d, "python"), env.info).reports;
    var reports := Check(d, env, ord, raiseExc).log.reports;
    CheckReports(d, env, ord, raiseExc);
    assert reports[|start|..] == PackageReports(rest, env, ord);
    PackageReportsAreDecisions(d, env, ord);
  }

  /** The reports of a run: the interpreter's, if any, then the package loop's. */
  lemma CheckReports(d: Dict<Requirement>, env: Environment, ord: Ordering, raiseExc: bool)
    requires CompletesOn(d, env)
    ensures var start := CheckPythonEntry(Log([], []), Get(d, "python"), env.info).reports;
            && |start| == PythonReports(d)
            && ("python" in Keys(d) ==> start == [CheckPython(Get(d, "python").value.version, env.info)])
            && Check(d, env, ord, raiseExc).log.reports == start + PackageReports(Pop(d, "python").1, env, ord)
  {
  }

  /** The package loop's reports are the decisions for the keys left after the pop. */
  lemma PackageReportsAreDecisions(d: Dict<Requirement>, env: Environment, ord: Ordering)
    requires UniqueKeys(d) && PackagesCheckable(Pop(d, "python").1, env.installed)
    ensures AllDecisions(d, PackageReports(Pop(d, "python").1, env, ord), env, ord)
  {
    var rest := Pop(d, "python").1;
    var rs := PackageReports(rest, env, ord);
    PopKeepsKeysUnique(d, "python");
    forall j | 0 <= j < |rs|
      ensures IsDecision(d, rs[j], env, ord)
    {
      var k := rest[j].0;
      GetFindsEntry(rest, j);
      PopGet(d, "python", k);
      assert rs[j] == EntryReport(rest, j, env, ord);
    }
  }

  /** The items the reports name, in the order printed. */
  function Items(reports: seq<Report>): (items: seq<string>)
    ensures |items| == |reports|
    ensures forall i :: 0 <= i < |reports| ==> items[i] == reports[i].item
  {
    seq(|reports|, i requires 0 <= i < |reports| => reports[i].item)
  }

  /**
   * Every requirement of the dict gets exactly one report, in map order:
   * `Python` first when there is a `python` entry, then each other key in
   * the order the keys first appeared.
   */
  lemma ReportsFollowKeys(d: Dict<Requirement>, env: Environment, ord: Ordering, raiseExc: bool)
    requires CompletesOn(d, env) && UniqueKeys(d)
    ensures |Check(d, env, ord, raiseExc).log.reports| == |d|
    ensures Items(Check(d, env, ord, raiseExc).log.reports)
            == (if "python" in Keys(d) then ["Python"] else []) + Without(Keys(d), "python")
  {
    var rest := Pop(d, "python").1;
    PopKeys(d, "python");
    WithoutCount(Keys(d), "python");
    var start := CheckPythonEntry(Log([], []), Get(d, "python"), env.info).reports;
    var rs := PackageReports(rest, env, ord);
    assert Check(d, env, ord, raiseExc).log.reports == start + rs;
    PythonItems(d, env.info);
    PackageItems(rest, env, ord);
    ItemsAppend(start, rs);
  }

  /** The interpreter check names `Python` once when there is a `python` entry, and is silent otherwise. */
  lemma PythonItems(d: Dict<Requirement>, info: VersionInfo)
    requires PythonCheckable(Get(d, "python"), info)
    ensures Items(CheckPythonEntry(Log([], []), Get(d, "python"), info).reports)
            == if "python" in Keys(d) then ["Python"] else []
  {
  }

  /** The package loop names the keys of its dict, in order. */
  lemma PackageItems(d: Dict<Requirement>, env: Environment, ord: Ordering)
    requires PackagesCheckable(d, env.installed)
    ensures Items(PackageReports(d, env, ord)) == Keys(d)
  {
    var rs := PackageReports(d, env, ord);
    forall i | 0 <= i < |rs|
      ensures Items(rs)[i] == Keys(d)[i]
    {
      assert rs[i] == EntryReport(d, i, env, ord);
    }
  }

  lemma ItemsAppend(a: seq<Report>, b: seq<Report>)
    ensures Items(a + b) == Items(a) + Items(b)
  {
    assert forall i :: 0 <= i < |a + b| ==> Items(a + b)[i] == (Items(a) + Items(b))[i];
  }

  /** A key list without repetitions loses exactly one entry when a present key is taken out. */
  lemma {:induction false} WithoutCount(ks: seq<string>, k: string)
    requires forall a, b :: 0 <= a < b < |ks| ==> ks[a] != ks[b]
    ensures |Without(ks, k)| == if k in ks then |ks| - 1 else |ks|
    decreases |ks|
  {
    if |ks| > 0 {
      WithoutCount(ks[1..], k);
      if ks[0] == k {
        assert k !in ks[1..];
      }
    }
  }

  /** Without a `python` entry, no interpreter report is printed: the reports are the packages', in order. */
  lemma NoPythonEntryNoInterpreterReport(lines: seq<string>, env: Environment, ord: Ordering, raiseExc: bool)
    requires Completes(lines, env) && "python" !in Keys(Dependencies(lines))
    ensures var reports := RunEnvCheck(lines, env, ord, raiseExc).log.reports;
            var d := Dependencies(lines);
            && |reports| == |d|
            && forall i :: 0 <= i < |d| ==> reports[i] == CheckPackage(d[i].0, d[i].1, env.installed(d[i].0), env.base, ord)
  {
    var d := Dependencies(lines);
    assert Pop(d, "python").1 == d;
    assert RunEnvCheck(lines, env, ord, raiseExc).log.reports == PackageReports(d, env, ord);
  }

  /**
   * `python` is popped before the package loop, so it is never imported:
   * what the import oracle says about it changes nothing.
   */
  lemma PythonNeverImported(lines: seq<string>, env: Environment, other: Installed, ord: Ordering, raiseExc: bool)
    requires Completes(lines, env)
    ensures var env' := env.(installed := k => if k == "python" then other else env.installed(k));
            Completes(lines, env') && RunEnvCheck(lines, env', ord, raiseExc) == RunEnvCheck(lines, env, ord, raiseExc)
  {
    var env' := env.(installed := k => if k == "python" then other else env.installed(k));
    PythonOracleIgnored(Dependencies(lines), env, env', ord, raiseExc);
  }

  lemma PythonOracleIgnored(d: Dict<Requirement>, env: Environment, env': Environment, ord: Ordering, raiseExc: bool)
    requires CompletesOn(d, env) && UniqueKeys(d)
    requires env'.info == env.info && env'.base == env.base
    requires forall k :: k != "python" ==> env'.installed(k) == env.installed(k)
    ensures CompletesOn(d, env') && Check(d, env', ord, raiseExc) == Check(d, env, ord, raiseExc)
  {
    var rest := Pop(d, "python").1;
    PopGet(d, "python", "python");
    assert "python" !in Keys(rest);
    forall i | 0 <= i < |rest|
      ensures env'.installed(rest[i].0) == env.installed(rest[i].0)
    {
      assert Keys(rest)[i] == rest[i].0;
    }
    assert PackageReports(rest, env, ord) == PackageReports(rest, env', ord);
  }
}
