/**
 * What the check prints and collects (notebooks/check_env.py, lines 14-29):
 * an OK or FAIL line per item, the two shapes of failure message, and the
 * `failures` list that every failure report appends its item to.
 */
module Reports {
  import opened Optional

  /** One printed line: `[ OK ] item`, or `[FAIL]` and a message. */
  datatype Report = Ok(item: string) | Fail(item: string, message: string)

  /** Python's truth value of an optional string: `None` and `""` are false. */
  predicate Truthy(v: Option<string>) {
    v.Some? && v.value != ""
  }

  /**
   * The message `_print_version_failure` prints: the required and installed
   * versions when some version is known, otherwise only "not installed".
   */
  function FailureMessage(item: string, required: string, installed: Option<string>): (m: string)
    ensures |m| > |item| && m[..|item|] == item
    ensures Truthy(installed) ==>
              && |m| == |item| + 9 + |required| + 18 + |installed.value| + 11
              && m[|item|..|item| + 9] == " version "
              && m[|item| + 9..|item| + 9 + |required|] == required
              && m[|item| + 9 + |required|..|item| + 27 + |required|] == " is required, but "
              && m[|m| - |installed.value| - 11..] == installed.value + " installed."
    ensures !Truthy(installed) ==> m[|item|..] == " is not installed."
  {
    if Truthy(installed) then
      item + " version " + required + " is required, but " + installed.value + " installed."
    else
      item + " is not installed."
  }

  /** The required text for a `[min, max]` range; the upper bound only when it is truthy. */
  function RangeText(min: string, max: Option<string>): (t: string)
    ensures |t| >= 3 + |min| && t[..3 + |min|] == ">= " + min
    ensures Truthy(max) <==> |t| > 3 + |min|
    ensures Truthy(max) ==> t[3 + |min|..] == " and <= " + max.value
  {
    ">= " + min + (if Truthy(max) then " and <= " + max.value else "")
  }

  /** The reports printed so far and the `failures` list. */
  datatype Log = Log(reports: seq<Report>, failures: seq<string>)

  /** The items of the failure reports, in the order they were printed. */
  function FailedItems(reports: seq<Report>): seq<string> {
    if |reports| == 0 then []
    else
      var last := reports[|reports| - 1];
      FailedItems(reports[..|reports| - 1]) + (if last.Fail? then [last.item] else [])
  }

  /** `failures` holds exactly the items of the failure reports, each once, in order. */
  predicate Consistent(log: Log) {
    log.failures == FailedItems(log.reports)
  }

  /**
   * `_print_version_ok` and `_print_version_failure`: print the report, and
   * for a failure also append its item to `failures`.
   */
  function Emit(log: Log, r: Report): (l: Log)
    ensures l.reports == log.reports + [r]
    ensures Consistent(log) ==> Consistent(l)
  {
    assert (log.reports + [r])[..|log.reports|] == log.reports;
    Log(log.reports + [r], if r.Fail? then log.failures + [r.item] else log.failures)
  }

  /** The failure list is empty exactly when no report is a failure. */
  lemma {:induction false} NoFailedItemsIffAllOk(reports: seq<Report>)
    ensures |FailedItems(reports)| == 0 <==> forall i :: 0 <= i < |reports| ==> reports[i].Ok?
    decreases |reports|
  {
    if |reports| > 0 {
      var init := reports[..|reports| - 1];
      NoFailedItemsIffAllOk(init);
      assert forall i :: 0 <= i < |init| ==> init[i] == reports[i];
    }
  }
}
