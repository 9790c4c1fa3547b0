/**
 * The decision for one package of the requirements dict
 * (notebooks/check_env.py, lines 70-89 and 116): import it, then compare the
 * base version of its `__version__` against a range or an exact version.
 */
module Packages {
  import opened Optional
  import opened Numerals
  import opened VersionOrder
  import opened Requirements
  import opened Reports

  /** What `importlib.import_module(pkg)` and `mod.__version__` give. */
  datatype Installed = ImportFails | Imported(version: string)

  /**
   * The decision completes without an uncaught exception: a list of three or
   * more bounds fails the two-name unpacking at line 77 once the import has
   * succeeded.
   */
  predicate Checkable(req: Requirement, inst: Installed) {
    !(inst.Imported? && req.Overlong?)
  }

  /** The range test of lines 78-81: below the minimum, or above a truthy maximum. */
  predicate OutOfRange(ord: Ordering, installed: string, min: string, max: Option<string>, base: string -> string) {
    Below(ord, base(installed), base(min)) || (Truthy(max) && Below(ord, base(max.value), base(installed)))
  }

  /**
   * The one report for package `pkg` with requirement `req`. `base` is
   * `Version(_).base_version`; `ord` is the comparison applied to base
   * versions. An import failure goes straight to "not installed" (the conda
   * fallback for `ffmpeg` is not part of this model).
   */
  function CheckPackage(pkg: string, req: Requirement, inst: Installed, base: string -> string, ord: Ordering): (r: Report)
    requires Checkable(req, inst)
    ensures r.item == pkg
    ensures inst.ImportFails? ==> r == Fail(pkg, pkg + " is not installed.")
    ensures inst.Imported? && !IsSet(req) ==> r == Ok(pkg)
    ensures inst.Imported? && req.Range? ==> (r.Fail? <==> OutOfRange(ord, inst.version, req.min, req.max, base))
    ensures inst.Imported? && req.Pinned? && req.version != "" ==>
              (r.Fail? <==> base(inst.version) != base(req.version))
  {
    match inst
    case ImportFails =>
      // the required text is not printed when no version is known
      Fail(pkg, FailureMessage(pkg, "", None))
    case Imported(v) =>
      if !IsSet(req) then Ok(pkg)
      else
        match req
        case Range(min, max) =>
          if OutOfRange(ord, v, min, max, base) then Fail(pkg, FailureMessage(pkg, RangeText(min, max), Some(v)))
          else Ok(pkg)
        case Pinned(p) =>
          if base(v) != base(p) then Fail(pkg, FailureMessage(pkg, p, Some(v))) else Ok(pkg)
  }

  /**
   * The printed failure texts: for an installed version, the requirement
   * (a range as `>= min`, with ` and <= max` only for a truthy maximum) and
   * the raw `__version__`. For an empty `__version__` the model prints "not
   * installed"; the program never gets that far, because `Version("")` at
   * line 75 raises `InvalidVersion` first, which the total `base` parameter
   * does not model.
   */
  lemma FailureTexts(pkg: string, req: Requirement, inst: Installed, base: string -> string, ord: Ordering)
    requires Checkable(req, inst) && inst.Imported? && CheckPackage(pkg, req, inst, base, ord).Fail?
    ensures inst.version != "" && req.Range? ==>
              CheckPackage(pkg, req, inst, base, ord).message
              == pkg + " version " + (">= " + req.min + (if Truthy(req.max) then " and <= " + req.max.value else ""))
                 + " is required, but " + inst.version + " installed."
    ensures inst.version != "" && req.Pinned? ==>
              CheckPackage(pkg, req, inst, base, ord).message
              == pkg + " version " + req.version + " is required, but " + inst.version + " installed."
    ensures inst.version == "" ==> CheckPackage(pkg, req, inst, base, ord).message == pkg + " is not installed."
  {
  }

  /**
   * With the comparison as written, `numpy>=1.9` rejects an installed 1.10:
   * as strings, "1.10" sorts before "1.9".
   */
  lemma StringOrderRejectsNewerRelease(base: string -> string)
    requires base("1.10") == "1.10" && base("1.9") == "1.9"
    ensures CheckPackage("numpy", Range("1.9", None), Imported("1.10"), base, StringOrder).Fail?
  {
    StringOrderRanksTenBelowNine();
  }

  /** With release order, the same requirement accepts 1.10. */
  lemma ReleaseOrderAcceptsNewerRelease(base: string -> string)
    requires base("1.10") == "1.10" && base("1.9") == "1.9"
    ensures CheckPackage("numpy", Range("1.9", None), Imported("1.10"), base, ReleaseOrder) == Ok("numpy")
  {
    DecimalExamples();
    ReleaseOrderAcceptsNewerMinor("numpy", base, 1, 9, 10);
  }

  lemma DecimalExamples()
    ensures Decimal(1) + "." + Decimal(9) == "1.9" && Decimal(1) + "." + Decimal(10) == "1.10"
  {
    assert Decimal(1) == "1" && Decimal(9) == "9";
    assert Decimal(10) == Decimal(1) + [DigitChar(0)] == "10";
  }

  /**
   * Release order accepts every newer minor release of the same major for a
   * lower bound: "x.z" passes `>= x.y` whenever `y <= z`.
   */
  lemma ReleaseOrderAcceptsNewerMinor(pkg: string, base: string -> string, x: nat, y: nat, z: nat)
    requires y <= z
    requires base(Decimal(x) + "." + Decimal(y)) == Decimal(x) + "." + Decimal(y)
    requires base(Decimal(x) + "." + Decimal(z)) == Decimal(x) + "." + Decimal(z)
    ensures CheckPackage(pkg, Range(Decimal(x) + "." + Decimal(y), None), Imported(Decimal(x) + "." + Decimal(z)), base, ReleaseOrder)
            == Ok(pkg)
  {
    ReleaseOrderIsNumeric(x, z, y);
  }
}
