# Environment check of the workshop notebooks, in Dafny

This project models `run_env_check` from `notebooks/check_env.py`. The
function reads the `dependencies` list of the workshop's `environment.yml`
and turns each line into a requirements dict:

- `name=version` pins a version;
- `name>=min` and `name>=min,<=max` give a range;
- any other split falls back to the whole line with no requirement;
- a line whose package part contains a hyphen is skipped;
- the key is the name after any `conda` channel prefix (`channel::name`).

The function then runs the checks in this order:

- It pops the `python` entry and compares the running interpreter with it,
  component by component.
- It imports every other package and compares the base version of its
  `__version__` with the requirement.
- It prints one `[ OK ]` or `[FAIL]` report per requirement and collects
  the failed items.
- In strict mode (`raise_exc=True`) it raises when anything failed.

The model is functional:

- The dependency lines are a `seq<string>`.
- The dict is an insertion-ordered association list (`OrderedDict`).
- The run is a pure function (`EnvCheck.RunEnvCheck`) from the lines and an
  `Environment` to the printed reports, the `failures` list and the raise flag.
- The `Environment` is the interpreter's `(major, minor, micro)`, an import
  oracle and `base_version`.

Modules, in dependency order:

- `Optional`: the `Option` type.
- `PyStr`: the Python `str` operations the parser uses. They are `sep in s`,
  `s.split(sep)` and taking the last part of a split.
- `Numerals`: Python's `int(s)` and the decimal text of a natural number.
- `OrderedDict`: `d[k] = v`, `d.get(k)`, `d.pop(k)` and the key order of a
  Python dict.
- `VersionOrder`: Python's `<` on `str`, and a numeric release order.
- `Requirements`: the line parser and the fold that builds the requirements
  dict (lines 35-50).
- `Reports`: the OK/FAIL reports, the two failure-message shapes and the
  `failures` list (lines 14-29).
- `Interpreter`: the `python` component check (lines 53-68).
- `Packages`: the decision for one package (lines 70-89 and 116).
- `EnvCheck`: one whole run and the strict-mode verdict (lines 118-119).

Three behaviours of the code are easy to misread, and the model keeps them
as written:

- The range test at lines 79-80 compares two `base_version` **strings** with
  `<` and `>`. That is lexicographic order, not the numeric order that
  `Version` objects have and that the `ffmpeg` branch at lines 98-101 uses
  for the same test (see Findings).
- The hyphen test at line 48 skips a line when its package part contains a
  `-` **anywhere**, channel included. So `conda-forge::numpy` and
  `scikit-learn` lines are both dropped.
- The packages are checked in dict insertion order. A repeated key keeps the
  position of its first line and takes the value of its last.

## Model

| member | source | states |
|---|---|---|
| PyStr.FindFrom | notebooks/check_env.py:38 | `sep in s` looks for the leftmost occurrence: the position found holds `sep` and no earlier one does; no position at all means `sep` never occurs |
| PyStr.Split | notebooks/check_env.py:39-45 | `s.split(sep)` always has at least one part |
| PyStr.SplitCount | notebooks/check_env.py:39-45 | a split has exactly one part exactly when `sep` does not occur in `s` |
| PyStr.JoinSplit | notebooks/check_env.py:39-45 | joining the parts of a split with the separator gives back the input |
| PyStr.SplitPartsAvoidSep | notebooks/check_env.py:39-45 | no part of a split contains the separator |
| PyStr.SplitAtFirst | notebooks/check_env.py:39-45 | for a separator with no border, a separator-free piece followed by the separator is cut off as the first part, whatever follows |
| PyStr.SplitLast | notebooks/check_env.py:50 | `split(sep)[-1]` is the whole string when `sep` is absent; otherwise it follows the final cut of the left-to-right scan, and the parts before it are exactly the split of the text before that cut (so `"a:::b".split("::")[-1]` is `":b"`, not `"b"`) |
| PyStr.SplitTwo | notebooks/check_env.py:39-41 | one separator between two separator-free pieces splits into exactly those two pieces |
| PyStr.SplitThree | notebooks/check_env.py:39-47 | two separators between three separator-free pieces split into exactly those three pieces |
| Numerals.Decimal | notebooks/check_env.py:62 | the f-string text of a natural number is a non-empty run of digits, has that value, and has no leading zero: a numeral of two or more digits never starts with `0`, so 0 is written `0` |
| Numerals.ParseInt | notebooks/check_env.py:57 | `int` accepts only an optional sign followed by at least one digit, so a lone sign or the empty text is rejected; an unsigned run of digits reads as its value, and a sign followed by digits always reads as the value of those digits, negated for `-` |
| Numerals.DecimalParses | notebooks/check_env.py:57 | `int` reads back the decimal text of every natural number as that number |
| OrderedDict.Get | notebooks/check_env.py:50 | lookup finds nothing exactly when the key is not among the dict's keys |
| OrderedDict.GetFindsEntry | notebooks/check_env.py:50 | in a dict without repeated keys, lookup of an entry's key gives that entry's value |
| OrderedDict.Put | notebooks/check_env.py:50 | `d[k] = v` keeps the key order when `k` is present, else appends `k` last |
| OrderedDict.PutGet | notebooks/check_env.py:50 | after `d[k] = v`, `k` maps to `v` and every other key maps to what it did before |
| OrderedDict.PutKeepsKeysUnique | notebooks/check_env.py:50 | assignment never creates a repeated key |
| OrderedDict.Pop | notebooks/check_env.py:54 | `pop` returns the value stored under the key, or none for a missing key (the `KeyError`), which leaves the dict unchanged |
| OrderedDict.PopKeys | notebooks/check_env.py:54 | after `pop`, the keys are the old keys with the popped one removed, the others in their order |
| OrderedDict.PopGet | notebooks/check_env.py:54 | after `pop`, the popped key is gone and every other key keeps its value |
| OrderedDict.PopKeepsKeysUnique | notebooks/check_env.py:54 | popping never creates a repeated key |
| Requirements.ChannelKey | notebooks/check_env.py:50 | the key contains no `::`; it is the package part itself when that has no `::`; otherwise the package part is some text, `::`, then the key, and splitting that text on `::` gives every part of the package part's split but the last, so the key is the last part Python's split produces |
| Requirements.TripleColonKey | notebooks/check_env.py:50 | the package part `a:::b` is keyed `:b`: the split cuts at the first `::` and keeps the third colon in the last part |
| Requirements.Bounds | notebooks/check_env.py:40-43 | the text after `>=` is a range with an upper bound exactly when it contains `,<=`: without one the minimum is the whole text; with one the text is `min,<=max` with neither bound holding `,<=`; three or more bounds joined with `,<=` give back the text, and none of them holds `,<=` |
| Requirements.ParseLine | notebooks/check_env.py:37-47 | the parse gives the line back: an unpinned result keeps the whole line; a pin is `name=version` with neither side holding `=` and no `>=` in the line; a range is `name>=rest` with no `>=` on either side and the bounds of `rest`. The fallback happens exactly when the split does not give two parts: a line whose `>=` split has two parts is a range, and a line without `>=` whose `=` split has two parts is a pin (the Parses lemmas below give each shape) |
| Requirements.AddLine | notebooks/check_env.py:48-50 | one turn of the loop: a kept line sets its key to its requirement and appends the key only when it is new; a skipped line changes nothing, and no other key's value moves |
| Requirements.Dependencies | notebooks/check_env.py:35-50 | the requirements dict never holds a key twice |
| Requirements.HyphenatedLineSkipped | notebooks/check_env.py:48-49 | a line whose package part contains `-` leaves the dict exactly as it was |
| Requirements.HyphenatedChannelDropped | notebooks/check_env.py:48-50 | a bare `channel::name` line from a hyphenated channel is skipped, because the hyphen test runs before the channel is cut off |
| Requirements.KeptLineOverwrites | notebooks/check_env.py:50 | a kept line sets its key to its requirement, leaves every other key's value alone, and appends its key only when the key is new |
| Requirements.DependencyKeysAreNames | notebooks/check_env.py:35-50 | a name is a key of the dict exactly when some kept line carries it |
| Requirements.DependencyOrder | notebooks/check_env.py:35-50 | the dict's key order is each kept name once, at the position of the first line that introduced it |
| Requirements.LastLineWins | notebooks/check_env.py:35-50 | the last kept line with a given key decides that key's requirement |
| Requirements.AbsentNameHasNoRequirement | notebooks/check_env.py:35-50 | a name that no kept line carries has no entry |
| Requirements.ParsesPinned | notebooks/check_env.py:44-45 | `name=version`, with no other `=`, pins exactly `version` under `name` |
| Requirements.ParsesLowerBound | notebooks/check_env.py:38-43 | `name>=min` without `,<=` gives the range `[min, None]` |
| Requirements.BoundsOfPair | notebooks/check_env.py:40-41 | `min,<=max` after the `>=` splits into the pair `[min, max]` |
| Requirements.ParsesRange | notebooks/check_env.py:38-43 | `name>=rest` with a single `>=` is keyed `name`, with the bounds of `rest` |
| Requirements.ParsesBounds | notebooks/check_env.py:38-41 | `name>=min,<=max` gives the range `[min, max]` under `name` |
| Requirements.BoundsOfTriple | notebooks/check_env.py:40-41 | `a,<=b,<=c` after the `>=` keeps all three bounds |
| Requirements.ParsesOverlong | notebooks/check_env.py:38-41 | `name>=a,<=b,<=c` is keyed `name` with the three-element bound list, not the whole line |
| Requirements.ParsesBareName | notebooks/check_env.py:44-47 | a bare name fails the two-name unpacking and maps the whole line to no requirement |
| Requirements.ParsesDoubleEquals | notebooks/check_env.py:44-47 | `name==version` splits into three parts and falls back to the whole line with no requirement |
| Requirements.ParsesRepeatedLowerBound | notebooks/check_env.py:38-47 | a line with two `>=` splits into three parts and falls back to the whole line with no requirement |
| VersionOrder.StrLess | notebooks/check_env.py:79-80 | `<` on strings is irreflexive and puts a proper prefix first |
| VersionOrder.StrLessTrichotomy | notebooks/check_env.py:79-80 | of two different strings exactly one is below the other |
| VersionOrder.StrLessIsLexicographic | notebooks/check_env.py:79-80 | `<` on the base-version strings is lexicographic order: a proper prefix, or a smaller character at the first difference |
| VersionOrder.StringOrderRanksTenBelowNine | notebooks/check_env.py:79-80 | as strings, "1.10" is below "1.9" |
| VersionOrder.ReleaseOrderIsNumeric | notebooks/check_env.py:79-80 | in the corrected order, "x.y" is below "x.z" exactly when y < z numerically |
| VersionOrder.TupleLessIrreflexive | notebooks/check_env.py:79-80 | no release is below itself in the corrected order |
| VersionOrder.TupleLessTransitive | notebooks/check_env.py:79-80 | the corrected order is transitive |
| Interpreter.ScanFrom | notebooks/check_env.py:56-64 | the loop ends with all compared components matching exactly when each one equals `int` of its part; otherwise it stops at the first component that does not match, which is a mismatch or a part `int` cannot read |
| Interpreter.ScanStopsAtMismatch | notebooks/check_env.py:56-64 | components after the first mismatch are never inspected: changing them does not change the result |
| Interpreter.ScanSeesThreeComponents | notebooks/check_env.py:56 | only the first min(3, number of parts) components are compared |
| Interpreter.MinorMismatchExample | notebooks/check_env.py:55-57 | the requirement "3.10.4", split on `.`, on a 3.9 interpreter stops at the minor number, whatever the micro |
| Interpreter.CheckPython | notebooks/check_env.py:53-66 | the `Python` report is OK exactly when every compared component matches; a failure names the requirement and the installed `major.minor` |
| Reports.FailureMessage | notebooks/check_env.py:20-29 | the message starts with the item; with a truthy installed version it shows ` version `, the required text, ` is required, but `, and ends with the installed version and ` installed.`; otherwise it is only ` is not installed.` after the item, whatever the required text |
| Reports.RangeText | notebooks/check_env.py:83 | the range text starts with `>= ` and the minimum, and goes on with ` and <= ` and the maximum exactly when the maximum is truthy |
| Reports.Emit | notebooks/check_env.py:16-29 | printing appends the report; each report adds its item to `failures` once when it is a failure and not at all when it is OK, so `failures` stays the list of failed items in order |
| Reports.NoFailedItemsIffAllOk | notebooks/check_env.py:118 | the failure list is empty exactly when every report is OK |
| Packages.CheckPackage | notebooks/check_env.py:70-116 | for a package that does not import, the report is "not installed"; for one that imports, the report is OK without a requirement, fails a range exactly when the base version is below the minimum or above a truthy maximum, and fails a pin exactly when the base versions differ |
| Packages.FailureTexts | notebooks/check_env.py:75-88 | a failed check of an imported package prints the requirement (a range as `>= min`, with ` and <= max` only for a truthy maximum) and the raw `__version__` |
| Packages.StringOrderRejectsNewerRelease | notebooks/check_env.py:79-80 | with the comparison as written, `numpy>=1.9` fails against an installed 1.10 |
| Packages.ReleaseOrderAcceptsNewerRelease | notebooks/check_env.py:79-80 | with the corrected comparison, the same requirement accepts 1.10 |
| Packages.ReleaseOrderAcceptsNewerMinor | notebooks/check_env.py:79-80 | with the corrected comparison, `>= x.y` accepts every `x.z` with y <= z |
| EnvCheck.CheckPythonEntry | notebooks/check_env.py:53-68 | a missing `python` entry prints nothing, and a present one prints exactly the interpreter report; the `failures` list stays in step |
| EnvCheck.CheckPackages | notebooks/check_env.py:70-116 | the package loop keeps what was printed before and appends the package reports after it, keeping `failures` in step |
| EnvCheck.PackageItems | notebooks/check_env.py:70 | the package loop reports the dict's keys, each once, in the dict's order |
| EnvCheck.PythonItems | notebooks/check_env.py:53-68 | the interpreter check names `Python` once when there is a `python` entry, and nothing otherwise |
| EnvCheck.RunEnvCheck | notebooks/check_env.py:53-119 | after a whole run: every requirement has exactly one report, `Python` first when there is a `python` entry and then the other keys in dict order; the first report is the interpreter check of the `python` entry, and every later one is the decision for its key's requirement and import result; `failures` lists the failed items in the order printed; the run raises exactly when strict mode is on and some report is a failure |
| EnvCheck.Check | notebooks/check_env.py:53-119 | on any requirements dict, the `failures` list at the end is exactly the failed items, in the order printed |
| EnvCheck.ReportsAreDecisions | notebooks/check_env.py:53-116 | on any dict without repeated keys, the first report is the interpreter check of the `python` entry when there is one, and every later report is the decision for a key other than `python` |
| EnvCheck.PackageReportsAreDecisions | notebooks/check_env.py:70-116 | the package loop's reports are the decisions for the keys left after `python` is popped, each against that key's requirement |
| EnvCheck.ReportsFollowKeys | notebooks/check_env.py:53-116 | on any dict without repeated keys, the reports name `Python` first when there is a `python` entry, then every other key once, in the dict's order |
| EnvCheck.NoPythonEntryNoInterpreterReport | notebooks/check_env.py:53-70 | without a `python` entry, no interpreter report is printed and the reports are exactly the package decisions in dict order |
| EnvCheck.PythonNeverImported | notebooks/check_env.py:54-72 | `python` is popped before the package loop, so what the import oracle says about `python` never changes the outcome |

## Left out

- Reading `../environment.yml` with `yaml.safe_load` (lines 32-33) is file I/O. The model takes the `dependencies` list as a sequence of strings. Non-string entries, such as a `pip:` sub-dict, would crash at line 45 and are not modelled.
- `importlib.import_module` and `mod.__version__` (lines 72-74) are calls into the Python runtime. They are an input oracle, `Packages.Installed`. A module without `__version__` raises `AttributeError` and is not modelled.
- `packaging.version.Version(...).base_version` (lines 75-86) is a library this model cannot see. It is an uninterpreted, total `string -> string` parameter, so the `InvalidVersion` it raises on malformed versions is not modelled.
- The `ffmpeg` fallback through `conda list` and JSON (lines 91-115) is an external process. The model behaves as if the conda listing were empty, and an `ffmpeg` that does not import reaches the "not installed" report of line 116.
- The coloured printing, the `sys.prefix` / `sys.version` lines and the `__main__` block (lines 18, 29, 58, 121-123) are output. Reports are `Reports.Report` records, not text on a terminal.
- Three paths raise out of `run_env_check` uncaught, and are excluded by the preconditions `EnvCheck.Completes` and `Packages.Checkable`:
  - a `python` entry that is not a string (line 56);
  - a compared component that `int` cannot read (line 57);
  - a range with three or more `,<=` parts for a package that imports (line 77).
- `importlib.import_module` raising anything other than `ImportError` is not modelled. The import oracle has only two answers, `ImportFails` and `Imported`. Two keys the parser can produce make the program crash where the model prints a report:
  - an empty key, from a line such as `numpy::`, makes `import_module('')` raise `ValueError` at line 72;
  - a key starting with `.`, from a line such as `.foo`, makes it raise `TypeError`.

  Neither is caught by the `except ImportError` at line 90. The model lets the oracle answer for these keys like any other.
- Packages.FailureTexts: the model also prints "not installed" for an imported package whose `__version__` is empty. The program never gets there: `Version("")` at line 75 raises `InvalidVersion`. The model reaches it only because `base` is total.
- Numerals.ParseInt: accepts an optional sign and ASCII digits only. Python's `int` also strips surrounding whitespace, allows `_` between digits and reads non-ASCII decimal digits; none of these is modelled.
- Packages.StringOrderRejectsNewerRelease: states only that the report is a failure. Its message follows from `Packages.FailureTexts`.

## Findings

| source | as written | input that shows it | evidently intended | confidence | as-written member | corrected member |
|---|---|---|---|---|---|---|
| notebooks/check_env.py:79-80 | the range test compares `base_version` strings with `<` and `>`, which is lexicographic order | requirement `numpy>=1.9`, installed `numpy` 1.10: "1.10" < "1.9" as strings, so the check reports a failure | compare release numbers numerically, so that 1.10 satisfies `>= 1.9`, as the same range test on `Version` objects in the `ffmpeg` branch (lines 98-101) does | not executed | Packages.StringOrderRejectsNewerRelease | Packages.ReleaseOrderAcceptsNewerMinor |

`VersionOrder.Ordering` selects the comparison. `StringOrder` is the code as
written, and every other member is stated for either order. The corrected
`ReleaseOrder` compares release numbers numerically and falls back to string
order for anything that is not a dotted run of digits.
