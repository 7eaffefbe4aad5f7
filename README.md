# PlasmaPy import-time version checks, in Dafny

This project models the version logic that `plasmapy/__init__.py` runs when
the package is imported:

- `_split_version` turns a dotted version string such as `"1.13.0"` into a
  tuple of integers, one per `'.'`-separated component. It uses
  `str.split('.')` and `int()`, and `int()` raises `ValueError` on an empty
  or non-numeric component.
- `_min_required_version(required, current)` compares the two tuples with
  Python's tuple `>=`. The first differing component decides, numerically.
  When one tuple is a prefix of the other, the longer one is the greater.
- `_check_numpy_version` and `_check_astropy_version` raise `ImportError`
  when the library is missing or older than the declared minimum
  (`1.13.0` for NumPy, `2.0.0` for Astropy). A malformed installed
  version raises `ValueError`, because only `ImportError` is caught.
- `is_old_python` compares `sys.version_info` with `(3, 6)`.

Everything is pure, so the model is made of datatypes, functions and lemmas:

- `wrappers.dfy`: `Option` (Python's `None`) and `Result` (a value or the
  exception raised).
- `decimal.dfy`: `int()` on component strings (`ParseInt`) and its decimal
  rendering (`Show`).
- `split.dfy`: `str.split` with a one-character separator (`SplitOn`) and
  `str.join` (`Join`).
- `version.dfy`: `_split_version` (`SplitVersion`), the tuple order
  (`AtLeast`), `_min_required_version` (`MinRequiredVersion`), and the
  order's laws at the level of tuples and of version strings.
- `requirements.dfy`: the declared minimums, the two checks and
  `is_old_python`.

A library is modelled as its `__version__` string when it imports and as
`None` when the import fails. A check returns `Passed` or
`Raised(ImportError(message))` or `Raised(ValueError(cause))`. The message
is the f-string text of the source, with a missing version shown as `None`.

Consequences of the code as written, which the model keeps:

- A version with a pre-release or local part (`"1.13rc1"`,
  `"1.16.0.dev0+abc"`) makes the check raise `ValueError`. It does not
  report that the version is too low.
- `"1.13"` does not meet the minimum `"1.13.0"`, because a proper prefix
  compares as smaller.
- `int()` accepts leading zeros and ignores them, so the components `"013"`
  and `"13"` denote the same number.

The docstring of `_min_required_version` (plasmapy/__init__.py:14-15)
promises `True` or `False`. The code instead raises `ValueError` for a
version such as `"1.13rc1"`. The model follows the code.

## Model

| member | source | states |
|---|---|---|
| `Decimal.ParseInt` | plasmapy/__init__.py:10 | `int(piece)` succeeds exactly on nonempty digit runs. Otherwise it raises `ValueError` naming the piece. A canonical literal is rendered back to itself. |
| `Decimal.Show` | plasmapy/__init__.py:10 | The decimal rendering of `n` has no leading zero and denotes `n`. |
| `Decimal.ShowValue` | plasmapy/__init__.py:10 | Rendering the value of a literal without leading zeros gives back the literal. |
| `Decimal.ValuePositive` | plasmapy/__init__.py:10 | A digit run that does not start with `0` denotes a positive number. |
| `Decimal.LeadingZeroIgnored` | plasmapy/__init__.py:10 | Prefixing a digit run with `0` leaves the number it denotes unchanged. |
| `Decimal.ParseIntLeadingZero` | plasmapy/__init__.py:10 | `int('0' + s) == int(s)` for every digit run `s`. |
| `Decimal.ParseShow` | plasmapy/__init__.py:10 | `int(str(n)) == n`. |
| `Decimal.LeadingZeroAccepted` | plasmapy/__init__.py:10 | `"013"` parses to 13. `"13rc1"` and `""` raise `ValueError`. |
| `Split.SplitOn` | plasmapy/__init__.py:10 | `s.split('.')` has one more piece than `s` has dots, and no piece holds a dot. |
| `Split.JoinSplit` | plasmapy/__init__.py:10 | Joining the pieces of `s.split(sep)` with `sep` gives back `s`. |
| `Split.SplitWithoutSeparator` | plasmapy/__init__.py:10 | A text without the separator splits into itself alone. |
| `Split.SplitAppend` | plasmapy/__init__.py:10 | `(a + sep + b).split(sep)` is the pieces of `a` followed by the pieces of `b`. |
| `Split.SplitJoin` | plasmapy/__init__.py:10 | Splitting undoes joining when no piece holds the separator. |
| `Version.ParseComponents` | plasmapy/__init__.py:10 | The generator gives one integer per piece, in order, each the value `int` gives that piece. It fails exactly when some piece is not an integer literal, and then it raises the error of the first such piece. |
| `Version.SplitVersion` | plasmapy/__init__.py:9-10 | `_split_version(s)` succeeds exactly when every component is an integer literal. The tuple then has as many entries as `s` has dots, plus one, and entry `i` is `int` of component `i`. A failure carries the error of the first non-integer component. |
| `Version.RenderParses` | plasmapy/__init__.py:9-10 | Every nonempty tuple, rendered with dots, parses back to itself. |
| `Version.RenderSplitVersion` | plasmapy/__init__.py:9-10 | A well-formed version without leading zeros is the dotted rendering of its parsed tuple. |
| `Version.AtLeastIsFirstDifference` | plasmapy/__init__.py:20 | `AtLeast`, the recursive tuple `>=`, holds exactly when `required` is a prefix of `current` or the first differing component of `current` is greater. |
| `Version.AtLeastReflexive` | plasmapy/__init__.py:20 | Every tuple is `>=` itself. |
| `Version.AtLeastTotal` | plasmapy/__init__.py:20 | Of two tuples, one is `>=` the other. |
| `Version.AtLeastAntisymmetric` | plasmapy/__init__.py:20 | Two tuples are each `>=` the other exactly when they are equal. |
| `Version.AtLeastTransitive` | plasmapy/__init__.py:20 | Tuple `>=` is transitive. |
| `Version.ProperPrefixBelow` | plasmapy/__init__.py:20 | A proper prefix of a tuple is not `>=` it. |
| `Version.AppendPreservesAtLeast` | plasmapy/__init__.py:20 | Appending components to a tuple keeps it `>=` anything it was `>=`. |
| `Version.ParseComponentsAppend` | plasmapy/__init__.py:10 | Parsing two lists of pieces one after the other gives the two tuples concatenated. |
| `Version.SplitVersionAppend` | plasmapy/__init__.py:9-10 | `_split_version(a + '.' + b)` is the tuple of `a` followed by the tuple of `b`. |
| `Version.MinRequiredVersion` | plasmapy/__init__.py:13-20 | The result is a value exactly when both strings parse. A malformed `current` raises its own error first, then a malformed `required`. An answer of true means the first differing component of `current` is greater, or `required` is a prefix of `current`. |
| `Version.MeetsReflexive` | plasmapy/__init__.py:20 | Every well-formed version meets itself. |
| `Version.MeetsTotal` | plasmapy/__init__.py:20 | Of two well-formed versions, one meets the other. |
| `Version.MeetsAntisymmetric` | plasmapy/__init__.py:20 | Two well-formed versions each meet the other exactly when they parse to the same tuple. |
| `Version.MeetsTransitive` | plasmapy/__init__.py:20 | Meeting a minimum is transitive. |
| `Version.PrefixDoesNotMeet` | plasmapy/__init__.py:20 | A version whose tuple is a proper prefix of the required tuple does not meet it. |
| `Version.AppendKeepsMeeting` | plasmapy/__init__.py:20 | Appending well-formed components to a version that meets a minimum keeps it meeting the minimum. |
| `Requirements.NumpyMinimumParses` | plasmapy/__init__.py:5 | The NumPy minimum parses to `(1, 13, 0)`. |
| `Requirements.AstropyMinimumParses` | plasmapy/__init__.py:6 | The Astropy minimum parses to `(2, 0, 0)`. |
| `Requirements.PythonMinimumParses` | plasmapy/__init__.py:4 | The Python minimum parses to `(3, 6)`. |
| `Requirements.CheckMinimum` | plasmapy/__init__.py:26-39 | The shared accept/raise rule of both checks. It passes exactly when the library is present and meets the minimum. It raises `ImportError` with the given message exactly when the library is absent or below the minimum. It raises the parser's `ValueError` exactly when the installed version or the minimum is malformed. |
| `Requirements.CheckNumpyVersion` | plasmapy/__init__.py:23-39 | `_check_numpy_version` passes exactly when numpy is present and its tuple is `>= (1, 13, 0)`. It raises `ImportError` with `NumpyMessage`, the f-string of lines 38-39, when numpy is absent or older. It raises `ValueError` exactly when the version string is malformed. |
| `Requirements.CheckAstropyVersion` | plasmapy/__init__.py:41-57 | `_check_astropy_version` passes exactly when astropy is present and its tuple is `>= (2, 0, 0)`. It raises `ImportError` with `AstropyMessage`, the f-string of lines 56-57, when astropy is absent or older. It raises `ValueError` exactly when the version string is malformed. |
| `Requirements.IsOldPython` | plasmapy/__init__.py:60 | `version_info < (3, 6)` holds exactly when the major version is below 3, or it is 3 and the minor version is below 6. |
| `Requirements.EmptyComponentRaises` | plasmapy/__init__.py:10 | `"1..2"` raises `ValueError` naming the empty component. |
| `Requirements.MalformedVersionsRaise` | plasmapy/__init__.py:29-34 | `"1.13rc1"` raises `ValueError` naming the bad component. The NumPy check with `"1.13rc1"` raises that `ValueError` and does not report "too old". |
| `Requirements.NumericComparison` | plasmapy/__init__.py:20 | `"1.13.0"` meets `"1.9.0"` although it is smaller as text, and `"1.9.0"` does not meet `"1.13.0"`. |
| `Requirements.PrefixOfMinimum` | plasmapy/__init__.py:20 | `"1.13"` does not meet `"1.13.0"`, so the NumPy check raises `ImportError` for it. |
| `Requirements.ExtensionOfMinimum` | plasmapy/__init__.py:20 | `"1.13.0.1"` passes the NumPy check. |
| `Requirements.MissingLibraryRaises` | plasmapy/__init__.py:36-39 | A missing library makes both checks raise `ImportError`, and the message shows the version as `None` (`Shown`, the f-string's rendering of the installed version). |

## Left out

- The imports `from numpy import __version__` and `from astropy import __version__` (lines 30 and 48) are module loading. They are replaced by an `Option<string>` argument: `None` when the import fails.
- The subpackage imports at lines 68-77 are module loading with side effects, so they are not modelled.
- The `warnings.warn` call at line 63 is reporting, so it is not modelled. Only the comparison behind `is_old_python` is modelled.
- Requirements.IsOldPython: takes only the integer fields `(major, minor, micro)` of `sys.version_info`. The release level and serial are never reached by a comparison with the two-entry tuple `(3, 6)`.
- Decimal.ParseInt: accepts only nonempty runs of ASCII digits. Python's `int()` also accepts surrounding whitespace, a sign, underscores between digits and non-ASCII digits. Those literals raise `ValueError` in this model. The model also puts no limit on the number of digits. CPython 3.11 and later (and the 3.7.14, 3.8.14, 3.9.14 and 3.10.7 releases) raise `ValueError` for a literal of more than 4300 digits by default, leading zeros included; the limit is set with `sys.set_int_max_str_digits`. No real version component comes near that limit.
- Decimal.ParseIntLeadingZero: holds for digit runs of any length, so on interpreters with the 4300-digit limit it can differ for literals longer than the limit.
- Decimal.ParseShow: holds for every `n`; on interpreters with the 4300-digit limit `str(n)` itself raises for `n` of more than 4300 digits.
- The order of the import-time calls at lines 60-66 is not modelled: the Python version comparison runs first, then `_check_numpy_version()`, then `_check_astropy_version()`, so a failing NumPy check means the Astropy check never runs. The model states each check on its own.
- Split.SplitOn: models `str.split` only with a one-character separator, the only form the source uses.
- The exact text of the messages is modelled by `NumpyMessage` and `AstropyMessage`. No lemma evaluates a message to one literal string.
- `plasmapy/dispersion/numerical/stix_.py`, `plasmapy/formulary/collisions/timescales.py` and its test, and `plasmapy/collisions/__init__.py` are not part of this model. They hold floating-point physics over libraries outside this model, or only re-exports.
