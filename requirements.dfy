/**
 * The import-time checks of plasmapy/__init__.py: the minimum versions
 * the package declares, `_check_numpy_version`, `_check_astropy_version`
 * and the comparison behind `is_old_python`.
 *
 * The `from numpy import __version__` (and astropy) import itself is not
 * modelled: a check takes the library's `__version__` as an `Option`,
 * `None` when the import raises `ImportError`.
 */
module Requirements {
  import opened Wrappers
  import Decimal
  import opened Split
  import opened Version

  const MINIMUM_PYTHON_VERSION: string := "3.6"
  const MINIMUM_NUMPY_VERSION: string := "1.13.0"
  const MINIMUM_ASTROPY_VERSION: string := "2.0.0"

  /** The exceptions a check can raise. */
  datatype CheckError =
    | ImportError(message: string)
    | ValueError(cause: Decimal.LiteralError)

  /** A check either returns normally or raises. */
  datatype Outcome = Passed | Raised(error: CheckError)

  lemma NumpyMinimumParses()
    ensures SplitVersion(MINIMUM_NUMPY_VERSION) == Ok([1, 13, 0])
  {
    RenderParses([1, 13, 0]);
    assert Render([1, 13, 0]) == MINIMUM_NUMPY_VERSION;
  }

  lemma AstropyMinimumParses()
    ensures SplitVersion(MINIMUM_ASTROPY_VERSION) == Ok([2, 0, 0])
  {
    RenderParses([2, 0, 0]);
    assert Render([2, 0, 0]) == MINIMUM_ASTROPY_VERSION;
  }

  lemma PythonMinimumParses()
    ensures SplitVersion(MINIMUM_PYTHON_VERSION) == Ok([3, 6])
  {
    RenderParses([3, 6]);
    assert Render([3, 6]) == MINIMUM_PYTHON_VERSION;
  }

  /** How an f-string shows the installed version: the text, or "None". */
  function Shown(installed: Option<string>): string {
    match installed
    case None => "None"
    case Some(v) => v
  }

  /** The message `_check_numpy_version` raises `ImportError` with. */
  function NumpyMessage(installed: Option<string>): string {
    "NumPy " + MINIMUM_NUMPY_VERSION
    + " is required for PlasmaPy. The currently installed version is " + Shown(installed)
  }

  /** The message `_check_astropy_version` raises `ImportError` with. */
  function AstropyMessage(installed: Option<string>): string {
    "Astropy " + MINIMUM_ASTROPY_VERSION
    + " or above is required for PlasmaPy.  The currently installed version is " + Shown(installed)
  }

  /**
   * The shape shared by both checks: `required_version` starts `False`
   * and stays so when the import fails; otherwise it is the result of
   * `_min_required_version`, whose `ValueError` is not caught. When it
   * ends `False`, `ImportError(message)` is raised.
   */
  function CheckMinimum(minimum: string, installed: Option<string>, message: string): (r: Outcome)
    ensures r.Passed? <==> installed.Some? && MinRequiredVersion(minimum, installed.value) == Ok(true)
    ensures r == Raised(ImportError(message))
            <==> installed.None? || MinRequiredVersion(minimum, installed.value) == Ok(false)
    ensures r.Raised? && r.error.ValueError?
            <==> installed.Some? && MinRequiredVersion(minimum, installed.value).Err?
    ensures r.Raised? && r.error.ValueError? ==> r.error.cause == MinRequiredVersion(minimum, installed.value).error
    ensures r.Raised? && r.error.ImportError? ==> r.error.message == message
  {
    match installed
    case None => Raised(ImportError(message))
    case Some(v) =>
      match MinRequiredVersion(minimum, v)
      case Err(e) => Raised(ValueError(e))
      case Ok(met) => if met then Passed else Raised(ImportError(message))
  }

  /** `_check_numpy_version`, given numpy's `__version__` if numpy imports. */
  function CheckNumpyVersion(installed: Option<string>): (r: Outcome)
    ensures r.Passed?
            <==> (installed.Some? && WellFormed(installed.value)
                  && AtLeast(SplitVersion(installed.value).value, [1, 13, 0]))
    ensures r.Raised? && r.error.ImportError?
            <==> (installed.None? || (WellFormed(installed.value)
                                      && !AtLeast(SplitVersion(installed.value).value, [1, 13, 0])))
    ensures r.Raised? && r.error.ImportError? ==> r.error.message == NumpyMessage(installed)
    ensures r.Raised? && r.error.ValueError?
            <==> installed.Some? && !WellFormed(installed.value)
    ensures r.Raised? && r.error.ValueError? ==> r.error.cause == SplitVersion(installed.value).error
  {
    NumpyMinimumParses();
    CheckMinimum(MINIMUM_NUMPY_VERSION, installed, NumpyMessage(installed))
  }

  /** `_check_astropy_version`, given astropy's `__version__` if astropy imports. */
  function CheckAstropyVersion(installed: Option<string>): (r: Outcome)
    ensures r.Passed?
            <==> (installed.Some? && WellFormed(installed.value)
                  && AtLeast(SplitVersion(installed.value).value, [2, 0, 0]))
    ensures r.Raised? && r.error.ImportError?
            <==> (installed.None? || (WellFormed(installed.value)
                                      && !AtLeast(SplitVersion(installed.value).value, [2, 0, 0])))
    ensures r.Raised? && r.error.ImportError? ==> r.error.message == AstropyMessage(installed)
    ensures r.Raised? && r.error.ValueError?
            <==> installed.Some? && !WellFormed(installed.value)
    ensures r.Raised? && r.error.ValueError? ==> r.error.cause == SplitVersion(installed.value).error
  {
    AstropyMinimumParses();
    CheckMinimum(MINIMUM_ASTROPY_VERSION, installed, AstropyMessage(installed))
  }

  /**
   * `sys.version_info < _split_version('3.6')` for an interpreter whose
   * `version_info` starts `(major, minor, micro)`. The comparison is
   * settled within the first two fields, so the release level and serial
   * that follow are never compared.
   */
  function IsOldPython(major: nat, minor: nat, micro: nat): (r: bool)
    ensures r <==> major < 3 || (major == 3 && minor < 6)
  {
    PythonMinimumParses();
    var v: Version := [major, minor, micro];
    assert AtLeast(v, [3, 6]) == if major != 3 then major > 3 else AtLeast(v[1..], [6]) by {
      assert [3, 6][1..] == [6];
    }
    assert AtLeast(v[1..], [6]) == (minor >= 6) by {
      assert v[1..][1..] == [micro] && [6][1..] == [];
    }
    !AtLeast([major, minor, micro], SplitVersion(MINIMUM_PYTHON_VERSION).value)
  }

  /** `"1..2"` has an empty component, so it raises `ValueError` naming the empty literal. */
  lemma EmptyComponentRaises()
    ensures SplitVersion("1..2") == Err(Decimal.InvalidLiteral(""))
  {
    SplitJoin(["1", "", "2"], '.');
    assert Join(["1", "", "2"], '.') == "1..2";
    assert ["1", "", "2"][1..] == ["", "2"];
    assert ParseComponents(["", "2"]) == Err(Decimal.InvalidLiteral(""));
  }

  /**
   * `"1.13rc1"` has a non-integer component, so it raises `ValueError`,
   * and the NumPy check passes that error on instead of reporting "too old".
   */
  lemma MalformedVersionsRaise()
    ensures SplitVersion("1.13rc1") == Err(Decimal.InvalidLiteral("13rc1"))
    ensures CheckNumpyVersion(Some("1.13rc1")) == Raised(ValueError(Decimal.InvalidLiteral("13rc1")))
  {
    SplitJoin(["1", "13rc1"], '.');
    assert Join(["1", "13rc1"], '.') == "1.13rc1";
    assert !Decimal.IsDigit("13rc1"[2]);
    assert ["1", "13rc1"][1..] == ["13rc1"];
  }

  /**
   * Components compare as numbers: `"1.13.0"` meets `"1.9.0"` although
   * it sorts before it as text, and `"1.9.0"` does not meet `"1.13.0"`.
   */
  lemma NumericComparison()
    ensures "1.13.0"[..2] == "1.9.0"[..2] && "1.13.0"[2] < "1.9.0"[2]
    ensures MinRequiredVersion("1.9.0", "1.13.0") == Ok(true)
    ensures MinRequiredVersion("1.13.0", "1.9.0") == Ok(false)
    ensures CheckNumpyVersion(Some("1.9.0")).Raised?
  {
    RenderParses([1, 9, 0]);
    assert Render([1, 9, 0]) == "1.9.0";
    NumpyMinimumParses();
  }

  /** `"1.13"` is a proper prefix of the numpy minimum, so it does not meet it. */
  lemma PrefixOfMinimum()
    ensures MinRequiredVersion(MINIMUM_NUMPY_VERSION, "1.13") == Ok(false)
    ensures CheckNumpyVersion(Some("1.13")) == Raised(ImportError(NumpyMessage(Some("1.13"))))
  {
    RenderParses([1, 13]);
    assert Render([1, 13]) == "1.13";
    NumpyMinimumParses();
    assert [1, 13] == [1, 13, 0][..2];
    ProperPrefixBelow([1, 13], [1, 13, 0]);
  }

  /** Appending a component to the numpy minimum still meets it. */
  lemma ExtensionOfMinimum()
    ensures CheckNumpyVersion(Some("1.13.0.1")) == Passed
  {
    NumpyMinimumParses();
    MeetsReflexive(MINIMUM_NUMPY_VERSION);
    RenderParses([1]);
    assert Render([1]) == "1";
    AppendKeepsMeeting(MINIMUM_NUMPY_VERSION, MINIMUM_NUMPY_VERSION, "1");
    assert MINIMUM_NUMPY_VERSION + "." + "1" == "1.13.0.1";
  }

  /** A missing library raises `ImportError`, whose message shows the version as `None`. */
  lemma MissingLibraryRaises()
    ensures CheckNumpyVersion(None) == Raised(ImportError(NumpyMessage(None)))
    ensures CheckAstropyVersion(None) == Raised(ImportError(AstropyMessage(None)))
    ensures Shown(None) == "None"
  {
  }
}
