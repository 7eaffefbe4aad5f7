/**
 * The version-string logic of plasmapy/__init__.py: `_split_version`
 * turns a dotted version string into a tuple of integers, and
 * `_min_required_version` compares two such tuples the way Python
 * compares tuples.
 */
module Version {
  import opened Wrappers
  import opened Decimal
  import opened Split

  /** A parsed version: the tuple of its integer components. */
  type Version = seq<nat>

  /** Every piece is a literal that `int` accepts. */
  predicate AllIntegers(pieces: seq<string>) {
    forall i :: 0 <= i < |pieces| ==> IsDigits(pieces[i])
  }

  /**
   * `tuple(int(p) for p in pieces)`: one integer per piece, in order, or
   * the `ValueError` of the first piece `int` rejects.
   */
  function ParseComponents(pieces: seq<string>): (r: Result<Version, LiteralError>)
    ensures r.Ok? <==> AllIntegers(pieces)
    ensures r.Ok? ==> |r.value| == |pieces|
    ensures r.Ok? ==> forall i :: 0 <= i < |pieces| ==> ParseInt(pieces[i]) == Ok(r.value[i])
    ensures r.Err? ==> exists k :: 0 <= k < |pieces| && ParseInt(pieces[k]) == Err(r.error)
                                     && forall i :: 0 <= i < k ==> IsDigits(pieces[i])
  {
    if pieces == [] then Ok([])
    else
      match ParseInt(pieces[0])
      case Err(e) => Err(e)
      case Ok(n) =>
        match ParseComponents(pieces[1..])
        case Err(e) =>
          ghost var k' :| 0 <= k' < |pieces| - 1 && ParseInt(pieces[1..][k']) == Err(e)
                          && forall i :: 0 <= i < k' ==> IsDigits(pieces[1..][i]);
          assert forall i :: 0 <= i < k' + 1 ==> IsDigits(pieces[i]) by {
            forall i | 0 <= i < k' + 1 ensures IsDigits(pieces[i]) {
              if i > 0 { assert pieces[i] == pieces[1..][i - 1]; }
            }
          }
          assert ParseInt(pieces[k' + 1]) == Err(e);
          Err(e)
        case Ok(ns) =>
          assert forall i :: 0 <= i < |pieces| ==> IsDigits(pieces[i]) by {
            forall i | 0 <= i < |pieces| ensures IsDigits(pieces[i]) {
              if i > 0 { assert pieces[i] == pieces[1..][i - 1]; }
            }
          }
          Ok([n] + ns)
  }

  /** `_split_version(s)`: parse a dotted version string. */
  function SplitVersion(s: string): (r: Result<Version, LiteralError>)
    ensures r.Ok? <==> AllIntegers(SplitOn(s, '.'))
    ensures r.Ok? ==> |r.value| == Count(s, '.') + 1
    ensures r.Ok? ==> forall i :: 0 <= i < |r.value| ==> ParseInt(SplitOn(s, '.')[i]) == Ok(r.value[i])
    ensures r.Err? ==> exists k :: 0 <= k < |SplitOn(s, '.')| && ParseInt(SplitOn(s, '.')[k]) == Err(r.error)
                                     && forall i :: 0 <= i < k ==> IsDigits(SplitOn(s, '.')[i])
  {
    ParseComponents(SplitOn(s, '.'))
  }

  /** A version string that `_split_version` accepts. */
  predicate WellFormed(s: string) {
    SplitVersion(s).Ok?
  }

  /** Every component is written without leading zeros. */
  predicate Canonical(s: string) {
    forall i :: 0 <= i < |SplitOn(s, '.')| ==> IsCanonical(SplitOn(s, '.')[i])
  }

  /** The decimal renderings of the components of `v`. */
  function ShowAll(v: Version): (r: seq<string>)
    ensures |r| == |v|
  {
    seq(|v|, i requires 0 <= i < |v| => Show(v[i]))
  }

  /** `'.'.join(str(n) for n in v)`: the version string of a tuple. */
  function Render(v: Version): string
    requires |v| > 0
  {
    Join(ShowAll(v), '.')
  }

  /** Every nonempty tuple, rendered with dots, parses back to itself. */
  lemma RenderParses(v: Version)
    requires |v| > 0
    ensures SplitVersion(Render(v)) == Ok(v)
  {
    var pieces := ShowAll(v);
    forall i | 0 <= i < |pieces| ensures '.' !in pieces[i] {
      assert IsDigits(pieces[i]) && !IsDigit('.');
    }
    SplitJoin(pieces, '.');
    var r := ParseComponents(pieces);
    assert r.Ok?;
    forall i | 0 <= i < |v| ensures r.value[i] == v[i] {
      ParseShow(v[i]);
    }
    assert r.value == v;
  }

  /** Parsing a canonical version string and rendering the tuple gives back the string. */
  lemma RenderSplitVersion(s: string)
    requires WellFormed(s) && Canonical(s)
    ensures |SplitVersion(s).value| > 0
    ensures Render(SplitVersion(s).value) == s
  {
    var pieces := SplitOn(s, '.');
    var v := SplitVersion(s).value;
    assert ShowAll(v) == pieces;
    JoinSplit(s, '.');
  }

  /**
   * `current >= required` on tuples: the first differing component
   * decides, and when one tuple is a prefix of the other the longer one
   * is the greater.
   */
  function AtLeast(current: Version, required: Version): bool {
    if |required| == 0 then true
    else if |current| == 0 then false
    else if current[0] != required[0] then current[0] > required[0]
    else AtLeast(current[1..], required[1..])
  }

  /**
   * The order of Python tuples as it is documented: either `required` is
   * a prefix of `current`, or at the first index where they differ the
   * component of `current` is greater.
   */
  ghost predicate FirstDifferenceGreater(current: Version, required: Version) {
    || (|required| <= |current| && current[..|required|] == required)
    || exists k :: 0 <= k < |current| && k < |required| && current[..k] == required[..k]
                   && current[k] > required[k]
  }

  /** The recursive comparison is the documented tuple order. */
  lemma {:induction false} AtLeastIsFirstDifference(current: Version, required: Version)
    ensures AtLeast(current, required) <==> FirstDifferenceGreater(current, required)
  {
    if |required| == 0 {
      assert current[..0] == required;
    } else if |current| == 0 {
    } else if current[0] != required[0] {
      if AtLeast(current, required) {
        assert current[..0] == required[..0];
      } else {
        if |required| <= |current| { assert current[..|required|][0] == current[0]; }
        forall k | 0 < k <= |current| && k <= |required| ensures current[..k] != required[..k] {
          assert current[..k][0] != required[..k][0];
        }
      }
    } else {
      var c, q := current[1..], required[1..];
      AtLeastIsFirstDifference(c, q);
      if |q| <= |c| && c[..|q|] == q {
        assert current[..|required|] == [current[0]] + c[..|q|];
        assert required == [required[0]] + q;
      } else if k' :| 0 <= k' < |c| && k' < |q| && c[..k'] == q[..k'] && c[k'] > q[k'] {
        assert current[..k' + 1] == [current[0]] + c[..k'];
        assert required[..k' + 1] == [required[0]] + q[..k'];
        assert current[k' + 1] > required[k' + 1];
      } else {
        if |required| <= |current| {
          assert c[..|q|] == current[..|required|][1..] && q == required[1..];
        }
        forall k | 0 <= k < |current| && k < |required| && current[..k] == required[..k]
          ensures current[k] <= required[k]
        {
          if k == 0 {
          } else {
            assert c[..k - 1] == current[..k][1..];
            assert q[..k - 1] == required[..k][1..];
            assert c[k - 1] <= q[k - 1];
          }
        }
      }
    }
  }

  lemma {:induction false} AtLeastReflexive(v: Version)
    ensures AtLeast(v, v)
  {
    if |v| > 0 { AtLeastReflexive(v[1..]); }
  }

  lemma {:induction false} AtLeastTotal(a: Version, b: Version)
    ensures AtLeast(a, b) || AtLeast(b, a)
  {
    if |a| > 0 && |b| > 0 && a[0] == b[0] { AtLeastTotal(a[1..], b[1..]); }
  }

  lemma {:induction false} AtLeastAntisymmetric(a: Version, b: Version)
    ensures AtLeast(a, b) && AtLeast(b, a) <==> a == b
  {
    if a == b {
      AtLeastReflexive(a);
    } else if |a| > 0 && |b| > 0 && a[0] == b[0] {
      AtLeastAntisymmetric(a[1..], b[1..]);
      assert a == [a[0]] + a[1..] && b == [b[0]] + b[1..];
    }
  }

  lemma {:induction false} AtLeastTransitive(a: Version, b: Version, c: Version)
    requires AtLeast(a, b) && AtLeast(b, c)
    ensures AtLeast(a, c)
  {
    if |c| > 0 && |b| > 0 && |a| > 0 && a[0] == b[0] == c[0] {
      AtLeastTransitive(a[1..], b[1..], c[1..]);
    }
  }

  /** A proper prefix of a tuple is below it. */
  lemma {:induction false} ProperPrefixBelow(current: Version, required: Version)
    requires |current| < |required| && current == required[..|current|]
    ensures !AtLeast(current, required)
  {
    if |current| > 0 {
      assert current[0] == required[0];
      ProperPrefixBelow(current[1..], required[1..]);
    }
  }

  /** Appending components never makes a tuple fall below one it was at least. */
  lemma {:induction false} AppendPreservesAtLeast(current: Version, extra: Version, required: Version)
    requires AtLeast(current, required)
    ensures AtLeast(current + extra, required)
  {
    if |required| > 0 && current[0] == required[0] {
      assert (current + extra)[1..] == current[1..] + extra;
      AppendPreservesAtLeast(current[1..], extra, required[1..]);
    }
  }

  /** Parsing the pieces of two lists is parsing each list. */
  lemma {:induction false} ParseComponentsAppend(p: seq<string>, q: seq<string>)
    requires ParseComponents(p).Ok? && ParseComponents(q).Ok?
    ensures ParseComponents(p + q) == Ok(ParseComponents(p).value + ParseComponents(q).value)
  {
    var r := ParseComponents(p + q);
    var v := ParseComponents(p).value + ParseComponents(q).value;
    forall i | 0 <= i < |p + q| ensures ParseInt((p + q)[i]) == Ok(v[i]) {
      if i >= |p| { assert (p + q)[i] == q[i - |p|]; }
    }
    assert r.Ok?;
    forall i | 0 <= i < |v| ensures r.value[i] == v[i] {
      assert ParseInt((p + q)[i]) == Ok(r.value[i]);
    }
    assert r.value == v;
  }

  /** `_split_version(a + '.' + b)` is the tuple of `a` followed by the tuple of `b`. */
  lemma SplitVersionAppend(a: string, b: string)
    requires WellFormed(a) && WellFormed(b)
    ensures SplitVersion(a + "." + b) == Ok(SplitVersion(a).value + SplitVersion(b).value)
  {
    SplitAppend(a, b, '.');
    assert a + "." + b == a + ['.'] + b;
    ParseComponentsAppend(SplitOn(a, '.'), SplitOn(b, '.'));
  }

  /**
   * `_min_required_version(required, current)`: whether `current` meets
   * the minimum `required`. `current` is parsed first, so a malformed
   * `current` raises its own `ValueError` whatever `required` is.
   */
  function MinRequiredVersion(required: string, current: string): (r: Result<bool, LiteralError>)
    ensures r.Ok? <==> WellFormed(current) && WellFormed(required)
    ensures !WellFormed(current) ==> r == Err(SplitVersion(current).error)
    ensures WellFormed(current) && !WellFormed(required) ==> r == Err(SplitVersion(required).error)
    ensures r.Ok? ==> (r.value <==> FirstDifferenceGreater(SplitVersion(current).value,
                                                           SplitVersion(required).value))
  {
    match SplitVersion(current)
    case Err(e) => Err(e)
    case Ok(c) =>
      match SplitVersion(required)
      case Err(e) => Err(e)
      case Ok(q) =>
        AtLeastIsFirstDifference(c, q);
        Ok(AtLeast(c, q))
  }

  /** Every well-formed version meets itself. */
  lemma MeetsReflexive(v: string)
    requires WellFormed(v)
    ensures MinRequiredVersion(v, v) == Ok(true)
  {
    AtLeastReflexive(SplitVersion(v).value);
  }

  /** Of two well-formed versions, one always meets the other. */
  lemma MeetsTotal(a: string, b: string)
    requires WellFormed(a) && WellFormed(b)
    ensures MinRequiredVersion(a, b) == Ok(true) || MinRequiredVersion(b, a) == Ok(true)
  {
    AtLeastTotal(SplitVersion(a).value, SplitVersion(b).value);
  }

  /** Two well-formed versions meet each other exactly when they parse to the same tuple. */
  lemma MeetsAntisymmetric(a: string, b: string)
    requires WellFormed(a) && WellFormed(b)
    ensures MinRequiredVersion(a, b) == Ok(true) && MinRequiredVersion(b, a) == Ok(true)
            <==> SplitVersion(a) == SplitVersion(b)
  {
    AtLeastAntisymmetric(SplitVersion(a).value, SplitVersion(b).value);
  }

  /** Meeting a minimum is transitive. */
  lemma MeetsTransitive(a: string, b: string, c: string)
    requires MinRequiredVersion(a, b) == Ok(true) && MinRequiredVersion(b, c) == Ok(true)
    ensures MinRequiredVersion(a, c) == Ok(true)
  {
    AtLeastTransitive(SplitVersion(c).value, SplitVersion(b).value, SplitVersion(a).value);
  }

  /** A current version whose tuple is a proper prefix of the required tuple does not meet it. */
  lemma PrefixDoesNotMeet(required: string, current: string)
    requires WellFormed(required) && WellFormed(current)
    requires |SplitVersion(current).value| < |SplitVersion(required).value|
    requires SplitVersion(current).value
             == SplitVersion(required).value[..|SplitVersion(current).value|]
    ensures MinRequiredVersion(required, current) == Ok(false)
  {
    ProperPrefixBelow(SplitVersion(current).value, SplitVersion(required).value);
  }

  /** Appending components to a version that meets a minimum keeps it meeting it. */
  lemma AppendKeepsMeeting(required: string, current: string, extra: string)
    requires MinRequiredVersion(required, current) == Ok(true)
    requires WellFormed(extra)
    ensures MinRequiredVersion(required, current + "." + extra) == Ok(true)
  {
    SplitVersionAppend(current, extra);
    AppendPreservesAtLeast(SplitVersion(current).value, SplitVersion(extra).value,
                           SplitVersion(required).value);
  }
}
