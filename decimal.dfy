/**
 * Python's `int(text)` on decimal component strings, and the decimal
 * rendering `str(n)` that undoes it.
 *
 * `int` also accepts surrounding whitespace, a sign, underscores between
 * digits and non-ASCII digits; this model accepts only nonempty runs of
 * the ASCII digits '0'..'9' and rejects everything else with the same
 * `ValueError` that `int` raises.
 */
module Decimal {
  import opened Wrappers

  /** The `ValueError` that `int(literal)` raises for a literal it cannot read. */
  datatype LiteralError = InvalidLiteral(literal: string)

  predicate IsDigit(c: char) {
    '0' <= c <= '9'
  }

  /** Every character is an ASCII digit (the empty string included). */
  predicate AllDigits(s: string) {
    forall i :: 0 <= i < |s| ==> IsDigit(s[i])
  }

  /** A literal that `int` accepts in this model. */
  predicate IsDigits(s: string) {
    |s| > 0 && AllDigits(s)
  }

  /** A literal written the way `str` writes a number: no leading zero. */
  predicate IsCanonical(s: string) {
    IsDigits(s) && (s[0] == '0' ==> |s| == 1)
  }

  function DigitValue(c: char): (d: nat)
    requires IsDigit(c)
    ensures d < 10
  {
    c as int - '0' as int
  }

  function DigitChar(d: nat): (c: char)
    requires d < 10
    ensures IsDigit(c) && DigitValue(c) == d
  {
    ('0' as int + d) as char
  }

  /** The number a run of digits denotes, most significant digit first. */
  function Value(s: string): nat
    requires AllDigits(s)
    decreases |s|
  {
    if |s| == 0 then 0 else Value(s[..|s| - 1]) * 10 + DigitValue(s[|s| - 1])
  }

  /** `str(n)` for a natural number `n`. */
  function Show(n: nat): (s: string)
    ensures IsCanonical(s)
    ensures Value(s) == n
    decreases n
  {
    if n < 10 then [DigitChar(n)]
    else
      var init := Show(n / 10);
      var s := init + [DigitChar(n % 10)];
      assert s[..|s| - 1] == init;
      s
  }

  /** `int(s)`: the value of a digit run, or `ValueError` naming `s`. */
  function ParseInt(s: string): (r: Result<nat, LiteralError>)
    ensures r.Ok? <==> IsDigits(s)
    ensures r.Err? ==> r.error == InvalidLiteral(s)
    ensures r.Ok? && IsCanonical(s) ==> Show(r.value) == s
  {
    if IsDigits(s) then
      assert IsCanonical(s) ==> Show(Value(s)) == s by {
        if IsCanonical(s) { ShowValue(s); }
      }
      Ok(Value(s))
    else Err(InvalidLiteral(s))
  }

  /** A digit run without a leading zero denotes a positive number. */
  lemma {:induction false} ValuePositive(s: string)
    requires IsDigits(s) && s[0] != '0'
    ensures Value(s) >= 1
  {
    if |s| > 1 {
      var init := s[..|s| - 1];
      assert init[0] == s[0];
      ValuePositive(init);
    }
  }

  /** Rendering the value of a canonical literal gives back the literal. */
  lemma {:induction false} ShowValue(s: string)
    requires IsCanonical(s)
    ensures Show(Value(s)) == s
  {
    if |s| > 1 {
      var init := s[..|s| - 1];
      assert init[0] == s[0];
      ValuePositive(init);
      ShowValue(init);
      var last := s[|s| - 1];
      assert Value(s) / 10 == Value(init) && Value(s) % 10 == DigitValue(last);
      assert DigitChar(DigitValue(last)) == last;
      assert s == init + [last];
    } else {
      assert DigitChar(DigitValue(s[0])) == s[0];
    }
  }

  /** A leading zero does not change the number a digit run denotes. */
  lemma {:induction false} LeadingZeroIgnored(s: string)
    requires AllDigits(s)
    ensures AllDigits(['0'] + s) && Value(['0'] + s) == Value(s)
  {
    if |s| > 0 {
      var t := ['0'] + s;
      assert t[..|t| - 1] == ['0'] + s[..|s| - 1];
      LeadingZeroIgnored(s[..|s| - 1]);
    }
  }

  /** `int('0' + s) == int(s)`: `int` accepts leading zeros and ignores them. */
  lemma ParseIntLeadingZero(s: string)
    requires IsDigits(s)
    ensures ParseInt(['0'] + s) == ParseInt(s)
  {
    LeadingZeroIgnored(s);
  }

  /** `int(str(n)) == n`. */
  lemma ParseShow(n: nat)
    ensures ParseInt(Show(n)) == Ok(n)
  {
  }

  /** `int` accepts leading zeros, so two literals may denote one number. */
  lemma LeadingZeroAccepted()
    ensures ParseInt("013") == Ok(13)
    ensures ParseInt("13rc1") == Err(InvalidLiteral("13rc1"))
    ensures ParseInt("") == Err(InvalidLiteral(""))
  {
    assert "013"[..2] == "01" && "01"[..1] == "0" && "0"[..0] == "";
    assert Value("01") == 1;
  }
}
