/** Python's `float(text)` restricted to plain decimal literals: surrounding whitespace, an optional
    sign, and digits with at most one decimal point. `None` stands for the `ValueError` that `float`
    raises on any other text. */
module Decimal {
  import opened Wrappers
  import opened Text

  predicate IsDigit(c: char) {
    '0' <= c <= '9'
  }

  predicate AllDigits(s: string) {
    forall k :: 0 <= k < |s| ==> IsDigit(s[k])
  }

  function DigitValue(c: char): nat
    requires IsDigit(c)
  {
    c as int - '0' as int
  }

  function DigitChar(d: nat): (c: char)
    requires d < 10
    ensures IsDigit(c) && DigitValue(c) == d
  {
    ('0' as int + d) as char
  }

  /** The number a string of decimal digits denotes, most significant digit first. */
  function DigitsValue(s: string): nat
    requires AllDigits(s)
    decreases |s|
  {
    if s == [] then 0 else 10 * DigitsValue(s[..|s| - 1]) + DigitValue(s[|s| - 1])
  }

  /** The ASCII whitespace `float` strips from both ends: space, tab, line feed, vertical tab, form
      feed and carriage return. The separators U+001C to U+001F, which `str.isspace` accepts, are
      not stripped and make `float` raise `ValueError`. */
  predicate IsSpace(c: char) {
    c == ' ' || '\t' <= c <= '\r'
  }

  /** `s` without its leading whitespace. */
  function StripLeading(s: string): (r: string)
    ensures |r| <= |s| && r == s[|s| - |r|..]
    ensures forall k :: 0 <= k < |s| - |r| ==> IsSpace(s[k])
    ensures r == [] || !IsSpace(r[0])
    decreases |s|
  {
    if s != [] && IsSpace(s[0]) then StripLeading(s[1..]) else s
  }

  /** `s` without its trailing whitespace. */
  function StripTrailing(s: string): (r: string)
    ensures r <= s
    ensures forall k :: |r| <= k < |s| ==> IsSpace(s[k])
    ensures r == [] || !IsSpace(r[|r| - 1])
    decreases |s|
  {
    if s != [] && IsSpace(s[|s| - 1]) then StripTrailing(s[..|s| - 1]) else s
  }

  function Strip(s: string): string {
    StripTrailing(StripLeading(s))
  }

  /** The value of the digits after a decimal point: `0.d1d2...` is `(d1 + 0.d2...) / 10`. */
  function Fraction(frac: string): real
    requires AllDigits(frac)
    decreases |frac|
  {
    if frac == [] then 0.0 else (DigitValue(frac[0]) as real + Fraction(frac[1..])) / 10.0
  }

  /** An unsigned literal: digits, or digits around one decimal point with at least one digit in all. */
  function ParseUnsigned(s: string): Option<real> {
    var whole := TakeUntil(s, {'.'});
    if |whole| == |s| then
      if s != [] && AllDigits(s) then Some(DigitsValue(s) as real) else None
    else
      var frac := s[|whole| + 1..];
      if AllDigits(whole) && AllDigits(frac) && |whole| + |frac| > 0 then
        Some(DigitsValue(whole) as real + Fraction(frac))
      else None
  }

  /** `float(s)` for decimal literals, or `None` where `float` raises `ValueError`. */
  function ParseFloat(s: string): Option<real> {
    var t := Strip(s);
    if t != [] && (t[0] == '+' || t[0] == '-') then
      match ParseUnsigned(t[1..])
      case None => None
      case Some(v) => Some(if t[0] == '-' then -v else v)
    else ParseUnsigned(t)
  }

  /** The decimal digits of `n`, without leading zeros. */
  function NatDigits(n: nat): (s: string)
    ensures |s| >= 1 && AllDigits(s)
    ensures DigitsValue(s) == n
    ensures s[0] == '0' ==> n == 0
    decreases n
  {
    if n < 10 then [DigitChar(n)]
    else
      var init := NatDigits(n / 10);
      var s := init + [DigitChar(n % 10)];
      assert s[..|s| - 1] == init;
      s
  }

  /** A non-negative number of tenths written with exactly one decimal: `428` becomes `42.8`. */
  function UnsignedTenths(n: nat): (s: string)
    ensures |s| >= 3 && IsDigit(s[0]) && IsDigit(s[|s| - 1])
    ensures forall k :: 0 <= k < |s| ==> IsDigit(s[k]) || s[k] == '.'
  {
    NatDigits(n / 10) + "." + [DigitChar(n % 10)]
  }

  /** A temperature given in tenths of a degree, written with exactly one decimal (`42.8`, `-0.5`),
      the way the firmware's `measure_temp` prints it. */
  function FormatTenths(t: int): (s: string)
    ensures |s| >= 3 && IsDigit(s[|s| - 1])
    ensures forall k :: 0 <= k < |s| ==> IsDigit(s[k]) || s[k] == '-' || s[k] == '.'
  {
    if t < 0 then "-" + UnsignedTenths(-t) else UnsignedTenths(t)
  }

  /** How an unsigned literal with a decimal point is read, once the point has been located. */
  lemma {:induction false} ParseUnsignedAtPoint(s: string, whole: string)
    requires TakeUntil(s, {'.'}) == whole && |whole| < |s|
    requires AllDigits(whole) && AllDigits(s[|whole| + 1..]) && |s| > 1
    ensures ParseUnsigned(s) == Some(DigitsValue(whole) as real + Fraction(s[|whole| + 1..]))
  {
  }

  /** A digit string, a point and one digit parse to the value they spell. */
  lemma {:induction false} ParseOneDecimal(whole: string, d: nat)
    requires |whole| >= 1 && AllDigits(whole) && d < 10
    ensures ParseUnsigned(whole + "." + [DigitChar(d)])
         == Some(DigitsValue(whole) as real + d as real / 10.0)
  {
    var s := whole + "." + [DigitChar(d)];
    assert TakeUntil(s, {'.'}) == whole by {
      assert s[..|whole|] == whole;
      assert forall k :: 0 <= k < |whole| ==> whole[k] != '.';
      TakeUntilUnique(s, {'.'}, whole);
    }
    var frac := s[|whole| + 1..];
    assert Fraction(frac) == d as real / 10.0 by {
      assert frac == [DigitChar(d)] && frac[1..] == [];
    }
    ParseUnsignedAtPoint(s, whole);
  }

  lemma {:induction false} ParseUnsignedTenths(n: nat)
    ensures ParseUnsigned(UnsignedTenths(n)) == Some(n as real / 10.0)
  {
    ParseOneDecimal(NatDigits(n / 10), n % 10);
    assert n == 10 * (n / 10) + n % 10;
  }

  /** Reading back a formatted temperature gives the temperature. */
  lemma {:induction false} ParseFormatTenths(t: int)
    ensures ParseFloat(FormatTenths(t)) == Some(t as real / 10.0)
  {
    if t < 0 {
      ParseFormatNegative(t);
    } else {
      ParseFormatNonNegative(t);
    }
  }

  lemma {:induction false} ParseFormatNegative(t: int)
    requires t < 0
    ensures ParseFloat(FormatTenths(t)) == Some(t as real / 10.0)
  {
    var n: nat := -t;
    var u := UnsignedTenths(n);
    var s := FormatTenths(t);
    assert s == "-" + u;
    assert s[1..] == u;
    StripUnchanged(s);
    ParseUnsignedTenths(n);
    var v := n as real / 10.0;
    assert ParseUnsigned(s[1..]) == Some(v);
    ParseFloatNegative(s, v);
    assert -v == t as real / 10.0;
  }

  lemma {:induction false} ParseFormatNonNegative(t: int)
    requires t >= 0
    ensures ParseFloat(FormatTenths(t)) == Some(t as real / 10.0)
  {
    var s := FormatTenths(t);
    StripUnchanged(s);
    ParseUnsignedTenths(t);
    ParseFloatPlain(s, t as real / 10.0);
  }

  /** A literal made of a minus sign and an unsigned literal denotes the negated value. */
  lemma {:induction false} ParseFloatNegative(s: string, v: real)
    requires Strip(s) == s && s != [] && s[0] == '-' && ParseUnsigned(s[1..]) == Some(v)
    ensures ParseFloat(s) == Some(-v)
  {
  }

  /** A literal starting with a digit is read as an unsigned literal. */
  lemma {:induction false} ParseFloatPlain(s: string, v: real)
    requires Strip(s) == s && s != [] && IsDigit(s[0]) && ParseUnsigned(s) == Some(v)
    ensures ParseFloat(s) == Some(v)
  {
  }

  /** Text that neither starts nor ends with whitespace is left alone by stripping. */
  lemma {:induction false} StripUnchanged(s: string)
    requires s != [] && !IsSpace(s[0]) && !IsSpace(s[|s| - 1])
    ensures Strip(s) == s
  {
  }

  /** An information separator in front of a number is not stripped, so the text is no number. */
  lemma {:induction false} SeparatorNotStripped(s: string)
    requires s == "\U{1C}42.8"
    ensures ParseFloat(s) == None
  {
    StripUnchanged(s);
    var whole := TakeUntil(s, {'.'});
    assert whole == s[..3] by {
      TakeUntilUnique(s, {'.'}, s[..3]);
    }
    assert !IsDigit(whole[0]);
  }

  /** Text without any digit is never a number. */
  lemma {:induction false} ParseFloatNeedsDigit(s: string)
    requires forall k :: 0 <= k < |s| ==> !IsDigit(s[k])
    ensures ParseFloat(s) == None
  {
    var lead := StripLeading(s);
    var t := Strip(s);
    assert forall k :: 0 <= k < |t| ==> t[k] == s[|s| - |lead| + k];
    if t != [] && (t[0] == '+' || t[0] == '-') {
      NoDigitUnsigned(t[1..]);
    } else {
      NoDigitUnsigned(t);
    }
  }

  lemma {:induction false} NoDigitUnsigned(s: string)
    requires forall k :: 0 <= k < |s| ==> !IsDigit(s[k])
    ensures ParseUnsigned(s) == None
  {
    var whole := TakeUntil(s, {'.'});
    if |whole| < |s| {
      var frac := s[|whole| + 1..];
      if |whole| > 0 {
        assert !IsDigit(whole[0]);
      } else if |frac| > 0 {
        assert !IsDigit(frac[0]);
      }
    } else if s != [] {
      assert !IsDigit(s[0]);
    }
  }
}
