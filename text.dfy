/** Decimal digits and zero-padded numerals, shared by the request parsers,
    the timestamp formatter and the success messages. */
module Text {

  predicate IsDigit(c: char) {
    '0' <= c <= '9'
  }

  predicate AllDigits(s: string) {
    forall i :: 0 <= i < |s| ==> IsDigit(s[i])
  }

  function DigitChar(d: nat): (c: char)
    requires d < 10
    ensures IsDigit(c) && c as int - '0' as int == d
  {
    (d + '0' as int) as char
  }

  /** The value of a string of decimal digits, most significant first. */
  function DigitsValue(s: string): nat
    requires AllDigits(s)
  {
    if s == [] then 0
    else DigitsValue(s[..|s| - 1]) * 10 + (s[|s| - 1] as int - '0' as int)
  }

  /** The shortest decimal numeral of `n` (no leading zeros). */
  function NatToString(n: nat): (s: string)
    ensures |s| >= 1 && AllDigits(s)
    ensures |s| > 1 ==> s[0] != '0'
  {
    if n < 10 then [DigitChar(n)]
    else NatToString(n / 10) + [DigitChar(n % 10)]
  }

  /** Reading the numeral of `n` back gives `n`. */
  lemma {:induction false} NatToStringRoundTrip(n: nat)
    ensures DigitsValue(NatToString(n)) == n
  {
    if n >= 10 {
      var s := NatToString(n);
      assert s[..|s| - 1] == NatToString(n / 10);
      NatToStringRoundTrip(n / 10);
    }
  }

  /** `n` written with exactly `width` digits, padded with leading zeros. */
  function PadLeft(n: nat, width: nat): (s: string)
    requires n < Pow10(width)
    ensures |s| == width && AllDigits(s)
    decreases width
  {
    if width == 0 then []
    else PadLeft(n / 10, width - 1) + [DigitChar(n % 10)]
  }

  function Pow10(k: nat): (p: nat)
    ensures p >= 1
  {
    if k == 0 then 1 else 10 * Pow10(k - 1)
  }

  /** Reading a padded numeral back gives the number. */
  lemma {:induction false} PadLeftRoundTrip(n: nat, width: nat)
    requires n < Pow10(width)
    ensures DigitsValue(PadLeft(n, width)) == n
    decreases width
  {
    if width > 0 {
      var s := PadLeft(n, width);
      assert s[..|s| - 1] == PadLeft(n / 10, width - 1);
      PadLeftRoundTrip(n / 10, width - 1);
    }
  }

  /** The value of `width` digits is below 10^width. */
  lemma {:induction false} DigitsValueBound(s: string)
    requires AllDigits(s)
    ensures DigitsValue(s) < Pow10(|s|)
  {
    if s != [] {
      DigitsValueBound(s[..|s| - 1]);
    }
  }

  /** Padding the value of a digit string to its own width gives the string back. */
  lemma {:induction false} PadLeftOfDigits(s: string)
    requires AllDigits(s)
    ensures DigitsValue(s) < Pow10(|s|)
    ensures PadLeft(DigitsValue(s), |s|) == s
  {
    DigitsValueBound(s);
    if s != [] {
      var init := s[..|s| - 1];
      var last := s[|s| - 1] as int - '0' as int;
      PadLeftOfDigits(init);
      assert DigitsValue(s) / 10 == DigitsValue(init);
      assert DigitsValue(s) % 10 == last;
      assert s == init + [s[|s| - 1]];
    }
  }
}
