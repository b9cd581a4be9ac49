/** JavaScript `Number(text)` as the ratio parser applies it to the pieces of a
    `"W:H"` or `"W/H"` descriptor and as `==` applies it to a dropdown value: plain
    decimal digits with at most one decimal point. */
module Numbers {
  import opened Common
  import Text

  predicate IsDigit(ch: char) {
    '0' <= ch <= '9'
  }

  predicate AllDigits(s: string) {
    forall i :: 0 <= i < |s| ==> IsDigit(s[i])
  }

  function DigitValue(ch: char): (d: nat)
    requires IsDigit(ch)
    ensures d < 10
  {
    ch as int - '0' as int
  }

  function DigitChar(d: nat): (ch: char)
    requires d < 10
    ensures IsDigit(ch) && DigitValue(ch) == d
  {
    ('0' as int + d) as char
  }

  /** The natural number a digit string denotes, most significant digit first;
      the empty string denotes 0, as `Number("")` does. */
  function DigitsValue(s: string): nat
    requires AllDigits(s)
  {
    if s == [] then 0 else 10 * DigitsValue(s[..|s| - 1]) + DigitValue(s[|s| - 1])
  }

  /** The value of the digits after a decimal point, first digit worth a tenth;
      the empty string is worth 0, as `Number("5.")` is 5. */
  function FractionValue(s: string): (f: real)
    requires AllDigits(s)
    ensures 0.0 <= f < 1.0
  {
    if s == [] then 0.0 else (DigitValue(s[0]) as real + FractionValue(s[1..])) / 10.0
  }

  /** The decimal rendering of a natural number, without leading zeros. */
  function NatText(n: nat): (s: string)
    ensures |s| >= 1 && AllDigits(s)
  {
    if n < 10 then [DigitChar(n)] else NatText(n / 10) + [DigitChar(n % 10)]
  }

  /** Reading back the rendering of `n` gives `n`. */
  lemma {:induction false} NatTextRoundTrip(n: nat)
    ensures DigitsValue(NatText(n)) == n
  {
    if n >= 10 {
      NatTextRoundTrip(n / 10);
      var s := NatText(n);
      assert s[..|s| - 1] == NatText(n / 10);
    }
  }

  /** `Number(s)`: the empty string is 0, digits with at most one `.` (and at least
      one digit) are their decimal value, and everything else is NaN. */
  function NumberValue(s: string): (n: Num)
    ensures !n.Infinite?
    ensures n.Finite? ==> n.v >= 0.0
    ensures n.Finite? ==> forall i :: 0 <= i < |s| ==> IsDigit(s[i]) || s[i] == '.'
    ensures AllDigits(s) ==> n == Finite(DigitsValue(s) as real)
  {
    if s == "" then Finite(0.0)
    else if '.' !in s then
      if AllDigits(s) then Finite(DigitsValue(s) as real) else NaN
    else
      var i := Text.IndexOf(s, '.');
      var whole, frac := s[..i], s[i + 1..];
      if AllDigits(whole) && AllDigits(frac) && |whole| + |frac| > 0 then
        assert forall k :: 0 <= k < |s| && k != i ==> (k < i ==> s[k] == whole[k]) && (k > i ==> s[k] == frac[k - i - 1]);
        Finite(DigitsValue(whole) as real + FractionValue(frac))
      else
        NaN
  }

  /** `Number` reads back the decimal rendering of every natural number. */
  lemma NatTextNumber(n: nat)
    ensures NumberValue(NatText(n)) == Finite(n as real)
  {
    NatTextRoundTrip(n);
  }
}
