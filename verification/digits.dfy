/** Fixed-width, zero-padded decimal fields as they appear in time texts. */
module Digits {

  predicate IsDigit(c: char) {
    '0' <= c <= '9'
  }

  predicate AllDigits(s: string) {
    forall i :: 0 <= i < |s| ==> IsDigit(s[i])
  }

  function DigitValue(c: char): int
    requires IsDigit(c)
  {
    c as int - '0' as int
  }

  function DigitChar(n: int): (c: char)
    requires 0 <= n <= 9
    ensures IsDigit(c) && DigitValue(c) == n
  {
    ('0' as int + n) as char
  }

  function Pow10(w: nat): (r: nat)
    ensures r >= 1
  {
    if w == 0 then 1 else 10 * Pow10(w - 1)
  }

  /** The number a run of decimal digits denotes (Python's `int` on a digit string). */
  function DigitsValue(s: string): (n: nat)
    requires AllDigits(s)
    ensures n < Pow10(|s|)
  {
    if s == [] then 0 else 10 * DigitsValue(s[..|s| - 1]) + DigitValue(s[|s| - 1])
  }

  /** `n` written with exactly `w` digits, zero-padded on the left. */
  function Pad(n: nat, w: nat): (s: string)
    requires n < Pow10(w)
    ensures |s| == w && AllDigits(s)
    ensures DigitsValue(s) == n
  {
    if w == 0 then [] else
    var s := Pad(n / 10, w - 1) + [DigitChar(n % 10)];
    assert s[..|s| - 1] == Pad(n / 10, w - 1);
    s
  }

  lemma AppendDigit(a: int, d: int)
    requires 0 <= d < 10
    ensures (10 * a + d) / 10 == a && (10 * a + d) % 10 == d
  {
  }

  /** Reading a digit run and writing it back at the same width gives the run back. */
  lemma {:induction false} PadDigitsValue(s: string)
    requires AllDigits(s)
    ensures Pad(DigitsValue(s), |s|) == s
  {
    if s != [] {
      var init, last := s[..|s| - 1], s[|s| - 1];
      var a, d := DigitsValue(init), DigitValue(last);
      assert s == init + [last];
      assert DigitsValue(s) == 10 * a + d;
      assert DigitChar(d) == last;
      PadDigitsValue(init);
      PadSnoc(a, |init|, d);
    }
  }

  /** Appending a digit to a padded field pads the extended number. */
  lemma PadSnoc(a: nat, w: nat, d: int)
    requires a < Pow10(w) && 0 <= d < 10
    ensures 10 * a + d < Pow10(w + 1)
    ensures Pad(10 * a + d, w + 1) == Pad(a, w) + [DigitChar(d)]
  {
    AppendDigit(a, d);
  }

}
