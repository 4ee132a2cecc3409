/** Decimal rendering of numbers, as JavaScript template literals produce it,
    and the fixed-width position formatter of the move log. */
module Text {

  function DigitChar(d: nat): (c: char)
    requires d < 10
    ensures '0' <= c <= '9'
  {
    ('0' as int + d) as char
  }

  predicate IsDigits(s: string) {
    forall i :: 0 <= i < |s| ==> '0' <= s[i] <= '9'
  }

  /** The decimal value of a string of digits (most significant first). */
  function DigitsValue(s: string): nat
    requires IsDigits(s)
    decreases |s|
  {
    if s == [] then 0 else DigitsValue(s[..|s| - 1]) * 10 + (s[|s| - 1] as int - '0' as int)
  }

  /** `${k}` for a non-negative integer k. */
  function NatToString(k: nat): (s: string)
    ensures 1 <= |s| && IsDigits(s)
    decreases k
  {
    if k < 10 then [DigitChar(k)] else NatToString(k / 10) + [DigitChar(k % 10)]
  }

  /** `${i}` for any integer i. */
  function IntToString(i: int): (s: string)
    ensures 1 <= |s|
  {
    if i < 0 then "-" + NatToString(-i) else NatToString(i)
  }

  /** The rendering is the shortest decimal numeral of k: reading it back
      gives k, and it has no leading zero. */
  lemma {:induction false} NatToStringRoundTrip(k: nat)
    ensures DigitsValue(NatToString(k)) == k
    ensures |NatToString(k)| > 1 ==> NatToString(k)[0] != '0'
    decreases k
  {
    if k >= 10 {
      var t := NatToString(k / 10);
      NatToStringRoundTrip(k / 10);
      var s := t + [DigitChar(k % 10)];
      assert s[..|s| - 1] == t;
      assert DigitsValue(s) == DigitsValue(t) * 10 + k % 10;
    }
  }

  /** The number of characters of `${k}`: one digit below 10, two below 100, three for 100. */
  lemma NatToStringLengthUpTo100(k: nat)
    requires k <= 100
    ensures |NatToString(k)| == if k < 10 then 1 else if k < 100 then 2 else 3
  {
    if k >= 10 {
      assert |NatToString(k / 10)| == if k / 10 < 10 then 1 else 2;
    }
  }

  /** `padPos`: right-aligns a position in the move log. 100 is printed as is,
      numbers below 10 get two leading spaces, all others one. */
  function PadPos(x: int): (r: string)
    ensures |r| >= |IntToString(x)| && r[|r| - |IntToString(x)|..] == IntToString(x)
    ensures forall i :: 0 <= i < |r| - |IntToString(x)| ==> r[i] == ' '
    ensures x == 100 ==> r == IntToString(x)
    ensures x != 100 && x < 10 ==> |r| == |IntToString(x)| + 2
    ensures x != 100 && x >= 10 ==> |r| == |IntToString(x)| + 1
  {
    if x == 100 then IntToString(x)
    else if x < 10 then "  " + IntToString(x)
    else " " + IntToString(x)
  }

  /** Every board position 0..100 occupies exactly three columns of the log. */
  lemma PadPosWidth(x: int)
    requires 0 <= x <= 100
    ensures |PadPos(x)| == 3
  {
    NatToStringLengthUpTo100(x);
  }
}
