/** The decimal rendering of a non-negative integer that `fmt`'s `%d`
    verb produces, and its reading back. */
module Decimal {
  import opened Prelude

  predicate IsDigit(c: byte) {
    '0' as int <= c <= '9' as int
  }

  predicate AllDigits(s: Bytes) {
    forall i | 0 <= i < |s| :: IsDigit(s[i])
  }

  /** `fmt.Sprintf("%d", n)` for `n >= 0`: most significant digit first,
      no sign, no padding. */
  function Format(n: nat): (s: Bytes)
    ensures |s| >= 1
  {
    if n < 10 then ['0' as int + n]
    else Format(n / 10) + ['0' as int + n % 10]
  }

  /** The value of a string of decimal digits (meaningful only when every
      byte is a digit). */
  function Value(s: Bytes): int
  {
    if s == [] then 0 else Value(s[..|s| - 1]) * 10 + (s[|s| - 1] - '0' as int)
  }

  /** Reading the rendering back gives the number: the rendering is
      injective. */
  lemma {:induction false} ValueOfFormat(n: nat)
    ensures Value(Format(n)) == n
  {
    if n >= 10 {
      ValueOfFormat(n / 10);
      var s := Format(n);
      assert s[..|s| - 1] == Format(n / 10);
    }
  }

  /** The rendering is made of decimal digits only. */
  lemma {:induction false} FormatAllDigits(n: nat)
    ensures AllDigits(Format(n))
  {
    if n >= 10 {
      FormatAllDigits(n / 10);
    }
  }

  /** The rendering has no leading zero unless the number is 0. */
  lemma {:induction false} FormatNoLeadingZero(n: nat)
    ensures Format(n)[0] == '0' as int <==> n == 0
  {
    if n >= 10 {
      FormatNoLeadingZero(n / 10);
    }
  }

  /** Larger numbers never have shorter renderings. */
  lemma {:induction false} FormatLengthMonotone(m: nat, n: nat)
    requires m <= n
    ensures |Format(m)| <= |Format(n)|
  {
    if m >= 10 {
      FormatLengthMonotone(m / 10, n / 10);
    }
  }
}
