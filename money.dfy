/**
 * Money is held as a whole number of cents. Rounding a value "to two
 * decimal places" then means rounding a rational number of cents,
 * num / den, to the nearest whole cent.
 */
module Money {
  import opened Arith

  /**
   * Rounds num / den to the nearest integer, halves away from zero. This
   * is the model's rounding rule for money; it stands in for formatting a
   * float64 with two decimals and parsing it back, which rounds an exact
   * half cent to even instead. RoundHalfAwayNearest states what it computes.
   */
  function RoundHalfAway(num: int, den: int): (r: int)
    requires den > 0
    ensures num >= 0 ==> r >= 0
    ensures num <= 0 ==> r <= 0
  {
    if num >= 0 then (2 * num + den) / (2 * den)
    else -((2 * -num + den) / (2 * den))
  }

  /**
   * RoundHalfAway(num, den) is a nearest integer to num / den, of two
   * equally near ones the one farther from zero, and never of the opposite
   * sign.
   */
  lemma RoundHalfAwayNearest(num: int, den: int)
    requires den > 0
    ensures var r := RoundHalfAway(num, den);
      && 2 * Abs(num - r * den) <= den
      && (2 * Abs(num - r * den) == den ==> Abs(r * den) > Abs(num))
      && (num >= 0 ==> r >= 0) && (num < 0 ==> r <= 0)
  {
    var a := if num >= 0 then num else -num;
    var q := (2 * a + den) / (2 * den);
    DivBounds(2 * a + den, 2 * den, q);
    MulSign(q, den);
    assert q * (2 * den) == 2 * (q * den);
    if num < 0 {
      assert (-q) * den == -(q * den);
    }
  }

  /** A value that is already a whole number of cents is left unchanged. */
  lemma RoundExact(k: int, den: int)
    requires den > 0
    ensures RoundHalfAway(k * den, den) == k
  {
    var r := RoundHalfAway(k * den, den);
    RoundHalfAwayNearest(k * den, den);
    MulSub(k, r, den);
    if k != r {
      MulAbsAtLeast(k - r, den);
      assert false;
    }
  }

  /** Rounding is symmetric about zero. */
  lemma RoundOdd(num: int, den: int)
    requires den > 0
    ensures RoundHalfAway(-num, den) == -RoundHalfAway(num, den)
  {
    if num == 0 {
      RoundHalfAwayNearest(0, den);
      RoundExact(0, den);
    }
  }
}
