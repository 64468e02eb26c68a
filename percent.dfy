/** `Math.round((part / whole) * 100)` on exact rationals. */
module Percent {

  lemma DivBounds(n: nat, d: nat)
    requires d > 0
    ensures d * (n / d) <= n < d * (n / d) + d
  {
  }

  lemma {:induction false} MulCancel(x: nat, y: nat, w: nat)
    requires w > 0 && x * w < y * w
    ensures x < y
  {
    if x >= y {
      MulMono(y, x, w);
    }
  }

  lemma {:induction false} MulMono(x: nat, y: nat, w: nat)
    requires x <= y
    ensures x * w <= y * w
  {
    var k := y - x;
    assert y * w == x * w + k * w;
  }

  /**
   * The percentage `part/whole` rounded half up to an integer, as `Math.round` does
   * (round half toward +infinity). The first two ensures characterise that rounding.
   */
  function RoundPercent(part: nat, whole: nat): (r: nat)
    requires whole > 0
    ensures 2 * r * whole <= 200 * part + whole
    ensures 200 * part + whole < 2 * r * whole + 2 * whole
    ensures part <= whole ==> r <= 100
    ensures part == 0 ==> r == 0
    ensures part == whole ==> r == 100
  {
    var n, d := 200 * part + whole, 2 * whole;
    var r := n / d;
    DivBounds(n, d);
    assert d * r == 2 * r * whole;
    assert part <= whole ==> r <= 100 by {
      if part <= whole {
        assert r * d < 101 * d;
        MulCancel(r, 101, d);
      }
    }
    assert part == 0 ==> r == 0 by {
      if part == 0 { MulCancel(r, 1, d); }
    }
    assert part == whole ==> r >= 100 by {
      if part == whole { MulCancel(100, r + 1, d); }
    }
    r
  }

  /** Rounding is monotone in the numerator. */
  lemma {:induction false} RoundPercentMonotone(a: nat, b: nat, whole: nat)
    requires whole > 0 && a <= b
    ensures RoundPercent(a, whole) <= RoundPercent(b, whole)
  {
    var ra, rb := RoundPercent(a, whole), RoundPercent(b, whole);
    assert 2 * ra * whole < 2 * rb * whole + 2 * whole;
    assert ra * (2 * whole) < (rb + 1) * (2 * whole);
    MulCancel(ra, rb + 1, 2 * whole);
  }
}
