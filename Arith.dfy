/**
 * Small facts of non-linear integer arithmetic, stated once so that the
 * proofs about scores, shares and byte widths can use them as linear steps.
 */
module Arith {

  lemma MulAddDistrib(a: int, b: int, c: int)
    ensures (a + b) * c == a * c + b * c
  {
  }

  lemma MulAssoc(a: int, b: int, c: int)
    ensures a * (b * c) == (a * b) * c
  {
  }

  /** A product with a positive factor is positive only if the other factor is. */
  lemma PositiveFactor(d: int, c: int)
    requires c > 0 && d * c > 0
    ensures d > 0
  {
  }

  /** A positive factor can be cancelled from a strict inequality. */
  lemma MulLessCancel(a: int, b: int, c: int)
    requires c > 0 && a * c < b * c
    ensures a < b
  {
    MulAddDistrib(b, -a, c);
    PositiveFactor(b - a, c);
  }

  /** A positive factor can be cancelled from a non-strict inequality. */
  lemma MulLeCancel(a: int, b: int, c: int)
    requires c > 0 && a * c <= b * c
    ensures a <= b
  {
    MulAddDistrib(b, 1, c);
    MulLessCancel(a, b + 1, c);
  }

  /** Floor division leaves a remainder in [0, c). */
  lemma FloorDivBounds(a: nat, c: nat)
    requires c > 0
    ensures (a / c) * c <= a < (a / c) * c + c
  {
  }

  /** Dividing a multiple of a by a recovers the other factor. */
  lemma DivOfMultiple(a: nat, m: nat)
    requires a > 0
    ensures a * m / a == m
  {
    var q := a * m / a;
    FloorDivBounds(a * m, a);
    MulAddDistrib(q, 1, a);
    MulLessCancel(m, q + 1, a);
    MulLeCancel(q, m, a);
  }
}
