/** Division and order of real numbers. */
module Reals {

  lemma NonNegative(x: real, t: real)
    requires t > 0.0 && x * t >= 0.0
    ensures x >= 0.0
  {
  }

  lemma LargerNumerator(a: real, b: real, total: real)
    requires a <= b && total > 0.0
    ensures a / total <= b / total
  {
    var p, q := a / total, b / total;
    assert (q - p) * total == q * total - p * total == b - a;
    NonNegative(q - p, total);
  }

  lemma LargerDenominator(a: real, d: real, e: real)
    requires a >= 0.0 && 0.0 < d <= e
    ensures 0.0 <= a / e <= a / d
  {
    var p, q := a / e, a / d;
    assert p * e == a && q * d == a;
    NonNegative(p, e);
    assert (q - p) * d == p * (e - d);
    NonNegative(q - p, d);
  }

  /** A share of a whole. */
  lemma Share(part: real, whole: real)
    requires 0.0 <= part <= whole && whole > 0.0
    ensures 0.0 <= part / whole <= 1.0
    ensures part / whole == 1.0 <==> part == whole
    ensures part / whole == 0.0 <==> part == 0.0
  {
    assert part / whole * whole == part;
    LargerNumerator(0.0, part, whole);
    LargerNumerator(part, whole, whole);
  }
}
