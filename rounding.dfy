/** `Math.round(part / whole * scale)` computed exactly: the quiz marks and
    the attendance percentage both scale a count this way. */
module Rounding {
  /** `Math.round(a / b)` for an exact quotient: halves round up. */
  function RoundHalfUp(a: int, b: int): int
    requires b > 0
  {
    (2 * a + b) / (2 * b)
  }

  /** The rounded value is the integer nearest to `a / b`, halves going up. */
  lemma RoundHalfUpNearest(a: int, b: int)
    requires b > 0
    ensures 2 * b * RoundHalfUp(a, b) - b <= 2 * a < 2 * b * RoundHalfUp(a, b) + b
  {
    var q := RoundHalfUp(a, b);
    var r := (2 * a + b) % (2 * b);
    assert 2 * a + b == 2 * b * q + r;
  }

  /** `Math.round(part / whole * scale)`: the integer nearest to
      `part * scale / whole`, halves going up. */
  function Scaled(part: int, whole: int, scale: int): (r: int)
    requires whole > 0
    ensures 2 * whole * r - whole <= 2 * (part * scale) < 2 * whole * r + whole
  {
    RoundHalfUpNearest(part * scale, whole);
    RoundHalfUp(part * scale, whole)
  }

  /** A part of the whole scales into `[0, scale]`; the whole gives `scale`
      and nothing gives 0. */
  lemma ScaledBounds(part: nat, whole: nat, scale: int)
    requires 0 < whole && part <= whole && scale > 0
    ensures 0 <= Scaled(part, whole, scale) <= scale
    ensures part == whole ==> Scaled(part, whole, scale) == scale
    ensures part == 0 ==> Scaled(part, whole, scale) == 0
  {
    var n := whole;
    var top := 2 * (n * scale) + n;
    assert part * scale <= n * scale by {
      MulMonotone(part, n, scale);
    }
    DivMonotone(2 * (part * scale) + n, top, 2 * n);
    assert top == (2 * n) * scale + n;
    DivExact(scale, n, 2 * n);
    DivExact(0, n, 2 * n);
  }

  /** A larger part never scales to less. */
  lemma ScaledMonotone(p1: int, p2: int, whole: nat, scale: int)
    requires p1 <= p2 && 0 < whole && scale > 0
    ensures Scaled(p1, whole, scale) <= Scaled(p2, whole, scale)
  {
    MulMonotone(p1, p2, scale);
    DivMonotone(2 * (p1 * scale) + whole, 2 * (p2 * scale) + whole, 2 * whole);
  }

  lemma MulMonotone(a: int, b: int, c: int)
    requires a <= b && c >= 0
    ensures a * c <= b * c
  {
    assert b * c - a * c == (b - a) * c;
  }

  lemma DivExact(q: int, r: int, d: int)
    requires 0 <= r < d
    ensures (d * q + r) / d == q
  {
    var x := d * q + r;
    var q2 := x / d;
    var r2 := x % d;
    assert d * q2 + r2 == d * q + r;
    assert d * (q2 - q) == r - r2;
    if q2 > q {
      MulMonotone(1, q2 - q, d);
    } else if q2 < q {
      MulMonotone(1, q - q2, d);
    }
  }

  lemma DivMonotone(a: int, b: int, d: int)
    requires a <= b && d > 0
    ensures a / d <= b / d
  {
    var qa := a / d;
    var qb := b / d;
    assert d * qa + a % d == a;
    assert d * qb + b % d == b;
    assert d * qa < d * (qb + 1);
    if qa > qb {
      MulMonotone(qb + 1, qa, d);
    }
  }
}
