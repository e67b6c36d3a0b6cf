/** Durations in milliseconds and the rounding-up division the views use to
    turn a millisecond difference into a number of days (`Math.ceil`). */
module Time {

  /** One day: `1000 * 60 * 60 * 24`. */
  const DAY_MS: int := 1000 * 60 * 60 * 24

  /** The loan period: fourteen days. */
  const LOAN_PERIOD_MS: int := 14 * DAY_MS

  /** `Math.ceil(a / d)` for a positive divisor: the least `q` with `a <= d * q`. */
  function CeilDiv(a: int, d: int): (q: int)
    requires d > 0
    ensures d * (q - 1) < a <= d * q
  {
    var m := (-a) / d;
    assert -a == d * m + (-a) % d;
    -m
  }

  lemma MulPositive(d: int, x: int)
    requires d > 0 && x > 0
    ensures d * x > 0
  {
  }

  /** Rounding up is monotone in the dividend. */
  lemma CeilDivMonotone(a: int, b: int, d: int)
    requires d > 0 && a <= b
    ensures CeilDiv(a, d) <= CeilDiv(b, d)
  {
    var qa, qb := CeilDiv(a, d), CeilDiv(b, d);
    if qa > qb {
      MulPositive(d, qa - 1 - qb);
      assert false;
    }
  }

  /** The least `q` with `a <= d * q` is unique. */
  lemma CeilDivUnique(a: int, d: int, q: int)
    requires d > 0 && d * (q - 1) < a <= d * q
    ensures q == CeilDiv(a, d)
  {
    var c := CeilDiv(a, d);
    if c > q {
      MulPositive(d, c - 1 - q);
      assert false;
    } else if q > c {
      MulPositive(d, q - 1 - c);
      assert false;
    }
  }
}
