/** Small facts about integer multiplication, division and remainder that
    the solver does not find unaided. Dafny's `/` and `%` are Euclidean,
    which agrees with Ruby's for the non-negative operands used here. */
module Arithmetic {

  lemma MulLeft(a: int, b: int, c: int)
    requires a <= b && 0 <= c
    ensures a * c <= b * c
  {
    assert b * c - a * c == (b - a) * c;
  }

  /** Division and remainder recover quotient and remainder. */
  lemma {:induction false} DivModOf(q: int, r: int, d: int)
    requires 0 < d && 0 <= r < d
    ensures (q * d + r) / d == q
    ensures (q * d + r) % d == r
  {
    var x := q * d + r;
    var q' := x / d;
    var r' := x % d;
    assert x == q' * d + r';
    assert (q - q') * d == r' - r;
    if q - q' >= 1 {
      MulLeft(1, q - q', d);
    } else if q - q' <= -1 {
      MulLeft(q - q', -1, d);
    }
  }

  /** Two numbers whose difference lies strictly between 0 and `d` leave
      different remainders modulo `d`. */
  lemma DistinctRemainders(x: int, y: int, d: int)
    requires 0 < d && x < y < x + d
    ensures x % d != y % d
  {
    var qx, qy := x / d, y / d;
    if x % d == y % d {
      assert (qy - qx) * d == y - x;
      if qy - qx >= 1 {
        MulLeft(1, qy - qx, d);
      } else {
        MulLeft(qy - qx, 0, d);
      }
    }
  }
}
