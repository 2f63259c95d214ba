/** Facts about multiplication, division and remainder that the tensor
    layout and the resize arithmetic rely on. Z3 does not find these
    unaided once the divisor is a variable. */
module Arith {

  /** Multiplying by a non-negative factor keeps the order. */
  lemma MulMonotone(a: int, b: int, k: int)
    requires a <= b && k >= 0
    ensures a * k <= b * k
  {
    assert b * k - a * k == (b - a) * k;
  }

  /** Division and remainder recover quotient and remainder of `q * d + r`. */
  lemma DivModOfSum(q: int, d: int, r: int)
    requires d > 0 && 0 <= r < d
    ensures (q * d + r) / d == q
    ensures (q * d + r) % d == r
  {
    var n := q * d + r;
    var k := n / d - q;
    assert n == d * (n / d) + n % d;
    assert d * k == r - n % d by {
      assert d * (n / d) == d * q + d * k;
    }
    if k >= 1 {
      MulMonotone(1, k, d);
      assert false;
    } else if k <= -1 {
      MulMonotone(k, -1, d);
      assert false;
    }
  }

  /** Grouping of a product of three factors. */
  lemma MulAssoc(a: int, b: int, c: int)
    ensures a * b * c == a * (b * c)
  {
  }

  /** A row-major offset `y * w + x` stays inside a `w × h` grid. */
  lemma RowMajorInRange(y: int, x: int, w: int, h: int)
    requires 0 <= y < h && 0 <= x < w
    ensures 0 <= y * w + x < h * w
  {
    MulMonotone(0, y, w);
    MulMonotone(y + 1, h, w);
    assert (y + 1) * w == y * w + w;
  }

  /** `n / b` is the floor of the ratio: times `b` it is at most `n`, and one
      more step exceeds `n`. */
  lemma FloorDiv(n: int, b: int)
    requires n >= 0 && b > 0
    ensures (n / b) * b <= n < (n / b + 1) * b
  {
    assert n == b * (n / b) + n % b;
    assert (n / b + 1) * b == (n / b) * b + b;
  }
}
