/** Division with remainder, as the window and slot arithmetic needs it. */
module Arithmetic {
  lemma MulAtLeast(k: int, d: int)
    requires k >= 1 && d > 0
    ensures k * d >= d
  {
    if k == 1 {
    } else {
      MulAtLeast(k - 1, d);
    }
  }

  lemma DivUnique(a: int, d: int, q: int, r: int)
    requires d > 0 && a == q * d + r && 0 <= r < d
    ensures a / d == q && a % d == r
  {
    var k := a / d - q;
    assert a == a / d * d + a % d;
    assert k * d == r - a % d by {
      assert (a / d - q) * d == a / d * d - q * d;
    }
    if k >= 1 {
      MulAtLeast(k, d);
    } else if k <= -1 {
      MulAtLeast(-k, d);
    }
  }

  /** Equal remainders less than `d` apart: the same number. */
  lemma SameResidue(d: int, a: int, b: int)
    requires d > 0 && a <= b < a + d && a % d == b % d
    ensures a == b
  {
    var k := b / d - a / d;
    assert k * d == b - a by {
      assert k * d == b / d * d - a / d * d;
    }
    if k >= 1 {
      MulAtLeast(k, d);
    } else if k <= -1 {
      MulAtLeast(-k, d);
    }
  }
}
