/** Small facts about natural-number multiplication and Euclidean division that the
    index layouts of the image buffers and the bucket tiling rest on. */
module Arithmetic {

  lemma MulMonotonic(a: nat, b: nat, c: nat)
    requires a <= b
    ensures a * c <= b * c
  {
    var k := b - a;
    assert b * c == a * c + k * c;
  }

  /** Division by d recovers the quotient and remainder of q * d + r. */
  lemma DivModOfPair(q: nat, r: nat, d: nat)
    requires r < d
    ensures (q * d + r) / d == q
    ensures (q * d + r) % d == r
  {
    var n := q * d + r;
    var q', r' := n / d, n % d;
    assert n == q' * d + r' && 0 <= r' < d;
    if q' < q {
      MulMonotonic(q' + 1, q, d);
      assert false;
    } else if q' > q {
      MulMonotonic(q + 1, q', d);
      assert false;
    }
  }

  /** An offset below w * h lies in one of the first h rows of width w. */
  lemma DivBelow(p: nat, w: nat, h: nat)
    requires p < w * h
    ensures w > 0
    ensures p / w < h
  {
    if p / w >= h {
      MulMonotonic(h, p / w, w);
      assert false;
    }
  }
}
