/** The scalar distance-composition operators of src/op.rs: hard union,
    subtraction and intersection, and the polynomial smooth blends, each
    driven by a blend weight `h` clamped to [0, 1]. */
module Op {
  import opened Scalar

  function Min(a: real, b: real): real { if a <= b then a else b }

  function Max(a: real, b: real): real { if a <= b then b else a }

  /** `union(d1, d2) = d1.min(d2)`. */
  function Union(d1: real, d2: real): (r: real)
    ensures r <= d1 && r <= d2
    ensures r == d1 || r == d2
  {
    Min(d1, d2)
  }

  /** `intersection(d1, d2) = d1.max(d2)`. */
  function Intersection(d1: real, d2: real): (r: real)
    ensures r >= d1 && r >= d2
    ensures r == d1 || r == d2
  {
    Max(d1, d2)
  }

  /** `subtraction(d1, d2) = -d1.max(d2)`: the method call binds tighter than
      the unary minus, so this negates the intersection. */
  function Subtraction(d1: real, d2: real): (r: real)
    ensures r == -Intersection(d1, d2)
    ensures r <= -d1 && r <= -d2
  {
    -Max(d1, d2)
  }

  /** The subtraction the smooth variant blends: keep d2 outside d1. */
  function SubtractionIntended(d1: real, d2: real): (r: real)
    ensures r >= -d1 && r >= d2
    ensures r == -d1 || r == d2
  {
    Max(-d1, d2)
  }

  /** The blend weight of `smooth_union`. At k = 0 the f32 quotient is
      +infinity (clamped to 1) when d2 > d1, -infinity (clamped to 0) when
      d2 < d1, and NaN when they are equal, which `clamp` sends to its lower
      bound 0. */
  function UnionWeight(d1: real, d2: real, k: real): (h: real)
    ensures 0.0 <= h <= 1.0
  {
    if k == 0.0 then (if d2 - d1 > 0.0 then 1.0 else 0.0)
    else Clamp(0.5 + 0.5 * (d2 - d1) / k, 0.0, 1.0)
  }

  /** The blend weight of `smooth_subtraction`; at k = 0 it is 1 exactly
      when d2 + d1 < 0, as for `UnionWeight`. */
  function SubtractionWeight(d1: real, d2: real, k: real): (h: real)
    ensures 0.0 <= h <= 1.0
  {
    if k == 0.0 then (if d2 + d1 < 0.0 then 1.0 else 0.0)
    else Clamp(0.5 - 0.5 * (d2 + d1) / k, 0.0, 1.0)
  }

  /** The blend weight of `smooth_intersection`; at k = 0 it is 1 exactly
      when d2 < d1, as for `UnionWeight`. */
  function IntersectionWeight(d1: real, d2: real, k: real): (h: real)
    ensures 0.0 <= h <= 1.0
  {
    if k == 0.0 then (if d2 - d1 < 0.0 then 1.0 else 0.0)
    else Clamp(0.5 - 0.5 * (d2 - d1) / k, 0.0, 1.0)
  }

  function SmoothUnion(d1: real, d2: real, k: real): real
  {
    var h := UnionWeight(d1, d2, k);
    Mix(d2, d1, h) - k * h * (1.0 - h)
  }

  function SmoothSubtraction(d1: real, d2: real, k: real): real
  {
    var h := SubtractionWeight(d1, d2, k);
    Mix(d2, -d1, h) + k * h * (1.0 - h)
  }

  function SmoothIntersection(d1: real, d2: real, k: real): real
  {
    var h := IntersectionWeight(d1, d2, k);
    Mix(d2, d1, h) + k * h * (1.0 - h)
  }

  /** Inside the blend band, with `d2 - d1 = k (1 - 2h)`, the smooth maximum
      exceeds each operand by a square. */
  lemma InteriorBlend(d1: real, d2: real, k: real, h: real)
    requires 0.0 < k && 0.0 <= h <= 1.0
    requires d2 - d1 == k * (1.0 - 2.0 * h)
    ensures Mix(d2, d1, h) + k * h * (1.0 - h) == d2 + k * (h * h)
    ensures Mix(d2, d1, h) + k * h * (1.0 - h) == d1 + k * ((1.0 - h) * (1.0 - h))
  {
    assert (d1 - d2) * h == -(k * (1.0 - 2.0 * h)) * h;
  }

  /** A square of a weight at most one half is at most a quarter. */
  lemma SmallSquare(w: real)
    requires 0.0 <= w <= 0.5
    ensures 0.0 <= w * w <= 0.25
  {
    MulNonNeg(w, w);
    MulNonNeg(w, 0.5 - w);
    MulNonNeg(0.5, 0.5 - w);
  }

  /** The unclamped weight `0.5 - 0.5 * x / k` of a blend over the gap x,
      for k > 0: at most 0 exactly when x >= k, at least 1 exactly when
      x <= -k, and it determines x back. */
  lemma UnclampedWeight(x: real, k: real)
    requires 0.0 < k
    ensures 0.5 - 0.5 * x / k <= 0.0 <==> x >= k
    ensures 0.5 - 0.5 * x / k >= 1.0 <==> x <= -k
    ensures x == k * (1.0 - 2.0 * (0.5 - 0.5 * x / k))
  {
    var q := x / k;
    ScaleDiv(0.5, x, k);
    assert 0.5 * x / k == 0.5 * q;
    assert k * q == x;
    assert k * (1.0 - 2.0 * (0.5 - 0.5 * q)) == k * q;
    QuotientVsOne(x, k, q);
  }

  lemma QuotientVsOne(x: real, k: real, q: real)
    requires 0.0 < k && k * q == x
    ensures q >= 1.0 <==> x >= k
    ensures q <= -1.0 <==> x <= -k
  {
    if q >= 1.0 { MulNonNeg(k, q - 1.0); }
    if q <= -1.0 { MulNonNeg(k, -1.0 - q); }
    if q < 1.0 { MulPos(k, 1.0 - q); }
    if q > -1.0 { MulPos(k, q + 1.0); }
  }

  /** The core bound: for k >= 0 the smooth maximum is at least the hard
      one, exceeds it by at most k/4, and equals it outside the band
      |d1 - d2| < k; at k = 0 it is the hard maximum. */
  lemma SmoothIntersectionBounds(d1: real, d2: real, k: real)
    requires 0.0 <= k
    ensures Max(d1, d2) <= SmoothIntersection(d1, d2, k) <= Max(d1, d2) + k / 4.0
    ensures (d1 - d2 >= k || d2 - d1 >= k) ==> SmoothIntersection(d1, d2, k) == Max(d1, d2)
  {
    if k == 0.0 {
      return;
    }
    var s := 0.5 - 0.5 * (d2 - d1) / k;
    UnclampedWeight(d2 - d1, k);
    var h := IntersectionWeight(d1, d2, k);
    if s <= 0.0 {
      assert h == 0.0;
    } else if s >= 1.0 {
      assert h == 1.0;
    } else {
      assert h == s;
      InteriorBlend(d1, d2, k, h);
      if h <= 0.5 {
        MulNonNeg(k, 1.0 - 2.0 * h);
        SmallSquare(h);
        MulNonNeg(k, h * h);
        MulNonNeg(k, 0.25 - h * h);
      } else {
        MulNonNeg(k, 2.0 * h - 1.0);
        SmallSquare(1.0 - h);
        MulNonNeg(k, (1.0 - h) * (1.0 - h));
        MulNonNeg(k, 0.25 - (1.0 - h) * (1.0 - h));
      }
    }
  }

  lemma NegateDiv(c: real, x: real, k: real)
    requires k != 0.0
    ensures c * -x / k == -(c * x / k)
  {
  }

  lemma ScaleDiv(c: real, x: real, k: real)
    requires k != 0.0
    ensures c * x / k == c * (x / k)
  {
  }

  /** `smooth_union` is the mirror image of `smooth_intersection`. */
  lemma SmoothUnionIsMirroredIntersection(d1: real, d2: real, k: real)
    ensures SmoothUnion(d1, d2, k) == -SmoothIntersection(-d1, -d2, k)
  {
    var h := UnionWeight(d1, d2, k);
    MirroredWeight(d1, d2, k);
    MixNegated(d2, d1, h);
  }

  lemma MirroredWeight(d1: real, d2: real, k: real)
    ensures UnionWeight(d1, d2, k) == IntersectionWeight(-d1, -d2, k)
  {
    var x := d2 - d1;
    assert -d2 - -d1 == -x;
    if k == 0.0 {
      return;
    }
    calc {
      0.5 * (-d2 - -d1) / k;
      0.5 * -x / k;
      { NegateDiv(0.5, x, k); }
      -(0.5 * x / k);
    }
  }

  lemma MixNegated(x: real, y: real, t: real)
    ensures Mix(-x, -y, t) == -Mix(x, y, t)
  {
    assert (-y - -x) * t == -((y - x) * t);
  }

  /** For k >= 0, `smooth_union` is at most the hard union, falls below it
      by at most k/4, and equals it outside the band |d1 - d2| < k. */
  lemma SmoothUnionBounds(d1: real, d2: real, k: real)
    requires 0.0 <= k
    ensures Union(d1, d2) - k / 4.0 <= SmoothUnion(d1, d2, k) <= Union(d1, d2)
    ensures (d1 - d2 >= k || d2 - d1 >= k) ==> SmoothUnion(d1, d2, k) == Union(d1, d2)
  {
    SmoothUnionIsMirroredIntersection(d1, d2, k);
    SmoothIntersectionBounds(-d1, -d2, k);
  }

  /** `smooth_subtraction(d1, d2, k)` is `smooth_intersection(-d1, d2, k)`. */
  lemma SmoothSubtractionIsIntersectionWithComplement(d1: real, d2: real, k: real)
    ensures SmoothSubtraction(d1, d2, k) == SmoothIntersection(-d1, d2, k)
  {
    assert d2 - -d1 == d2 + d1;
  }

  /** For k >= 0, `smooth_subtraction` is at least max(-d1, d2), exceeds
      it by at most k/4 and equals it outside the band |d1 + d2| < k: it
      smooths `max(-d1, d2)`, not the `subtraction` of this module. */
  lemma SmoothSubtractionBounds(d1: real, d2: real, k: real)
    requires 0.0 <= k
    ensures SubtractionIntended(d1, d2) <= SmoothSubtraction(d1, d2, k) <= SubtractionIntended(d1, d2) + k / 4.0
    ensures (d1 + d2 >= k || d1 + d2 <= -k) ==> SmoothSubtraction(d1, d2, k) == SubtractionIntended(d1, d2)
  {
    SmoothSubtractionIsIntersectionWithComplement(d1, d2, k);
    SmoothIntersectionBounds(-d1, d2, k);
  }

  /** The hard `subtraction` as written is `-max(d1, d2)`; it is not the
      `max(-d1, d2)` that the smooth variant converges to: at d1 = 0, d2 = 1
      and k = 1 they are 2 apart, far more than the k/4 a blend allows. */
  lemma SubtractionAsWrittenDisagrees()
    ensures Subtraction(0.0, 1.0) == -1.0
    ensures SubtractionIntended(0.0, 1.0) == 1.0
    ensures SmoothSubtraction(0.0, 1.0, 1.0) == 1.0
  {
    calc {
      SubtractionWeight(0.0, 1.0, 1.0);
      Clamp(0.5 - 0.5 * (1.0 + 0.0) / 1.0, 0.0, 1.0);
      Clamp(0.0, 0.0, 1.0);
      0.0;
    }
  }

  /** For k > 0 the weight of `smooth_intersection` is 0 once d2 leads by k,
      1 once d1 leads by k, and strictly between inside the band. */
  lemma IntersectionWeightSaturates(d1: real, d2: real, k: real)
    requires 0.0 < k
    ensures d2 - d1 >= k ==> IntersectionWeight(d1, d2, k) == 0.0
    ensures d1 - d2 >= k ==> IntersectionWeight(d1, d2, k) == 1.0
    ensures -k < d2 - d1 < k ==> 0.0 < IntersectionWeight(d1, d2, k) < 1.0
  {
    UnclampedWeight(d2 - d1, k);
  }

  /** For k > 0 the weight of `smooth_union` is 1 once d2 exceeds d1 by k and
      0 once d1 exceeds d2 by k. */
  lemma UnionWeightSaturates(d1: real, d2: real, k: real)
    requires 0.0 < k
    ensures d2 - d1 >= k ==> UnionWeight(d1, d2, k) == 1.0
    ensures d1 - d2 >= k ==> UnionWeight(d1, d2, k) == 0.0
    ensures -k < d2 - d1 < k ==> 0.0 < UnionWeight(d1, d2, k) < 1.0
  {
    MirroredWeight(d1, d2, k);
    IntersectionWeightSaturates(-d1, -d2, k);
  }

  /** For k > 0 the weight of `smooth_subtraction` is 0 once d1 + d2 >= k and
      1 once d1 + d2 <= -k. */
  lemma SubtractionWeightSaturates(d1: real, d2: real, k: real)
    requires 0.0 < k
    ensures d1 + d2 >= k ==> SubtractionWeight(d1, d2, k) == 0.0
    ensures d1 + d2 <= -k ==> SubtractionWeight(d1, d2, k) == 1.0
    ensures -k < d1 + d2 < k ==> 0.0 < SubtractionWeight(d1, d2, k) < 1.0
  {
    assert d2 - -d1 == d2 + d1;
    IntersectionWeightSaturates(-d1, d2, k);
  }

  /** With k = 0 every smooth operator is its hard counterpart: the f32
      infinities and NaN of the weight clamp to 0 or 1 and the `k h (1 - h)`
      term vanishes. */
  lemma SmoothAtZero(d1: real, d2: real)
    ensures SmoothUnion(d1, d2, 0.0) == Union(d1, d2)
    ensures SmoothIntersection(d1, d2, 0.0) == Intersection(d1, d2)
    ensures SmoothSubtraction(d1, d2, 0.0) == SubtractionIntended(d1, d2)
  {
    SmoothUnionBounds(d1, d2, 0.0);
    SmoothIntersectionBounds(d1, d2, 0.0);
    SmoothSubtractionBounds(d1, d2, 0.0);
  }
}
