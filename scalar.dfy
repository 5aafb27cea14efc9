/** Scalar helpers shared by the distance operators: `clamp` (from the
    linear-algebra library), `mix` (the linear interpolation of
    src/surface.rs, which also stands for the `math::mix` that src/op.rs
    calls but src/math.rs does not define), and the f32 `floor` and
    truncating `%` that the checkerboard colours use. */
module Scalar {

  /** `clamp(val, min, max)`: `val` if it lies strictly inside, else the bound
      it passes. */
  function Clamp(val: real, lo: real, hi: real): (r: real)
    requires lo <= hi
    ensures lo <= r <= hi
    ensures lo <= val <= hi ==> r == val
    ensures val <= lo ==> r == lo
    ensures hi <= val ==> r == hi
  {
    if val > lo then
      if val < hi then val else hi
    else
      lo
  }

  /** `mix(x, y, t) = x + (y - x) * t`: x at t = 0, y at t = 1, and for t in
      [0, 1] a value between the two. */
  function Mix(x: real, y: real, t: real): (r: real)
    ensures t == 0.0 ==> r == x
    ensures t == 1.0 ==> r == y
  {
    x + (y - x) * t
  }

  /** For a weight in [0, 1], `mix` lies between its two ends. */
  lemma MixBetween(x: real, y: real, t: real)
    requires 0.0 <= t <= 1.0
    ensures x <= y ==> x <= Mix(x, y, t) <= y
    ensures y <= x ==> y <= Mix(x, y, t) <= x
  {
    if x <= y {
      MulNonNeg(y - x, t);
      MulNonNeg(y - x, 1.0 - t);
      assert (y - x) * (1.0 - t) == (y - x) - (y - x) * t;
    } else {
      MulNonNeg(x - y, t);
      MulNonNeg(x - y, 1.0 - t);
      assert (x - y) * (1.0 - t) == (x - y) - (x - y) * t;
      assert (y - x) * t == -((x - y) * t);
    }
  }

  /** Away from its ends, `mix` of two different values reaches neither
      of them. */
  lemma MixReachesEnd(x: real, y: real, t: real)
    requires x != y
    ensures Mix(x, y, t) == y <==> t == 1.0
    ensures Mix(x, y, t) == x <==> t == 0.0
  {
    if t != 1.0 {
      ProductNonZero(y - x, t - 1.0);
      assert Mix(x, y, t) - y == (y - x) * (t - 1.0);
    }
    if t != 0.0 {
      ProductNonZero(y - x, t);
    }
  }

  // Sign rules of multiplication, stated on distinct variables so that
  // the solver's nonlinear arithmetic can use them.

  lemma MulNonNeg(a: real, b: real)
    requires 0.0 <= a && 0.0 <= b
    ensures 0.0 <= a * b
  {
  }

  lemma MulPos(a: real, b: real)
    requires 0.0 < a && 0.0 < b
    ensures 0.0 < a * b
  {
  }

  lemma MulNeg(a: real, b: real)
    requires a < 0.0 && b < 0.0
    ensures 0.0 < a * b
  {
  }

  lemma MulLeMono(x: real, y: real, z: real)
    requires 0.0 <= x && y <= z
    ensures x * y <= x * z
  {
  }

  lemma MulLtMono(x: real, y: real, z: real)
    requires 0.0 < x && y < z
    ensures x * y < x * z
  {
  }

  lemma ProductNonZero(a: real, b: real)
    requires a != 0.0 && b != 0.0
    ensures a * b != 0.0
  {
    if a > 0.0 && b > 0.0 {
      MulPos(a, b);
    } else if a < 0.0 && b < 0.0 {
      MulNeg(a, b);
    } else if a > 0.0 {
      MulPos(a, -b);
      assert a * -b == -(a * b);
    } else {
      MulPos(-a, b);
      assert -a * b == -(a * b);
    }
  }

  /** f32 `floor`: the greatest integer not above x. */
  function Floor(x: real): (r: real)
    ensures r.Floor as real == r
    ensures r <= x < r + 1.0
  {
    x.Floor as real
  }

  /** Truncation toward zero. */
  function Trunc(x: real): (r: int)
    ensures 0.0 <= x ==> 0 <= r && r as real <= x < r as real + 1.0
    ensures x < 0.0 ==> r <= 0 && r as real - 1.0 < x <= r as real
  {
    if x >= 0.0 then x.Floor else -((-x).Floor)
  }

  /** f32 `%`: the remainder of a truncating division, which takes the sign
      of the dividend (unlike Dafny's Euclidean `%`). */
  function TruncRem(a: real, b: real): real
    requires b != 0.0
  {
    a - b * Trunc(a / b) as real
  }

  /** On an integer-valued sum, `% 2.0` can only give -1, 0 or 1. */
  lemma TruncRemTwoOfInteger(n: int)
    ensures TruncRem(n as real, 2.0) in {-1.0, 0.0, 1.0}
    ensures TruncRem(n as real, 2.0) == (if n < 0 && n % 2 == 1 then -1.0 else (n % 2) as real)
  {
    var q := Trunc(n as real / 2.0);
    if n >= 0 {
      assert q == n / 2;
    } else {
      assert q == -((-n) / 2);
    }
  }
}
