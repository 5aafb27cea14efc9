/** Real-valued 2D and 3D vectors standing in for the f32 vector types
    (Vector2f, Vector3f) of the renderer, with the handful of operations
    the core uses: add, subtract, scale, dot product, length, normalise.

    Dafny's real arithmetic cannot construct square roots, so the length of
    a vector is the ghost function Magnitude, chosen by its defining laws:
    it is never negative and, whenever a root of v.v exists (which is true of
    every real vector, but not derivable here), its square is v.v. */
module Vectors {
  import opened Scalar

  datatype Vector3 = Vector3(x: real, y: real, z: real)

  datatype Vector2 = Vector2(x: real, y: real)

  const Zero: Vector3 := Vector3(0.0, 0.0, 0.0)

  function Add(a: Vector3, b: Vector3): Vector3 {
    Vector3(a.x + b.x, a.y + b.y, a.z + b.z)
  }

  function Sub(a: Vector3, b: Vector3): Vector3 {
    Vector3(a.x - b.x, a.y - b.y, a.z - b.z)
  }

  function Scale(v: Vector3, s: real): Vector3 {
    Vector3(v.x * s, v.y * s, v.z * s)
  }

  function Dot(a: Vector3, b: Vector3): real {
    a.x * b.x + a.y * b.y + a.z * b.z
  }

  function Dot2(a: Vector2, b: Vector2): real {
    a.x * b.x + a.y * b.y
  }

  /** The `xz` swizzle. */
  function XZ(v: Vector3): Vector2 {
    Vector2(v.x, v.z)
  }

  /** The identity; writing a square as `m * Same(m)` keeps the solver from
      rewriting it into a power, which its nonlinear arithmetic handles
      poorly. */
  function Same(m: real): real {
    m
  }

  function Square(m: real): real {
    m * Same(m)
  }

  /** m is a length for a vector whose squared length is q. */
  predicate IsRootOf(m: real, q: real) {
    m >= 0.0 && Square(m) == q
  }

  ghost predicate HasLength(v: Vector3) {
    exists m :: IsRootOf(m, Dot(v, v))
  }

  ghost predicate HasLength2(v: Vector2) {
    exists m :: IsRootOf(m, Dot2(v, v))
  }

  /** `magnitude()` of a Vector3. */
  ghost function Magnitude(v: Vector3): (m: real)
    ensures m >= 0.0
    ensures HasLength(v) ==> Square(m) == Dot(v, v)
  {
    if HasLength(v) then
      var m :| IsRootOf(m, Dot(v, v)); m
    else
      0.0
  }

  /** `magnitude()` of a Vector2. */
  ghost function Magnitude2(v: Vector2): (m: real)
    ensures m >= 0.0
    ensures HasLength2(v) ==> Square(m) == Dot2(v, v)
  {
    if HasLength2(v) then
      var m :| IsRootOf(m, Dot2(v, v)); m
    else
      0.0
  }

  /** `normalize()`: the vector scaled to unit length. The zero vector,
      which the f32 library turns into NaNs, is returned unchanged. */
  ghost function Normalize(v: Vector3): Vector3 {
    var m := Magnitude(v);
    if m == 0.0 then v else Scale(v, 1.0 / m)
  }

  /** A square is never negative, and zero exactly at zero. */
  lemma SquareSign(a: real)
    ensures Square(a) >= 0.0
    ensures Square(a) == 0.0 <==> a == 0.0
  {
    if a > 0.0 {
      MulPos(a, a);
    } else if a < 0.0 {
      MulNeg(a, a);
    }
  }

  /** On non-negative reals, squaring keeps the order. */
  lemma SquareLess(a: real, b: real)
    requires 0.0 <= a && 0.0 <= b
    ensures a < b <==> Square(a) < Square(b)
  {
    if a < b {
      MulLeMono(a, a, b);
      MulLtMono(b, a, b);
      assert a * b == b * a;
    } else {
      MulLeMono(b, b, a);
      MulLeMono(a, b, a);
    }
  }

  /** A vector with a length has length zero only when it is the zero vector. */
  lemma MagnitudeZero(v: Vector3)
    requires HasLength(v)
    ensures Magnitude(v) == 0.0 <==> v == Zero
  {
    SquareSign(Magnitude(v));
    SquareSign(v.x);
    SquareSign(v.y);
    SquareSign(v.z);
  }

  /** Normalising a non-zero vector that has a length gives a unit vector. */
  lemma NormalizeIsUnit(v: Vector3)
    requires HasLength(v) && v != Zero
    ensures Dot(Normalize(v), Normalize(v)) == 1.0
  {
    MagnitudeZero(v);
    var m := Magnitude(v);
    var s := 1.0 / m;
    var n := Scale(v, s);
    calc {
      Dot(n, n);
      (v.x * v.x + v.y * v.y + v.z * v.z) * (s * s);
      Dot(v, v) * (s * s);
      (m * m) * (s * s);
      (m * s) * (m * s);
      1.0;
    }
  }
}
