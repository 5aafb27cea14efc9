/** The shared records and helpers of src/prelude.rs: rays, Phong-style
    materials (the checkerboard and the all-zero default), material-carrying
    surfaces with their hard union, the sphere distance, and the mirror
    reflection of a direction about a normal. */
module Prelude {
  import opened Scalar
  import opened Vectors

  datatype Ray = Ray(origin: Vector3, direction: Vector3)

  datatype Material = Material(ambient: Vector3, diffuse: Vector3, specular: Vector3, shininess: real)

  function Grey(a: real): Vector3 {
    Vector3(a, a, a)
  }

  /** `Material::checkerboard`: the ambient grey alternates with the parity
      of floor(x) + floor(z); because `% 2.0` truncates, a negative odd sum
      gives -1 and so a third, darker grey. */
  function Checkerboard(position: Vector3): (m: Material)
    ensures m.ambient in {Grey(0.09), Grey(0.3), Grey(0.51)}
    ensures m.diffuse == Grey(0.3) && m.specular == Zero && m.shininess == 1.0
  {
    var n := position.x.Floor + position.z.Floor;
    TruncRemTwoOfInteger(n);
    var a := (1.0 + 0.7 * TruncRem(Floor(position.x) + Floor(position.z), 2.0)) * 0.3;
    Material(Grey(a), Grey(0.3), Zero, 1.0)
  }

  /** Which grey the checkerboard picks: 0.3 on even cells, 0.51 on odd
      cells with a non-negative sum, 0.09 on odd cells with a negative one. */
  lemma CheckerboardCells(position: Vector3)
    ensures var n := position.x.Floor + position.z.Floor;
      Checkerboard(position).ambient ==
        if n % 2 == 0 then Grey(0.3) else if n < 0 then Grey(0.09) else Grey(0.51)
  {
    TruncRemTwoOfInteger(position.x.Floor + position.z.Floor);
  }

  /** `Material::default`. */
  function DefaultMaterial(): (m: Material)
    ensures m.ambient == Zero && m.diffuse == Zero && m.specular == Zero
    ensures m.shininess == 0.0
  {
    Material(Zero, Zero, Zero, 0.0)
  }

  datatype Surface = Surface(distance: real, material: Material)

  /** `Op::union`: the nearer surface, whole; on a tie the first one. */
  function Union(a: Surface, b: Surface): (r: Surface)
    ensures r.distance <= a.distance && r.distance <= b.distance
    ensures r == a || r == b
    ensures r == b && r != a ==> b.distance < a.distance
    ensures b.distance < a.distance ==> r == b
  {
    if b.distance < a.distance then b else a
  }

  /** `Sdf::sphere`: distance from the centre minus the radius. */
  ghost function SdfSphere(position: Vector3, radius: real): (d: real)
    ensures d >= -radius
    ensures d + radius == Magnitude(position)
  {
    Magnitude(position) - radius
  }

  /** `Utils::reflect`: d - 2 (d . n) n. */
  function Reflect(d: Vector3, n: Vector3): Vector3 {
    var factor := -2.0 * Dot(d, n);
    Vector3(factor * n.x + d.x, factor * n.y + d.y, factor * n.z + d.z)
  }

  /** The reflection is d plus a multiple of n; its dot product with n. */
  lemma ReflectDot(d: Vector3, n: Vector3, w: Vector3)
    ensures Dot(Reflect(d, n), w) == -2.0 * Dot(d, n) * Dot(n, w) + Dot(d, w)
  {
    var f := -2.0 * Dot(d, n);
    calc {
      Dot(Reflect(d, n), w);
      (f * n.x + d.x) * w.x + (f * n.y + d.y) * w.y + (f * n.z + d.z) * w.z;
      f * (n.x * w.x + n.y * w.y + n.z * w.z) + (d.x * w.x + d.y * w.y + d.z * w.z);
    }
  }

  /** Against a unit normal the reflection flips the normal component. */
  lemma ReflectFlipsNormal(d: Vector3, n: Vector3)
    requires Dot(n, n) == 1.0
    ensures Dot(Reflect(d, n), n) == -Dot(d, n)
  {
    ReflectDot(d, n, n);
  }

  /** Reflecting twice about a unit normal gives the direction back. */
  lemma ReflectInvolution(d: Vector3, n: Vector3)
    requires Dot(n, n) == 1.0
    ensures Reflect(Reflect(d, n), n) == d
  {
    ReflectFlipsNormal(d, n);
  }

  /** Reflection about a unit normal keeps the squared length. */
  lemma ReflectPreservesLength(d: Vector3, n: Vector3)
    requires Dot(n, n) == 1.0
    ensures Dot(Reflect(d, n), Reflect(d, n)) == Dot(d, d)
  {
    var r := Reflect(d, n);
    var e := Dot(d, n);
    ReflectDot(d, n, r);
    ReflectFlipsNormal(d, n);
    ReflectDot(d, n, d);
    assert Dot(n, r) == Dot(r, n);
    assert Dot(d, r) == Dot(r, d);
    calc {
      Dot(r, r);
      -2.0 * e * Dot(n, r) + Dot(d, r);
      -2.0 * e * -e + Dot(r, d);
      -2.0 * e * -e + (-2.0 * e * Dot(n, d) + Dot(d, d));
      { assert Dot(n, d) == e; }
      Dot(d, d);
    }
  }

  /** A direction perpendicular to the normal is left unchanged. */
  lemma ReflectTangent(d: Vector3, n: Vector3)
    requires Dot(d, n) == 0.0
    ensures Reflect(d, n) == d
  {
  }
}
