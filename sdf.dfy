/** The primitive signed distance functions of src/sdf.rs. Each returns a
    coloured surface whose colour is the one it was given. Sphere and torus
    measure lengths, so they are ghost like Magnitude. */
module Sdf {
  import opened Vectors
  import opened Surface

  /** `sphere`: distance from the centre minus the radius. */
  ghost function Sphere(position: Vector3, radius: real, color: Vector3): (s: Surface)
    ensures s.color == color
    ensures s.distance >= -radius
    ensures s.distance + radius == Magnitude(position)
  {
    Surface(Magnitude(position) - radius, color)
  }

  /** For a non-negative radius, a point is strictly inside the sphere
      exactly when its squared distance from the centre is below the
      squared radius. */
  lemma SphereInside(position: Vector3, radius: real, color: Vector3)
    requires 0.0 <= radius && HasLength(position)
    ensures Sphere(position, radius, color).distance < 0.0 <==> Dot(position, position) < radius * radius
  {
    SquareLess(Magnitude(position), radius);
  }

  /** `torus`: a ring of tube radius size.y around a circle of radius size.x
      in the xz-plane. */
  ghost function Torus(position: Vector3, size: Vector2, color: Vector3): (s: Surface)
    ensures s.color == color
    ensures s.distance >= -size.y
  {
    var q := Vector2(Magnitude2(XZ(position)) - size.x, position.y);
    Surface(Magnitude2(q) - size.y, color)
  }

  /** `floor`: the plane y = -1, positive above it and negative below. */
  function Floor(position: Vector3, color: Vector3): (s: Surface)
    ensures s.color == color
    ensures s.distance == 0.0 <==> position.y == -1.0
    ensures s.distance < 0.0 <==> position.y < -1.0
  {
    Surface(position.y + 1.0, color)
  }

  /** The floor distance depends on the height alone. */
  lemma FloorIgnoresXZ(p: Vector3, q: Vector3, color: Vector3)
    requires p.y == q.y
    ensures Floor(p, color) == Floor(q, color)
  {
  }
}
