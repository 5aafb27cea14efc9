/** A placed object of src/model.rs: a signed distance function and a
    shader, both given as functions, evaluated in the object's own frame
    (the point minus the object's position). The light record of
    src/light.rs that shaders receive is declared here too. */
module Model {
  import opened Vectors

  datatype Light = Light(position: Vector3, intensity: real, color: Vector3)

  datatype Model = Model(
    sdf: Vector3 -> real,
    shader: (Light, Vector3, Vector3) -> Vector3,
    position: Vector3)

  /** `Model::new` keeps its three arguments as they are. */
  function New(sdf: Vector3 -> real, shader: (Light, Vector3, Vector3) -> Vector3, position: Vector3): (m: Model)
    ensures m.position == position
    ensures forall p :: m.sdf(p) == sdf(p)
    ensures forall l, n, p :: m.shader(l, n, p) == shader(l, n, p)
  {
    Model(sdf, shader, position)
  }

  /** `distance`: the sdf at the point relative to the model's position;
      at the origin the translation is the identity. */
  function Distance(m: Model, p: Vector3): (d: real)
    ensures m.position == Zero ==> d == m.sdf(p)
  {
    m.sdf(Sub(p, m.position))
  }

  /** `shade`: the shader gets the light and the normal as given, and the
      point relative to the model's position. */
  function Shade(m: Model, light: Light, normal: Vector3, p: Vector3): (c: Vector3)
    ensures m.position == Zero ==> c == m.shader(light, normal, p)
  {
    m.shader(light, normal, Sub(p, m.position))
  }

  /** Moving a model moves its distance field with it: the distance at
      q + position is the sdf at q. */
  lemma DistanceTranslates(m: Model, q: Vector3)
    ensures Distance(m, Add(q, m.position)) == m.sdf(q)
    ensures forall l, n :: Shade(m, l, n, Add(q, m.position)) == m.shader(l, n, q)
  {
    assert Sub(Add(q, m.position), m.position) == q;
  }
}
