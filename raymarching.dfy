/** The sphere tracer of src/raymarching.rs: the demo scene (two coloured
    spheres over a checkered floor), the `ray_march` loop, and the
    background branch of `at`.

    `ray_march` is modelled over an arbitrary scene function, since the
    concrete scene measures lengths and is ghost here. Its reference
    semantics are the march depths and evaluations below, and the index of
    the first step that stops the march. */
module Raymarching {
  import opened Scalar
  import opened Vectors
  import opened Surface
  import Sdf
  import Prelude

  const Width: nat := 2048
  const Height: nat := 2048
  const Precision: real := 0.001
  const MaxDist: real := 100.0
  const MinDist: real := 0.0
  const MaxSteps: nat := 256
  const CameraPosition: Vector3 := Vector3(0.0, 0.0, 3.0)
  const BackgroundColor: Vector3 := Vector3(1.0, 1.0, 1.0)

  /** The floor's grey level, 1 + 0.5 * ((floor x + floor z) % 2.0) with the
      truncating remainder: 1 on even cells, 1.5 on odd cells with a
      non-negative sum, 0.5 on odd cells with a negative one. */
  function FloorShade(position: Vector3): (g: real)
    ensures g in {0.5, 1.0, 1.5}
    ensures var n := position.x.Floor + position.z.Floor;
      g == if n % 2 == 0 then 1.0 else if n < 0 then 0.5 else 1.5
  {
    TruncRemTwoOfInteger(position.x.Floor + position.z.Floor);
    1.0 + 0.5 * TruncRem(Floor(position.x) + Floor(position.z), 2.0)
  }

  /** `scene`: the floor united with the union of the two spheres. */
  ghost function SceneAt(position: Vector3): Surface {
    var sphere1 := Sdf.Sphere(Add(position, Vector3(0.5, 0.0, 0.0)), 0.3, Vector3(1.0, 0.0, 0.0));
    var sphere2 := Sdf.Sphere(Add(position, Vector3(-0.5, 0.0, 0.0)), 0.3, Vector3(0.0, 0.0, 1.0));
    var g := FloorShade(position);
    var floor := Sdf.Floor(position, Prelude.Grey(g));
    Union(floor, Union(sphere1, sphere2))
  }

  /** The scene distance is the least of the three primitive distances, and
      its colour is that of the first primitive reaching it, in the order
      floor, red sphere, blue sphere. */
  lemma SceneNearest(position: Vector3)
    ensures var sphere1 := Sdf.Sphere(Add(position, Vector3(0.5, 0.0, 0.0)), 0.3, Vector3(1.0, 0.0, 0.0));
      var sphere2 := Sdf.Sphere(Add(position, Vector3(-0.5, 0.0, 0.0)), 0.3, Vector3(0.0, 0.0, 1.0));
      var floor := position.y + 1.0;
      var s := SceneAt(position);
      && s.distance <= floor && s.distance <= sphere1.distance && s.distance <= sphere2.distance
      && (s.distance == floor || s.distance == sphere1.distance || s.distance == sphere2.distance)
      && (floor <= sphere1.distance && floor <= sphere2.distance ==> s.color == Prelude.Grey(FloorShade(position)))
      && (sphere1.distance < floor && sphere1.distance <= sphere2.distance ==> s.color == Vector3(1.0, 0.0, 0.0))
      && (sphere2.distance < floor && sphere2.distance < sphere1.distance ==> s.color == Vector3(0.0, 0.0, 1.0))
  {
  }

  /** The march depth before step i: MinDist plus the distances returned by
      the first i evaluations. */
  function Depth(scene: Vector3 -> Surface, origin: Vector3, dir: Vector3, i: nat): real
    decreases i, 0
  {
    if i == 0 then MinDist else Depth(scene, origin, dir, i - 1) + Eval(scene, origin, dir, i - 1).distance
  }

  /** The surface evaluated at step i. */
  function Eval(scene: Vector3 -> Surface, origin: Vector3, dir: Vector3, i: nat): Surface
    decreases i, 1
  {
    scene(Add(origin, Scale(dir, Depth(scene, origin, dir, i))))
  }

  /** Step i ends the march: the surface is closer than the precision
      (negative distances included), or the depth has passed MaxDist. */
  predicate Stops(scene: Vector3 -> Surface, origin: Vector3, dir: Vector3, i: nat) {
    Precision > Eval(scene, origin, dir, i).distance || MaxDist < Depth(scene, origin, dir, i + 1)
  }

  /** The index of the last step taken from step i on: the first stopping
      step, or the last step of the budget. */
  function LastStep(scene: Vector3 -> Surface, origin: Vector3, dir: Vector3, i: nat): (j: nat)
    requires i < MaxSteps
    ensures i <= j < MaxSteps
    ensures forall t :: i <= t < j ==> !Stops(scene, origin, dir, t)
    ensures j < MaxSteps - 1 ==> Stops(scene, origin, dir, j)
    decreases MaxSteps - i
  {
    if i == MaxSteps - 1 || Stops(scene, origin, dir, i) then i else LastStep(scene, origin, dir, i + 1)
  }

  /** What `ray_march` returns: the depth after the last step, with the
      colour of the last evaluation. */
  function Marched(scene: Vector3 -> Surface, origin: Vector3, dir: Vector3): Surface {
    var j := LastStep(scene, origin, dir, 0);
    Surface(Depth(scene, origin, dir, j + 1), Eval(scene, origin, dir, j).color)
  }

  /** The last step is the first one that stops. */
  lemma FirstStop(scene: Vector3 -> Surface, origin: Vector3, dir: Vector3, i: nat)
    requires i < MaxSteps && Stops(scene, origin, dir, i)
    requires forall t :: 0 <= t < i ==> !Stops(scene, origin, dir, t)
    ensures LastStep(scene, origin, dir, 0) == i
  {
  }

  /** `ray_march`: steps along origin + distance * dir for at most MaxSteps
      evaluations, adding each evaluated distance to the depth. */
  method RayMarch(scene: Vector3 -> Surface, origin: Vector3, dir: Vector3)
    returns (result: Surface, ghost evaluations: nat)
    ensures result == Marched(scene, origin, dir)
    ensures 1 <= evaluations <= MaxSteps
    ensures evaluations == LastStep(scene, origin, dir, 0) + 1
  {
    var distance := MinDist;
    result := Surface(0.0, Zero);
    var i := 0;
    while i < MaxSteps
      invariant 0 <= i <= MaxSteps
      invariant distance == Depth(scene, origin, dir, i)
      invariant forall t :: 0 <= t < i ==> !Stops(scene, origin, dir, t)
      invariant 0 < i ==> result == Eval(scene, origin, dir, i - 1)
    {
      var position := Add(origin, Scale(dir, distance));
      result := scene(position);
      distance := distance + result.distance;
      if Precision > result.distance || MaxDist < distance {
        assert Stops(scene, origin, dir, i);
        FirstStop(scene, origin, dir, i);
        evaluations := i + 1;
        result := result.(distance := distance);
        return;
      }
      i := i + 1;
    }
    evaluations := i;
    result := result.(distance := distance);
  }

  /** The distances of the first n evaluations, in order. */
  function Distances(scene: Vector3 -> Surface, origin: Vector3, dir: Vector3, n: nat): seq<real>
  {
    seq(n, t requires 0 <= t => Eval(scene, origin, dir, t).distance)
  }

  function Sum(ds: seq<real>): real {
    if ds == [] then 0.0 else Sum(ds[..|ds| - 1]) + ds[|ds| - 1]
  }

  /** The depth after n steps is MinDist plus the sum of the n evaluated
      distances; so `ray_march` returns MinDist plus the sum of every
      distance it evaluated. */
  lemma {:induction false} DepthIsSum(scene: Vector3 -> Surface, origin: Vector3, dir: Vector3, n: nat)
    ensures Depth(scene, origin, dir, n) == MinDist + Sum(Distances(scene, origin, dir, n))
  {
    if n > 0 {
      DepthIsSum(scene, origin, dir, n - 1);
      assert Distances(scene, origin, dir, n)[..n - 1] == Distances(scene, origin, dir, n - 1);
    }
  }

  /** The marched surface: the sum of the evaluated distances, and the colour
      of the last evaluation; a march ended early stopped on its last step. */
  lemma MarchedIsLastEvaluation(scene: Vector3 -> Surface, origin: Vector3, dir: Vector3)
    ensures var j := LastStep(scene, origin, dir, 0);
      && Marched(scene, origin, dir).distance == MinDist + Sum(Distances(scene, origin, dir, j + 1))
      && Marched(scene, origin, dir).color == Eval(scene, origin, dir, j).color
      && (j < MaxSteps - 1 ==> Precision > Eval(scene, origin, dir, j).distance || MaxDist < Marched(scene, origin, dir).distance)
  {
    DepthIsSum(scene, origin, dir, LastStep(scene, origin, dir, 0) + 1);
  }

  /** A march that never comes closer than the precision within the depth
      bound runs the whole budget. */
  lemma MarchedRunsBudget(scene: Vector3 -> Surface, origin: Vector3, dir: Vector3)
    requires forall t :: 0 <= t < MaxSteps ==> !Stops(scene, origin, dir, t)
    ensures LastStep(scene, origin, dir, 0) == MaxSteps - 1
    ensures Marched(scene, origin, dir).distance == Depth(scene, origin, dir, MaxSteps)
  {
  }

  /** The first ray of `at`: pixel (x, y) with y flipped, centred and scaled
      by the image height, looking down -z. The centre pixel looks straight
      ahead. */
  function PrimaryDirection(x: real, y: real): (dir: Vector3)
    ensures dir.z == -1.0
    ensures x == Width as real / 2.0 && y == Height as real / 2.0 ==> dir == Vector3(0.0, 0.0, -1.0)
  {
    var px := x - 0.5 * Width as real;
    var py := Height as real - y - 0.5 * Height as real;
    Vector3(px / Height as real, py / Height as real, -1.0)
  }

  /** The colour of `at` for a marched surface: a march that ended beyond
      MaxDist shows the background as it is, with no lighting and no gamma;
      otherwise the lit colour, which is not part of this model, is given. */
  function PixelColor(marched: Surface, lit: Vector3): Vector3 {
    if MaxDist < marched.distance then BackgroundColor else lit
  }

  /** `at` up to its lighting: march from the camera through the pixel, and
      show the background on a miss. */
  method At(scene: Vector3 -> Surface, lighting: (Vector3, Surface) -> Vector3, x: real, y: real)
    returns (c: Vector3)
    ensures var dir := PrimaryDirection(x, y);
      var s := Marched(scene, CameraPosition, dir);
      c == if MaxDist < s.distance then BackgroundColor else lighting(dir, s)
  {
    var dir := PrimaryDirection(x, y);
    var surface, _ := RayMarch(scene, CameraPosition, dir);
    c := PixelColor(surface, lighting(dir, surface));
  }
}
