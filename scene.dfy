/** The model-list scene of src/scene.rs: a camera, the models and the
    lights, and the march of `Scene::at`. At every step the models are
    measured from the current point and sorted by distance with a stable
    sort; the first one (the nearest, lowest index on ties) decides. Within
    0.01 of it the colour is the sum over the lights of its shade, with a
    finite-difference normal; otherwise the point moves along the ray by
    that distance. After 64 steps without a hit the colour is white.

    Normalising the primary ray needs a square root, so the ray is the ghost
    function PrimaryRay and the march itself is the method March, which
    takes the ray. */
module Scene {
  import opened Vectors
  import opened Model

  const Steps: nat := 64
  const Epsilon: real := 0.01
  const NormalStep: real := 0.001
  const White: Vector3 := Vector3(1.0, 1.0, 1.0)

  /** The index `dist[0].0` after the stable sort: the first model at the
      least distance (see NearestIsFirstMinimum). */
  function Nearest(models: seq<Model>, p: Vector3): (k: nat)
    requires |models| > 0
    ensures k < |models|
    decreases |models|
  {
    if |models| == 1 then
      0
    else
      var k := Nearest(models[..|models| - 1], p);
      if Distance(models[|models| - 1], p) < Distance(models[k], p) then |models| - 1 else k
  }

  /** The first index holding the least distance among the models. */
  predicate FirstMinimumAt(models: seq<Model>, p: Vector3, k: nat) {
    && k < |models|
    && (forall j :: 0 <= j < |models| ==> Distance(models[k], p) <= Distance(models[j], p))
    && (forall j :: 0 <= j < k ==> Distance(models[k], p) < Distance(models[j], p))
  }

  /** The chosen model is at the least distance, and every model before it
      is strictly farther: ties go to the lowest index, as after a stable
      sort. */
  lemma {:induction false} NearestIsFirstMinimum(models: seq<Model>, p: Vector3)
    requires |models| > 0
    ensures FirstMinimumAt(models, p, Nearest(models, p))
    decreases |models|
  {
    if |models| > 1 {
      var init := models[..|models| - 1];
      NearestIsFirstMinimum(init, p);
      assert forall j :: 0 <= j < |init| ==> init[j] == models[j];
    }
  }

  /** Only one index is the first at the least distance. */
  lemma NearestUnique(models: seq<Model>, p: Vector3, k: nat)
    requires FirstMinimumAt(models, p, k)
    ensures k == Nearest(models, p)
  {
    NearestIsFirstMinimum(models, p);
    var n := Nearest(models, p);
    assert !(n < k) && !(k < n);
  }

  /** The normal of `at`: forward differences of the hit model's distance
      with step 0.001 along each axis. */
  function Normal(m: Model, p: Vector3, d: real): Vector3 {
    Vector3(
      (Distance(m, Add(p, Vector3(NormalStep, 0.0, 0.0))) - d) / NormalStep,
      (Distance(m, Add(p, Vector3(0.0, NormalStep, 0.0))) - d) / NormalStep,
      (Distance(m, Add(p, Vector3(0.0, 0.0, NormalStep))) - d) / NormalStep)
  }

  /** The colour accumulated over `lights`, in order, from (0, 0, 0). */
  function LightSum(m: Model, lights: seq<Light>, normal: Vector3, p: Vector3): (c: Vector3)
    decreases |lights|
  {
    if lights == [] then Zero
    else Add(LightSum(m, lights[..|lights| - 1], normal, p), Shade(m, lights[|lights| - 1], normal, p))
  }

  /** The sum over two lists of lights is the sum of their sums: the order
      of the lights does not matter beyond the order of additions. */
  lemma {:induction false} LightSumAppend(m: Model, a: seq<Light>, b: seq<Light>, normal: Vector3, p: Vector3)
    ensures LightSum(m, a + b, normal, p) == Add(LightSum(m, a, normal, p), LightSum(m, b, normal, p))
    decreases |b|
  {
    if b == [] {
      assert a + b == a;
    } else {
      var b' := b[..|b| - 1];
      assert (a + b)[..|a + b| - 1] == a + b';
      LightSumAppend(m, a, b', normal, p);
    }
  }

  /** With no lights a hit is black. */
  lemma LightSumNoLights(m: Model, normal: Vector3, p: Vector3)
    ensures LightSum(m, [], normal, p) == Vector3(0.0, 0.0, 0.0)
  {
  }

  /** A single light contributes its shade. */
  lemma LightSumOne(m: Model, l: Light, normal: Vector3, p: Vector3)
    ensures LightSum(m, [l], normal, p) == Shade(m, l, normal, p)
  {
    assert [l][..0] == [];
  }

  /** The colour of a hit on model m at p, at distance d. */
  function HitColor(m: Model, lights: seq<Light>, p: Vector3, d: real): Vector3 {
    LightSum(m, lights, Normal(m, p, d), p)
  }

  /** The least model distance at p. */
  function NearestDistance(models: seq<Model>, p: Vector3): real
    requires |models| > 0
  {
    Distance(models[Nearest(models, p)], p)
  }

  /** The colour of a hit at q: the summed shade of q's nearest model. */
  function HitAt(models: seq<Model>, lights: seq<Light>, q: Vector3): Vector3
    requires |models| > 0
  {
    var k := Nearest(models, q);
    HitColor(models[k], lights, q, Distance(models[k], q))
  }

  /** One step of the march from q: along the ray by the least model
      distance. */
  function Advance(models: seq<Model>, q: Vector3, ray: Vector3): Vector3
    requires |models| > 0
  {
    Add(q, Scale(ray, NearestDistance(models, q)))
  }

  /** The loop of `at` from `curr` with `steps` steps left. */
  function MarchFrom(models: seq<Model>, lights: seq<Light>, curr: Vector3, ray: Vector3, steps: nat): Vector3
    requires |models| > 0
    decreases steps
  {
    if steps == 0 then White
    else if NearestDistance(models, curr) < Epsilon then HitAt(models, lights, curr)
    else MarchFrom(models, lights, Advance(models, curr, ray), ray, steps - 1)
  }

  /** The i-th point of the march from `start`. */
  function Point(models: seq<Model>, start: Vector3, ray: Vector3, i: nat): Vector3
    requires |models| > 0
  {
    if i == 0 then start else Advance(models, Point(models, start, ray, i - 1), ray)
  }

  /** Taking one step first and then i steps is taking i + 1 steps. */
  lemma {:induction false} PointShift(models: seq<Model>, start: Vector3, ray: Vector3, i: nat)
    requires |models| > 0
    ensures Point(models, start, ray, i + 1) == Point(models, Advance(models, start, ray), ray, i)
  {
    if i > 0 {
      PointShift(models, start, ray, i - 1);
    }
  }

  /** A march that starts within Epsilon of a model stops there. */
  lemma MarchFromStop(models: seq<Model>, lights: seq<Light>, q: Vector3, ray: Vector3, steps: nat)
    requires |models| > 0 && 0 < steps
    requires NearestDistance(models, q) < Epsilon
    ensures MarchFrom(models, lights, q, ray, steps) == HitAt(models, lights, q)
  {
  }

  /** A march that starts at least Epsilon from every model takes a step. */
  lemma MarchFromStep(models: seq<Model>, lights: seq<Light>, q: Vector3, ray: Vector3, steps: nat)
    requires |models| > 0 && 0 < steps
    requires NearestDistance(models, q) >= Epsilon
    ensures MarchFrom(models, lights, q, ray, steps) == MarchFrom(models, lights, Advance(models, q, ray), ray, steps - 1)
  {
  }

  /** A march whose first `steps` points all stay at least Epsilon from
      every model ends white. */
  lemma {:induction false} MarchFromMiss(models: seq<Model>, lights: seq<Light>, start: Vector3, ray: Vector3, steps: nat)
    requires |models| > 0
    requires forall t :: 0 <= t < steps ==> NearestDistance(models, Point(models, start, ray, t)) >= Epsilon
    ensures MarchFrom(models, lights, start, ray, steps) == White
    decreases steps
  {
    if steps > 0 {
      var next := Advance(models, start, ray);
      forall t | 0 <= t < steps - 1
        ensures NearestDistance(models, Point(models, next, ray, t)) >= Epsilon
      {
        PointShift(models, start, ray, t);
      }
      assert Point(models, start, ray, 0) == start;
      MarchFromStep(models, lights, start, ray, steps);
      MarchFromMiss(models, lights, next, ray, steps - 1);
    }
  }

  /** A march whose first point within Epsilon of a model is point i, with
      i inside the budget, ends with the summed shade of that point's
      nearest model. */
  lemma {:induction false} MarchFromHit(models: seq<Model>, lights: seq<Light>, start: Vector3, ray: Vector3, steps: nat, i: nat)
    requires |models| > 0
    requires i < steps
    requires NearestDistance(models, Point(models, start, ray, i)) < Epsilon
    requires forall t :: 0 <= t < i ==> NearestDistance(models, Point(models, start, ray, t)) >= Epsilon
    ensures MarchFrom(models, lights, start, ray, steps) == HitAt(models, lights, Point(models, start, ray, i))
    decreases i
  {
    assert Point(models, start, ray, 0) == start;
    if i == 0 {
      MarchFromStop(models, lights, start, ray, steps);
    } else {
      var next := Advance(models, start, ray);
      forall t | 0 <= t < i - 1
        ensures NearestDistance(models, Point(models, next, ray, t)) >= Epsilon
      {
        PointShift(models, start, ray, t);
      }
      PointShift(models, start, ray, i - 1);
      MarchFromStep(models, lights, start, ray, steps);
      MarchFromHit(models, lights, next, ray, steps - 1, i - 1);
    }
  }

  class Scene {
    /** Private and set only by `Scene::new`. */
    const camera: Vector3 := Vector3(0.0, 0.0, -5.0)
    const width: nat
    const height: nat
    var models: seq<Model>
    var lights: seq<Light>

    /** `Scene::new`: the camera five units behind the origin, no models and
        no lights. */
    constructor(width: nat, height: nat)
      ensures this.width == width && this.height == height
      ensures camera == Vector3(0.0, 0.0, -5.0)
      ensures models == [] && lights == []
    {
      this.width := width;
      this.height := height;
      models := [];
      lights := [];
    }

    /** The unnormalised ray of pixel (x, y): the image plane point, centred
        and scaled by -2 / height, minus the camera. The centre pixel looks
        along +z. */
    function PrimaryDirection(x: nat, y: nat): (dir: Vector3)
      requires 0 < height
      ensures dir.z == 5.0
      ensures 2 * x == width && 2 * y == height ==> dir == Sub(Zero, camera)
    {
      var scale := -1.0 * 2.0 * (1.0 / height as real);
      var position := Vector3(x as real, y as real, 0.0);
      var centre := Vector3(1.0 / 2.0 * width as real, 1.0 / 2.0 * height as real, 0.0);
      var offset := Sub(position, centre);
      assert offset.z == 0.0;
      assert 2 * x == width && 2 * y == height ==> offset == Zero;
      var uv := Scale(offset, scale);
      Sub(uv, camera)
    }

    /** The normalised primary ray of `at`. */
    ghost function PrimaryRay(x: nat, y: nat): Vector3
      requires 0 < height
    {
      Normalize(PrimaryDirection(x, y))
    }

    /** The direction always points 5 along +z, so it is never zero, and
        once normalised it has unit length. */
    lemma PrimaryRayIsUnit(x: nat, y: nat)
      requires 0 < height
      requires HasLength(PrimaryDirection(x, y))
      ensures Dot(PrimaryRay(x, y), PrimaryRay(x, y)) == 1.0
    {
      NormalizeIsUnit(PrimaryDirection(x, y));
    }

    /** The distances of all models from p, in model order. */
    method Distances(p: Vector3) returns (dist: seq<real>)
      ensures |dist| == |models|
      ensures forall j :: 0 <= j < |models| ==> dist[j] == Distance(models[j], p)
    {
      dist := [];
      var key := 0;
      while key < |models|
        invariant 0 <= key <= |models|
        invariant |dist| == key
        invariant forall j :: 0 <= j < key ==> dist[j] == Distance(models[j], p)
      {
        dist := dist + [Distance(models[key], p)];
        key := key + 1;
      }
    }

    /** The march of `at` along `ray` from the camera. */
    method March(ray: Vector3) returns (color: Vector3)
      requires |models| > 0
      ensures color == MarchFrom(models, lights, camera, ray, Steps)
    {
      var curr := camera;
      var step := 0;
      while step < Steps
        invariant 0 <= step <= Steps
        invariant MarchFrom(models, lights, curr, ray, Steps - step) == MarchFrom(models, lights, camera, ray, Steps)
      {
        var dist := Distances(curr);
        var k := FirstMinimum(dist);
        NearestUnique(models, curr, k);
        if dist[k] < Epsilon {
          var m := models[k];
          var d := dist[k];
          var normal := Normal(m, curr, d);
          color := Zero;
          var i := 0;
          while i < |lights|
            invariant 0 <= i <= |lights|
            invariant color == LightSum(m, lights[..i], normal, curr)
          {
            assert lights[..i + 1][..i] == lights[..i];
            color := Add(color, Shade(m, lights[i], normal, curr));
            i := i + 1;
          }
          assert lights[..i] == lights;
          return;
        }
        curr := Add(curr, Scale(ray, dist[k]));
        step := step + 1;
      }
      color := White;
    }
  }

  /** The head of the stable sort by distance: the first index holding the
      least value. */
  method FirstMinimum(dist: seq<real>) returns (k: nat)
    requires |dist| > 0
    ensures k < |dist|
    ensures forall j :: 0 <= j < |dist| ==> dist[k] <= dist[j]
    ensures forall j :: 0 <= j < k ==> dist[k] < dist[j]
  {
    k := 0;
    var j := 1;
    while j < |dist|
      invariant 0 <= k < j <= |dist|
      invariant forall t :: 0 <= t < j ==> dist[k] <= dist[t]
      invariant forall t :: 0 <= t < k ==> dist[k] < dist[t]
    {
      if dist[j] < dist[k] {
        k := j;
      }
      j := j + 1;
    }
  }
}
