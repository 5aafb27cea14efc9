/** The coloured surfaces of src/surface.rs: a distance paired with a
    colour, the hard union, and the smooth union and subtraction that blend
    both the distance and the colour with one clamped weight.

    As written, `mix_vector3f` interpolates from its second argument to its
    first, and the smooth operators pass the colours in the same order as
    the distances to `mix`; so the colour weight runs opposite to the
    distance weight. SmoothUnion and SmoothSubtraction model the code as
    written; SmoothUnionIntended and SmoothSubtractionIntended carry the
    blend the operators evidently mean. */
module Surface {
  import opened Scalar
  import opened Vectors
  import Op

  datatype Surface = Surface(distance: real, color: Vector3)

  /** `mix_vector3f(lhs, rhs, t)`: componentwise `mix(rhs, lhs, t)`, so it
      is rhs at t = 0 and lhs at t = 1. */
  function MixVector3f(lhs: Vector3, rhs: Vector3, t: real): (r: Vector3)
    ensures t == 0.0 ==> r == rhs
    ensures t == 1.0 ==> r == lhs
  {
    Vector3(Mix(rhs.x, lhs.x, t), Mix(rhs.y, lhs.y, t), Mix(rhs.z, lhs.z, t))
  }

  /** Between two different colours, `mix_vector3f` gives its first
      argument only at weight 1 and its second only at weight 0. */
  lemma MixVector3fReachesEnd(lhs: Vector3, rhs: Vector3, t: real)
    requires lhs != rhs
    ensures MixVector3f(lhs, rhs, t) == lhs <==> t == 1.0
    ensures MixVector3f(lhs, rhs, t) == rhs <==> t == 0.0
  {
    if lhs.x != rhs.x {
      MixReachesEnd(rhs.x, lhs.x, t);
    } else if lhs.y != rhs.y {
      MixReachesEnd(rhs.y, lhs.y, t);
    } else {
      MixReachesEnd(rhs.z, lhs.z, t);
    }
  }

  /** `Surface::union`: the nearer surface, whole; on a tie the left one. */
  function Union(lhs: Surface, rhs: Surface): (r: Surface)
    ensures r.distance == Op.Union(lhs.distance, rhs.distance)
    ensures r == lhs || r == rhs
    ensures rhs.distance < lhs.distance ==> r == rhs
    ensures r.distance == lhs.distance ==> r == lhs
  {
    if rhs.distance < lhs.distance then rhs else lhs
  }

  /** Nesting unions in either direction picks the same surface: the first
      of the nearest. */
  lemma UnionAssociative(a: Surface, b: Surface, c: Surface)
    ensures Union(a, Union(b, c)) == Union(Union(a, b), c)
  {
  }

  /** `Surface::smooth_union` as written. */
  function SmoothUnion(lhs: Surface, rhs: Surface, k: real): Surface
  {
    var h := Op.UnionWeight(lhs.distance, rhs.distance, k);
    Surface(Mix(rhs.distance, lhs.distance, h), MixVector3f(rhs.color, lhs.color, h))
  }

  /** With the weight in [0, 1] and no `-k h (1 - h)` term, the blended
      distance never leaves the interval between the two operands. */
  lemma SmoothUnionDistanceBetween(lhs: Surface, rhs: Surface, k: real)
    ensures Op.Min(lhs.distance, rhs.distance) <= SmoothUnion(lhs, rhs, k).distance
    ensures SmoothUnion(lhs, rhs, k).distance <= Op.Max(lhs.distance, rhs.distance)
  {
    MixBetween(rhs.distance, lhs.distance, Op.UnionWeight(lhs.distance, rhs.distance, k));
  }

  /** Outside the band the distance is that of the nearer operand, but the
      colour is that of the farther one. */
  lemma SmoothUnionOutsideBand(lhs: Surface, rhs: Surface, k: real)
    requires 0.0 < k
    ensures rhs.distance - lhs.distance >= k ==>
      SmoothUnion(lhs, rhs, k) == Surface(lhs.distance, rhs.color)
    ensures lhs.distance - rhs.distance >= k ==>
      SmoothUnion(lhs, rhs, k) == Surface(rhs.distance, lhs.color)
  {
    Op.UnionWeightSaturates(lhs.distance, rhs.distance, k);
  }

  /** As written, the blend shows the right operand's colour exactly when
      its distance is the left operand's. */
  lemma SmoothUnionColorOpposite(lhs: Surface, rhs: Surface, k: real)
    requires lhs.distance != rhs.distance && lhs.color != rhs.color
    ensures SmoothUnion(lhs, rhs, k).color == rhs.color <==>
            SmoothUnion(lhs, rhs, k).distance == lhs.distance
    ensures SmoothUnion(lhs, rhs, k).color == lhs.color <==>
            SmoothUnion(lhs, rhs, k).distance == rhs.distance
  {
    var h := Op.UnionWeight(lhs.distance, rhs.distance, k);
    MixReachesEnd(rhs.distance, lhs.distance, h);
    MixVector3fReachesEnd(rhs.color, lhs.color, h);
  }

  /** A red surface at distance 0 blended with a blue one at distance 1:
      the result lies on the red surface but is coloured blue, while the
      hard union keeps red. */
  lemma SmoothUnionColorExample()
    ensures SmoothUnion(Surface(0.0, Vector3(1.0, 0.0, 0.0)), Surface(1.0, Vector3(0.0, 0.0, 1.0)), 0.5)
         == Surface(0.0, Vector3(0.0, 0.0, 1.0))
    ensures Union(Surface(0.0, Vector3(1.0, 0.0, 0.0)), Surface(1.0, Vector3(0.0, 0.0, 1.0)))
         == Surface(0.0, Vector3(1.0, 0.0, 0.0))
  {
    SmoothUnionOutsideBand(Surface(0.0, Vector3(1.0, 0.0, 0.0)), Surface(1.0, Vector3(0.0, 0.0, 1.0)), 0.5);
  }

  /** The smooth union with the colour weighted like the distance. */
  function SmoothUnionIntended(lhs: Surface, rhs: Surface, k: real): (r: Surface)
    ensures r.distance == SmoothUnion(lhs, rhs, k).distance
  {
    var h := Op.UnionWeight(lhs.distance, rhs.distance, k);
    Surface(Mix(rhs.distance, lhs.distance, h), MixVector3f(lhs.color, rhs.color, h))
  }

  /** Corrected, the blend reduces to the hard union outside the band, and
      the colour of an operand shows exactly where its distance does. */
  lemma SmoothUnionIntendedMatchesUnion(lhs: Surface, rhs: Surface, k: real)
    requires 0.0 < k
    ensures rhs.distance - lhs.distance >= k || lhs.distance - rhs.distance >= k ==>
      SmoothUnionIntended(lhs, rhs, k) == Union(lhs, rhs)
    ensures lhs.distance != rhs.distance && lhs.color != rhs.color ==>
      (SmoothUnionIntended(lhs, rhs, k).color == lhs.color <==>
       SmoothUnionIntended(lhs, rhs, k).distance == lhs.distance)
  {
    var h := Op.UnionWeight(lhs.distance, rhs.distance, k);
    Op.UnionWeightSaturates(lhs.distance, rhs.distance, k);
    if lhs.distance != rhs.distance && lhs.color != rhs.color {
      MixReachesEnd(rhs.distance, lhs.distance, h);
      MixVector3fReachesEnd(lhs.color, rhs.color, h);
    }
  }

  /** `Surface::smooth_subtraction` as written. */
  function SmoothSubtraction(lhs: Surface, rhs: Surface, k: real): Surface
  {
    var h := Op.SubtractionWeight(lhs.distance, rhs.distance, k);
    Surface(Mix(rhs.distance, -lhs.distance, h), MixVector3f(rhs.color, lhs.color, h))
  }

  /** The blended distance lies between rhs's distance and the negated
      distance of lhs; when rhs dominates (weight 0) the distance is rhs's
      but the colour is lhs's, and when the carved lhs dominates (weight 1)
      the other way round. */
  lemma SmoothSubtractionEnds(lhs: Surface, rhs: Surface, k: real)
    ensures Op.Min(-lhs.distance, rhs.distance) <= SmoothSubtraction(lhs, rhs, k).distance
    ensures SmoothSubtraction(lhs, rhs, k).distance <= Op.Max(-lhs.distance, rhs.distance)
    ensures Op.SubtractionWeight(lhs.distance, rhs.distance, k) == 0.0 ==>
      SmoothSubtraction(lhs, rhs, k) == Surface(rhs.distance, lhs.color)
    ensures Op.SubtractionWeight(lhs.distance, rhs.distance, k) == 1.0 ==>
      SmoothSubtraction(lhs, rhs, k) == Surface(-lhs.distance, rhs.color)
  {
    MixBetween(rhs.distance, -lhs.distance, Op.SubtractionWeight(lhs.distance, rhs.distance, k));
  }

  /** For k > 0 the weight is 0 once lhs.distance + rhs.distance >= k. */
  lemma SmoothSubtractionOutsideBand(lhs: Surface, rhs: Surface, k: real)
    requires 0.0 < k
    ensures lhs.distance + rhs.distance >= k ==>
      SmoothSubtraction(lhs, rhs, k) == Surface(rhs.distance, lhs.color)
    ensures lhs.distance + rhs.distance <= -k ==>
      SmoothSubtraction(lhs, rhs, k) == Surface(-lhs.distance, rhs.color)
  {
    Op.SubtractionWeightSaturates(lhs.distance, rhs.distance, k);
  }

  /** The smooth subtraction with the colour weighted like the distance. */
  function SmoothSubtractionIntended(lhs: Surface, rhs: Surface, k: real): (r: Surface)
    ensures r.distance == SmoothSubtraction(lhs, rhs, k).distance
  {
    var h := Op.SubtractionWeight(lhs.distance, rhs.distance, k);
    Surface(Mix(rhs.distance, -lhs.distance, h), MixVector3f(lhs.color, rhs.color, h))
  }

  /** Corrected, outside the band the result is max(-lhs, rhs) coloured by
      the operand that gives it, and inside it each colour shows exactly
      where its distance does. */
  lemma SmoothSubtractionIntendedOutsideBand(lhs: Surface, rhs: Surface, k: real)
    requires 0.0 < k
    ensures lhs.distance + rhs.distance >= k ==>
      SmoothSubtractionIntended(lhs, rhs, k) == Surface(Op.SubtractionIntended(lhs.distance, rhs.distance), rhs.color)
    ensures lhs.distance + rhs.distance <= -k ==>
      SmoothSubtractionIntended(lhs, rhs, k) == Surface(Op.SubtractionIntended(lhs.distance, rhs.distance), lhs.color)
    ensures -lhs.distance != rhs.distance && lhs.color != rhs.color ==>
      (SmoothSubtractionIntended(lhs, rhs, k).color == rhs.color <==>
       SmoothSubtractionIntended(lhs, rhs, k).distance == rhs.distance)
  {
    var h := Op.SubtractionWeight(lhs.distance, rhs.distance, k);
    Op.SubtractionWeightSaturates(lhs.distance, rhs.distance, k);
    if -lhs.distance != rhs.distance && lhs.color != rhs.color {
      MixReachesEnd(rhs.distance, -lhs.distance, h);
      MixVector3fReachesEnd(lhs.color, rhs.color, h);
    }
  }

  /** With k = 0 both blends take the hard distance, min(lhs, rhs) for the
      union and max(-lhs, rhs) for the subtraction; as written, the colour
      is the other operand's whenever the distances differ. */
  lemma SmoothAtZero(lhs: Surface, rhs: Surface)
    ensures SmoothUnion(lhs, rhs, 0.0).distance == Op.Union(lhs.distance, rhs.distance)
    ensures lhs.distance < rhs.distance ==> SmoothUnion(lhs, rhs, 0.0).color == rhs.color
    ensures rhs.distance < lhs.distance ==> SmoothUnion(lhs, rhs, 0.0).color == lhs.color
    ensures SmoothSubtraction(lhs, rhs, 0.0).distance == Op.SubtractionIntended(lhs.distance, rhs.distance)
    ensures -lhs.distance < rhs.distance ==> SmoothSubtraction(lhs, rhs, 0.0).color == lhs.color
    ensures rhs.distance < -lhs.distance ==> SmoothSubtraction(lhs, rhs, 0.0).color == rhs.color
  {
  }
}
