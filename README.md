# raymarching, modelled in Dafny

This project models the core of a CPU sphere tracer written in Rust. The
renderer composes signed distance functions (SDFs) into scenes, marches rays
through them and assembles the rendered pixels into an RGBA frame. The model
covers the following pieces:

- the distance-composition operators of `src/op.rs`: hard union, subtraction
  and intersection, and the polynomial smooth blends;
- the coloured surfaces of `src/surface.rs`: a distance paired with a colour,
  with a hard union and a smooth union and subtraction;
- the records and helpers of `src/prelude.rs`: materials, the checkerboard
  material, the material-carrying union, the sphere distance and the mirror
  reflection of a direction;
- the primitive SDFs of `src/sdf.rs` (sphere, torus, floor) and the placed
  model of `src/model.rs`;
- `src/raymarching.rs`:
  - the demo scene;
  - the `ray_march` loop;
  - the background branch of `at`;
  - the job split and frame assembly of `render`;
- `src/scene.rs`: the `Scene` object and the march of `Scene::at`. This
  march picks the nearest model at each step and sums the shade of every
  light on a hit.

`f32` is modelled as `real` and vectors as triples of reals. `magnitude` and
`normalize` need a square root. Their model is a ghost function that picks a
non-negative root of `v . v` when one exists. The law `|v|^2 = v . v` is
stated under the hypothesis `HasLength(v)` that such a root exists.

The loops are methods proved against specification functions:
- `ray_march` is `Raymarching.RayMarch`, specified by `Marched`.
- The march of `Scene::at` is `Scene.Scene.March`, specified by `MarchFrom`.
- The jobs and the collector of `render` are `Render.RunJob`, `Render.RunJobs`
  and `Render.Collect`. The collector writes in place into an `array<byte>`.

The properties of the specification functions are separate lemmas.

Modules:
- `Scalar`: `clamp`, `mix`, f32 `floor` and the truncating `%`;
- `Vectors`: vector arithmetic and lengths;
- `Op`: `src/op.rs`;
- `Surface`: `src/surface.rs`;
- `Prelude`: `src/prelude.rs`;
- `Sdf`: `src/sdf.rs`;
- `Model`: `src/model.rs`, with the `Light` record of `src/light.rs`;
- `Raymarching`: the scene, the march and `at` of `src/raymarching.rs`;
- `Render`: `render` of `src/raymarching.rs`;
- `Scene`: `src/scene.rs`.

Notes on the code as written:
- The floor is the plane `y = -1`, with distance `p.y + 1`.
- The hard operators of `src/op.rs` act on plain distances, and `subtraction`
  negates the maximum.
- The smooth union's colour weight runs opposite to its distance weight. See
  Findings.
- The image is split into `jobs` runs of `len / jobs` consecutive row-major
  pixels. Pixels past `jobs * (len / jobs)` are never
  rendered and stay 0.
- A `ray_march` that runs out of steps returns the depth it reached, whatever
  that depth is.
- A smoothness `k` of 0 is not an error. The f32 quotient in the weight is
  then an infinity or NaN, and `clamp` turns it into 0 or 1. Every smooth
  operator then gives a hard distance: `min(d1, d2)`, `max(d1, d2)` or
  `max(-d1, d2)`. The last is not the `subtraction` of `src/op.rs`. The
  `Surface` blends show the other operand's colour whenever the two
  distances differ, so they are not `Surface::union`.

## Model

| member | source | states |
|---|---|---|
| Scalar.Clamp | src/op.rs:17 | The result lies in [lo, hi]. It is `val` when `val` is inside, `lo` at or below `lo`, and `hi` at or above `hi`. |
| Scalar.Mix | src/surface.rs:4-6 | `mix(x, y, 0) == x` and `mix(x, y, 1) == y`. |
| Scalar.MixBetween | src/surface.rs:4-6 | For a weight in [0, 1], `mix` lies between its two ends. |
| Scalar.MixReachesEnd | src/surface.rs:4-6 | For x != y, `mix(x, y, t) == y` iff t == 1, and `== x` iff t == 0. |
| Scalar.Floor | src/prelude.rs:42 | `f32::floor` is integer-valued with `r <= x < r + 1`. |
| Scalar.Trunc | src/prelude.rs:42 | The quotient of the truncating `%` rounds toward zero, from either side. |
| Scalar.TruncRemTwoOfInteger | src/prelude.rs:42 | On an integer sum, `% 2.0` is -1, 0 or 1. It is -1 exactly for a negative odd sum. |
| Vectors.Magnitude | src/sdf.rs:4 | `magnitude()` is non-negative, and its square is `v . v` whenever a root exists. |
| Vectors.MagnitudeZero | src/sdf.rs:4 | The magnitude is 0 exactly for the zero vector. |
| Vectors.NormalizeIsUnit | src/scene.rs:26 | `normalize()` of a non-zero vector has unit squared length. |
| Op.Union | src/op.rs:4-6 | `union` is at most both arguments and equals one of them. |
| Op.Intersection | src/op.rs:12-14 | `intersection` is at least both arguments and equals one of them. |
| Op.Subtraction | src/op.rs:8-10 | As written, `subtraction` is `-intersection(d1, d2)`, so it is at most -d1 and at most -d2. |
| Op.SubtractionIntended | src/op.rs:21-24 | `max(-d1, d2)`, the shape `smooth_subtraction` blends: at least -d1 and d2, and equal to one of them. |
| Op.UnionWeight | src/op.rs:17 | The blend weight `h` of `smooth_union` lies in [0, 1] for every k, including k = 0, where the clamped infinity or NaN gives 1 or 0. |
| Op.SubtractionWeight | src/op.rs:22 | The blend weight `h` of `smooth_subtraction` lies in [0, 1] for every k, including k = 0. |
| Op.IntersectionWeight | src/op.rs:27 | The blend weight `h` of `smooth_intersection` lies in [0, 1] for every k, including k = 0. |
| Op.UnionWeightSaturates | src/op.rs:17 | For k > 0: the weight is 1 once d2 - d1 >= k, 0 once d1 - d2 >= k, and strictly between inside the band. |
| Op.SubtractionWeightSaturates | src/op.rs:22 | For k > 0: the weight is 0 once d1 + d2 >= k, 1 once d1 + d2 <= -k, and strictly between inside the band. |
| Op.IntersectionWeightSaturates | src/op.rs:27 | For k > 0: the weight is 0 once d2 - d1 >= k, 1 once d1 - d2 >= k, and strictly between inside the band. |
| Op.SmoothIntersectionBounds | src/op.rs:26-29 | For k >= 0: `max(d1, d2) <= smooth_intersection <= max(d1, d2) + k/4`, with equality to the max once abs(d1 - d2) >= k. |
| Op.SmoothUnionIsMirroredIntersection | src/op.rs:16-19 | `smooth_union(d1, d2, k) == -smooth_intersection(-d1, -d2, k)`. |
| Op.SmoothUnionBounds | src/op.rs:16-19 | For k >= 0: `union - k/4 <= smooth_union <= union`, with equality to the union once abs(d1 - d2) >= k. |
| Op.SmoothSubtractionIsIntersectionWithComplement | src/op.rs:21-24 | `smooth_subtraction(d1, d2, k) == smooth_intersection(-d1, d2, k)`. |
| Op.SmoothSubtractionBounds | src/op.rs:21-24 | For k >= 0: `max(-d1, d2) <= smooth_subtraction <= max(-d1, d2) + k/4`, with equality to that max once abs(d1 + d2) >= k. |
| Op.SmoothAtZero | src/op.rs:16-29 | At k = 0, `smooth_union`, `smooth_intersection` and `smooth_subtraction` are `min(d1, d2)`, `max(d1, d2)` and `max(-d1, d2)`. |
| Op.SubtractionAsWrittenDisagrees | src/op.rs:8-10 | At d1 = 0, d2 = 1: `subtraction` is -1, while `max(-d1, d2)` and `smooth_subtraction(.., 1)` are both 1. |
| Surface.MixVector3f | src/surface.rs:8-14 | `mix_vector3f(lhs, rhs, t)` is rhs at t = 0 and lhs at t = 1. |
| Surface.MixVector3fReachesEnd | src/surface.rs:8-14 | For different colours: the result is lhs iff t == 1, and rhs iff t == 0. |
| Surface.Union | src/surface.rs:30-36 | The distance is the min, and the result is one operand whole. It is rhs when rhs is strictly nearer; on a tie it is lhs. |
| Surface.UnionAssociative | src/surface.rs:30-36 | Nested unions pick the same surface in either grouping. |
| Surface.SmoothUnionDistanceBetween | src/surface.rs:38-45 | The blended distance lies between the two operand distances, since there is no `-k h (1 - h)` term. |
| Surface.SmoothUnionOutsideBand | src/surface.rs:38-45 | For k > 0, outside the band the result has the nearer operand's distance but the farther operand's colour. |
| Surface.SmoothUnionColorOpposite | src/surface.rs:38-45 | For distinct distances and colours: the colour is rhs's iff the distance is lhs's, and vice versa. |
| Surface.SmoothUnionColorExample | src/surface.rs:38-45 | A red surface at 0 and a blue one at 1, with k = 1/2, give distance 0 coloured blue; the hard union gives red. |
| Surface.SmoothAtZero | src/surface.rs:38-54 | At smoothness 0 the union has the min distance and the subtraction `max(-lhs, rhs)`. When the two candidate distances differ, the colour is the other operand's. |
| Surface.SmoothUnionIntended | src/surface.rs:38-45 | The corrected blend has the same distance as the code. |
| Surface.SmoothUnionIntendedMatchesUnion | src/surface.rs:38-45 | Corrected, outside the band the blend is the hard union. The colour is lhs's iff the distance is lhs's. |
| Surface.SmoothSubtractionEnds | src/surface.rs:47-54 | The distance lies between rhs.distance and -lhs.distance. At weight 0 it is rhs's distance with lhs's colour; at weight 1 the reverse. |
| Surface.SmoothSubtractionOutsideBand | src/surface.rs:47-54 | For k > 0, outside the band the distance and the colour come from different operands. |
| Surface.SmoothSubtractionIntended | src/surface.rs:47-54 | The corrected blend has the same distance as the code. |
| Surface.SmoothSubtractionIntendedOutsideBand | src/surface.rs:47-54 | Corrected, outside the band the result is `max(-lhs, rhs)` with the colour of the operand that gives it. Inside, rhs's colour shows iff rhs's distance does. |
| Prelude.Checkerboard | src/prelude.rs:41-50 | The ambient is a grey in {0.09, 0.3, 0.51}. The diffuse is 0.3 grey, the specular 0 and the shininess 1. |
| Prelude.CheckerboardCells | src/prelude.rs:41-50 | The ambient is 0.3 on even cells, 0.51 on odd cells with a non-negative sum, and 0.09 on odd cells with a negative sum. |
| Prelude.DefaultMaterial | src/prelude.rs:53-62 | Every field of the default material is zero. |
| Prelude.Union | src/prelude.rs:94-101 | `Op::union` returns b iff b is strictly nearer, otherwise a unchanged; the distance is the min. |
| Prelude.SdfSphere | src/prelude.rs:84-86 | `Sdf::sphere` is the magnitude minus the radius, hence at least -radius. |
| Prelude.ReflectDot | src/prelude.rs:108-116 | `reflect(d, n) . w == -2 (d . n)(n . w) + d . w`. |
| Prelude.ReflectFlipsNormal | src/prelude.rs:108-116 | For a unit n: `reflect(d, n) . n == -(d . n)`. |
| Prelude.ReflectInvolution | src/prelude.rs:108-116 | For a unit n: `reflect(reflect(d, n), n) == d`. |
| Prelude.ReflectPreservesLength | src/prelude.rs:108-116 | For a unit n: the reflection keeps the squared length. |
| Prelude.ReflectTangent | src/prelude.rs:108-116 | A direction perpendicular to n is unchanged. |
| Sdf.Sphere | src/sdf.rs:3-5 | The colour is passed through, and the distance is the magnitude minus the radius, hence at least -radius. |
| Sdf.SphereInside | src/sdf.rs:3-5 | For radius >= 0: the distance is negative iff `p . p < r * r`. |
| Sdf.Torus | src/sdf.rs:7-10 | The colour is passed through, and the distance is at least -size.y. |
| Sdf.Floor | src/sdf.rs:12-14 | The colour is passed through. The distance is zero iff y == -1 and negative iff y < -1. |
| Sdf.FloorIgnoresXZ | src/sdf.rs:12-14 | The floor does not depend on x and z. |
| Model.New | src/model.rs:12-22 | `Model::new` stores the sdf, the shader and the position unchanged. |
| Model.Distance | src/model.rs:24-26 | At zero offset, `distance` is the sdf itself. |
| Model.Shade | src/model.rs:28-30 | At zero offset, `shade` is the shader itself, with the light and the normal passed through. |
| Model.DistanceTranslates | src/model.rs:24-30 | `distance(q + position) == sdf(q)` and `shade(l, n, q + position) == shader(l, n, q)`. |
| Raymarching.FloorShade | src/raymarching.rs:31 | The floor grey is in {0.5, 1.0, 1.5}: 1 on even cells, 1.5 on odd non-negative cells and 0.5 on odd negative cells. |
| Raymarching.SceneNearest | src/raymarching.rs:27-37 | The scene distance is the min of the floor and the two sphere distances. Ties go to the floor, then to the red sphere. |
| Raymarching.LastStep | src/raymarching.rs:52-59 | The last step taken is below MAX_STEPS. No earlier step stops the march, and an early last step does stop it. |
| Raymarching.FirstStop | src/raymarching.rs:56-57 | The loop ends at the first step whose distance is below PRECISION or whose depth passes MAX_DIST. |
| Raymarching.RayMarch | src/raymarching.rs:48-64 | `ray_march` returns `Marched` after `LastStep + 1` evaluations, between 1 and MAX_STEPS (256). |
| Raymarching.DepthIsSum | src/raymarching.rs:49-55 | The depth after n steps is MIN_DIST plus the sum of the n evaluated distances. |
| Raymarching.MarchedIsLastEvaluation | src/raymarching.rs:49-63 | The returned distance is MIN_DIST plus every evaluated distance, and the colour is the last evaluation's. An early end met the stop test. |
| Raymarching.MarchedRunsBudget | src/raymarching.rs:52-59 | A march that never stops early takes all 256 steps. |
| Raymarching.PrimaryDirection | src/raymarching.rs:67-71 | The ray looks down -z, and the centre pixel looks straight ahead. |
| Raymarching.At | src/raymarching.rs:66-77 | `at` marches from the camera through the pixel. A miss shows BACKGROUND_COLOR with no gamma; a hit gives the lighting of the marched surface. |
| Render.Positions | src/raymarching.rs:114-118 | There are `WIDTH * HEIGHT` positions, and position j is `(j % HEIGHT, j / HEIGHT)`. |
| Render.RunJob | src/raymarching.rs:128-140 | Job i's buffer holds 4 bytes per pixel of `[i*size, (i+1)*size)`: the colour of that position, then alpha 255. |
| Render.JobsDisjoint | src/raymarching.rs:122-131 | Two jobs whose ranges share a pixel are the same job. |
| Render.JobsCover | src/raymarching.rs:120-131 | Every pixel below `jobs * size` lies in job `j / size`. When jobs divides the pixel count, that is all the pixels. |
| Render.Write | src/raymarching.rs:148-151 | Copying a buffer to `start` replaces exactly the bytes `[start, start + len)`. |
| Render.AssembledByte | src/raymarching.rs:145-152 | A byte of the partly assembled frame is its job's byte if that job has arrived, and the background otherwise. |
| Render.AssembledIsFrame | src/raymarching.rs:145-152 | Once every job has arrived, the frame is the same for every arrival order. |
| Render.Copy | src/raymarching.rs:148-151 | The inner loop writes the buffer at its offset and leaves every other byte alone. |
| Render.StartIsOffset | src/raymarching.rs:146 | `i * size * 4` is the offset just past i blocks of `4 * size` bytes. |
| Render.Collect | src/raymarching.rs:145-152 | The collector leaves `pixels` equal to the assembly of the buffers, in the order they arrived. |
| Render.FramePixel | src/raymarching.rs:145-152 | Pixel k of job i is pixel `i * size + k` of the frame. |
| Render.RunJobs | src/raymarching.rs:122-143 | `jobs` buffers of `4 * size` bytes each. Pixel k of job i is the colour of position `i * size + k`. |
| Render.RenderedFrame | src/raymarching.rs:111-152 | The assembled zero-filled frame holds pixel j's colour with alpha 255 for every rendered j. The bytes past the last job stay 0. |
| Render.RenderedPixel | src/raymarching.rs:128-152 | One pixel of the statement above. |
| Render.JobsFit | src/raymarching.rs:111-120 | The jobs' pixels fit the image, and their bytes fit the pixel buffer. |
| Render.Render | src/raymarching.rs:103-152 | Over any arrival order of the jobs: the frame has `W * H * 4` bytes, and pixel j below `jobs * size` is `[r, g, b, 255]` of position `(j % H, j / H)`. The bytes past that are 0. |
| Render.SourceJobsCoverImage | src/raymarching.rs:8-9 | With 2048 x 2048 pixels and 64 jobs, each job renders 65536 pixels and every pixel is rendered. |
| Scene.Nearest | src/scene.rs:33-41 | The chosen index names a model. |
| Scene.NearestIsFirstMinimum | src/scene.rs:33-41 | The chosen model is at the least distance, and every model before it is strictly farther, as after a stable sort. |
| Scene.NearestUnique | src/scene.rs:33-41 | The first index at the least distance is unique, so it is `dist[0].0`. |
| Scene.FirstMinimum | src/scene.rs:39-41 | One scan finds the first index holding the least distance. |
| Scene.LightSumAppend | src/scene.rs:51-58 | The light sum over two lists is the sum of their sums. |
| Scene.LightSumNoLights | src/scene.rs:51-58 | With no lights a hit is black (0, 0, 0). |
| Scene.LightSumOne | src/scene.rs:53-56 | One light contributes exactly its shade. |
| Scene.PointShift | src/scene.rs:32-61 | One step then i steps is i + 1 steps. |
| Scene.MarchFromStop | src/scene.rs:41-58 | A march that starts within 0.01 of a model returns the summed shade there. |
| Scene.MarchFromStep | src/scene.rs:41-61 | Otherwise, the march moves along the ray by the least distance and goes on with one step fewer. |
| Scene.MarchFromMiss | src/scene.rs:29-64 | If none of the first 64 points comes within 0.01 of a model, the colour is (1, 1, 1). |
| Scene.MarchFromHit | src/scene.rs:29-61 | If point i is the first within 0.01 of a model, the colour is the sum over the lights of the nearest model's shade at that point. |
| Scene.Scene.constructor | src/scene.rs:12-20 | `Scene::new` stores width and height, has camera (0, 0, -5), and starts with no models and no lights. |
| Scene.Scene.PrimaryDirection | src/scene.rs:23-26 | The unnormalised ray always has z = 5, and the centre pixel looks along +z. |
| Scene.Scene.PrimaryRayIsUnit | src/scene.rs:26 | The normalised primary ray has unit squared length. |
| Scene.Scene.Distances | src/scene.rs:33-37 | Entry j is model j's distance from the point. |
| Scene.Scene.March | src/scene.rs:27-64 | The loop of `at` returns `MarchFrom(models, lights, camera, ray, 64)`. |

## Left out

- Floating point: `f32` rounding, NaN and infinities are not modelled; values are reals.
- Op.UnionWeight: a negative zero `k` is modelled as zero. In f32 it flips the sign of the infinities. Overflow of the quotient for tiny non-zero `k` is not modelled either.
- Scene.Scene.PrimaryDirection: requires a non-zero height. At height 0, `1.0 / height` is an f32 infinity, and infinities are not modelled.
- Vectors.Magnitude: `magnitude` and `normalize` are not computed. The square law holds under the hypothesis `HasLength(v)` that a root exists. So `Sphere`, `Torus`, the demo scene and the primary ray of `Scene::at` are ghost.
- Sdf.Torus: states only the lower bound `-size.y`, because its distance nests two magnitudes.
- Raymarching.At: the lighting, shadow ray and gamma of the hit branch (`src/raymarching.rs:79-98`) are a parameter. They are float illumination over `normalize` and `powf`.
- `calc_normal` (`src/raymarching.rs:39-46`) is not modelled. It is a numeric approximation with no exact contract.
- Scene.Normal: the finite-difference normal of `Scene::at` is written out, but nothing is proved about it beyond its definition.
- Raymarching.RayMarch: it marches over an arbitrary scene function, because the concrete scene is ghost.
- Render.Render: the colour of a pixel (`at` followed by the `as u8` casts) is a parameter that returns bytes. The casts' saturation is not modelled.
- Render.Render: the thread pool, the channel and `println!` are replaced by `order`, an arbitrary arrival order that holds every job index.
- Render.Render: the `Instant` timer is left out.
- Render.Render: `image::save_buffer` and the whole of `src/main.rs` are file I/O and demo wiring, and are left out.
- Render.Render: `WIDTH`, `HEIGHT` and the job count are parameters. The outer position loop runs over `WIDTH` and the inner over `HEIGHT`, as in the code; with the equal constants this does not matter.
- Scene.FirstMinimum: the stable sort of `dist` is modelled by its head only, the first index at the least distance. One scan finds it instead of sorting the whole vector, since `Scene::at` reads only `dist[0]`.
- Scene.Scene.March: requires at least one model, because `dist[0]` panics on an empty list. A NaN distance, which makes `partial_cmp().unwrap()` panic, cannot occur over reals.
- Scene.Scene.March: it takes the normalised ray as its argument. `Scene.Scene.PrimaryRay` is that ray, as a ghost function.
- `src/shader.rs`, the shaders, are not part of this model; a model's shader is an abstract function.
- `Utils::rgb` (`src/prelude.rs:118-120`) is a float-to-byte cast and is not modelled.
- `Surface::new` in `src/surface.rs` and `src/prelude.rs`, and `Ray::new`, `Material::new` and `Light::new`, are the datatype constructors.
- `src/op.rs` calls `math::mix`, which `src/math.rs` does not define, and the `mix` of `src/surface.rs` is private. The model substitutes the `src/surface.rs` definition, `x + (y - x) t`, for it.
- `src/lib.rs` is not part of this model: it holds only module declarations.
- The `cgmath` and `nalgebra` libraries are replaced by explicit vector functions and `clamp`.

## Findings

| source | as written | input that shows it | evidently intended | confidence | as-written member | corrected member |
|---|---|---|---|---|---|---|
| src/op.rs:8-10 | `-d1.max(d2)` parses as `-(d1.max(d2))`, the negated intersection | d1 = 0, d2 = 1: `subtraction` gives -1, but `smooth_subtraction(0, 1, 1)` gives 1 | `(-d1).max(d2)`, the shape the smooth variant converges to | not executed | Op.SubtractionAsWrittenDisagrees | Op.SmoothSubtractionBounds |
| src/surface.rs:8-14 | `mix_vector3f(lhs, rhs, t)` interpolates from rhs to lhs, and the smooth operators pass the colours in the distance order, so the colour weight is the reverse of the distance weight | red at distance 0 with blue at distance 1, k = 1/2: `smooth_union` gives distance 0 coloured blue | each operand's colour shows where its distance does | not executed | Surface.SmoothUnionColorExample | Surface.SmoothUnionIntendedMatchesUnion |
