# raytrace: canvas and nearest-hit selection, in Dafny

This project models the core of a small Rust ray tracer (jeevcat/raytrace).
It covers two parts.

- **The centred canvas** (`src/canvas.rs`). This is modelled in `canvas.dfy`, module `Canvas`.
  - `Canvas` is a class over an `array2<Color>` pixel buffer. `put_pixel` maps canvas coordinates (origin at the centre, y upwards) to screen coordinates and writes one pixel in place. It silently ignores coordinates outside `[-W/2, W/2) x (-H/2, H/2]`.
  - `PixelsIterator` is a class with mutable `x` and `y`. Its `Next` method is proved against a specification function, `Emitted`, which lists the pairs the remaining calls will yield.
  - `CollectPixels` is the render loop's `for (x, y) in canvas.iter_pixels()`. It is a `while` loop over `Next` and is proved to produce exactly the sweep.
  - The Rust `u32`/`i32` arithmetic is written out: the `as i32` wrap-around of `width as i32`, the round-toward-zero `/ 2`, and put_pixel's `i32` sums with the wrap-around of a release build and the `as u32` cast back.
- **Ray-sphere intersection and nearest-hit selection** (`src/main.rs`). This is modelled in `ray_tracer.dfy`, module `RayTracer`.
  - `intersect_ray_sphere` becomes `IntersectRaySphere` over reals. `f32::INFINITY` becomes `PosInf`, and the square root is a parameter.
  - The `fold` in `trace_ray` becomes `FoldClosest`, which keeps the closure's early return on `t1`.
  - `TraceRay` gives the pixel colour.
  - A corrected selection over both roots, `FoldNearest` / `TraceRayNearest`, is given beside it (see Findings).

`wrappers.dfy` holds the `Option` type that `next` and the fold's `closest_sphere` use.

The model follows the code where it differs from the intended behaviour:

- A pixel should show the nearest visible sphere, i.e. the smallest root strictly inside (t_min, t_max) over all spheres and both roots. The code's fold returns as soon as `t1` qualifies, so the model keeps that, and the Findings table records the difference.
- The ray from the origin along (0, 0, 1) only touches the sphere at (0, -1, 3) of radius 1: the discriminant is zero and both roots are 3 (`RayTracer.GrazingRayRoots`). It does not meet that sphere at t = 2.

## Model

| member | source | states |
|---|---|---|
| Canvas.U32AsI32 | src/canvas.rs:23-24 | `n as i32` for a u32 is an i32 congruent to n modulo 2^32 |
| Canvas.HalfTowardZero | src/canvas.rs:23-24 | `i32 / 2` rounds toward zero: for n >= 0 the result r has 2r <= n <= 2r+1, for n < 0 2r-1 <= n <= 2r <= 0 |
| Canvas.IterHalf | src/canvas.rs:23-24 | the iterator's half extent `dim as i32 / 2` stays within ±2^30, so the iterator's `+ 1` steps never overflow |
| Canvas.RangeHalf | src/canvas.rs:63-64 | put_pixel's half extent `(dim / 2) as i32` is a non-negative i32 with 2h <= dim <= 2h+1 |
| Canvas.HalvesAgree | src/canvas.rs:23-24 | the iterator's and put_pixel's half extents agree for every dimension up to i32::MAX; above it the iterator's extent is not positive |
| Canvas.InRange | src/canvas.rs:65 | put_pixel's reject test; what it accepts is stated by ScreenPos, CanvasPos and SweepAcceptance |
| Canvas.ScreenPos | src/canvas.rs:68-70 | every accepted canvas coordinate maps to a screen position inside the width x height buffer |
| Canvas.CanvasPos | src/canvas.rs:65-69 | every screen position in the even part of the buffer comes from an accepted canvas coordinate that maps back to it |
| Canvas.ScreenPosRoundTrip | src/canvas.rs:65-69 | screen positions of accepted coordinates lie in the even part of the buffer, and CanvasPos recovers the coordinate |
| Canvas.ScreenPosInjective | src/canvas.rs:68-69 | distinct accepted canvas coordinates never write the same screen pixel |
| Canvas.OddDimensionUnreachable | src/canvas.rs:63-69 | on an odd width the last screen column is never written, and on an odd height the last screen row is never written |
| Canvas.WrapI32 | src/canvas.rs:68-69 | an `i32` sum in a release build: the i32 congruent to the exact sum modulo 2^32 |
| Canvas.I32AsU32 | src/canvas.rs:68-69 | `n as u32` for an i32: the u32 congruent to n modulo 2^32 |
| Canvas.WrappedScreenPos | src/canvas.rs:68-70 | for an accepted coordinate, `(range_x + x) as u32` and `(range_y - y) as u32` with release-build wrap-around are exactly ScreenPos |
| Canvas.ScreenSumsFitI32 | src/canvas.rs:68-69 | the two i32 sums cannot overflow while the dimension is at most 2^31 (the first overflow is at 2^31 + 2) |
| Canvas.ScreenSumOverflows | src/canvas.rs:68 | on a canvas 2^32 - 1 wide an accepted x takes `range_x + x` past i32::MAX |
| Canvas.Canvas.constructor | src/canvas.rs:52-56 | a fresh width x height buffer with every pixel black |
| Canvas.Canvas.PutPixel | src/canvas.rs:60-71 | the pixel at ScreenPos(x, y) becomes `pixel` when (x, y) is accepted; every other pixel, and every pixel on a rejected coordinate, is unchanged |
| Canvas.Canvas.IterPixels | src/canvas.rs:81-83 | a fresh iterator positioned at (-half_w, -half_h) |
| Canvas.PixelsIterator.constructor | src/canvas.rs:22-31 | half_w and half_h are `dim as i32 / 2` and the start state is (-half_w, -half_h) |
| Canvas.Emitted | src/canvas.rs:37-48 | the pairs successive `next` calls yield from a state; Next's contract and EmittedFromStart state what it holds |
| Canvas.PixelsIterator.Next | src/canvas.rs:37-48 | the three branches: exhausted (None, state unchanged, so None forever after), row wrap (yields (-half_w, y+1)), and plain step; the yielded item is the head of the Emitted sequence and the rest is what the new state emits |
| Canvas.CollectPixels | src/canvas.rs:22-48 | the render loop `for (x, y) in canvas.iter_pixels()` of src/main.rs line 47: calling `next` until `None` yields exactly SweepPairs, and on a canvas 2..i32::MAX wide exactly SweepOrder |
| Canvas.SweepPairsInOrder | src/canvas.rs:22-48 | a fresh iterator on a canvas 2..i32::MAX wide yields SweepOrder: rows y = -half_h .. half_h-1, each with x ascending, then (-half_w, half_h) |
| Canvas.EmittedFromStart | src/canvas.rs:37-48 | from (-hw, -hh) with hw >= 1, `next` yields all full rows in order, then the one extra pair (-hw, hh), then None |
| Canvas.SweepOrderLength | src/canvas.rs:38-47 | the sweep has 4·half_w·half_h grid pairs plus one extra pair |
| Canvas.SweepOrderRowMajor | src/canvas.rs:41-46 | the sweep is strictly increasing in row-major order, so no pair is yielded twice |
| Canvas.SweepOrderMembers | src/canvas.rs:38-47 | the sweep holds exactly the grid [-hw, hw) x [-hh, hh) and the extra pair (-hw, hh) |
| Canvas.SweepAcceptance | src/canvas.rs:26-65 | put_pixel rejects every pair the iterator yields in the bottom row y = -half_h; on a canvas 2..i32::MAX wide it accepts every other yielded pair |
| Canvas.SweepCoverage | src/canvas.rs:60-71 | a full render sweep writes screen pixel (sx, sy) exactly when it lies in the even part of the buffer and is not in the top screen row, except the corner (0, 0) |
| Canvas.WrittenPixelCovered | src/canvas.rs:60-71 | every pixel a full sweep writes lies in that region |
| Canvas.CoveredPixelWritten | src/canvas.rs:60-71 | every pixel in that region is written by a full sweep |
| RayTracer.QuadraticMeasuresDistance | src/main.rs:88-92 | the quadratic at t is the squared distance of the ray's point at t from the centre minus the squared radius |
| RayTracer.IntersectRaySphere | src/main.rs:83-104 | the roots (-b ± sqrt d) / 2a, or both INFINITY for d < 0; its contract is stated by MissIffNegativeDiscriminant, RootsOrdered and RootsAreExactlyHits |
| RayTracer.MissIffNegativeDiscriminant | src/main.rs:94-103 | both roots are INFINITY exactly when b² - 4ac < 0, and otherwise both are finite |
| RayTracer.RootsOrdered | src/main.rs:99-103 | with a non-negative square root and a = ‖direction‖² > 0, t1 >= t2 |
| RayTracer.QuadraticFormula | src/main.rs:94-103 | a quadratic with a > 0 has a zero only when its discriminant is non-negative, and its zeros are exactly (-b ± √d) / 2a |
| RayTracer.RootsAreExactlyHits | src/main.rs:83-104 | with a true square root, the finite roots are exactly the parameters at which the ray meets the sphere's surface |
| RayTracer.Less | src/main.rs:67 | f32 `<` with INFINITY: only a finite value is below anything, and every finite value is below INFINITY |
| RayTracer.LessIsStrictTotalOrder | src/main.rs:67 | that `<` is irreflexive, asymmetric, transitive and total, so the fold's comparisons are well behaved |
| RayTracer.FoldClosest | src/main.rs:63-75 | a sphere is selected iff some sphere has a root strictly inside (t_min, t_max); the recorded t is then a root of the selected sphere inside the window, and otherwise t stays INFINITY |
| RayTracer.TraceRay | src/main.rs:56-81 | the background colour when no sphere has a root in the window; when some sphere has one, the `color` of the sphere FoldClosest selects, which has a root in the window |
| RayTracer.ConsiderPrefersT1 | src/main.rs:67-69 | a qualifying t1 is recorded whatever t2 is |
| RayTracer.Consider | src/main.rs:65-74 | one fold step changes the accumulator exactly when t1 or t2 lies in the window and below closest_t, and then records this sphere at one of its in-window roots, strictly below the old closest_t |
| RayTracer.ConsiderBoth | src/main.rs:65-74 | the corrected step: the new closest_t is at most the old one and at most each of this sphere's in-window roots; a change records this sphere at one of its in-window roots |
| RayTracer.FoldNonIncreasing | src/main.rs:63-75 | closest_t never increases along the fold |
| RayTracer.EarlierWinsTies | src/main.rs:67-73 | later spheres with no root strictly below the current closest_t leave the selection unchanged, so earlier spheres win ties |
| RayTracer.FoldBound | src/main.rs:63-75 | closest_t is at most every in-window t1, and at most a sphere's in-window t2 when its t1 is not in the window |
| RayTracer.FoldNearest | src/main.rs:63-75 | corrected fold: the recorded t is the smallest in-window root over all spheres and both roots, taken from the first sphere that has it |
| RayTracer.TraceRayNearest | src/main.rs:56-81 | corrected trace: the background when no root is in the window; otherwise the colour of the sphere FoldNearest selects, which has a root in the window |
| RayTracer.KnownRoots | src/main.rs:88-103 | a ray with a known quadratic and square root gets roots (-b ± s) / 2a |
| RayTracer.NoRoots | src/main.rs:94-97 | a ray whose quadratic has a negative discriminant gets (INFINITY, INFINITY) |
| RayTracer.NearSphereRoots | src/main.rs:83-104 | along +z the sphere at (0, 0, 3) of radius 1 has roots t1 = 4, t2 = 2 |
| RayTracer.FarSphereRoots | src/main.rs:83-104 | along +z the sphere at (0, 0, 4.5) of radius 1.5 has roots t1 = 6, t2 = 3 |
| RayTracer.TwoSpheresFolds | src/main.rs:63-75 | for root pairs (4, 2) then (6, 3) with t_min 1, trace_ray's fold selects the second sphere at t = 3 and the nearest-hit fold selects the first at t = 2 |
| RayTracer.TwoSpheresSelections | src/main.rs:56-81 | any ray meeting two spheres with those roots is coloured by the second sphere, while the nearest hit is the first |
| RayTracer.FarRootHidesNearerSphere | src/main.rs:63-75 | the overlapping red/blue scene: red is hit first at t = 2, yet trace_ray shows blue |
| RayTracer.GrazingRayRoots | src/main.rs:94-103 | the ray along +z is tangent to the sphere at (0, -1, 3): both roots are 3 |
| RayTracer.MissingRay | src/main.rs:94-97 | the ray along +y misses that sphere: both roots are INFINITY |

## Left out

- `main()`: the scene literal, the render loop body and `canvas.save()`. These are program entry and PNG output through the `image` crate. The loop's pixel walk is modelled by `CollectPixels`, and its effect on the buffer by `SweepCoverage`.
- `Canvas::save` writes a file, so it is I/O.
- `viewport_direction_at` is f32 division by the image size. Its only relevance here is that its z component is the constant 1, so directions are never the zero vector. That is why `IntersectRaySphere` requires `0 < Dot(direction, direction)`.
- f32 semantics. Values are reals: no rounding, no NaN and no overflow to infinity. `f32::INFINITY` is the value `PosInf`, and `<` on it follows IEEE 754 (INFINITY < INFINITY is false).
- The square root is a parameter `sqrt: real -> real`. Each lemma that needs it to be a square root says so, only for the values it is applied to.
- `image::ImageBuffer` is an `array2<Color>` indexed by screen position. `closest_sphere`'s reference to a sphere is the sphere's index in the scene.
- RayTracer.IntersectRaySphere: the function itself has no ensures clause; its contract is stated by `MissIffNegativeDiscriminant`, `RootsOrdered` and `RootsAreExactlyHits`.
- RayTracer.GrazingRayRoots: the colour `trace_ray` gives the tangent ray is not stated. Only the two roots are.
- Canvas.Canvas.PutPixel: models a release build, where `range_x + x` and `range_y - y` wrap in `i32`. A debug build panics instead when they overflow, which needs a width or height of at least 2^31 + 2 (ScreenSumsFitI32, ScreenSumOverflows); the panic is not modelled.
- Lighting and shading: no source file of this core computes them.

## Findings

| source | as written | input that shows it | evidently intended | confidence | as-written member | corrected member |
|---|---|---|---|---|---|---|
| src/main.rs:67-72 | The fold's closure returns as soon as `t1` qualifies, so a sphere's nearer root `t2` is never compared. `intersect_ray_sphere` always returns the far root as `t1`, so `trace_ray` records the far side of each sphere it meets. | Red sphere at (0, 0, 3), radius 1, then blue sphere at (0, 0, 4.5), radius 1.5. Camera at the origin, direction (0, 0, 1), t_min 1, t_max INFINITY. Red has roots 4 and 2, blue has 6 and 3. The fold records red at 4, then blue at 3, and the pixel is blue although red is hit first, at t = 2. | The nearest visible sphere, i.e. the smallest in-window root over all spheres and both roots. That colours this pixel red. | not executed | RayTracer.FarRootHidesNearerSphere | RayTracer.FoldNearest |
