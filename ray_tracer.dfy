/**
 * Nearest-hit selection of the ray tracer: the analytic ray-sphere
 * intersection and the fold in `trace_ray` that decides which sphere, if
 * any, gives a pixel its colour.
 *
 * `f32` values are reals and `f32::INFINITY` is the extended value PosInf.
 * The square root the source takes is a parameter `sqrt`; the lemmas that
 * need it to be a square root say so for the one value it is applied to.
 */
module RayTracer {
  import opened Wrappers
  import Canvas

  // ---------------------------------------------------------------------
  // Vectors and the scene
  // ---------------------------------------------------------------------

  /** `cgmath::Vector3<f32>`. */
  datatype Vec3 = Vec3(x: real, y: real, z: real)

  function Sub(u: Vec3, v: Vec3): Vec3
  {
    Vec3(u.x - v.x, u.y - v.y, u.z - v.z)
  }

  function Dot(u: Vec3, v: Vec3): real
  {
    u.x * v.x + u.y * v.y + u.z * v.z
  }

  /** The point `origin + t * direction` of a ray. */
  function PointAt(origin: Vec3, direction: Vec3, t: real): Vec3
  {
    Vec3(origin.x + t * direction.x, origin.y + t * direction.y, origin.z + t * direction.z)
  }

  datatype Sphere = Sphere(center: Vec3, radius: real, color: Canvas.Color)

  datatype Scene = Scene(spheres: seq<Sphere>)

  /** `BACKGROUND_COLOR`: opaque white. */
  const BackgroundColor: Canvas.Color := Canvas.Rgb(255, 255, 255)

  /** An `f32` ray parameter: a finite value or `f32::INFINITY`. */
  datatype ExtReal = Finite(value: real) | PosInf

  /**
   * `a < b` on `f32`, where `INFINITY < INFINITY` is false: every finite
   * value is below INFINITY, and INFINITY is below nothing.
   */
  predicate Less(a: ExtReal, b: ExtReal)
    ensures Less(a, b) ==> a.Finite?
    ensures a.Finite? && b.PosInf? ==> Less(a, b)
  {
    match a
    case PosInf => false
    case Finite(u) => b.PosInf? || u < b.value
  }

  /** `a <= b`: Less is a strict total order, so this is "not b < a". */
  predicate AtMost(a: ExtReal, b: ExtReal)
  {
    !Less(b, a)
  }

  /** Less is a strict total order on the extended reals. */
  lemma LessIsStrictTotalOrder(a: ExtReal, b: ExtReal, c: ExtReal)
    ensures !Less(a, a)
    ensures Less(a, b) ==> !Less(b, a)
    ensures Less(a, b) && Less(b, c) ==> Less(a, c)
    ensures a == b || Less(a, b) || Less(b, a)
  {
  }

  /** s is a non-negative square root of d. */
  predicate IsSqrtOf(s: real, d: real)
  {
    0.0 <= s && s * s == d
  }

  // ---------------------------------------------------------------------
  // Ray-sphere intersection
  // ---------------------------------------------------------------------

  /** The coefficients of `a*t^2 + b*t + c`. */
  datatype Quadratic = Quadratic(a: real, b: real, c: real)

  function Eval(q: Quadratic, t: real): real
  {
    q.a * t * t + q.b * t + q.c
  }

  function Discriminant(q: Quadratic): real
  {
    q.b * q.b - 4.0 * q.a * q.c
  }

  /**
   * The quadratic `intersect_ray_sphere` sets up for a ray and a sphere:
   * its value at t is the squared distance of the ray's point at t from
   * the centre minus the squared radius, so its zeros are the hits.
   */
  function RayQuadratic(origin: Vec3, direction: Vec3, sphere: Sphere): (q: Quadratic)
    ensures q.a == Dot(direction, direction)
  {
    var ray := Sub(origin, sphere.center);
    Quadratic(Dot(direction, direction), 2.0 * Dot(ray, direction),
              Dot(ray, ray) - sphere.radius * sphere.radius)
  }

  lemma QuadraticMeasuresDistance(origin: Vec3, direction: Vec3, sphere: Sphere, t: real)
    ensures var offset := Sub(PointAt(origin, direction, t), sphere.center);
      Eval(RayQuadratic(origin, direction, sphere), t)
        == Dot(offset, offset) - sphere.radius * sphere.radius
  {
    var d, r := direction, Sub(origin, sphere.center);
    var q := RayQuadratic(origin, direction, sphere);
    var offset := Sub(PointAt(origin, direction, t), sphere.center);
    var ex, ey, ez := r.x + t * d.x, r.y + t * d.y, r.z + t * d.z;
    assert Dot(offset, offset) == (d.x * d.x * t * t + 2.0 * (r.x * d.x) * t + r.x * r.x)
      + (d.y * d.y * t * t + 2.0 * (r.y * d.y) * t + r.y * r.y)
      + (d.z * d.z * t * t + 2.0 * (r.z * d.z) * t + r.z * r.z) by {
      assert offset == Vec3(ex, ey, ez);
      CoordinateSquare(r.x, d.x, t);
      CoordinateSquare(r.y, d.y, t);
      CoordinateSquare(r.z, d.z, t);
    }
    assert q.a * t * t == d.x * d.x * t * t + d.y * d.y * t * t + d.z * d.z * t * t
        && q.b * t == 2.0 * (r.x * d.x) * t + 2.0 * (r.y * d.y) * t + 2.0 * (r.z * d.z) * t by {
      CollectPowers(d.x * d.x, d.y * d.y, d.z * d.z, r.x * d.x, r.y * d.y, r.z * d.z, t);
    }
  }

  /** One coordinate of the squared offset, expanded in powers of t. */
  lemma CoordinateSquare(u: real, v: real, t: real)
    ensures (u + t * v) * (u + t * v) == v * v * t * t + 2.0 * (u * v) * t + u * u
  {
  }

  lemma CollectPowers(a1: real, a2: real, a3: real, b1: real, b2: real, b3: real, t: real)
    ensures a1 * t * t + a2 * t * t + a3 * t * t == (a1 + a2 + a3) * t * t
    ensures 2.0 * b1 * t + 2.0 * b2 * t + 2.0 * b3 * t == 2.0 * (b1 + b2 + b3) * t
  {
  }

  /** The point of the ray at t lies on the sphere's surface. */
  predicate OnSphere(origin: Vec3, direction: Vec3, sphere: Sphere, t: real)
  {
    var offset := Sub(PointAt(origin, direction, t), sphere.center);
    Dot(offset, offset) == sphere.radius * sphere.radius
  }

  /**
   * `intersect_ray_sphere`: t1 = (-b + sqrt d) / 2a and t2 = (-b - sqrt d) / 2a
   * for the discriminant d, or both infinite when d is negative. The
   * direction must not be the zero vector. MissIffNegativeDiscriminant
   * states its contract.
   */
  function IntersectRaySphere(origin: Vec3, direction: Vec3, sphere: Sphere, sqrt: real -> real): Roots
    requires 0.0 < Dot(direction, direction)
  {
    var q := RayQuadratic(origin, direction, sphere);
    var discriminant := Discriminant(q);
    if discriminant < 0.0 then Roots(PosInf, PosInf)
    else
      var dSqrt := sqrt(discriminant);
      Roots(Finite((-q.b + dSqrt) / (2.0 * q.a)), Finite((-q.b - dSqrt) / (2.0 * q.a)))
  }

  /** The pair `(t1, t2)` `intersect_ray_sphere` returns. */
  datatype Roots = Roots(t1: ExtReal, t2: ExtReal)

  /**
   * Both roots are infinite exactly when the discriminant is negative, and
   * otherwise both are finite.
   */
  lemma MissIffNegativeDiscriminant(origin: Vec3, direction: Vec3, sphere: Sphere, sqrt: real -> real)
    requires 0.0 < Dot(direction, direction)
    ensures var r := IntersectRaySphere(origin, direction, sphere, sqrt);
      && (r == Roots(PosInf, PosInf) <==> Discriminant(RayQuadratic(origin, direction, sphere)) < 0.0)
      && (r.t1.Finite? <==> r.t2.Finite?)
  {
  }

  /** With a non-negative square root, the first root is never below the second. */
  lemma RootsOrdered(origin: Vec3, direction: Vec3, sphere: Sphere, sqrt: real -> real)
    requires 0.0 < Dot(direction, direction)
    requires var d := Discriminant(RayQuadratic(origin, direction, sphere));
      0.0 <= d ==> 0.0 <= sqrt(d)
    ensures var r := IntersectRaySphere(origin, direction, sphere, sqrt);
      r.t1.Finite? ==> r.t2.value <= r.t1.value
  {
    var q := RayQuadratic(origin, direction, sphere);
    var d := Discriminant(q);
    if 0.0 <= d {
      var s := sqrt(d);
      QuotientOrder(-q.b - s, -q.b + s, 2.0 * q.a);
    }
  }

  lemma QuotientOrder(u: real, v: real, w: real)
    requires u <= v && 0.0 < w
    ensures u / w <= v / w
  {
    assert v / w - u / w == (v - u) / w;
  }

  /** The identity behind the quadratic formula: (2at + b)^2 = 4a q(t) + discriminant. */
  lemma CompletedSquare(q: Quadratic, t: real)
    ensures (2.0 * q.a * t + q.b) * (2.0 * q.a * t + q.b) == 4.0 * q.a * Eval(q, t) + Discriminant(q)
  {
  }

  /** Non-negative numbers with equal squares are equal. */
  lemma SquareRootUnique(s: real, u: real)
    requires 0.0 <= s && 0.0 <= u && s * s == u * u
    ensures s == u
  {
    assert (s - u) * (s + u) == s * s - u * u;
    if s + u != 0.0 {
      assert s - u == 0.0;
    }
  }

  lemma DivisionCharacterised(t: real, n: real, w: real)
    requires w != 0.0
    ensures t == n / w <==> t * w == n
  {
  }

  /** A number's square is s^2, for s >= 0, exactly when it is s or -s. */
  lemma SquareEquals(m: real, s: real)
    requires 0.0 <= s
    ensures m * m == s * s <==> (m == s || m == -s)
  {
    if m * m == s * s {
      if 0.0 <= m {
        SquareRootUnique(m, s);
      } else {
        SquareRootUnique(-m, s);
      }
    }
  }

  lemma ProductZero(x: real, y: real)
    requires x != 0.0
    ensures x * y == 0.0 <==> y == 0.0
  {
  }

  /** For m = w t + b: m is s exactly when t is (-b + s) / w, and -s when t is (-b - s) / w. */
  lemma ShiftedQuotient(m: real, w: real, t: real, b: real, s: real)
    requires w != 0.0 && m == w * t + b
    ensures m == s <==> t == (-b + s) / w
    ensures m == -s <==> t == (-b - s) / w
  {
    DivisionCharacterised(t, -b + s, w);
    DivisionCharacterised(t, -b - s, w);
  }

  /** For a != 0, q(t) = 0 exactly when (2at + b)^2 is the discriminant. */
  lemma ZeroWhenSquareIsDiscriminant(q: Quadratic, t: real)
    requires q.a != 0.0
    ensures Eval(q, t) == 0.0 <==> (2.0 * q.a * t + q.b) * (2.0 * q.a * t + q.b) == Discriminant(q)
  {
    CompletedSquare(q, t);
    ProductZero(4.0 * q.a, Eval(q, t));
  }

  lemma SquareNonNegative(m: real)
    ensures 0.0 <= m * m
  {
    if m < 0.0 {
      assert m * m == (-m) * (-m);
    }
  }

  /**
   * The quadratic formula: for a > 0, q has a zero only when its
   * discriminant is non-negative, and its zeros are (-b + s) / 2a and
   * (-b - s) / 2a for the square root s of the discriminant.
   */
  lemma QuadraticFormula(q: Quadratic, s: real, t: real)
    requires 0.0 < q.a
    ensures Eval(q, t) == 0.0 ==> 0.0 <= Discriminant(q)
    ensures IsSqrtOf(s, Discriminant(q)) ==>
      (Eval(q, t) == 0.0 <==> (t == (-q.b + s) / (2.0 * q.a) || t == (-q.b - s) / (2.0 * q.a)))
  {
    var m := 2.0 * q.a * t + q.b;
    assert Eval(q, t) == 0.0 ==> 0.0 <= Discriminant(q) by {
      ZeroWhenSquareIsDiscriminant(q, t);
      SquareNonNegative(m);
    }
    if IsSqrtOf(s, Discriminant(q)) {
      ZerosFromSquareRoot(q, s, t);
    }
  }

  lemma ZerosFromSquareRoot(q: Quadratic, s: real, t: real)
    requires 0.0 < q.a && IsSqrtOf(s, Discriminant(q))
    ensures Eval(q, t) == 0.0 <==> (t == (-q.b + s) / (2.0 * q.a) || t == (-q.b - s) / (2.0 * q.a))
  {
    if Eval(q, t) == 0.0 {
      ZeroIsRoot(q, s, t);
    }
    if t == (-q.b + s) / (2.0 * q.a) || t == (-q.b - s) / (2.0 * q.a) {
      RootIsZero(q, s, t);
    }
  }

  lemma ZeroIsRoot(q: Quadratic, s: real, t: real)
    requires 0.0 < q.a && IsSqrtOf(s, Discriminant(q)) && Eval(q, t) == 0.0
    ensures t == (-q.b + s) / (2.0 * q.a) || t == (-q.b - s) / (2.0 * q.a)
  {
    var m := 2.0 * q.a * t + q.b;
    assert m * m == s * s by {
      ZeroWhenSquareIsDiscriminant(q, t);
    }
    assert m == s || m == -s by {
      SquareEquals(m, s);
    }
    ShiftedQuotient(m, 2.0 * q.a, t, q.b, s);
  }

  lemma RootIsZero(q: Quadratic, s: real, t: real)
    requires 0.0 < q.a && IsSqrtOf(s, Discriminant(q))
    requires t == (-q.b + s) / (2.0 * q.a) || t == (-q.b - s) / (2.0 * q.a)
    ensures Eval(q, t) == 0.0
  {
    var m := 2.0 * q.a * t + q.b;
    assert m == s || m == -s by {
      ShiftedQuotient(m, 2.0 * q.a, t, q.b, s);
    }
    assert m * m == s * s by {
      SquareEquals(m, s);
    }
    ZeroWhenSquareIsDiscriminant(q, t);
  }

  /**
   * With a true square root, the finite roots are exactly the ray
   * parameters at which the ray meets the sphere's surface: a ray that
   * meets the sphere never gets infinite roots, and each root is a hit.
   */
  lemma RootsAreExactlyHits(origin: Vec3, direction: Vec3, sphere: Sphere, sqrt: real -> real, t: real)
    requires 0.0 < Dot(direction, direction)
    requires var d := Discriminant(RayQuadratic(origin, direction, sphere));
      0.0 <= d ==> IsSqrtOf(sqrt(d), d)
    ensures var r := IntersectRaySphere(origin, direction, sphere, sqrt);
      OnSphere(origin, direction, sphere, t) <==> (r.t1 == Finite(t) || r.t2 == Finite(t))
  {
    var q := RayQuadratic(origin, direction, sphere);
    var d := Discriminant(q);
    assert OnSphere(origin, direction, sphere, t) <==> Eval(q, t) == 0.0 by {
      QuadraticMeasuresDistance(origin, direction, sphere, t);
    }
    if d < 0.0 {
      assert Eval(q, t) != 0.0 by {
        QuadraticFormula(q, 0.0, t);
      }
    } else {
      var s := sqrt(d);
      assert Eval(q, t) == 0.0 <==> (t == (-q.b + s) / (2.0 * q.a) || t == (-q.b - s) / (2.0 * q.a)) by {
        QuadraticFormula(q, s, t);
      }
    }
  }

  // ---------------------------------------------------------------------
  // Nearest-hit selection, as `trace_ray` does it
  // ---------------------------------------------------------------------

  /** `t_min < t < t_max`. */
  predicate InWindow(t: ExtReal, tMin: ExtReal, tMax: ExtReal)
  {
    Less(tMin, t) && Less(t, tMax)
  }

  predicate HasRootInWindow(roots: Roots, tMin: ExtReal, tMax: ExtReal)
  {
    InWindow(roots.t1, tMin, tMax) || InWindow(roots.t2, tMin, tMax)
  }

  /**
   * The fold's accumulator `(closest_t, closest_sphere)`. The sphere
   * reference is the sphere's position in the scene.
   */
  datatype Closest = Closest(t: ExtReal, sphere: Option<nat>)

  /** The fold's initial value `(f32::INFINITY, None)`. */
  const NoHit: Closest := Closest(PosInf, None)

  /**
   * The fold's closure for sphere i: t1 is tested first and returned as
   * soon as it qualifies; t2 is tested only when t1 does not.
   */
  function Consider(acc: Closest, i: nat, roots: Roots, tMin: ExtReal, tMax: ExtReal): (r: Closest)
    ensures r != acc <==>
      (InWindow(roots.t1, tMin, tMax) && Less(roots.t1, acc.t)) || (InWindow(roots.t2, tMin, tMax) && Less(roots.t2, acc.t))
    ensures r == acc || (r.sphere == Some(i) && Less(r.t, acc.t) && InWindow(r.t, tMin, tMax)
                         && (r.t == roots.t1 || r.t == roots.t2))
  {
    if InWindow(roots.t1, tMin, tMax) && Less(roots.t1, acc.t) then Closest(roots.t1, Some(i))
    else if InWindow(roots.t2, tMin, tMax) && Less(roots.t2, acc.t) then Closest(roots.t2, Some(i))
    else acc
  }

  /**
   * The fold over the spheres' roots in scene order. A sphere is selected
   * exactly when some sphere has a root strictly inside (t_min, t_max);
   * the recorded t is then one of the selected sphere's roots and lies in
   * that window; with no selection closest_t is still infinite.
   */
  function FoldClosest(roots: seq<Roots>, tMin: ExtReal, tMax: ExtReal): (r: Closest)
    ensures r.sphere.None? ==> r.t == PosInf
    ensures r.sphere.Some? ==>
      && r.sphere.value < |roots| && InWindow(r.t, tMin, tMax)
      && (r.t == roots[r.sphere.value].t1 || r.t == roots[r.sphere.value].t2)
    ensures r.sphere.Some? <==> exists j :: 0 <= j < |roots| && HasRootInWindow(roots[j], tMin, tMax)
    decreases |roots|
  {
    if |roots| == 0 then NoHit
    else
      var prefix := roots[..|roots| - 1];
      assert forall j :: 0 <= j < |prefix| ==> prefix[j] == roots[j];
      Consider(FoldClosest(prefix, tMin, tMax), |roots| - 1, roots[|roots| - 1], tMin, tMax)
  }

  /** The roots of every sphere of the scene, in scene order. */
  function SceneRoots(scene: Scene, origin: Vec3, direction: Vec3, sqrt: real -> real): (rs: seq<Roots>)
    requires 0.0 < Dot(direction, direction)
    ensures |rs| == |scene.spheres|
    ensures forall i :: 0 <= i < |rs| ==> rs[i] == IntersectRaySphere(origin, direction, scene.spheres[i], sqrt)
  {
    seq(|scene.spheres|, i requires 0 <= i < |scene.spheres| =>
      IntersectRaySphere(origin, direction, scene.spheres[i], sqrt))
  }

  /**
   * `trace_ray`: the colour of the sphere the fold selects, or the
   * background colour. It is the background whenever no sphere has a root
   * strictly inside (t_min, t_max), and otherwise exactly the `color` of
   * the sphere FoldClosest selects, which has such a root.
   */
  function TraceRay(scene: Scene, origin: Vec3, direction: Vec3, tMin: ExtReal, tMax: ExtReal,
                    sqrt: real -> real): (c: Canvas.Color)
    requires 0.0 < Dot(direction, direction)
    ensures (forall i :: 0 <= i < |scene.spheres| ==>
              !HasRootInWindow(IntersectRaySphere(origin, direction, scene.spheres[i], sqrt), tMin, tMax))
            ==> c == BackgroundColor
    ensures (exists i :: 0 <= i < |scene.spheres|
               && HasRootInWindow(IntersectRaySphere(origin, direction, scene.spheres[i], sqrt), tMin, tMax))
            ==> (exists i :: 0 <= i < |scene.spheres|
                   && HasRootInWindow(IntersectRaySphere(origin, direction, scene.spheres[i], sqrt), tMin, tMax)
                   && c == scene.spheres[i].color)
    ensures var r := FoldClosest(SceneRoots(scene, origin, direction, sqrt), tMin, tMax);
      r.sphere.Some? ==> c == scene.spheres[r.sphere.value].color
  {
    var roots := SceneRoots(scene, origin, direction, sqrt);
    match FoldClosest(roots, tMin, tMax).sphere
    case Some(i) => scene.spheres[i].color
    case None => BackgroundColor
  }

  /** Within one sphere a qualifying t1 is recorded, whatever t2 is: t2 is not looked at. */
  lemma ConsiderPrefersT1(acc: Closest, i: nat, t1: ExtReal, t2: ExtReal, tMin: ExtReal, tMax: ExtReal)
    requires InWindow(t1, tMin, tMax) && Less(t1, acc.t)
    ensures Consider(acc, i, Roots(t1, t2), tMin, tMax) == Closest(t1, Some(i))
  {
  }

  /** closest_t never increases along the fold. */
  lemma {:induction false} FoldNonIncreasing(roots: seq<Roots>, k: nat, tMin: ExtReal, tMax: ExtReal)
    requires k <= |roots|
    ensures AtMost(FoldClosest(roots, tMin, tMax).t, FoldClosest(roots[..k], tMin, tMax).t)
    decreases |roots| - k
  {
    if k < |roots| {
      var prefix := roots[..|roots| - 1];
      assert prefix[..k] == roots[..k];
      FoldNonIncreasing(prefix, k, tMin, tMax);
    } else {
      assert roots[..k] == roots;
    }
  }

  /**
   * Ties go to the earlier sphere: once the fold has recorded some t, later
   * spheres none of whose roots is strictly below t (roots equal to t
   * included) leave the selection as it is.
   */
  lemma {:induction false} EarlierWinsTies(roots: seq<Roots>, k: nat, tMin: ExtReal, tMax: ExtReal)
    requires k <= |roots|
    requires forall j :: k <= j < |roots| ==>
      AtMost(FoldClosest(roots[..k], tMin, tMax).t, roots[j].t1)
      && AtMost(FoldClosest(roots[..k], tMin, tMax).t, roots[j].t2)
    ensures FoldClosest(roots, tMin, tMax) == FoldClosest(roots[..k], tMin, tMax)
    decreases |roots| - k
  {
    if k < |roots| {
      var prefix := roots[..|roots| - 1];
      assert prefix[..k] == roots[..k];
      EarlierWinsTies(prefix, k, tMin, tMax);
    } else {
      assert roots[..k] == roots;
    }
  }

  /**
   * How near the selection is: closest_t is at most every sphere's t1 that
   * lies in the window, and at most its t2 when that sphere's t1 does not.
   * (When both lie in the window, the t2 of a sphere whose t1 was
   * recorded is never compared.)
   */
  lemma {:induction false} FoldBound(roots: seq<Roots>, tMin: ExtReal, tMax: ExtReal, j: nat)
    requires j < |roots|
    ensures var r := FoldClosest(roots, tMin, tMax);
      && (InWindow(roots[j].t1, tMin, tMax) ==> AtMost(r.t, roots[j].t1))
      && (InWindow(roots[j].t2, tMin, tMax) && !InWindow(roots[j].t1, tMin, tMax) ==> AtMost(r.t, roots[j].t2))
    decreases |roots|
  {
    var prefix := roots[..|roots| - 1];
    if j < |roots| - 1 {
      FoldBound(prefix, tMin, tMax, j);
    }
  }

  // ---------------------------------------------------------------------
  // Nearest-hit selection over both roots of every sphere
  // ---------------------------------------------------------------------

  /**
   * The closure with both roots compared: t1 first, then t2 against the
   * updated value. The result is the smaller of the accumulator and this
   * sphere's in-window roots, and it keeps the accumulator on ties.
   */
  function ConsiderBoth(acc: Closest, i: nat, roots: Roots, tMin: ExtReal, tMax: ExtReal): (r: Closest)
    ensures AtMost(r.t, acc.t)
    ensures InWindow(roots.t1, tMin, tMax) ==> AtMost(r.t, roots.t1)
    ensures InWindow(roots.t2, tMin, tMax) ==> AtMost(r.t, roots.t2)
    ensures r == acc || (r.sphere == Some(i) && Less(r.t, acc.t) && RootAt(roots, r.t, tMin, tMax))
  {
    var afterT1 := if InWindow(roots.t1, tMin, tMax) && Less(roots.t1, acc.t)
                   then Closest(roots.t1, Some(i)) else acc;
    if InWindow(roots.t2, tMin, tMax) && Less(roots.t2, afterT1.t)
    then Closest(roots.t2, Some(i)) else afterT1
  }

  /** A root of sphere j equals t and lies in the window. */
  predicate RootAt(roots: Roots, t: ExtReal, tMin: ExtReal, tMax: ExtReal)
  {
    (InWindow(roots.t1, tMin, tMax) && roots.t1 == t) || (InWindow(roots.t2, tMin, tMax) && roots.t2 == t)
  }

  /**
   * The nearest hit: the selected t is the smallest root in the window
   * over all spheres and both roots, the selected sphere is the first one
   * that has it, and nothing is selected when no root is in the window.
   */
  function FoldNearest(roots: seq<Roots>, tMin: ExtReal, tMax: ExtReal): (r: Closest)
    ensures r.sphere.None? ==> r.t == PosInf
    ensures r.sphere.Some? ==>
      && r.sphere.value < |roots| && RootAt(roots[r.sphere.value], r.t, tMin, tMax)
      && forall j :: 0 <= j < r.sphere.value ==> !RootAt(roots[j], r.t, tMin, tMax)
    ensures forall j :: 0 <= j < |roots| && InWindow(roots[j].t1, tMin, tMax) ==> AtMost(r.t, roots[j].t1)
    ensures forall j :: 0 <= j < |roots| && InWindow(roots[j].t2, tMin, tMax) ==> AtMost(r.t, roots[j].t2)
    decreases |roots|
  {
    if |roots| == 0 then NoHit
    else
      var prefix := roots[..|roots| - 1];
      assert forall j :: 0 <= j < |prefix| ==> prefix[j] == roots[j];
      ConsiderBoth(FoldNearest(prefix, tMin, tMax), |roots| - 1, roots[|roots| - 1], tMin, tMax)
  }

  /**
   * The nearest hit's colour: the background when no sphere has a root
   * strictly inside (t_min, t_max), and otherwise the colour of the sphere
   * FoldNearest selects, the first one with the smallest root in the window.
   */
  function TraceRayNearest(scene: Scene, origin: Vec3, direction: Vec3, tMin: ExtReal, tMax: ExtReal,
                           sqrt: real -> real): (c: Canvas.Color)
    requires 0.0 < Dot(direction, direction)
    ensures (forall i :: 0 <= i < |scene.spheres| ==>
              !HasRootInWindow(IntersectRaySphere(origin, direction, scene.spheres[i], sqrt), tMin, tMax))
            ==> c == BackgroundColor
    ensures (exists i :: 0 <= i < |scene.spheres|
               && HasRootInWindow(IntersectRaySphere(origin, direction, scene.spheres[i], sqrt), tMin, tMax))
            ==> (exists i :: 0 <= i < |scene.spheres|
                   && HasRootInWindow(IntersectRaySphere(origin, direction, scene.spheres[i], sqrt), tMin, tMax)
                   && c == scene.spheres[i].color)
    ensures var r := FoldNearest(SceneRoots(scene, origin, direction, sqrt), tMin, tMax);
      r.sphere.Some? ==> c == scene.spheres[r.sphere.value].color
  {
    var roots := SceneRoots(scene, origin, direction, sqrt);
    match FoldNearest(roots, tMin, tMax).sphere
    case Some(i) => scene.spheres[i].color
    case None => BackgroundColor
  }

  // ---------------------------------------------------------------------
  // Worked rays
  // ---------------------------------------------------------------------

  const Origin: Vec3 := Vec3(0.0, 0.0, 0.0)
  const Red: Canvas.Color := Canvas.Rgb(255, 0, 0)
  const Blue: Canvas.Color := Canvas.Rgb(0, 0, 255)

  const Down: Vec3 := Vec3(0.0, 0.0, 1.0)

  lemma DownIsUnit()
    ensures Dot(Down, Down) == 1.0
  {
  }
  const NearSphere: Sphere := Sphere(Vec3(0.0, 0.0, 3.0), 1.0, Red)
  const FarSphere: Sphere := Sphere(Vec3(0.0, 0.0, 4.5), 1.5, Blue)

  /**
   * The roots of a ray whose quadratic and the square root of its
   * discriminant are known: t1 and t2 solve 2a * t = -b + s and -b - s.
   */
  lemma KnownRoots(origin: Vec3, direction: Vec3, sphere: Sphere, sqrt: real -> real,
                   q: Quadratic, s: real, t1: real, t2: real)
    requires 0.0 < Dot(direction, direction)
    requires RayQuadratic(origin, direction, sphere) == q
    requires 0.0 <= Discriminant(q) && sqrt(Discriminant(q)) == s
    requires t1 * (2.0 * q.a) == -q.b + s && t2 * (2.0 * q.a) == -q.b - s
    ensures IntersectRaySphere(origin, direction, sphere, sqrt) == Roots(Finite(t1), Finite(t2))
  {
    DivisionCharacterised(t1, -q.b + s, 2.0 * q.a);
    DivisionCharacterised(t2, -q.b - s, 2.0 * q.a);
  }

  /** A ray whose quadratic has a negative discriminant misses the sphere. */
  lemma NoRoots(origin: Vec3, direction: Vec3, sphere: Sphere, sqrt: real -> real, q: Quadratic)
    requires 0.0 < Dot(direction, direction)
    requires RayQuadratic(origin, direction, sphere) == q && Discriminant(q) < 0.0
    ensures IntersectRaySphere(origin, direction, sphere, sqrt) == Roots(PosInf, PosInf)
  {
  }

  lemma NearSphereRoots(sqrt: real -> real)
    requires sqrt(4.0) == 2.0
    ensures IntersectRaySphere(Origin, Down, NearSphere, sqrt) == Roots(Finite(4.0), Finite(2.0))
  {
    // The arithmetic comes first: proved beside the ray's facts it is far costlier.
    var q := Quadratic(1.0, -6.0, 8.0);
    assert 0.0 <= Discriminant(q) && sqrt(Discriminant(q)) == 2.0;
    assert 4.0 * (2.0 * q.a) == -q.b + 2.0 && 2.0 * (2.0 * q.a) == -q.b - 2.0;
    assert 0.0 < Dot(Down, Down) && RayQuadratic(Origin, Down, NearSphere) == q by {
      DownIsUnit();
      NearSphereQuadratic();
    }
    KnownRoots(Origin, Down, NearSphere, sqrt, q, 2.0, 4.0, 2.0);
  }

  /** The quadratic of the ray along Down from the origin, for any sphere. */
  lemma RayQuadraticAlongZ(sphere: Sphere)
    ensures RayQuadratic(Origin, Down, sphere) == Quadratic(1.0, -2.0 * sphere.center.z,
      Dot(sphere.center, sphere.center) - sphere.radius * sphere.radius)
  {
    var c := sphere.center;
    var ray := Sub(Origin, c);
    assert ray == Vec3(-c.x, -c.y, -c.z);
    assert Dot(ray, ray) == Dot(c, c);
  }

  lemma NearSphereQuadratic()
    ensures RayQuadratic(Origin, Down, NearSphere) == Quadratic(1.0, -6.0, 8.0)
  {
    RayQuadraticAlongZ(NearSphere);
  }

  lemma FarSphereRoots(sqrt: real -> real)
    requires sqrt(9.0) == 3.0
    ensures IntersectRaySphere(Origin, Down, FarSphere, sqrt) == Roots(Finite(6.0), Finite(3.0))
  {
    // The arithmetic comes first: proved beside the ray's facts it is far costlier.
    var q := Quadratic(1.0, -9.0, 18.0);
    assert 0.0 <= Discriminant(q) && sqrt(Discriminant(q)) == 3.0;
    assert 6.0 * (2.0 * q.a) == -q.b + 3.0 && 3.0 * (2.0 * q.a) == -q.b - 3.0;
    assert 0.0 < Dot(Down, Down) && RayQuadratic(Origin, Down, FarSphere) == q by {
      DownIsUnit();
      FarSphereQuadratic();
    }
    KnownRoots(Origin, Down, FarSphere, sqrt, q, 3.0, 6.0, 3.0);
  }

  lemma FarSphereQuadratic()
    ensures RayQuadratic(Origin, Down, FarSphere) == Quadratic(1.0, -9.0, 18.0)
  {
    RayQuadraticAlongZ(FarSphere);
  }

  /** What the two folds select from the two spheres' roots along Down. */
  lemma TwoSpheresFolds(roots: seq<Roots>)
    requires roots == [Roots(Finite(4.0), Finite(2.0)), Roots(Finite(6.0), Finite(3.0))]
    ensures FoldClosest(roots, Finite(1.0), PosInf) == Closest(Finite(3.0), Some(1))
    ensures FoldNearest(roots, Finite(1.0), PosInf) == Closest(Finite(2.0), Some(0))
  {
    assert roots[..1] == [roots[0]];
    assert roots[..1][..0] == [];
    assert FoldClosest(roots[..1], Finite(1.0), PosInf) == Closest(Finite(4.0), Some(0));
    assert FoldNearest(roots[..1], Finite(1.0), PosInf) == Closest(Finite(2.0), Some(0));
  }

  /**
   * Any ray meeting a first sphere at t = 4 and 2 and a second one at
   * t = 6 and 3: trace_ray shows the second sphere, the nearest hit the first.
   */
  lemma TwoSpheresSelections(scene: Scene, origin: Vec3, direction: Vec3, sqrt: real -> real)
    requires 0.0 < Dot(direction, direction) && |scene.spheres| == 2
    requires IntersectRaySphere(origin, direction, scene.spheres[0], sqrt) == Roots(Finite(4.0), Finite(2.0))
    requires IntersectRaySphere(origin, direction, scene.spheres[1], sqrt) == Roots(Finite(6.0), Finite(3.0))
    ensures TraceRay(scene, origin, direction, Finite(1.0), PosInf, sqrt) == scene.spheres[1].color
    ensures TraceRayNearest(scene, origin, direction, Finite(1.0), PosInf, sqrt) == scene.spheres[0].color
  {
    var roots := SceneRoots(scene, origin, direction, sqrt);
    assert roots == [Roots(Finite(4.0), Finite(2.0)), Roots(Finite(6.0), Finite(3.0))];
    TwoSpheresFolds(roots);
  }

  lemma NearSphereHitFirst()
    ensures OnSphere(Origin, Down, NearSphere, 2.0)
  {
    OnSphereAlongZ(NearSphere, 2.0);
  }

  /** Along Down from the origin, the point at t is on a sphere centred on the z axis when |t - z| is its radius. */
  lemma OnSphereAlongZ(sphere: Sphere, t: real)
    requires sphere.center.x == 0.0 && sphere.center.y == 0.0
    requires (t - sphere.center.z) * (t - sphere.center.z) == sphere.radius * sphere.radius
    ensures OnSphere(Origin, Down, sphere, t)
  {
    var offset := Sub(PointAt(Origin, Down, t), sphere.center);
    assert offset == Vec3(0.0, 0.0, t - sphere.center.z);
  }

  /**
   * Two overlapping spheres on the z axis, red in front: red spans
   * z in [2, 4] and blue z in [3, 6]. Looking down +z, red is hit first
   * (t = 2) but trace_ray records red's far root 4, which blue's near
   * root 3 then beats, so the pixel is blue; the nearest-hit fold gives red.
   * The square root needs to be right only at the two discriminants, 4 and 9.
   */
  lemma FarRootHidesNearerSphere(sqrt: real -> real)
    requires sqrt(4.0) == 2.0 && sqrt(9.0) == 3.0
    ensures 0.0 < Dot(Down, Down)
    ensures TraceRay(Scene([NearSphere, FarSphere]), Origin, Down, Finite(1.0), PosInf, sqrt) == Blue
    ensures TraceRayNearest(Scene([NearSphere, FarSphere]), Origin, Down, Finite(1.0), PosInf, sqrt) == Red
    ensures OnSphere(Origin, Down, NearSphere, 2.0)
  {
    assert 0.0 < Dot(Down, Down) by {
      DownIsUnit();
    }
    assert IntersectRaySphere(Origin, Down, NearSphere, sqrt) == Roots(Finite(4.0), Finite(2.0)) by {
      NearSphereRoots(sqrt);
    }
    assert IntersectRaySphere(Origin, Down, FarSphere, sqrt) == Roots(Finite(6.0), Finite(3.0)) by {
      FarSphereRoots(sqrt);
    }
    TwoSpheresSelections(Scene([NearSphere, FarSphere]), Origin, Down, sqrt);
    NearSphereHitFirst();
  }

  /** The sphere of radius 1 centred at (0, -1, 3). */
  const GrazedSphere: Sphere := Sphere(Vec3(0.0, -1.0, 3.0), 1.0, Red)

  lemma GrazedSphereQuadratic()
    ensures RayQuadratic(Origin, Down, GrazedSphere) == Quadratic(1.0, -6.0, 9.0)
  {
    RayQuadraticAlongZ(GrazedSphere);
  }

  /**
   * A ray straight down +z from the origin grazes the top of GrazedSphere:
   * the discriminant is zero (whose only square root is 0) and both roots are 3.
   */
  lemma GrazingRayRoots(sqrt: real -> real)
    requires sqrt(0.0) == 0.0
    ensures IntersectRaySphere(Origin, Down, GrazedSphere, sqrt) == Roots(Finite(3.0), Finite(3.0))
  {
    // The arithmetic comes first: proved beside the ray's facts it is far costlier.
    var q := Quadratic(1.0, -6.0, 9.0);
    assert 0.0 <= Discriminant(q) && sqrt(Discriminant(q)) == 0.0;
    assert 3.0 * (2.0 * q.a) == -q.b + 0.0 && 3.0 * (2.0 * q.a) == -q.b - 0.0;
    assert 0.0 < Dot(Down, Down) && RayQuadratic(Origin, Down, GrazedSphere) == q by {
      DownIsUnit();
      GrazedSphereQuadratic();
    }
    KnownRoots(Origin, Down, GrazedSphere, sqrt, q, 0.0, 3.0, 3.0);
  }

  const Up: Vec3 := Vec3(0.0, 1.0, 0.0)

  lemma UpIsUnit()
    ensures Dot(Up, Up) == 1.0
  {
  }

  /** The quadratic of the ray along Up from the origin, for any sphere. */
  lemma RayQuadraticAlongY(sphere: Sphere)
    ensures RayQuadratic(Origin, Up, sphere) == Quadratic(1.0, -2.0 * sphere.center.y,
      Dot(sphere.center, sphere.center) - sphere.radius * sphere.radius)
  {
    var c := sphere.center;
    var ray := Sub(Origin, c);
    assert ray == Vec3(-c.x, -c.y, -c.z);
    assert Dot(ray, ray) == Dot(c, c);
  }

  lemma MissingRayQuadratic()
    ensures RayQuadratic(Origin, Up, GrazedSphere) == Quadratic(1.0, 2.0, 9.0)
  {
    RayQuadraticAlongY(GrazedSphere);
  }

  /**
   * The same sphere seen along +y from the origin is missed: the
   * discriminant is 2^2 - 4 * 9 < 0, so both roots are infinite.
   */
  lemma MissingRay(sqrt: real -> real)
    ensures IntersectRaySphere(Origin, Up, GrazedSphere, sqrt) == Roots(PosInf, PosInf)
  {
    var q := Quadratic(1.0, 2.0, 9.0);
    assert Discriminant(q) < 0.0;
    UpIsUnit();
    MissingRayQuadratic();
    NoRoots(Origin, Up, GrazedSphere, sqrt, q);
  }
}
