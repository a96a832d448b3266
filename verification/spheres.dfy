/**
 * The ray-sphere intersection test (src/sphere.rs). A hit is the nearer root
 * of the quadratic `|origin + t dir - center|^2 = radius^2`, accepted only
 * when it lies inside the caller's interval; the normal is turned to face
 * the incoming ray.
 */
module Spheres {
  import opened Options
  import opened Vectors
  import opened Rays
  import opened Materials
  import opened Quadratics

  datatype Sphere = Sphere(center: Vec3, radius: real, material: Material)

  /** `p` lies on the sphere's surface. */
  predicate OnSphere(p: Vec3, s: Sphere) {
    Dot(Sub(p, s.center), Sub(p, s.center)) == s.radius * s.radius
  }

  /** `t` is where the ray first meets the surface: no point of the ray on the surface comes earlier. */
  ghost predicate IsNearestHit(s: Sphere, ray: Ray, t: real) {
    OnSphere(At(ray, t), s) && forall u :: OnSphere(At(ray, u), s) ==> t <= u
  }

  /** The coefficients `a`, `b`, `c` the test computes from the ray and the sphere. */
  function QuadraticOf(s: Sphere, ray: Ray): Quadratic {
    var oc := Sub(ray.origin, s.center);
    Quadratic(
      Dot(ray.direction, ray.direction),
      2.0 * Dot(ray.direction, oc),
      Dot(oc, oc) - s.radius * s.radius)
  }

  /** The outward normal, flipped when it points the same way as the ray, so that the result faces the ray. */
  function FaceAgainst(direction: Vec3, outward: Vec3): (n: Vec3)
    ensures Dot(direction, n) <= 0.0
    ensures n == outward || n == Neg(outward)
  {
    if Dot(direction, outward) > 0.0 then Neg(outward) else outward
  }

  /**
   * `Sphere::hit`. The program computes the root, the point and the normal
   * before it looks at the discriminant or the interval; when the
   * discriminant is negative or the direction is zero those values are NaN
   * and every comparison with them is false, so the result is `None`, which
   * is what the model returns without computing them.
   */
  function Hit(s: Sphere, ray: Ray, tMin: real, tMax: Bound, sqrt: real -> real): (h: Option<HitRecord>)
    requires IsSqrt(sqrt)
    ensures h.Some? ==> 0.0 <= Discriminant(QuadraticOf(s, ray)) && InInterval(h.value.t, tMin, tMax)
    ensures h.Some? ==> h.value.point == At(ray, h.value.t)
    ensures h.Some? ==> Dot(ray.direction, h.value.normal) <= 0.0
    ensures h.Some? ==> h.value.material == s.material
  {
    var q := QuadraticOf(s, ray);
    if q.a == 0.0 || Discriminant(q) < 0.0 then
      None
    else
      var t := NearRoot(q, sqrt);
      var point := At(ray, t);
      var normal := FaceAgainst(ray.direction, UnitVector(Sub(point, s.center), sqrt));
      if InInterval(t, tMin, tMax) then
        Some(HitRecord(point, normal, t, s.material))
      else
        None
  }

  /** The squared distance from the centre along the ray, as a polynomial in `t`. */
  lemma DistanceAlongRay(s: Sphere, ray: Ray, t: real)
    ensures Dot(Sub(At(ray, t), s.center), Sub(At(ray, t), s.center))
      == Dot(ray.direction, ray.direction) * t * t
       + 2.0 * Dot(ray.direction, Sub(ray.origin, s.center)) * t
       + Dot(Sub(ray.origin, s.center), Sub(ray.origin, s.center))
  {
    AtRelativeTo(ray, t, s.center);
    DotSelfOfSum(Sub(At(ray, t), s.center), Sub(ray.origin, s.center), ray.direction, t);
  }

  /** Moving the constant across: `w == r2` exactly when `t` is a root of the shifted quadratic. */
  lemma ShiftedRoot(a: real, b: real, c: real, r2: real, t: real, w: real)
    requires w == a * t * t + 2.0 * b * t + c
    ensures w == r2 <==> IsRoot(Quadratic(a, 2.0 * b, c - r2), t)
  {
  }

  /** A point whose squared distance from the centre is given by the polynomial is on the surface exactly at a root. */
  lemma RootIffOnSphere(s: Sphere, ray: Ray, t: real, p: Vec3)
    requires Dot(Sub(p, s.center), Sub(p, s.center))
      == Dot(ray.direction, ray.direction) * t * t
       + 2.0 * Dot(ray.direction, Sub(ray.origin, s.center)) * t
       + Dot(Sub(ray.origin, s.center), Sub(ray.origin, s.center))
    ensures OnSphere(p, s) <==> IsRoot(QuadraticOf(s, ray), t)
  {
    var d := ray.direction;
    var oc := Sub(ray.origin, s.center);
    assert QuadraticOf(s, ray) == Quadratic(Dot(d, d), 2.0 * Dot(d, oc), Dot(oc, oc) - s.radius * s.radius);
    ShiftedRoot(Dot(d, d), Dot(d, oc), Dot(oc, oc), s.radius * s.radius, t, Dot(Sub(p, s.center), Sub(p, s.center)));
  }

  /** A point of the ray is on the surface exactly when its parameter is a root of the quadratic. */
  lemma OnSphereIffRoot(s: Sphere, ray: Ray, t: real)
    ensures OnSphere(At(ray, t), s) <==> IsRoot(QuadraticOf(s, ray), t)
  {
    DistanceAlongRay(s, ray, t);
    RootIffOnSphere(s, ray, t, At(ray, t));
  }

  /** A non-zero direction has a positive squared length, so the leading coefficient is positive. */
  lemma LeadingCoefficient(s: Sphere, ray: Ray)
    ensures QuadraticOf(s, ray).a == 0.0 <==> ray.direction == Zero
    ensures 0.0 <= QuadraticOf(s, ray).a
  {
    SquaredLengthZero(ray.direction);
    DotSelfNonNegative(ray.direction);
  }

  /** A reported hit is at the near root `(-b - sqrt(delta)) / (2a)`, and that root is the ray's first meeting with the surface. */
  lemma HitIsNearestRoot(s: Sphere, ray: Ray, tMin: real, tMax: Bound, sqrt: real -> real)
    requires IsSqrt(sqrt)
    requires Hit(s, ray, tMin, tMax, sqrt).Some?
    ensures QuadraticOf(s, ray).a != 0.0
    ensures Hit(s, ray, tMin, tMax, sqrt).value.t == NearRoot(QuadraticOf(s, ray), sqrt)
    ensures IsNearestHit(s, ray, Hit(s, ray, tMin, tMax, sqrt).value.t)
  {
    var q := QuadraticOf(s, ray);
    var t := NearRoot(q, sqrt);
    LeadingCoefficient(s, ray);
    OnSphereIffRoot(s, ray, t);
    forall u | OnSphere(At(ray, u), s)
      ensures t <= u
    {
      OnSphereIffRoot(s, ray, u);
    }
  }

  /** The first meeting with the surface is reported whenever it lies in the interval. */
  lemma NearestInIntervalIsHit(s: Sphere, ray: Ray, tMin: real, tMax: Bound, sqrt: real -> real, t: real)
    requires IsSqrt(sqrt)
    requires InInterval(t, tMin, tMax) && IsNearestHit(s, ray, t)
    ensures Hit(s, ray, tMin, tMax, sqrt).Some? && Hit(s, ray, tMin, tMax, sqrt).value.t == t
  {
    var q := QuadraticOf(s, ray);
    LeadingCoefficient(s, ray);
    if q.a == 0.0 {
      // A zero direction never leaves the origin, so no point of it comes first.
      AtZeroDirection(ray, t);
      AtZeroDirection(ray, t - 1.0);
      assert false;
    }
    OnSphereIffRoot(s, ray, t);
    RootNeedsDiscriminant(q, t);
    var near := NearRoot(q, sqrt);
    OnSphereIffRoot(s, ray, near);
    assert near == t;
  }

  /** The test reports a hit exactly when the ray's first meeting with the surface lies in the interval. */
  lemma HitIffNearestInInterval(s: Sphere, ray: Ray, tMin: real, tMax: Bound, sqrt: real -> real)
    requires IsSqrt(sqrt)
    ensures Hit(s, ray, tMin, tMax, sqrt).Some? <==> exists t :: InInterval(t, tMin, tMax) && IsNearestHit(s, ray, t)
  {
    if Hit(s, ray, tMin, tMax, sqrt).Some? {
      HitIsNearestRoot(s, ray, tMin, tMax, sqrt);
    } else if t :| InInterval(t, tMin, tMax) && IsNearestHit(s, ray, t) {
      NearestInIntervalIsHit(s, ray, tMin, tMax, sqrt, t);
    }
  }

  /** A reported point lies on the sphere: `|point - center|^2 == radius^2`. */
  lemma HitIsOnSurface(s: Sphere, ray: Ray, tMin: real, tMax: Bound, sqrt: real -> real)
    requires IsSqrt(sqrt)
    requires Hit(s, ray, tMin, tMax, sqrt).Some?
    ensures OnSphere(Hit(s, ray, tMin, tMax, sqrt).value.point, s)
  {
    HitIsNearestRoot(s, ray, tMin, tMax, sqrt);
  }

  /** The reported normal is the outward unit vector at the reported point, turned to face the ray. */
  lemma HitNormalShape(s: Sphere, ray: Ray, tMin: real, tMax: Bound, sqrt: real -> real)
    requires IsSqrt(sqrt)
    requires Hit(s, ray, tMin, tMax, sqrt).Some?
    ensures Hit(s, ray, tMin, tMax, sqrt).value.normal
         == FaceAgainst(ray.direction, UnitVector(Sub(Hit(s, ray, tMin, tMax, sqrt).value.point, s.center), sqrt))
  {
  }

  /** Normalising a non-zero vector and turning it to face a ray gives a unit vector. */
  lemma FacedNormalIsUnit(direction: Vec3, w: Vec3, sqrt: real -> real)
    requires IsSqrt(sqrt)
    requires w != Zero
    ensures Dot(FaceAgainst(direction, UnitVector(w, sqrt)), FaceAgainst(direction, UnitVector(w, sqrt))) == 1.0
  {
    UnitVectorHasUnitLength(w, sqrt);
    FacingKeepsLength(direction, UnitVector(w, sqrt));
  }

  /** Turning a vector to face a ray keeps its squared length. */
  lemma FacingKeepsLength(direction: Vec3, u: Vec3)
    ensures Dot(FaceAgainst(direction, u), FaceAgainst(direction, u)) == Dot(u, u)
  {
    DotNeg(u);
  }

  /** A record whose normal was built by normalising away from the centre has a unit normal. */
  lemma RecordNormalIsUnit(h: HitRecord, center: Vec3, direction: Vec3, sqrt: real -> real)
    requires IsSqrt(sqrt)
    requires h.normal == FaceAgainst(direction, UnitVector(Sub(h.point, center), sqrt))
    requires h.point != center
    ensures Dot(h.normal, h.normal) == 1.0
  {
    SubZero(h.point, center);
    FacedNormalIsUnit(direction, Sub(h.point, center), sqrt);
  }

  /** Away from the centre, the reported normal has unit length. */
  lemma HitNormalIsUnit(s: Sphere, ray: Ray, tMin: real, tMax: Bound, sqrt: real -> real)
    requires IsSqrt(sqrt)
    requires Hit(s, ray, tMin, tMax, sqrt).Some?
    requires Hit(s, ray, tMin, tMax, sqrt).value.point != s.center
    ensures Dot(Hit(s, ray, tMin, tMax, sqrt).value.normal, Hit(s, ray, tMin, tMax, sqrt).value.normal) == 1.0
  {
    HitNormalShape(s, ray, tMin, tMax, sqrt);
    RecordNormalIsUnit(Hit(s, ray, tMin, tMax, sqrt).value, s.center, ray.direction, sqrt);
  }

  /** The centre of a sphere of non-zero radius is not on its surface. */
  lemma CentreNotOnSurface(p: Vec3, s: Sphere)
    requires s.radius != 0.0
    requires OnSphere(p, s)
    ensures p != s.center
  {
    SquareSign(s.radius);
  }

  /** A sphere of non-zero radius never reports its centre, so its normals always have unit length. */
  lemma ProperSphereNormalIsUnit(s: Sphere, ray: Ray, tMin: real, tMax: Bound, sqrt: real -> real)
    requires IsSqrt(sqrt)
    requires s.radius != 0.0
    requires Hit(s, ray, tMin, tMax, sqrt).Some?
    ensures Dot(Hit(s, ray, tMin, tMax, sqrt).value.normal, Hit(s, ray, tMin, tMax, sqrt).value.normal) == 1.0
  {
    HitIsOnSurface(s, ray, tMin, tMax, sqrt);
    CentreNotOnSurface(Hit(s, ray, tMin, tMax, sqrt).value.point, s);
    HitNormalIsUnit(s, ray, tMin, tMax, sqrt);
  }

  /**
   * The test only ever considers the near root, so a ray that starts
   * strictly inside a sphere never reports that sphere for a non-negative
   * interval: its near root lies behind the origin, and the far root, where
   * the ray leaves, is not tried.
   */
  lemma InsideSeesNoSurface(s: Sphere, ray: Ray, tMin: real, tMax: Bound, sqrt: real -> real)
    requires IsSqrt(sqrt)
    requires 0.0 <= tMin
    requires Dot(Sub(ray.origin, s.center), Sub(ray.origin, s.center)) < s.radius * s.radius
    ensures Hit(s, ray, tMin, tMax, sqrt).None?
  {
    var q := QuadraticOf(s, ray);
    LeadingCoefficient(s, ray);
    if q.a != 0.0 {
      NearRootNegative(q, sqrt);
    }
  }

  /**
   * Head-on: looking down `-z` from the origin at a sphere of radius `r`
   * centred `d` units away, the hit is at `t = d - r`, at the point
   * `(0, 0, r - d)`, with the normal `(0, 0, 1)` pointing back at the viewer.
   */
  lemma HeadOnHit(s: Sphere, ray: Ray, d: real, r: real, tMin: real, sqrt: real -> real)
    requires IsSqrt(sqrt)
    requires 0.0 < r
    requires s.center == Vec3(0.0, 0.0, -d) && s.radius == r
    requires ray == Ray(Zero, Vec3(0.0, 0.0, -1.0))
    requires tMin <= d - r
    ensures Hit(s, ray, tMin, Unbounded, sqrt) == Some(HitRecord(Vec3(0.0, 0.0, r - d), Vec3(0.0, 0.0, 1.0), d - r, s.material))
  {
    HeadOnParts(s, ray, d, r, sqrt);
    HitFromParts(s, ray, d, r, tMin, sqrt, Vec3(0.0, 0.0, r - d), Vec3(0.0, 0.0, 1.0));
  }

  /** The coefficients, point and normal of the head-on case. */
  lemma HeadOnParts(s: Sphere, ray: Ray, d: real, r: real, sqrt: real -> real)
    requires IsSqrt(sqrt)
    requires 0.0 < r
    requires s.center == Vec3(0.0, 0.0, -d) && s.radius == r
    requires ray == Ray(Zero, Vec3(0.0, 0.0, -1.0))
    ensures QuadraticOf(s, ray) == Quadratic(1.0, -2.0 * d, d * d - r * r)
    ensures At(ray, d - r) == Vec3(0.0, 0.0, r - d)
    ensures FaceAgainst(ray.direction, UnitVector(Sub(Vec3(0.0, 0.0, r - d), s.center), sqrt)) == Vec3(0.0, 0.0, 1.0)
  {
    assert Sub(Vec3(0.0, 0.0, r - d), s.center) == Vec3(0.0, 0.0, r);
    UnitAxis(r, sqrt);
  }

  /** With the head-on coefficients, the hit is at `t = d - r` with the point and normal computed there. */
  lemma HitFromParts(s: Sphere, ray: Ray, d: real, r: real, tMin: real, sqrt: real -> real, p: Vec3, n: Vec3)
    requires IsSqrt(sqrt)
    requires 0.0 < r
    requires QuadraticOf(s, ray) == Quadratic(1.0, -2.0 * d, d * d - r * r)
    requires At(ray, d - r) == p
    requires FaceAgainst(ray.direction, UnitVector(Sub(p, s.center), sqrt)) == n
    requires tMin <= d - r
    ensures Hit(s, ray, tMin, Unbounded, sqrt) == Some(HitRecord(p, n, d - r, s.material))
  {
    HeadOnRoot(d, r, sqrt);
  }

  /** The near root of `t^2 - 2dt + d^2 - r^2` is `d - r`. */
  lemma HeadOnRoot(d: real, r: real, sqrt: real -> real)
    requires IsSqrt(sqrt)
    requires 0.0 < r
    ensures Discriminant(Quadratic(1.0, -2.0 * d, d * d - r * r)) == (2.0 * r) * (2.0 * r)
    ensures NearRoot(Quadratic(1.0, -2.0 * d, d * d - r * r), sqrt) == d - r
  {
    var q := Quadratic(1.0, -2.0 * d, d * d - r * r);
    assert Discriminant(q) == (2.0 * r) * (2.0 * r);
    SqrtUnique(sqrt, Discriminant(q), 2.0 * r);
  }

  /** A positive multiple of the `z` axis normalises to the unit `z` axis. */
  lemma UnitAxis(r: real, sqrt: real -> real)
    requires IsSqrt(sqrt)
    requires 0.0 < r
    ensures UnitVector(Vec3(0.0, 0.0, r), sqrt) == Vec3(0.0, 0.0, 1.0)
  {
    assert Dot(Vec3(0.0, 0.0, r), Vec3(0.0, 0.0, r)) == r * r;
    SqrtUnique(sqrt, r * r, r);
    assert Length(Vec3(0.0, 0.0, r), sqrt) == r;
  }
}
