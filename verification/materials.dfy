/**
 * Materials (src/material.rs) and the hit record they consume
 * (src/hittable.rs). The program's open `Material` trait has exactly three
 * implementations, so it is a closed datatype here. The hit record lives in
 * this module because a record names its material and scattering reads a
 * record; the record holds its material by value where the program holds a
 * reference.
 */
module Materials {
  import opened Options
  import opened Vectors
  import opened Rays

  datatype Material =
    | Diffuse(albedo: Vec3)
    | Reflective(albedo: Vec3, fuzz: real)
    | Light(albedo: Vec3)

  /** Where a ray met a surface, the surface normal there, the ray parameter and the surface's material. */
  datatype HitRecord = HitRecord(point: Vec3, normal: Vec3, t: real, material: Material)

  /** The outgoing ray of a bounce and the colour it is tinted by. */
  datatype Scatter = Scatter(ray: Ray, attenuation: Vec3)

  /**
   * `emmited`: the trait's default is black, which Diffuse and Reflective
   * keep; a Light overrides it with its albedo.
   */
  function Emitted(m: Material): (e: Vec3)
    ensures m.Light? ==> e == m.albedo
    ensures !m.Light? ==> e == Zero
  {
    match m
    case Light(albedo) => albedo
    case _ => Zero
  }

  /**
   * `scatter`: a Light absorbs; the other two bounce from the hit point and
   * tint by their albedo. `sample` is the value `random_unit_vector` would
   * draw for this bounce.
   */
  function ScatterOf(m: Material, ray: Ray, hit: HitRecord, sample: Vec3): (r: Option<Scatter>)
    ensures r.None? <==> m.Light?
    ensures r.Some? ==> r.value.ray.origin == hit.point && r.value.attenuation == m.albedo
    ensures m.Diffuse? ==> r.Some? && Sub(r.value.ray.direction, hit.normal) == sample
    ensures m.Reflective? ==>
      r.Some? && Sub(r.value.ray.direction, Reflect(ray.direction, hit.normal)) == Scale(sample, m.fuzz)
  {
    match m
    case Diffuse(albedo) =>
      Some(Scatter(Ray(hit.point, Add(hit.normal, sample)), albedo))
    case Reflective(albedo, fuzz) =>
      Some(Scatter(Ray(hit.point, Add(Reflect(ray.direction, hit.normal), ScaleLeft(fuzz, sample))), albedo))
    case Light(_) =>
      None
  }

  /** Every component of `v` lies in `[0, 1]`. */
  predicate InUnitCube(v: Vec3) {
    0.0 <= v.x <= 1.0 && 0.0 <= v.y <= 1.0 && 0.0 <= v.z <= 1.0
  }

  /** The product of two numbers in `[0, 1]` is in `[0, 1]`. */
  lemma UnitProduct(a: real, b: real)
    requires 0.0 <= a <= 1.0 && 0.0 <= b <= 1.0
    ensures 0.0 <= a * b <= 1.0
  {
    assert 0.0 <= a * b;
    assert a * b <= a;
  }

  /** Tinting a colour in the unit cube by another keeps it there. */
  lemma TintStaysInUnitCube(a: Vec3, b: Vec3)
    requires InUnitCube(a) && InUnitCube(b)
    ensures InUnitCube(Mul(a, b))
  {
    UnitProduct(a.x, b.x);
    UnitProduct(a.y, b.y);
    UnitProduct(a.z, b.z);
  }

  /** A material either scatters and emits nothing, or absorbs and emits its albedo. */
  lemma ScatterOrEmit(m: Material, ray: Ray, hit: HitRecord, sample: Vec3)
    ensures ScatterOf(m, ray, hit, sample).Some? ==> Emitted(m) == Zero
    ensures ScatterOf(m, ray, hit, sample).None? ==> Emitted(m) == m.albedo
  {
  }

  /** The attenuation of a bounce stays within the unit cube when the albedo does. */
  lemma AttenuationBounded(m: Material, ray: Ray, hit: HitRecord, sample: Vec3)
    requires InUnitCube(m.albedo)
    ensures ScatterOf(m, ray, hit, sample).Some? ==> InUnitCube(ScatterOf(m, ray, hit, sample).value.attenuation)
  {
  }

  /**
   * With a unit-length sample, a reflective bounce is the exact mirror
   * direction if and only if the material has no fuzz.
   */
  lemma ReflectiveIsMirrorIffNoFuzz(albedo: Vec3, fuzz: real, ray: Ray, hit: HitRecord, sample: Vec3)
    requires Dot(sample, sample) == 1.0
    ensures ScatterOf(Reflective(albedo, fuzz), ray, hit, sample).value.ray.direction == Reflect(ray.direction, hit.normal)
      <==> fuzz == 0.0
  {
  }

  /**
   * A diffuse bounce off a unit normal with a unit sample never points into
   * the surface.
   */
  lemma DiffuseBounceLeavesSurface(albedo: Vec3, ray: Ray, hit: HitRecord, sample: Vec3)
    requires Dot(hit.normal, hit.normal) == 1.0 && Dot(sample, sample) == 1.0
    ensures 0.0 <= Dot(ScatterOf(Diffuse(albedo), ray, hit, sample).value.ray.direction, hit.normal)
  {
    var n := hit.normal;
    var w := Add(sample, n);
    DotSelfNonNegative(w);
    assert Dot(w, w) == Dot(sample, sample) + 2.0 * Dot(sample, n) + Dot(n, n);
    assert Dot(Add(n, sample), n) == Dot(sample, n) + Dot(n, n);
  }

  /**
   * A mirror bounce (no fuzz) off a unit normal that faces the incoming ray
   * leaves on the normal's side.
   */
  lemma MirrorBounceLeavesSurface(albedo: Vec3, ray: Ray, hit: HitRecord, sample: Vec3)
    requires Dot(hit.normal, hit.normal) == 1.0 && Dot(ray.direction, hit.normal) <= 0.0
    ensures 0.0 <= Dot(ScatterOf(Reflective(albedo, 0.0), ray, hit, sample).value.ray.direction, hit.normal)
  {
    ReflectNegatesNormalComponent(ray.direction, hit.normal);
  }
}
