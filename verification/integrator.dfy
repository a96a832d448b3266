/**
 * The colour a ray brings back (`sky_colour` and `ray_colour` in
 * src/main.rs). Each level asks the scene for the nearest hit in
 * `[0.001, +infinity)`, adds the material's emission and, if the material
 * scatters, the tinted colour of the bounced ray one level deeper; a miss
 * sees the sky and depth zero is black.
 *
 * `ray_colour` takes the scene as `&dyn Hittable`, so here the scene is any
 * function with the signature of `hit`; `SceneOf` gives the one a list of
 * spheres defines. The program draws a fresh random unit vector inside every
 * scatter. Here the draws are a parameter `samples`: the level with `depth`
 * levels left uses `samples(depth)`, and at most one draw happens per level.
 */
module Integrator {
  import opened Options
  import opened Vectors
  import opened Rays
  import opened Materials
  import opened Spheres
  import opened Hittables

  /** `Hittable::hit`: a ray and an interval to the nearest record, if any. */
  type Scene = (Ray, real, Bound) -> Option<HitRecord>

  const LightBlue: Vec3 := Vec3(0.2, 0.5, 1.0)
  const DarkBlue: Vec3 := Vec3(0.1, 0.3, 0.9)

  /** The lower end of every scene query; it keeps a bounce from meeting the surface it leaves. */
  const MinT: real := 0.001

  /** How far up the ray looks: 0 straight down, 1 straight up. */
  function BlendFactor(ray: Ray, sqrt: real -> real): (t: real)
    requires IsSqrt(sqrt)
    ensures 0.0 <= t <= 1.0
  {
    UnitVectorComponentsBounded(ray.direction, sqrt);
    0.5 * (UnitVector(ray.direction, sqrt).y + 1.0)
  }

  /** `sky_colour`: a blend from dark blue below to light blue above; every channel lies between the two. */
  function SkyColour(ray: Ray, sqrt: real -> real): (c: Vec3)
    requires IsSqrt(sqrt)
    ensures DarkBlue.x <= c.x <= LightBlue.x
    ensures DarkBlue.y <= c.y <= LightBlue.y
    ensures DarkBlue.z <= c.z <= LightBlue.z
  {
    var t := BlendFactor(ray, sqrt);
    Add(ScaleLeft(1.0 - t, DarkBlue), ScaleLeft(t, LightBlue))
  }

  /** Every record the scene can report has a material whose albedo lies in the unit cube. */
  ghost predicate AlbedosBounded(scene: Scene) {
    forall ray, tMin, tMax :: scene(ray, tMin, tMax).Some? ==> InUnitCube(scene(ray, tMin, tMax).value.material.albedo)
  }

  /**
   * `ray_colour`. When the scene's albedos lie in the unit cube the returned
   * colour does too, at every depth: the sky is inside it, a light returns
   * its albedo, and a bounce only tints what comes back.
   */
  function RayColour(ray: Ray, scene: Scene, depth: nat, samples: nat -> Vec3, sqrt: real -> real): (c: Vec3)
    requires IsSqrt(sqrt)
    ensures AlbedosBounded(scene) ==> InUnitCube(c)
    decreases depth
  {
    if depth == 0 then
      Zero
    else
      match scene(ray, MinT, Unbounded)
      case None => SkyColour(ray, sqrt)
      case Some(hit) =>
        var emitted := Emitted(hit.material);
        match ScatterOf(hit.material, ray, hit, samples(depth))
        case None => emitted
        case Some(scatter) =>
          var incoming := RayColour(scatter.ray, scene, depth - 1, samples, sqrt);
          BounceStaysInUnitCube(AlbedosBounded(scene), hit, scatter, incoming);
          Add(emitted, Mul(scatter.attenuation, incoming))
  }

  /** A scattering material emits nothing, so a bounce returns the tinted incoming colour, which stays in the unit cube. */
  lemma BounceStaysInUnitCube(bounded: bool, hit: HitRecord, scatter: Scatter, incoming: Vec3)
    requires !hit.material.Light? && scatter.attenuation == hit.material.albedo
    requires bounded ==> InUnitCube(incoming) && InUnitCube(hit.material.albedo)
    ensures bounded ==> InUnitCube(Add(Emitted(hit.material), Mul(scatter.attenuation, incoming)))
  {
    if bounded {
      TintStaysInUnitCube(scatter.attenuation, incoming);
    }
  }

  /**
   * The recursion unrolled into a loop: it carries the colour gathered so
   * far and the product of the tints met so far, and computes the same
   * colour as `RayColour`.
   */
  method Trace(ray: Ray, scene: Scene, depth: nat, samples: nat -> Vec3, sqrt: real -> real)
    returns (c: Vec3)
    requires IsSqrt(sqrt)
    ensures c == RayColour(ray, scene, depth, samples, sqrt)
  {
    ghost var total := RayColour(ray, scene, depth, samples, sqrt);
    MulAddRegroupOne(RayColour(ray, scene, depth, samples, sqrt));
    var gathered := Zero;
    var tint := Vec3(1.0, 1.0, 1.0);
    var current := ray;
    var remaining := depth;
    while remaining > 0
      invariant Add(gathered, Mul(tint, RayColour(current, scene, remaining, samples, sqrt))) == total
      decreases remaining
    {
      var finished;
      finished, gathered, tint, current := TraceStep(gathered, tint, current, remaining, scene, samples, sqrt, total);
      if finished {
        return gathered;
      }
      remaining := remaining - 1;
    }
    OutOfDepthIsBlack(current, scene, samples, sqrt);
    NothingLeft(gathered, tint, total);
    c := gathered;
  }

  /** Once the remaining colour is black, what has been gathered is the whole colour. */
  lemma NothingLeft(gathered: Vec3, tint: Vec3, total: Vec3)
    requires Add(gathered, Mul(tint, Zero)) == total
    ensures gathered == total
  {
  }

  /** Starting with nothing gathered and a white tint gives back the full colour. */
  lemma MulAddRegroupOne(v: Vec3)
    ensures Add(Zero, Mul(Vec3(1.0, 1.0, 1.0), v)) == v
  {
  }

  /**
   * One level of the loop in `Trace`: either the path ends here and the
   * colour is complete, or the gathered colour and the tint move one bounce
   * further and the relation with the full colour is kept.
   */
  method TraceStep(gathered: Vec3, tint: Vec3, current: Ray, remaining: nat, scene: Scene,
                   samples: nat -> Vec3, sqrt: real -> real, ghost total: Vec3)
    returns (finished: bool, gathered': Vec3, tint': Vec3, next: Ray)
    requires IsSqrt(sqrt)
    requires remaining >= 1
    requires Add(gathered, Mul(tint, RayColour(current, scene, remaining, samples, sqrt))) == total
    ensures finished ==> gathered' == total
    ensures !finished ==> Add(gathered', Mul(tint', RayColour(next, scene, remaining - 1, samples, sqrt))) == total
  {
    Unroll(current, scene, remaining, samples, sqrt);
    var hit := scene(current, MinT, Unbounded);
    if hit.None? {
      return true, Add(gathered, Mul(tint, SkyColour(current, sqrt))), tint, current;
    }
    var emitted := Emitted(hit.value.material);
    var scatter := ScatterOf(hit.value.material, current, hit.value, samples(remaining));
    if scatter.None? {
      return true, Add(gathered, Mul(tint, emitted)), tint, current;
    }
    MulAddRegroup(gathered, tint, emitted, scatter.value.attenuation,
      RayColour(scatter.value.ray, scene, remaining - 1, samples, sqrt));
    return false, Add(gathered, Mul(tint, emitted)), Mul(tint, scatter.value.attenuation), scatter.value.ray;
  }

  /** One level of `RayColour`: sky on a miss, emission when nothing scatters, emission plus the tinted bounce otherwise. */
  lemma Unroll(ray: Ray, scene: Scene, depth: nat, samples: nat -> Vec3, sqrt: real -> real)
    requires IsSqrt(sqrt)
    requires depth >= 1
    ensures var hit := scene(ray, MinT, Unbounded);
      RayColour(ray, scene, depth, samples, sqrt)
        == if hit.None? then SkyColour(ray, sqrt)
           else
             var scatter := ScatterOf(hit.value.material, ray, hit.value, samples(depth));
             if scatter.None? then Emitted(hit.value.material)
             else Add(Emitted(hit.value.material), Mul(scatter.value.attenuation, RayColour(scatter.value.ray, scene, depth - 1, samples, sqrt)))
  {
  }

  /** With no depth left the colour is black, whatever the scene. */
  lemma OutOfDepthIsBlack(ray: Ray, scene: Scene, samples: nat -> Vec3, sqrt: real -> real)
    requires IsSqrt(sqrt)
    ensures RayColour(ray, scene, 0, samples, sqrt) == Zero
  {
  }

  /** A ray the scene reports no hit for sees the sky. */
  lemma MissSeesSky(ray: Ray, scene: Scene, depth: nat, samples: nat -> Vec3, sqrt: real -> real)
    requires IsSqrt(sqrt)
    requires depth >= 1
    requires scene(ray, MinT, Unbounded).None?
    ensures RayColour(ray, scene, depth, samples, sqrt) == SkyColour(ray, sqrt)
  {
  }

  /** When the first thing the ray meets is a light, the colour is the light's albedo, at any depth of one or more. */
  lemma LightSeenDirectly(ray: Ray, scene: Scene, depth: nat, samples: nat -> Vec3, sqrt: real -> real)
    requires IsSqrt(sqrt)
    requires depth >= 1
    requires scene(ray, MinT, Unbounded).Some? && scene(ray, MinT, Unbounded).value.material.Light?
    ensures RayColour(ray, scene, depth, samples, sqrt) == scene(ray, MinT, Unbounded).value.material.albedo
  {
  }

  /** A diffuse or reflective surface emits nothing: its colour is the bounced ray's colour tinted by the albedo. */
  lemma BounceOnlyTints(ray: Ray, scene: Scene, depth: nat, samples: nat -> Vec3, sqrt: real -> real)
    requires IsSqrt(sqrt)
    requires depth >= 1
    requires scene(ray, MinT, Unbounded).Some? && !scene(ray, MinT, Unbounded).value.material.Light?
    ensures var hit := scene(ray, MinT, Unbounded).value;
      var bounce := ScatterOf(hit.material, ray, hit, samples(depth)).value;
      RayColour(ray, scene, depth, samples, sqrt)
        == Mul(hit.material.albedo, RayColour(bounce.ray, scene, depth - 1, samples, sqrt))
  {
  }

  // ---------------------------------------------------------------------------
  // Scenes made of spheres.
  // ---------------------------------------------------------------------------

  /** Every object's material has an albedo in the unit cube. */
  predicate ObjectAlbedosInUnitCube(world: seq<Sphere>) {
    forall i :: 0 <= i < |world| ==> InUnitCube(world[i].material.albedo)
  }

  /** The scene a list of spheres defines: the closest-hit scan over them. */
  function SceneOf(world: seq<Sphere>, sqrt: real -> real): Scene
    requires IsSqrt(sqrt)
  {
    (ray, tMin, tMax) => HitWorld(world, ray, tMin, tMax, sqrt)
  }

  /** Objects whose albedos lie in the unit cube make a scene whose albedos do. */
  lemma ObjectAlbedosBounded(world: seq<Sphere>, sqrt: real -> real)
    requires IsSqrt(sqrt)
    requires ObjectAlbedosInUnitCube(world)
    ensures AlbedosBounded(SceneOf(world, sqrt))
  {
    var scene := SceneOf(world, sqrt);
    forall ray, tMin, tMax | scene(ray, tMin, tMax).Some?
      ensures InUnitCube(scene(ray, tMin, tMax).value.material.albedo)
    {
      HitWorldIsFirstNearest(world, ray, tMin, tMax, sqrt);
      var i :| 0 <= i < |world| && HitWorld(world, ray, tMin, tMax, sqrt) == Hit(world[i], ray, tMin, tMax, sqrt);
    }
  }

  /**
   * The scene is asked about `[0.001, +infinity)` only: a ray whose first
   * meeting with every object is closer than 0.001 (or that meets none)
   * sees the sky.
   */
  lemma NearMeetingsAreIgnored(ray: Ray, world: seq<Sphere>, depth: nat, samples: nat -> Vec3, sqrt: real -> real)
    requires IsSqrt(sqrt)
    requires depth >= 1
    requires forall i, t :: 0 <= i < |world| && IsNearestHit(world[i], ray, t) ==> t < MinT
    ensures RayColour(ray, SceneOf(world, sqrt), depth, samples, sqrt) == SkyColour(ray, sqrt)
  {
    forall i | 0 <= i < |world|
      ensures Hit(world[i], ray, MinT, Unbounded, sqrt).None?
    {
      HitIffNearestInInterval(world[i], ray, MinT, Unbounded, sqrt);
    }
    HitWorldMissesIffAllMiss(world, ray, MinT, Unbounded, sqrt);
    MissSeesSky(ray, SceneOf(world, sqrt), depth, samples, sqrt);
  }

  /** An empty list of objects shows only sky. */
  lemma EmptySceneIsSky(ray: Ray, depth: nat, samples: nat -> Vec3, sqrt: real -> real)
    requires IsSqrt(sqrt)
    requires depth >= 1
    ensures RayColour(ray, SceneOf([], sqrt), depth, samples, sqrt) == SkyColour(ray, sqrt)
  {
    HitWorldMissesIffAllMiss([], ray, MinT, Unbounded, sqrt);
    MissSeesSky(ray, SceneOf([], sqrt), depth, samples, sqrt);
  }

  /** A single object answers for the whole list. */
  lemma SingleObjectScene(o: Sphere, ray: Ray, tMin: real, tMax: Bound, sqrt: real -> real)
    requires IsSqrt(sqrt)
    ensures SceneOf([o], sqrt)(ray, tMin, tMax) == Hit(o, ray, tMin, tMax, sqrt)
  {
    var hits := HitsOf([o], ray, tMin, tMax, sqrt);
    assert hits == [Hit(o, ray, tMin, tMax, sqrt)];
    assert hits[..0] == [];
  }

  /**
   * A light sphere of radius `r` centred `d` units straight ahead, with its
   * near surface beyond 0.001: the ray along the axis returns the light's
   * albedo.
   */
  lemma LampStraightAhead(lamp: Sphere, ray: Ray, d: real, r: real, depth: nat, samples: nat -> Vec3, sqrt: real -> real)
    requires IsSqrt(sqrt)
    requires 0.0 < r && MinT <= d - r
    requires lamp.center == Vec3(0.0, 0.0, -d) && lamp.radius == r && lamp.material.Light?
    requires ray == Ray(Zero, Vec3(0.0, 0.0, -1.0))
    requires depth >= 1
    ensures RayColour(ray, SceneOf([lamp], sqrt), depth, samples, sqrt) == lamp.material.albedo
  {
    HeadOnHit(lamp, ray, d, r, MinT, sqrt);
    SingleObjectScene(lamp, ray, MinT, Unbounded, sqrt);
    LightSeenDirectly(ray, SceneOf([lamp], sqrt), depth, samples, sqrt);
  }

  /** A ray pointing straight up sees pure light blue. */
  lemma ZenithIsLightBlue(ray: Ray, sqrt: real -> real)
    requires IsSqrt(sqrt)
    requires ray.direction.x == 0.0 && ray.direction.z == 0.0 && 0.0 < ray.direction.y
    ensures SkyColour(ray, sqrt) == LightBlue
  {
    var k := ray.direction.y;
    assert Dot(ray.direction, ray.direction) == k * k;
    SqrtUnique(sqrt, k * k, k);
    assert Length(ray.direction, sqrt) == k;
    assert UnitVector(ray.direction, sqrt) == Vec3(0.0, 1.0, 0.0);
  }

  /** A ray pointing straight down sees pure dark blue. */
  lemma NadirIsDarkBlue(ray: Ray, sqrt: real -> real)
    requires IsSqrt(sqrt)
    requires ray.direction.x == 0.0 && ray.direction.z == 0.0 && ray.direction.y < 0.0
    ensures SkyColour(ray, sqrt) == DarkBlue
  {
    var k := ray.direction.y;
    assert Dot(ray.direction, ray.direction) == k * k;
    SqrtUnique(sqrt, k * k, -k);
    assert Length(ray.direction, sqrt) == -k;
    assert UnitVector(ray.direction, sqrt) == Vec3(0.0, -1.0, 0.0);
  }

  /** A level ray sees the even mix of the two blues. */
  lemma HorizonIsMidway(ray: Ray, sqrt: real -> real)
    requires IsSqrt(sqrt)
    requires ray.direction.y == 0.0
    ensures SkyColour(ray, sqrt) == Vec3(0.15, 0.4, 0.95)
  {
    assert UnitVector(ray.direction, sqrt).y == 0.0;
  }
}
