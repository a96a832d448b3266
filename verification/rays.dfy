/**
 * Rays and parameter intervals. The ray module of the program is not part of
 * this model; a ray is an origin and a direction, and `at(t)` is the point
 * `origin + direction * t`, which is how the sphere code uses it.
 */
module Rays {
  import opened Vectors

  datatype Ray = Ray(origin: Vec3, direction: Vec3)

  /** `ray.at(t)`: the point reached after travelling `t` directions from the origin. */
  function At(ray: Ray, t: real): (p: Vec3)
    ensures Sub(p, ray.origin) == Scale(ray.direction, t)
  {
    Add(ray.origin, Scale(ray.direction, t))
  }

  /**
   * An upper bound on the ray parameter: a finite value or `f64::INFINITY`,
   * which the program passes when it does not want an upper bound.
   */
  datatype Bound = Finite(value: real) | Unbounded

  /** `t` lies in `[tMin, tMax]`; every real lies below `Unbounded`. */
  predicate InInterval(t: real, tMin: real, tMax: Bound) {
    tMin <= t && (tMax.Finite? ==> t <= tMax.value)
  }

  /** `t < bound`: strict comparison against a possibly infinite bound. */
  predicate Below(t: real, bound: Bound) {
    bound.Unbounded? || t < bound.value
  }

  /** Seen from a point `c`, the ray starts at `origin - c` and moves in the same direction. */
  lemma AtRelativeTo(ray: Ray, t: real, c: Vec3)
    ensures Sub(At(ray, t), c) == Add(Sub(ray.origin, c), Scale(ray.direction, t))
  {
  }

  /** A ray with a zero direction stays at its origin for every parameter. */
  lemma AtZeroDirection(ray: Ray, t: real)
    requires ray.direction == Zero
    ensures At(ray, t) == ray.origin
  {
  }
}
