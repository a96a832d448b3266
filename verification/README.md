# Path tracer core in Dafny

A model of the rendering core of a small Rust path tracer. The core is:

- 3-vector arithmetic: the `Vec3` type, `dot`, `length`, `unit_vector` and `reflect`.
- The ray–sphere intersection test.
- The closest-hit scan over a list of objects.
- The three materials: Diffuse, Reflective and Light. Each has its own `scatter` and `emmited`.
- The recursive `ray_colour` integrator, with the sky gradient behind it.

Modules follow the program's files:

| module | file | models |
|---|---|---|
| `Vectors` | `vectors.dfy` | `src/vec3.rs` |
| `Rays` | `rays.dfy` | `Ray` and `at(t)`, plus the parameter interval `[t_min, t_max]` |
| `Materials` | `materials.dfy` | `src/material.rs` and the `HitRecord` of `src/hittable.rs` |
| `Quadratics` | `quadratics.dfy` | the quadratic solved inside `Sphere::hit` |
| `Spheres` | `spheres.dfy` | `src/sphere.rs` |
| `Hittables` | `hittables.dfy` | the `Vec<Box<dyn Hittable>>` impl of `src/hittable.rs` |
| `Integrator` | `integrator.dfy` | `sky_colour` and `ray_colour` of `src/main.rs` |
| `Options` | `options.dfy` | Rust's `Option` |

Floating-point numbers are modelled as reals. The square root is a parameter `sqrt: real -> real`. The only assumption about it is `IsSqrt`: for every `x >= 0`, `sqrt(x) >= 0` and `sqrt(x) * sqrt(x) == x`.

Randomness is a parameter too:
- A scatter takes the unit vector `random_unit_vector` would have drawn as an argument `sample`.
- The integrator takes a sequence of such draws, `samples: nat -> Vec3`. The level with `d` bounces left uses `samples(d)`.

`ray_colour` takes its scene as `&dyn Hittable`. The model's `RayColour` likewise takes any function `Scene` with the signature of `hit`. `SceneOf(objects, sqrt)` is the scene a list of spheres defines.

Three behaviours of the code that the proofs make explicit:

- **Only the near root is tried.** `Sphere::hit` considers only `(-b - sqrt(delta)) / 2a`. When that root is below `t_min`, the sphere is reported as missed even if the far root is in range. So a ray that starts inside a sphere never sees that sphere (`Spheres.InsideSeesNoSurface`).
- **Ties go to the earlier object.** The scan replaces its record only on a strictly smaller `t`, so the earlier object wins a tie. Permuting the objects keeps whether there is a hit and at which `t`, but it may change which record wins.
- **No depth overflow.** `depth - 1` is only computed when `depth > 0`, so the `u32` never wraps.

## Model

| member | source | states |
|---|---|---|
| Vectors.Add | src/vec3.rs:49-55 | no contract of its own; Sub and SubUndoesAdd state that subtraction is its inverse |
| Vectors.Sub | src/vec3.rs:57-63 | subtraction undoes addition: `(a - b) + b == a` |
| Vectors.SubUndoesAdd | src/vec3.rs:49-63 | `(a + b) - b == a` for all vectors |
| Vectors.Neg | src/sphere.rs:35-37 | the flipped normal `-v` is the additive inverse of `v`, and equals `0 - v` |
| Vectors.Scale | src/vec3.rs:65-71 | no contract of its own; ScaleLeft proves the `f64 * Vec3` impl equal to it and Div proves it undone by division |
| Vectors.ScaleLeft | src/vec3.rs:73-79 | `s * v` (scalar on the left) equals `v * s` (scalar on the right) |
| Vectors.Mul | src/vec3.rs:81-87 | no contract of its own; Materials.TintStaysInUnitCube states that it keeps colours in the unit cube |
| Vectors.Div | src/vec3.rs:89-95 | dividing by a non-zero `s` is multiplying by `1/s`, and multiplying the quotient by `s` gives `v` back |
| Vectors.Length | src/vec3.rs:35-37 | the length is non-negative, squares to `dot(v, v)`, and is zero exactly when `dot(v, v)` is |
| Vectors.Dot | src/vec3.rs:39-41 | no contract of its own; DotSymmetric, DotSelfNonNegative and SquaredLengthZero state its laws |
| Vectors.DotSymmetric | src/vec3.rs:39-41 | `dot(a, b) == dot(b, a)` |
| Vectors.DotSelfNonNegative | src/vec3.rs:39-41 | `dot(v, v) >= 0` |
| Vectors.SquaredLengthZero | src/vec3.rs:39-41 | `dot(v, v) == 0` exactly when `v` is the zero vector |
| Vectors.UnitVector | src/vec3.rs:43-46 | for a non-zero vector, scaling the result by the length gives the vector back |
| Vectors.UnitVectorHasUnitLength | src/vec3.rs:43-46 | the unit vector of a non-zero vector has `dot(u, u) == 1` |
| Vectors.UnitVectorComponentsBounded | src/vec3.rs:43-46 | every component of a unit vector lies in `[-1, 1]` |
| Vectors.Reflect | src/vec3.rs:26-28 | no contract of its own; ReflectNegatesNormalComponent, ReflectFixesOrthogonal and ReflectInvolution state its laws |
| Vectors.ReflectNegatesNormalComponent | src/vec3.rs:26-28 | for a unit normal, reflecting negates the component along the normal |
| Vectors.ReflectFixesOrthogonal | src/vec3.rs:26-28 | a vector orthogonal to the normal is unchanged by reflection |
| Vectors.ReflectInvolution | src/vec3.rs:26-28 | for a unit normal, reflecting twice gives the original vector |
| Rays.At | src/sphere.rs:33 | the point at `t`, minus the origin, is the direction scaled by `t` |
| Materials.Emitted | src/material.rs:14-16 | the default emission is black for Diffuse and Reflective; a Light emits its albedo (lines 82-84) |
| Materials.ScatterOf | src/material.rs:33-85 | no scatter exactly for a Light; otherwise the new ray starts at the hit point and is tinted by the albedo; diffuse direction minus the normal is the sample; reflective direction minus the mirror direction is `fuzz * sample` |
| Materials.ScatterOrEmit | src/material.rs:12-17 | a material either scatters and emits black, or absorbs and emits its albedo |
| Materials.AttenuationBounded | src/material.rs:40 | with an albedo in the unit cube, a bounce never amplifies any channel |
| Materials.TintStaysInUnitCube | src/vec3.rs:81-87 | the channel-wise product of two colours in the unit cube stays in the unit cube |
| Materials.ReflectiveIsMirrorIffNoFuzz | src/material.rs:33-43 | with a unit sample, the reflective bounce is the exact mirror direction if and only if the fuzz is zero |
| Materials.DiffuseBounceLeavesSurface | src/material.rs:55-65 | a diffuse bounce off a unit normal with a unit sample never points into the surface |
| Materials.MirrorBounceLeavesSurface | src/material.rs:33-43 | a fuzz-free bounce off a unit normal facing the ray leaves on the normal's side |
| Quadratics.NearRoot | src/sphere.rs:32 | `(-b - sqrt(delta)) / 2a` is a root of `a t^2 + b t + c`, and with `a > 0` every root is at or after it: it is the nearer of the two |
| Quadratics.RootNeedsDiscriminant | src/sphere.rs:30 | if the quadratic has a root `t` then `delta == (2at + b)^2`, so `delta >= 0` |
| Quadratics.NearRootNegative | src/sphere.rs:32 | with `a > 0` and `c < 0` the discriminant is positive and the near root is negative |
| Spheres.FaceAgainst | src/sphere.rs:35-39 | the chosen normal is the outward one or its negation, and never points along the ray |
| Spheres.Hit | src/sphere.rs:25-50 | a reported hit has `delta >= 0` and `t` in the interval; its point is `at(t)`; its normal faces the ray; its material is the sphere's |
| Spheres.QuadraticOf | src/sphere.rs:26-30 | no contract of its own; OnSphereIffRoot states that its roots are exactly the parameters where the ray is on the sphere |
| Spheres.OnSphereIffRoot | src/sphere.rs:26-30 | the point of the ray at `t` is on the sphere exactly when `t` is a root of the quadratic the code builds |
| Spheres.LeadingCoefficient | src/sphere.rs:26 | `a >= 0`, and `a == 0` exactly when the direction is zero |
| Spheres.HitIsNearestRoot | src/sphere.rs:32-40 | a reported `t` is the near root and is the ray's first meeting with the surface |
| Spheres.NearestInIntervalIsHit | src/sphere.rs:40-49 | when the first meeting lies in the interval, it is reported with that `t` |
| Spheres.HitIffNearestInInterval | src/sphere.rs:30-49 | a hit is reported exactly when the ray's first meeting with the surface lies in the interval |
| Spheres.HitIsOnSurface | src/sphere.rs:32-33 | the reported point lies on the sphere |
| Spheres.HitNormalIsUnit | src/sphere.rs:34-39 | when the reported point is not the centre, the reported normal has unit length |
| Spheres.ProperSphereNormalIsUnit | src/sphere.rs:34-39 | for a non-zero radius, every reported normal has unit length |
| Spheres.InsideSeesNoSurface | src/sphere.rs:32-40 | a ray whose origin is strictly inside a sphere is never reported for `t_min >= 0` |
| Spheres.HeadOnHit | src/sphere.rs:25-50 | head-on case: a ray from the origin along `-z` at a sphere of radius `r > 0` centred at `(0, 0, -d)` hits at `t = d - r`, at `(0, 0, r - d)`, with normal `(0, 0, 1)`, whenever `t_min <= d - r` |
| Hittables.Closest | src/hittable.rs:18-30 | no result exactly when every object missed; a result is one of the objects' own records, at or before every other hit |
| Hittables.ScanAnswers | src/hittable.rs:18-30 | the loop with `closest` and `closest_t` (starting at infinity, replaced only on a strictly smaller `t`) computes the same record as `Closest` |
| Hittables.Scan | src/hittable.rs:16-31 | the imperative scan over the objects returns `HitWorld` |
| Hittables.HitWorld | src/hittable.rs:16-31 | a record from the list has its `t` in the interval |
| Hittables.ClosestIsFirstNearest | src/hittable.rs:21-26 | the kept record belongs to an object with the nearest hit, and every earlier object missed or hit strictly farther away |
| Hittables.FirstNearestIsClosest | src/hittable.rs:21-26 | whichever object is first with the nearest hit is the one reported, so on a tie the earliest wins |
| Hittables.FirstNearestIsUnique | src/hittable.rs:23 | only one object can be first with the nearest hit |
| Hittables.ClosestInInterval | src/hittable.rs:18-30 | if every answer lies in an interval, so does the scan's |
| Hittables.ClosestIgnoresOrder | src/hittable.rs:18-30 | the same answers in another order give the same miss or the same nearest `t` |
| Hittables.HitWorldIsFirstNearest | src/hittable.rs:16-31 | a record from the list equals one object's own unmodified answer, and that object is first with the nearest hit |
| Hittables.HitWorldMissesIffAllMiss | src/hittable.rs:16-31 | the list misses exactly when every object misses |
| Hittables.HitWorldIgnoresOrder | src/hittable.rs:16-31 | permuting the objects keeps whether there is a hit and its `t` |
| Integrator.BlendFactor | src/main.rs:22 | the blend factor lies in `[0, 1]` |
| Integrator.SkyColour | src/main.rs:21-26 | every channel of the sky lies between dark blue and light blue |
| Integrator.ZenithIsLightBlue | src/main.rs:21-26 | a ray straight up sees pure light blue `(0.2, 0.5, 1)` |
| Integrator.NadirIsDarkBlue | src/main.rs:21-26 | a ray straight down sees pure dark blue `(0.1, 0.3, 0.9)` |
| Integrator.HorizonIsMidway | src/main.rs:21-26 | a level ray sees the even mix `(0.15, 0.4, 0.95)` |
| Integrator.RayColour | src/main.rs:28-44 | when every albedo the scene can report lies in the unit cube, the returned colour does too, at every depth |
| Integrator.Trace | src/main.rs:28-44 | a loop carrying the gathered colour and the product of the tints computes the same colour as the recursion |
| Integrator.OutOfDepthIsBlack | src/main.rs:29-31 | with no depth left the colour is black |
| Integrator.MissSeesSky | src/main.rs:41-43 | a ray the scene misses on `[0.001, inf)` sees the sky |
| Integrator.LightSeenDirectly | src/main.rs:33-40 | when the first hit is a light, the colour is its albedo |
| Integrator.BounceOnlyTints | src/main.rs:34-37 | at a diffuse or reflective hit the colour is the albedo times the colour of the bounced ray one level deeper |
| Integrator.SceneOf | src/main.rs:119 | no contract of its own; ObjectAlbedosBounded, NearMeetingsAreIgnored, EmptySceneIsSky and SingleObjectScene state its laws |
| Integrator.ObjectAlbedosBounded | src/main.rs:33-37 | objects whose albedos lie in the unit cube make a scene whose reported materials do |
| Integrator.NearMeetingsAreIgnored | src/main.rs:33 | the scene is queried on `[0.001, inf)`: if every object's first meeting with the ray is before 0.001, or there is none, the ray sees the sky |
| Integrator.EmptySceneIsSky | src/main.rs:33-42 | with no objects every ray sees the sky |
| Integrator.LampStraightAhead | src/main.rs:33-40 | a ray along the axis at a light sphere of radius `r` centred `d` ahead, with `d - r >= 0.001`, returns the light's albedo |

## Left out

- IEEE-754 behaviour (rounding, NaN, infinities): numbers are reals. The code relies on NaN in two places. For `Sphere::hit` with a zero direction, the model returns the code's own outcome: `t` is NaN, every comparison fails, and there is no hit. For `unit_vector` of a zero vector, the code gets NaN components; the model's `UnitVector` returns the zero vector instead, which is a stand-in and not the code's outcome. One visible consequence: a sphere of radius zero reports the normal `Zero`. A diffuse bounce off it then travels along the sample, whereas in the code the NaN normal makes the whole path's colour NaN.
- Integrator.HorizonIsMidway, Integrator.SkyColour, Integrator.BlendFactor: a zero direction (reachable when a diffuse sample equals the negated normal, src/material.rs:57) normalises to NaN in the code, so its sky is NaN; the model's zero-vector stand-in gives it the even mix of the two blues instead, and the unit-cube bound of Integrator.RayColour rests on that stand-in too.
- Vectors.Div: requires a non-zero divisor. The `Div` impl is only called with the non-zero divisors `2.` (src/camera.rs:25) and `samples_per_pixel` (src/main.rs:122). The code's divisions by zero are elsewhere, at src/vec3.rs:45 and src/sphere.rs:32, and both are handled as described above.
- Vectors.Length: the square root is a parameter constrained by `IsSqrt` rather than a computed function. No model can name the concrete root of an arbitrary real.
- `random_unit_vector` (src/vec3.rs:12-24) is a rejection-sampling loop over a random generator. Its draws are parameters (`sample`, `samples`). Properties that need a unit sample say so in their precondition.
- `Ray` and `at`: src/ray.rs is not part of this model. A ray is an origin and a direction, and `At(t) = origin + direction * t`, matching how the sphere code uses it.
- Unary minus: src/vec3.rs as shown has no `Neg` impl, but src/sphere.rs:36 negates a vector. `Vectors.Neg` is the component-wise negation that use needs.
- `HitRecord` holds its material by value where the code holds a reference. The three materials form a closed datatype where the code has an open trait.
- `Light` emits its albedo, as src/material.rs:82-84 does. The two-argument `Light::new(albedo, intensity)` used by the scene in src/main.rs:76 is not in the material file, so there is no intensity.
- `Dielectric` (imported by src/main.rs) is not part of this model.
- src/main.rs:36 calls `scatter` with a random generator, while the trait in src/material.rs:13 takes none. The model follows the trait and passes the draw as `sample`.
- Hittables.Scan: the code asks each object inside the loop, while the model asks all objects first and then scans the answers. Asking is free of side effects, so the result is the same.
- Integrator.RayColour: the depth is a `nat` instead of a `u32`. The code never decrements it below zero, so no wrap-around is lost.
- Integrator.RayColour: the colour bound holds only when every albedo, lights included, lies in the unit cube. A brighter light legitimately returns colours above 1.
- The camera (src/camera.rs), the per-pixel sampling loop, the rayon parallel driver, the progress bar, gamma correction, clamping and PPM output are left out: they are I/O and rendering set-up around the core.
- The scene literal in src/main.rs is not modelled; `LampStraightAhead` and `HeadOnHit` state the head-on single-sphere scenes instead.
