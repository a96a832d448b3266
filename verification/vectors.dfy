/**
 * Three-component vectors over the reals (src/vec3.rs).
 *
 * `f64` is idealised as `real`. A square root is not definable here, so every
 * operation that needs one takes it as a parameter `sqrt` together with the
 * requirement `IsSqrt(sqrt)`: on non-negative arguments it returns the
 * non-negative root. Nothing is asked of it on negative arguments, which is
 * where IEEE-754 would produce NaN.
 */
module Vectors {

  /** A point, a direction or an RGB colour: the source uses one type for all three. */
  datatype Vec3 = Vec3(x: real, y: real, z: real)

  const Zero: Vec3 := Vec3(0.0, 0.0, 0.0)

  /** `sqrt` returns the non-negative square root of every non-negative real. */
  ghost predicate IsSqrt(sqrt: real -> real) {
    forall x :: 0.0 <= x ==> 0.0 <= sqrt(x) && sqrt(x) * sqrt(x) == x
  }

  /** The defining facts of `sqrt` at one argument. */
  lemma SqrtOf(sqrt: real -> real, x: real)
    requires IsSqrt(sqrt)
    requires 0.0 <= x
    ensures 0.0 <= sqrt(x) && sqrt(x) * sqrt(x) == x
  {
  }

  /** The non-negative square root is unique: any `IsSqrt` function returns the root one expects. */
  lemma SqrtUnique(sqrt: real -> real, x: real, y: real)
    requires IsSqrt(sqrt)
    requires 0.0 <= y && y * y == x
    ensures sqrt(x) == y
  {
    var s := sqrt(x);
    SqrtOf(sqrt, x);
    assert (s - y) * (s + y) == 0.0;
    assert s == y || s == -y;
  }

  /** The root is zero exactly at zero. */
  lemma SqrtZeroIff(sqrt: real -> real, d: real)
    requires IsSqrt(sqrt)
    requires 0.0 <= d
    ensures sqrt(d) == 0.0 <==> d == 0.0
  {
    SqrtOf(sqrt, d);
    if d == 0.0 {
      SqrtUnique(sqrt, 0.0, 0.0);
    }
  }

  // ---------------------------------------------------------------------------
  // Arithmetic: the Add, Sub, Mul and Div impls, and the unary minus the
  // sphere code applies to a normal.
  // ---------------------------------------------------------------------------

  function Add(a: Vec3, b: Vec3): Vec3 {
    Vec3(a.x + b.x, a.y + b.y, a.z + b.z)
  }

  /** Subtraction is the inverse of addition. */
  function Sub(a: Vec3, b: Vec3): (r: Vec3)
    ensures Add(r, b) == a
  {
    Vec3(a.x - b.x, a.y - b.y, a.z - b.z)
  }

  /** Negation gives the additive inverse. */
  function Neg(v: Vec3): (r: Vec3)
    ensures Add(v, r) == Zero
    ensures Sub(Zero, v) == r
  {
    Vec3(-v.x, -v.y, -v.z)
  }

  /** `v * s`: the vector scaled by a scalar on the right. */
  function Scale(v: Vec3, s: real): Vec3 {
    Vec3(v.x * s, v.y * s, v.z * s)
  }

  /** `s * v`: scaling with the scalar on the left agrees with scaling on the right. */
  function ScaleLeft(s: real, v: Vec3): (r: Vec3)
    ensures r == Scale(v, s)
  {
    Vec3(v.x * s, v.y * s, v.z * s)
  }

  /** `a * b` for two vectors: the component-wise product used to tint colours. */
  function Mul(a: Vec3, b: Vec3): Vec3 {
    Vec3(a.x * b.x, a.y * b.y, a.z * b.z)
  }

  /** `v / s`: division by a non-zero scalar is multiplication by its reciprocal, and undoes `v * s`. */
  function Div(v: Vec3, s: real): (r: Vec3)
    requires s != 0.0
    ensures r == Scale(v, 1.0 / s)
    ensures Scale(r, s) == v
  {
    Vec3(v.x / s, v.y / s, v.z / s)
  }

  // ---------------------------------------------------------------------------
  // Dot product, length and normalisation.
  // ---------------------------------------------------------------------------

  function Dot(a: Vec3, b: Vec3): real {
    a.x * b.x + a.y * b.y + a.z * b.z
  }

  /** `r * r`, named so that facts about squares can be stated about a term of its own. */
  function Sq(r: real): real {
    r * r
  }

  /** `length`: the Euclidean norm; it is zero exactly when the squared length is. */
  function Length(v: Vec3, sqrt: real -> real): (r: real)
    requires IsSqrt(sqrt)
    ensures 0.0 <= r && r * r == Dot(v, v)
    ensures r == 0.0 <==> Dot(v, v) == 0.0
  {
    DotSelfNonNegative(v);
    SqrtOf(sqrt, Dot(v, v));
    SqrtZeroIff(sqrt, Dot(v, v));
    sqrt(Dot(v, v))
  }

  /**
   * `unit_vector`: the vector divided by its length. The source divides even
   * when the length is zero and gets NaN components; the model returns the
   * zero vector in that case.
   */
  function UnitVector(v: Vec3, sqrt: real -> real): (r: Vec3)
    requires IsSqrt(sqrt)
    ensures Dot(v, v) == 0.0 ==> r == Zero
    ensures Dot(v, v) != 0.0 ==> Scale(r, Length(v, sqrt)) == v
  {
    var len := Length(v, sqrt);
    if len == 0.0 then Zero else Div(v, len)
  }

  /** `reflect`: mirror `v` in the plane whose normal is `normal`. */
  function Reflect(v: Vec3, normal: Vec3): Vec3 {
    Sub(v, ScaleLeft(2.0 * Dot(v, normal), normal))
  }

  // ---------------------------------------------------------------------------
  // Algebraic laws.
  // ---------------------------------------------------------------------------

  /** `(a + b) - b == a`. */
  lemma SubUndoesAdd(a: Vec3, b: Vec3)
    ensures Sub(Add(a, b), b) == a
  {
  }

  lemma DotSymmetric(a: Vec3, b: Vec3)
    ensures Dot(a, b) == Dot(b, a)
  {
  }

  lemma DotSelfNonNegative(v: Vec3)
    ensures 0.0 <= Dot(v, v)
  {
  }

  /** Only the zero vector has squared length zero. */
  lemma SquaredLengthZero(v: Vec3)
    ensures Dot(v, v) == 0.0 <==> v == Zero
  {
    DotSelfIsSumOfSquares(v);
    SquareSign(v.x);
    SquareSign(v.y);
    SquareSign(v.z);
  }

  /** A square is non-negative, and positive unless its root is zero. */
  lemma SquareSign(r: real)
    ensures 0.0 <= Sq(r)
    ensures r != 0.0 ==> 0.0 < Sq(r)
  {
    if 0.0 < r {
      assert Sq(r) / r == r;
    } else if r < 0.0 {
      assert Sq(r) / r == r;
    }
  }

  /** The squared length is the sum of the squared components. */
  lemma DotSelfIsSumOfSquares(v: Vec3)
    ensures Dot(v, v) == Sq(v.x) + Sq(v.y) + Sq(v.z)
  {
  }

  /** The squared length of `a + t d`, expanded as a polynomial in `t`. */
  lemma DotSelfOfSum(w: Vec3, a: Vec3, d: Vec3, t: real)
    requires w == Add(a, Scale(d, t))
    ensures Dot(w, w) == Dot(d, d) * t * t + 2.0 * Dot(d, a) * t + Dot(a, a)
  {
    assert (a.x + d.x * t) * (a.x + d.x * t) == d.x * d.x * t * t + 2.0 * d.x * a.x * t + a.x * a.x;
    assert (a.y + d.y * t) * (a.y + d.y * t) == d.y * d.y * t * t + 2.0 * d.y * a.y * t + a.y * a.y;
    assert (a.z + d.z * t) * (a.z + d.z * t) == d.z * d.z * t * t + 2.0 * d.z * a.z * t + a.z * a.z;
  }

  /** Two points coincide exactly when their difference is zero. */
  lemma SubZero(a: Vec3, b: Vec3)
    ensures Sub(a, b) == Zero <==> a == b
  {
  }

  /** Negation keeps the squared length. */
  lemma DotNeg(v: Vec3)
    ensures Dot(Neg(v), Neg(v)) == Dot(v, v)
  {
  }

  /** The dot product is linear in its first argument. */
  lemma DotSubScaled(v: Vec3, s: real, n: Vec3, w: Vec3)
    ensures Dot(Sub(v, ScaleLeft(s, n)), w) == Dot(v, w) - s * Dot(n, w)
  {
  }

  /** A non-zero vector normalises to squared length one. */
  lemma UnitVectorHasUnitLength(v: Vec3, sqrt: real -> real)
    requires IsSqrt(sqrt)
    requires v != Zero
    ensures Dot(UnitVector(v, sqrt), UnitVector(v, sqrt)) == 1.0
  {
    SquaredLengthZero(v);
    var len := Length(v, sqrt);
    var u := UnitVector(v, sqrt);
    assert u == Vec3(v.x / len, v.y / len, v.z / len);
    assert Dot(u, u) == Dot(v, v) / (len * len);
  }

  /** A number whose square is at most one lies in `[-1, 1]`. */
  lemma SquareAtMostOne(r: real)
    requires Sq(r) <= 1.0
    ensures -1.0 <= r <= 1.0
  {
  }

  /** Every component lies in `[-1, 1]`. */
  predicate WithinUnitBox(u: Vec3) {
    -1.0 <= u.x <= 1.0 && -1.0 <= u.y <= 1.0 && -1.0 <= u.z <= 1.0
  }

  /** Every component of a normalised vector lies in `[-1, 1]`. */
  lemma UnitVectorComponentsBounded(v: Vec3, sqrt: real -> real)
    requires IsSqrt(sqrt)
    ensures WithinUnitBox(UnitVector(v, sqrt))
  {
    if Dot(v, v) != 0.0 {
      NormalisedComponentsBounded(v, sqrt);
    }
  }

  lemma NormalisedComponentsBounded(v: Vec3, sqrt: real -> real)
    requires IsSqrt(sqrt)
    requires Dot(v, v) != 0.0
    ensures WithinUnitBox(UnitVector(v, sqrt))
  {
    SquaredLengthZero(v);
    UnitVectorHasUnitLength(v, sqrt);
    UnitLengthComponentsBounded(UnitVector(v, sqrt));
  }

  /** Every component of a vector of squared length one lies in `[-1, 1]`. */
  lemma UnitLengthComponentsBounded(u: Vec3)
    requires Dot(u, u) == 1.0
    ensures WithinUnitBox(u)
  {
    DotSelfIsSumOfSquares(u);
    SquareSign(u.x);
    SquareSign(u.y);
    SquareSign(u.z);
    SquareAtMostOne(u.x);
    SquareAtMostOne(u.y);
    SquareAtMostOne(u.z);
  }

  /** Tinting distributes over a sum, and tints compose: the step that unrolls a bounce. */
  lemma MulAddRegroup(acc: Vec3, tint: Vec3, e: Vec3, att: Vec3, rest: Vec3)
    ensures Add(acc, Mul(tint, Add(e, Mul(att, rest)))) == Add(Add(acc, Mul(tint, e)), Mul(Mul(tint, att), rest))
  {
  }

  /** Reflection negates the component along a unit normal. */
  lemma ReflectNegatesNormalComponent(v: Vec3, n: Vec3)
    requires Dot(n, n) == 1.0
    ensures Dot(Reflect(v, n), n) == -Dot(v, n)
  {
    DotSubScaled(v, 2.0 * Dot(v, n), n, n);
  }

  /** A vector orthogonal to the normal is its own reflection. */
  lemma ReflectFixesOrthogonal(v: Vec3, n: Vec3)
    requires Dot(v, n) == 0.0
    ensures Reflect(v, n) == v
  {
  }

  /** Reflection about a unit normal is an involution. */
  lemma ReflectInvolution(v: Vec3, n: Vec3)
    requires Dot(n, n) == 1.0
    ensures Reflect(Reflect(v, n), n) == v
  {
    var r := Reflect(v, n);
    ReflectNegatesNormalComponent(v, n);
    var k := 2.0 * Dot(v, n);
    assert r == Vec3(v.x - k * n.x, v.y - k * n.y, v.z - k * n.z);
    assert 2.0 * Dot(r, n) == -k;
  }
}
