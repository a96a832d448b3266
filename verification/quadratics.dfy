/**
 * The quadratic `a t^2 + b t + c = 0` that the sphere test solves, and the
 * facts about its smaller root that the test relies on.
 */
module Quadratics {
  import opened Vectors

  datatype Quadratic = Quadratic(a: real, b: real, c: real)

  function Discriminant(q: Quadratic): real {
    q.b * q.b - 4.0 * q.a * q.c
  }

  predicate IsRoot(q: Quadratic, t: real) {
    q.a * t * t + q.b * t + q.c == 0.0
  }

  /**
   * The root `(-b - sqrt(delta)) / (2a)`. It is a root of the quadratic, and
   * when `a > 0` (a non-zero ray direction) no root comes before it: it is
   * the nearer meeting along the ray.
   */
  function NearRoot(q: Quadratic, sqrt: real -> real): (t: real)
    requires IsSqrt(sqrt)
    requires q.a != 0.0 && 0.0 <= Discriminant(q)
    ensures IsRoot(q, t)
    ensures 0.0 < q.a ==> forall u :: IsRoot(q, u) ==> t <= u
  {
    var s := sqrt(Discriminant(q));
    SqrtOf(sqrt, Discriminant(q));
    var t := (-q.b - s) / (2.0 * q.a);
    FormulaIsRoot(q, s, t);
    assert 0.0 < q.a ==> forall u :: IsRoot(q, u) ==> t <= u by {
      if 0.0 < q.a {
        forall u | IsRoot(q, u)
          ensures t <= u
        {
          FormulaIsLeast(q, s, t, u);
        }
      }
    }
    t
  }

  /** A root makes the discriminant the square of `2at + b`, so a root exists only when it is non-negative. */
  lemma RootNeedsDiscriminant(q: Quadratic, t: real)
    requires IsRoot(q, t)
    ensures Discriminant(q) == (2.0 * q.a * t + q.b) * (2.0 * q.a * t + q.b)
    ensures 0.0 <= Discriminant(q)
  {
    var w := 2.0 * q.a * t + q.b;
    assert Discriminant(q) == w * w by {
      assert w * w == 4.0 * q.a * (q.a * t * t + q.b * t) + q.b * q.b;
    }
  }

  /** `(-b - s) / (2a)`, with `s` a non-negative root of the discriminant, solves the quadratic. */
  lemma FormulaIsRoot(q: Quadratic, s: real, t: real)
    requires q.a != 0.0
    requires 0.0 <= s && s * s == Discriminant(q)
    requires t == (-q.b - s) / (2.0 * q.a)
    ensures IsRoot(q, t)
  {
    assert 2.0 * q.a * t == -q.b - s;
    assert 4.0 * q.a * (q.a * t * t + q.b * t + q.c) == 0.0 by {
      assert s * s == q.b * q.b - 4.0 * q.a * q.c;
    }
  }

  /** With `a > 0`, `(-b - s) / (2a)` is at or before every root. */
  lemma FormulaIsLeast(q: Quadratic, s: real, t: real, u: real)
    requires 0.0 < q.a
    requires 0.0 <= s && s * s == Discriminant(q)
    requires t == (-q.b - s) / (2.0 * q.a)
    requires IsRoot(q, u)
    ensures t <= u
  {
    RootNeedsDiscriminant(q, u);
    var w := 2.0 * q.a * u + q.b;
    assert (w - s) * (w + s) == 0.0;
    assert w == s || w == -s;
    assert 0.0 <= w + s;
    assert u - t == (w + s) / (2.0 * q.a);
  }

  /**
   * With `a > 0` and `c < 0` the roots straddle zero, so the near root is
   * negative: seen from a point inside the surface, the near meeting is
   * behind it.
   */
  lemma NearRootNegative(q: Quadratic, sqrt: real -> real)
    requires IsSqrt(sqrt)
    requires 0.0 < q.a && q.c < 0.0
    ensures 0.0 < Discriminant(q)
    ensures NearRoot(q, sqrt) < 0.0
  {
    assert 0.0 < q.a * -q.c;
    assert q.b * q.b < Discriminant(q);
    SquareSign(q.b);
    var s := sqrt(Discriminant(q));
    SqrtOf(sqrt, Discriminant(q));
    RootAboveMagnitude(s, q.b);
    assert NearRoot(q, sqrt) == (-q.b - s) / (2.0 * q.a);
  }

  /** A non-negative number whose square exceeds `b * b` exceeds `-b`. */
  lemma RootAboveMagnitude(s: real, b: real)
    requires 0.0 <= s && b * b < s * s
    ensures -b < s
  {
  }
}
