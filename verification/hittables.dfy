/**
 * The closest-hit scan over a list of objects (src/hittable.rs). Every object
 * is asked about the whole interval; the scan keeps a record only when its
 * `t` is strictly below the best so far, so on a tie the earlier object
 * wins. The program's objects are boxed trait objects; here they are
 * spheres, the only shape it defines.
 */
module Hittables {
  import opened Options
  import opened Vectors
  import opened Rays
  import opened Materials
  import opened Spheres

  /** No object reported a hit. */
  predicate AllMiss(hits: seq<Option<HitRecord>>) {
    forall i :: 0 <= i < |hits| ==> hits[i].None?
  }

  /** `t` is at or before every reported hit. */
  predicate IsLowerBound(hits: seq<Option<HitRecord>>, t: real) {
    forall j :: 0 <= j < |hits| && hits[j].Some? ==> t <= hits[j].value.t
  }

  /** Object `i` reported the nearest hit, and every object before it reported a strictly farther one or none. */
  predicate IsFirstNearest(hits: seq<Option<HitRecord>>, i: int) {
    && 0 <= i < |hits|
    && hits[i].Some?
    && IsLowerBound(hits, hits[i].value.t)
    && forall j :: 0 <= j < i && hits[j].Some? ==> hits[i].value.t < hits[j].value.t
  }

  /**
   * The scan, as a fold over the objects' answers in list order: the
   * record kept after the last object replaces the earlier choice only when
   * strictly nearer.
   */
  function Closest(hits: seq<Option<HitRecord>>): (r: Option<HitRecord>)
    ensures r.None? <==> AllMiss(hits)
    ensures r.Some? ==> r in hits && IsLowerBound(hits, r.value.t)
    decreases |hits|
  {
    if |hits| == 0 then
      None
    else
      var prev := Closest(hits[..|hits| - 1]);
      var last := hits[|hits| - 1];
      assert hits == hits[..|hits| - 1] + [last];
      if last.Some? && (prev.None? || last.value.t < prev.value.t) then last else prev
  }

  /** Each object's answer for the ray and interval. */
  function HitsOf(world: seq<Sphere>, ray: Ray, tMin: real, tMax: Bound, sqrt: real -> real): (hits: seq<Option<HitRecord>>)
    requires IsSqrt(sqrt)
    ensures |hits| == |world|
    ensures forall i :: 0 <= i < |world| ==> hits[i] == Hit(world[i], ray, tMin, tMax, sqrt)
  {
    seq(|world|, i requires 0 <= i < |world| => Hit(world[i], ray, tMin, tMax, sqrt))
  }

  /** `hit` on a list of objects: the nearest of their answers, the earliest on a tie. */
  function HitWorld(world: seq<Sphere>, ray: Ray, tMin: real, tMax: Bound, sqrt: real -> real): (r: Option<HitRecord>)
    requires IsSqrt(sqrt)
    ensures r.Some? ==> InInterval(r.value.t, tMin, tMax)
  {
    var hits := HitsOf(world, ray, tMin, tMax, sqrt);
    var r := Closest(hits);
    assert r.Some? ==> InInterval(r.value.t, tMin, tMax) by {
      if r.Some? {
        var i :| 0 <= i < |hits| && hits[i] == r;
      }
    }
    r
  }

  /**
   * The scan as the program writes it: a loop over the objects' answers
   * that keeps the best record and its `t`, starting from no record and an
   * infinite `t`, and replaces them only on a strictly smaller `t`.
   */
  method ScanAnswers(hits: seq<Option<HitRecord>>) returns (closest: Option<HitRecord>)
    ensures closest == Closest(hits)
  {
    closest := None;
    var closestT := Unbounded;
    for i := 0 to |hits|
      invariant closest == Closest(hits[..i])
      invariant closestT == if closest.Some? then Finite(closest.value.t) else Unbounded
    {
      var hit := hits[i];
      if hit.Some? && Below(hit.value.t, closestT) {
        closestT := Finite(hit.value.t);
        closest := hit;
      }
      assert hits[..i + 1][..i] == hits[..i];
    }
    assert hits[..|hits|] == hits;
  }

  /**
   * `hit` on a list of objects. The program asks each object inside the
   * loop; asking is free of side effects, so asking all of them first and
   * then scanning the answers gives the same record.
   */
  method Scan(world: seq<Sphere>, ray: Ray, tMin: real, tMax: Bound, sqrt: real -> real)
    returns (closest: Option<HitRecord>)
    requires IsSqrt(sqrt)
    ensures closest == HitWorld(world, ray, tMin, tMax, sqrt)
  {
    var hits := HitsOf(world, ray, tMin, tMax, sqrt);
    closest := ScanAnswers(hits);
  }

  /** The record the scan keeps belongs to the first object with the nearest hit. */
  lemma {:induction false} ClosestIsFirstNearest(hits: seq<Option<HitRecord>>)
    ensures Closest(hits).Some? ==> exists i :: IsFirstNearest(hits, i) && hits[i] == Closest(hits)
    decreases |hits|
  {
    if |hits| > 0 {
      var n := |hits| - 1;
      var init := hits[..n];
      ClosestIsFirstNearest(init);
      var prev := Closest(init);
      assert hits == init + [hits[n]];
      if hits[n].Some? && (prev.None? || hits[n].value.t < prev.value.t) {
        LastIsFirstNearest(hits);
      } else if prev.Some? {
        var i :| IsFirstNearest(init, i) && init[i] == prev;
        EarlierStaysFirstNearest(hits, i);
      }
    }
  }

  /** The last answer, when strictly nearer than the scan of the others, is the first nearest. */
  lemma LastIsFirstNearest(hits: seq<Option<HitRecord>>)
    requires |hits| > 0
    requires hits[|hits| - 1].Some?
    requires Closest(hits[..|hits| - 1]).None? || hits[|hits| - 1].value.t < Closest(hits[..|hits| - 1]).value.t
    ensures IsFirstNearest(hits, |hits| - 1)
  {
    var n := |hits| - 1;
    var init := hits[..n];
    forall j | 0 <= j < n && hits[j].Some?
      ensures hits[n].value.t < hits[j].value.t
    {
      assert init[j] == hits[j];
    }
  }

  /** The first nearest among the others stays first nearest unless the last answer is strictly nearer. */
  lemma EarlierStaysFirstNearest(hits: seq<Option<HitRecord>>, i: int)
    requires |hits| > 0
    requires IsFirstNearest(hits[..|hits| - 1], i)
    requires hits[|hits| - 1].None? || hits[i].value.t <= hits[|hits| - 1].value.t
    ensures IsFirstNearest(hits, i)
  {
    var n := |hits| - 1;
    var init := hits[..n];
    assert init[i] == hits[i];
    forall j | 0 <= j < |hits| && hits[j].Some?
      ensures hits[i].value.t <= hits[j].value.t
    {
      if j < n {
        assert init[j] == hits[j];
      }
    }
    forall j | 0 <= j < i && hits[j].Some?
      ensures hits[i].value.t < hits[j].value.t
    {
      assert init[j] == hits[j];
    }
  }

  /** At most one object is the first with the nearest hit. */
  lemma FirstNearestIsUnique(hits: seq<Option<HitRecord>>, i: int, j: int)
    requires IsFirstNearest(hits, i) && IsFirstNearest(hits, j)
    ensures i == j
  {
  }

  /** The scan is characterised by the first-nearest property: whichever object has it is the one reported. */
  lemma FirstNearestIsClosest(hits: seq<Option<HitRecord>>, i: int)
    requires IsFirstNearest(hits, i)
    ensures Closest(hits) == hits[i]
  {
    ClosestIsFirstNearest(hits);
    var k :| IsFirstNearest(hits, k) && hits[k] == Closest(hits);
    FirstNearestIsUnique(hits, i, k);
  }

  /** If every answer lies in an interval, so does the scan's. */
  lemma ClosestInInterval(hits: seq<Option<HitRecord>>, tMin: real, tMax: Bound)
    requires forall i :: 0 <= i < |hits| && hits[i].Some? ==> InInterval(hits[i].value.t, tMin, tMax)
    ensures Closest(hits).Some? ==> InInterval(Closest(hits).value.t, tMin, tMax)
  {
  }

  /**
   * Reordering the answers (more generally, keeping the same answers in any
   * order and multiplicity) keeps whether there is a hit and its `t`; only
   * which record wins a tie may change.
   */
  lemma ClosestIgnoresOrder(hits1: seq<Option<HitRecord>>, hits2: seq<Option<HitRecord>>)
    requires forall h :: h in hits1 <==> h in hits2
    ensures Closest(hits1).None? <==> Closest(hits2).None?
    ensures Closest(hits1).Some? ==> Closest(hits1).value.t == Closest(hits2).value.t
  {
    var r1, r2 := Closest(hits1), Closest(hits2);
    if r1.Some? && r2.Some? {
      assert r1 in hits2 && r2 in hits1;
    }
  }

  /**
   * On a list of objects: a reported record is one object's own answer,
   * unmodified; that object's hit is at or before every other object's, and
   * every earlier object missed or hit strictly farther away.
   */
  lemma HitWorldIsFirstNearest(world: seq<Sphere>, ray: Ray, tMin: real, tMax: Bound, sqrt: real -> real)
    requires IsSqrt(sqrt)
    ensures HitWorld(world, ray, tMin, tMax, sqrt).Some? ==>
      exists i :: 0 <= i < |world|
        && HitWorld(world, ray, tMin, tMax, sqrt) == Hit(world[i], ray, tMin, tMax, sqrt)
        && IsFirstNearest(HitsOf(world, ray, tMin, tMax, sqrt), i)
  {
    ClosestIsFirstNearest(HitsOf(world, ray, tMin, tMax, sqrt));
  }

  /** The list reports no hit exactly when every object reports none. */
  lemma HitWorldMissesIffAllMiss(world: seq<Sphere>, ray: Ray, tMin: real, tMax: Bound, sqrt: real -> real)
    requires IsSqrt(sqrt)
    ensures HitWorld(world, ray, tMin, tMax, sqrt).None? <==> forall i :: 0 <= i < |world| ==> Hit(world[i], ray, tMin, tMax, sqrt).None?
  {
    var hits := HitsOf(world, ray, tMin, tMax, sqrt);
    assert AllMiss(hits) <==> forall i :: 0 <= i < |world| ==> Hit(world[i], ray, tMin, tMax, sqrt).None?;
  }

  /** Permuting the objects keeps whether the ray hits and at which `t`. */
  lemma HitWorldIgnoresOrder(world1: seq<Sphere>, world2: seq<Sphere>, ray: Ray, tMin: real, tMax: Bound, sqrt: real -> real)
    requires IsSqrt(sqrt)
    requires multiset(world1) == multiset(world2)
    ensures HitWorld(world1, ray, tMin, tMax, sqrt).None? <==> HitWorld(world2, ray, tMin, tMax, sqrt).None?
    ensures HitWorld(world1, ray, tMin, tMax, sqrt).Some? ==>
      HitWorld(world1, ray, tMin, tMax, sqrt).value.t == HitWorld(world2, ray, tMin, tMax, sqrt).value.t
  {
    var hits1 := HitsOf(world1, ray, tMin, tMax, sqrt);
    var hits2 := HitsOf(world2, ray, tMin, tMax, sqrt);
    SameObjectsSameAnswers(world1, world2, ray, tMin, tMax, sqrt);
    SameObjectsSameAnswers(world2, world1, ray, tMin, tMax, sqrt);
    ClosestIgnoresOrder(hits1, hits2);
  }

  /** Every answer given for one list is given for a permutation of it. */
  lemma SameObjectsSameAnswers(world1: seq<Sphere>, world2: seq<Sphere>, ray: Ray, tMin: real, tMax: Bound, sqrt: real -> real)
    requires IsSqrt(sqrt)
    requires multiset(world1) == multiset(world2)
    ensures forall h :: h in HitsOf(world1, ray, tMin, tMax, sqrt) ==> h in HitsOf(world2, ray, tMin, tMax, sqrt)
  {
    var hits1 := HitsOf(world1, ray, tMin, tMax, sqrt);
    var hits2 := HitsOf(world2, ray, tMin, tMax, sqrt);
    forall h | h in hits1
      ensures h in hits2
    {
      var i :| 0 <= i < |hits1| && hits1[i] == h;
      assert world1[i] in multiset(world2);
      var j :| 0 <= j < |world2| && world2[j] == world1[i];
      assert hits2[j] == h;
    }
  }
}
