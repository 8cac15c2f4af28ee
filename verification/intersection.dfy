/**
 * Intersections and hit selection: the hit is the first intersection,
 * in list order, among those with the smallest non-negative t.
 */
module Intersections {
  import opened Wrappers

  /** A ray parameter t and the id of the object the ray meets there. */
  datatype Intersection = Intersection(t: real, objectId: nat)

  /** `Intersection::new`: keeps t and copies the object's id. */
  function New(t: real, objectId: nat): (i: Intersection)
    ensures i.t == t && i.objectId == objectId
  {
    Intersection(t, objectId)
  }

  /** The index `h` is the hit of `xs`: first among the smallest non-negative t. */
  ghost predicate IsHitIndex(xs: seq<Intersection>, h: nat)
  {
    && h < |xs|
    && xs[h].t >= 0.0
    && (forall i :: 0 <= i < |xs| && xs[i].t >= 0.0 ==> xs[h].t <= xs[i].t)
    && (forall i :: 0 <= i < h && xs[i].t >= 0.0 ==> xs[h].t < xs[i].t)
  }

  /**
   * The filter-then-`min_by` of the source: non-negative t only; a later
   * element replaces the current best only when strictly smaller.
   */
  function HitIndex(xs: seq<Intersection>): (r: Option<nat>)
    ensures r.None? <==> forall i :: 0 <= i < |xs| ==> xs[i].t < 0.0
    ensures r.Some? ==> IsHitIndex(xs, r.value)
  {
    if |xs| == 0 then None
    else
      var rest := HitIndex(xs[1..]);
      if xs[0].t < 0.0 then
        (if rest.None? then None else Some(rest.value + 1))
      else if rest.Some? && xs[rest.value + 1].t < xs[0].t then
        Some(rest.value + 1)
      else
        Some(0)
  }

  /** `hit`: the hit itself, or None when every t is negative. */
  function Hit(xs: seq<Intersection>): (r: Option<Intersection>)
    ensures r.None? <==> forall i :: 0 <= i < |xs| ==> xs[i].t < 0.0
    ensures r.Some? ==> r.value in xs && r.value.t >= 0.0
    ensures r.Some? ==> forall i :: 0 <= i < |xs| && xs[i].t >= 0.0 ==> r.value.t <= xs[i].t
  {
    match HitIndex(xs)
    case None => None
    case Some(h) => Some(xs[h])
  }

  /** The t of the hit does not depend on the order of the list. */
  lemma HitOrderIndependent(xs: seq<Intersection>, ys: seq<Intersection>)
    requires multiset(xs) == multiset(ys)
    ensures Hit(xs).None? <==> Hit(ys).None?
    ensures Hit(xs).Some? && Hit(ys).Some? ==> Hit(xs).value.t == Hit(ys).value.t
  {
    forall x | x in xs
      ensures x in ys
    {
      assert x in multiset(xs);
    }
    forall y | y in ys
      ensures y in xs
    {
      assert y in multiset(ys);
    }
    if Hit(xs).Some? && Hit(ys).Some? {
      var hx, hy := Hit(xs).value, Hit(ys).value;
      assert hx in ys;
      assert hy in xs;
    }
  }
}
