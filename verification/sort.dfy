/**
 * The stable ascending sort by t that the world applies to its collected
 * intersections, as an insertion sort with its three defining facts:
 * the result is ordered, it is a permutation, and intersections with
 * equal t keep their relative order.
 */
module IntersectionSort {
  import opened Intersections

  ghost predicate Sorted(xs: seq<Intersection>)
  {
    forall i, j :: 0 <= i < j < |xs| ==> xs[i].t <= xs[j].t
  }

  /** The intersections of `xs` with parameter exactly `t`, in their order in `xs`. */
  function WithT(xs: seq<Intersection>, t: real): (r: seq<Intersection>)
    ensures |r| <= |xs|
  {
    if |xs| == 0 then []
    else (if xs[0].t == t then [xs[0]] else []) + WithT(xs[1..], t)
  }

  /** Places `x` before the first element whose t is not smaller. */
  function Insert(x: Intersection, xs: seq<Intersection>): (r: seq<Intersection>)
    requires Sorted(xs)
    ensures Sorted(r) && multiset(r) == multiset(xs) + multiset{x}
  {
    if |xs| == 0 || x.t <= xs[0].t then
      [x] + xs
    else
      var rest := Insert(x, xs[1..]);
      InsertAfterHead(x, xs, rest);
      [xs[0]] + rest
  }

  /**
   * The recursive case of `Insert`: the head stays in front of the
   * insertion into the tail, which keeps the order and the contents.
   */
  lemma InsertAfterHead(x: Intersection, xs: seq<Intersection>, rest: seq<Intersection>)
    requires Sorted(xs) && |xs| > 0 && xs[0].t < x.t
    requires Sorted(rest) && multiset(rest) == multiset(xs[1..]) + multiset{x}
    ensures Sorted([xs[0]] + rest) && multiset([xs[0]] + rest) == multiset(xs) + multiset{x}
  {
    assert xs == [xs[0]] + xs[1..];
    forall k | 0 <= k < |rest|
      ensures xs[0].t <= rest[k].t
    {
      assert rest[k] in multiset(xs[1..]) + multiset{x};
    }
  }

  /** Inserting x adds x to its own group, at the front, and leaves every other group alone. */
  lemma {:induction false} InsertGroups(x: Intersection, xs: seq<Intersection>, t: real)
    requires Sorted(xs)
    ensures WithT(Insert(x, xs), t) == (if x.t == t then [x] else []) + WithT(xs, t)
  {
    var r := Insert(x, xs);
    if |xs| == 0 || x.t <= xs[0].t {
      assert r[1..] == xs;
    } else {
      var rest := Insert(x, xs[1..]);
      assert r[1..] == rest;
      InsertGroups(x, xs[1..], t);
      assert WithT(xs, t) == (if xs[0].t == t then [xs[0]] else []) + WithT(xs[1..], t);
    }
  }

  /** `sort_by` on t: stable and ascending. */
  function SortByT(xs: seq<Intersection>): (r: seq<Intersection>)
    ensures Sorted(r)
    ensures multiset(r) == multiset(xs)
    ensures forall t :: WithT(r, t) == WithT(xs, t)
  {
    if |xs| == 0 then []
    else
      var sorted := SortByT(xs[1..]);
      var r := Insert(xs[0], sorted);
      assert xs == [xs[0]] + xs[1..];
      forall t
        ensures WithT(r, t) == WithT(xs, t)
      {
        InsertGroups(xs[0], sorted, t);
      }
      r
  }

  /** An already ordered list is left exactly as it is. */
  lemma {:induction false} SortSortedIsIdentity(xs: seq<Intersection>)
    requires Sorted(xs)
    ensures SortByT(xs) == xs
  {
    if |xs| > 0 {
      SortSortedIsIdentity(xs[1..]);
    }
  }

  /**
   * The three facts pin the result down: any ordered list with the same
   * intersections at every t is the sorted one.
   */
  lemma {:induction false} SortedWithSameGroupsEqual(a: seq<Intersection>, b: seq<Intersection>)
    requires Sorted(a) && Sorted(b)
    requires forall t :: WithT(a, t) == WithT(b, t)
    ensures a == b
    decreases |a| + |b|
  {
    if |a| == 0 || |b| == 0 {
      if |a| > 0 { GroupNonEmpty(a, a[0].t); assert false; }
      if |b| > 0 { GroupNonEmpty(b, b[0].t); assert false; }
    } else {
      var x, y := a[0], b[0];
      GroupNonEmpty(a, x.t);
      GroupNonEmpty(b, y.t);
      MinimumFirst(a, b, x.t, y.t);
      assert x.t == y.t;
      assert WithT(a, x.t)[0] == x;
      assert WithT(b, x.t)[0] == y;
      assert x == y;
      forall t
        ensures WithT(a[1..], t) == WithT(b[1..], t)
      {
        var front := if x.t == t then [x] else [];
        assert WithT(a, t) == front + WithT(a[1..], t);
        assert WithT(b, t) == front + WithT(b[1..], t);
        assert WithT(a[1..], t) == WithT(a, t)[|front|..];
        assert WithT(b[1..], t) == WithT(b, t)[|front|..];
      }
      SortedWithSameGroupsEqual(a[1..], b[1..]);
      assert a == [x] + a[1..] && b == [y] + b[1..];
    }
  }

  /** The group of a list's own first t starts with that first element. */
  lemma GroupNonEmpty(xs: seq<Intersection>, t: real)
    requires |xs| > 0 && xs[0].t == t
    ensures WithT(xs, t) == [xs[0]] + WithT(xs[1..], t)
  {
  }

  /** An element with parameter t lies in xs iff the group of t is non-empty. */
  lemma {:induction false} InGroup(xs: seq<Intersection>, t: real)
    ensures WithT(xs, t) != [] <==> exists k :: 0 <= k < |xs| && xs[k].t == t
  {
    if |xs| > 0 {
      InGroup(xs[1..], t);
      if xs[0].t != t && WithT(xs[1..], t) != [] {
        var k :| 0 <= k < |xs[1..]| && xs[1..][k].t == t;
        assert xs[k + 1].t == t;
      }
      if exists k :: 0 <= k < |xs| && xs[k].t == t {
        var k :| 0 <= k < |xs| && xs[k].t == t;
        if k > 0 { assert xs[1..][k - 1].t == t; }
      }
    }
  }

  /** Two sorted lists with the same groups start with the same t. */
  lemma MinimumFirst(a: seq<Intersection>, b: seq<Intersection>, ta: real, tb: real)
    requires Sorted(a) && Sorted(b) && |a| > 0 && |b| > 0 && a[0].t == ta && b[0].t == tb
    requires forall t :: WithT(a, t) == WithT(b, t)
    ensures ta == tb
  {
    InGroup(a, ta);
    InGroup(b, ta);
    InGroup(a, tb);
    InGroup(b, tb);
    assert WithT(a, ta) != [] && WithT(b, tb) != [];
    var i :| 0 <= i < |b| && b[i].t == ta;
    var j :| 0 <= j < |a| && a[j].t == tb;
    assert tb <= ta;
    assert ta <= tb;
  }
}
