/**
 * The shape registry: an append-only arena that hands out sequential ids,
 * stamps each id onto the shape it stores, and remembers insertion order.
 */
module Registries {
  import opened Wrappers
  import opened Shapes

  datatype Registry = Registry(shapes: map<nat, Shape>, order: seq<nat>, nextId: nat)

  /**
   * What registration maintains: the ids handed out are exactly 0 .. nextId-1,
   * in order, each stored shape carries its own id, and the map has one
   * entry per id.
   */
  ghost predicate Valid(reg: Registry)
  {
    && |reg.order| == reg.nextId
    && (forall i :: 0 <= i < |reg.order| ==> reg.order[i] == i)
    && (forall id: nat :: id in reg.shapes <==> id < reg.nextId)
    && (forall id :: id in reg.shapes ==> Id(reg.shapes[id]) == id)
    && |reg.shapes| == reg.nextId
  }

  /** `ShapeRegistry::new`: nothing stored, next id 0. */
  function New(): (reg: Registry)
    ensures Valid(reg) && reg.nextId == 0 && |reg.shapes| == 0 && reg.order == []
  {
    Registry(map[], [], 0)
  }

  /**
   * `register`: the shape gets the next id stamped on it, is stored under
   * that id and appended to the order; the id is returned and the counter
   * moves on by one.
   */
  function Register(reg: Registry, s: Shape): (res: (Registry, nat))
    requires Valid(reg)
    ensures var (r, id) := res;
      && id == reg.nextId && r.nextId == reg.nextId + 1
      && r.shapes == reg.shapes[id := SetId(s, id)]
      && r.order == reg.order + [id]
      && Valid(r)
  {
    var id := reg.nextId;
    var r := Registry(reg.shapes[id := SetId(s, id)], reg.order + [id], id + 1);
    assert id !in reg.shapes;
    (r, id)
  }

  /** `get`: the shape stored under the id, if any. */
  function Get(reg: Registry, id: nat): (r: Option<Shape>)
    ensures r.Some? <==> id in reg.shapes
    ensures r.Some? ==> r.value == reg.shapes[id]
  {
    if id in reg.shapes then Some(reg.shapes[id]) else None
  }

  /** A registered shape can be fetched under the returned id and carries that id. */
  lemma RegisterThenGet(reg: Registry, s: Shape)
    requires Valid(reg)
    ensures var (r, id) := Register(reg, s);
      && Get(r, id).Some? && Id(Get(r, id).value) == id
      && Get(r, id).value == SetId(s, id)
      && (forall other :: other != id ==> Get(r, other) == Get(reg, other))
  {
  }

  /** An id the registry has not handed out finds nothing. */
  lemma GetUnissued(reg: Registry, id: nat)
    requires Valid(reg) && id >= reg.nextId
    ensures Get(reg, id) == None
  {
  }

  /** `get_by_index`: the shape registered i-th, if there is one. */
  function GetByIndex(reg: Registry, i: nat): (r: Option<Shape>)
    ensures Valid(reg) ==> (r.Some? <==> i < reg.nextId)
    ensures Valid(reg) && i < reg.nextId ==> r == Some(reg.shapes[i])
  {
    if i < |reg.order| && reg.order[i] in reg.shapes then Some(reg.shapes[reg.order[i]]) else None
  }

  /** `len`: the number of stored shapes, which is the number of registrations. */
  function Len(reg: Registry): (n: nat)
    ensures Valid(reg) ==> n == reg.nextId && n == |reg.order|
  {
    |reg.shapes|
  }

  /** `is_empty`: holds exactly when no shape has been registered. */
  function IsEmpty(reg: Registry): (b: bool)
    ensures b <==> Len(reg) == 0
    ensures Valid(reg) ==> (b <==> reg.nextId == 0)
  {
    |reg.shapes| == 0
  }

  /** Registration adds exactly one to the length. */
  lemma RegisterGrowsLen(reg: Registry, s: Shape)
    requires Valid(reg)
    ensures Len(Register(reg, s).0) == Len(reg) + 1
    ensures !IsEmpty(Register(reg, s).0)
  {
  }

  /** The shapes stored under `ids`, in that order, skipping ids with nothing stored. */
  function Collect(shapes: map<nat, Shape>, ids: seq<nat>): (r: seq<Shape>)
    ensures (forall k :: 0 <= k < |ids| ==> ids[k] in shapes) ==>
      |r| == |ids| && forall k :: 0 <= k < |ids| ==> r[k] == shapes[ids[k]]
  {
    if |ids| == 0 then []
    else
      var last := ids[|ids| - 1];
      Collect(shapes, ids[..|ids| - 1]) + (if last in shapes then [shapes[last]] else [])
  }

  /** `iter`: the stored shapes in registration order. */
  function Iter(reg: Registry): (r: seq<Shape>)
    ensures Valid(reg) ==> |r| == reg.nextId && forall k :: 0 <= k < |r| ==> r[k] == reg.shapes[k] && Id(r[k]) == k
  {
    Collect(reg.shapes, reg.order)
  }

  /** Two maps that agree on every id in `ids` collect the same shapes. */
  lemma {:induction false} CollectAgree(a: map<nat, Shape>, b: map<nat, Shape>, ids: seq<nat>)
    requires forall k :: 0 <= k < |ids| ==> (ids[k] in a <==> ids[k] in b)
    requires forall k :: 0 <= k < |ids| && ids[k] in a ==> a[ids[k]] == b[ids[k]]
    ensures Collect(a, ids) == Collect(b, ids)
  {
    if |ids| > 0 {
      CollectAgree(a, b, ids[..|ids| - 1]);
    }
  }

  /** Registering appends exactly the stamped shape to the iteration, leaving the rest as it was. */
  lemma RegisterExtendsIter(reg: Registry, s: Shape)
    requires Valid(reg)
    ensures Iter(Register(reg, s).0) == Iter(reg) + [SetId(s, reg.nextId)]
  {
    var (r, id) := Register(reg, s);
    assert r.order[..|r.order| - 1] == reg.order;
    CollectAgree(r.shapes, reg.shapes, reg.order);
  }

  /** Iteration yields each registered shape once: no two positions hold the same id. */
  lemma IterDistinct(reg: Registry, i: nat, j: nat)
    requires Valid(reg) && i < j < |Iter(reg)|
    ensures Id(Iter(reg)[i]) != Id(Iter(reg)[j])
  {
  }

  /**
   * `find_sphere`: some stored shape satisfying the predicate, or None when
   * there is none. The source searches a hash map in no fixed order; this
   * model searches in registration order.
   */
  function FindShape(reg: Registry, pred: Shape -> bool): (r: Option<Shape>)
    requires Valid(reg)
    ensures r.Some? ==> pred(r.value) && exists id :: id in reg.shapes && reg.shapes[id] == r.value
    ensures r.None? <==> forall id :: id in reg.shapes ==> !pred(reg.shapes[id])
  {
    var found := FirstMatch(Iter(reg), pred);
    if found.Some? then Some(Iter(reg)[found.value]) else None
  }

  /** The first position in `xs` whose element satisfies `pred`. */
  function FirstMatch(xs: seq<Shape>, pred: Shape -> bool): (r: Option<nat>)
    ensures r.Some? ==> r.value < |xs| && pred(xs[r.value]) && forall k :: 0 <= k < r.value ==> !pred(xs[k])
    ensures r.None? <==> forall k :: 0 <= k < |xs| ==> !pred(xs[k])
  {
    if |xs| == 0 then None
    else if pred(xs[0]) then Some(0)
    else
      var rest := FirstMatch(xs[1..], pred);
      if rest.Some? then Some(rest.value + 1) else None
  }
}
