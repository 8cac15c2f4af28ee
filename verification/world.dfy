/**
 * The world: a shape registry and an optional light, the sorted
 * intersections of a ray with everything in it, and the mutually
 * recursive colour_at / shade_hit / reflected_colour that follow
 * reflections for a bounded number of bounces.
 *
 * Intersection of one shape, `prepare_computations` and `lighting` enter
 * as the parameters of a `Geometry` record, so the facts here hold
 * whatever the numerics do.
 */
module Worlds {
  import opened Wrappers
  import opened Tuples
  import opened Colours
  import opened Rays
  import opened Intersections
  import opened IntersectionSort
  import opened Lights
  import opened Shapes
  import opened Registries
  import Materials
  import Spheres

  /** How many reflections a primary ray may follow. */
  const MaxBounces: int := 5

  datatype World = World(registry: Registry, light: Option<Light>)

  /** The precomputed data of a hit that shading reads. */
  datatype Comps = Comps(shape: Shape, point: Tuple, overPoint: Tuple, eyev: Tuple, normalv: Tuple, reflectv: Tuple)

  /**
   * The geometry the world consults: a shape's world-space intersections,
   * `prepare_computations` (None when the hit's id resolves to nothing),
   * and Phong `lighting` of a material on an object.
   */
  datatype Geometry = Geometry(
    intersect: (Shape, Ray) -> seq<Intersection>,
    prepare: (Intersection, Ray, Registry, seq<Intersection>) -> Option<Comps>,
    lighting: (Materials.Material, Shape, Light, Tuple, Tuple, Tuple, bool) -> Colour)

  /** `World::new`: an empty registry and no light. */
  function New(): (w: World)
    ensures w.registry == Registries.New() && w.light.None?
    ensures Registries.Valid(w.registry) && Registries.IsEmpty(w.registry)
  {
    World(Registries.New(), None)
  }

  /** `add_object`: registers the shape and returns the id the registry handed out. */
  function AddObject(w: World, s: Shape): (res: (World, nat))
    requires Registries.Valid(w.registry)
    ensures res.1 == w.registry.nextId
    ensures res.0 == w.(registry := Register(w.registry, s).0)
    ensures Registries.Valid(res.0.registry) && Get(res.0.registry, res.1) == Some(SetId(s, res.1))
  {
    var (registry, id) := Register(w.registry, s);
    RegisterThenGet(w.registry, s);
    (w.(registry := registry), id)
  }

  /** Every shape's intersections, shape after shape, in the given order. */
  function Gather(geo: Geometry, shapes: seq<Shape>, ray: Ray): (xs: seq<Intersection>)
    ensures |shapes| == 0 ==> xs == []
    ensures |shapes| > 0 ==> xs == geo.intersect(shapes[0], ray) + Gather(geo, shapes[1..], ray)
  {
    if |shapes| == 0 then [] else geo.intersect(shapes[0], ray) + Gather(geo, shapes[1..], ray)
  }

  /**
   * `intersect_world`: the intersections of every registered shape, in
   * registration order, then stably sorted by t: the result is ascending,
   * holds exactly the gathered intersections, and ties keep registration
   * order.
   */
  function IntersectWorld(w: World, geo: Geometry, ray: Ray): seq<Intersection>
  {
    SortByT(Gather(geo, Iter(w.registry), ray))
  }

  /** What `intersect_world` returns: ascending, a permutation of the gathered list, stable. */
  lemma IntersectWorldSortsStably(w: World, geo: Geometry, ray: Ray)
    ensures var xs := IntersectWorld(w, geo, ray);
      var gathered := Gather(geo, Iter(w.registry), ray);
      && Sorted(xs)
      && multiset(xs) == multiset(gathered)
      && (forall t :: WithT(xs, t) == WithT(gathered, t))
  {
  }

  /** A world without shapes is missed by every ray. */
  lemma EmptyWorldMisses(geo: Geometry, ray: Ray)
    ensures IntersectWorld(New(), geo, ray) == []
  {
    assert Iter(New().registry) == [];
  }

  /** The recursion budget: a negative count of bounces is the same as none. */
  function Budget(bounces: int): nat
  {
    if bounces < 0 then 0 else bounces
  }

  /**
   * `is_shadowed`: None when there is no light (the source unwraps it);
   * otherwise true exactly when some intersection on the ray from the
   * point toward the light lies at a t in [0, distance to the light).
   */
  function IsShadowed(w: World, geo: Geometry, num: Numerics, point: Tuple): (r: Option<bool>)
    requires num.Valid()
    ensures r.None? <==> w.light.None?
    ensures r.Some? ==>
      var v := Tuples.Sub(w.light.value.position, point);
      var xs := IntersectWorld(w, geo, Ray(point, Normalise(num, v)));
      (r.value <==> exists i :: 0 <= i < |xs| && 0.0 <= xs[i].t < Magnitude(num, v))
  {
    match w.light
    case None => None
    case Some(light) =>
      var v := Tuples.Sub(light.position, point);
      var distance := Magnitude(num, v);
      var direction := Normalise(num, v);
      var xs := IntersectWorld(w, geo, Ray(point, direction));
      match Hit(xs)
      case Some(h) => Some(h.t < distance)
      case None => Some(false)
  }

  /**
   * `colour_at`: black when the ray hits nothing at t >= 0 or the hit
   * cannot be prepared, otherwise the shading of the hit. None stands for
   * the panic of shading without a light.
   */
  function ColourAt(w: World, geo: Geometry, num: Numerics, ray: Ray, bounces: int): (c: Option<Colour>)
    requires num.Valid()
    ensures var xs := IntersectWorld(w, geo, ray);
      && (forall i :: 0 <= i < |xs| ==> xs[i].t < 0.0) ==> c == Some(Black())
    ensures var xs := IntersectWorld(w, geo, ray);
      Hit(xs).Some? && geo.prepare(Hit(xs).value, ray, w.registry, xs).None? ==> c == Some(Black())
    ensures var xs := IntersectWorld(w, geo, ray);
      Hit(xs).Some? && geo.prepare(Hit(xs).value, ray, w.registry, xs).Some? ==>
        c == ShadeHit(w, geo, num, geo.prepare(Hit(xs).value, ray, w.registry, xs).value, bounces)
    decreases Budget(bounces), 2
  {
    var xs := IntersectWorld(w, geo, ray);
    match Hit(xs)
    case None => Some(Black())
    case Some(h) =>
      match geo.prepare(h, ray, w.registry, xs)
      case None => Some(Black())
      case Some(comps) => ShadeHit(w, geo, num, comps, bounces)
  }

  /**
   * `shade_hit`: the light's contribution at the point, checked for shadow at
   * the over point and lit as if on a fresh default sphere, plus the
   * reflected colour.
   */
  function ShadeHit(w: World, geo: Geometry, num: Numerics, comps: Comps, bounces: int): (c: Option<Colour>)
    requires num.Valid()
    ensures w.light.None? ==> c.None?
    ensures c.Some? ==>
      && ReflectedColour(w, geo, num, comps, bounces).Some?
      && IsShadowed(w, geo, num, comps.overPoint).Some?
      && c.value == Colours.Add(
           geo.lighting(comps.shape.data.material, Sphere(Spheres.New()), w.light.value,
                        comps.point, comps.eyev, comps.normalv, IsShadowed(w, geo, num, comps.overPoint).value),
           ReflectedColour(w, geo, num, comps, bounces).value)
    decreases Budget(bounces), 1
  {
    match IsShadowed(w, geo, num, comps.overPoint)
    case None => None
    case Some(shadowed) =>
      var surface :=
        match w.light
        case Some(light) =>
          geo.lighting(comps.shape.data.material, Sphere(Spheres.New()), light,
                       comps.point, comps.eyev, comps.normalv, shadowed)
        case None => Black();
      match ReflectedColour(w, geo, num, comps, bounces)
      case None => None
      case Some(reflected) => Some(Colours.Add(surface, reflected))
  }

  /**
   * `reflected_colour`: black once the bounces are used up or when the
   * material does not reflect; otherwise the colour seen along the
   * reflected ray with one bounce fewer, scaled by the reflectivity.
   */
  function ReflectedColour(w: World, geo: Geometry, num: Numerics, comps: Comps, bounces: int): (c: Option<Colour>)
    requires num.Valid()
    ensures bounces <= 0 ==> c == Some(Black())
    ensures comps.shape.data.material.reflective == 0.0 ==> c == Some(Black())
    ensures bounces > 0 && comps.shape.data.material.reflective != 0.0 ==>
      var seen := ColourAt(w, geo, num, Ray(comps.overPoint, comps.reflectv), bounces - 1);
      (c.None? <==> seen.None?)
      && (c.Some? ==> c.value == Colours.Scale(seen.value, comps.shape.data.material.reflective))
    decreases Budget(bounces), 0
  {
    if bounces <= 0 then Some(Black())
    else
      var reflective := comps.shape.data.material.reflective;
      if reflective == 0.0 then Some(Black())
      else
        match ColourAt(w, geo, num, Ray(comps.overPoint, comps.reflectv), bounces - 1)
        case None => None
        case Some(seen) => Some(Colours.Scale(seen, reflective))
  }

  /**
   * With a light present nothing panics: colour_at always produces a
   * colour, however many bounces remain.
   */
  lemma {:induction false} ColourAtTotal(w: World, geo: Geometry, num: Numerics, ray: Ray, bounces: int)
    requires num.Valid() && w.light.Some?
    ensures ColourAt(w, geo, num, ray, bounces).Some?
    decreases Budget(bounces), 2
  {
    var xs := IntersectWorld(w, geo, ray);
    match Hit(xs)
    case None =>
    case Some(h) =>
      match geo.prepare(h, ray, w.registry, xs)
      case None =>
      case Some(comps) => ShadeHitTotal(w, geo, num, comps, bounces);
  }

  lemma {:induction false} ShadeHitTotal(w: World, geo: Geometry, num: Numerics, comps: Comps, bounces: int)
    requires num.Valid() && w.light.Some?
    ensures ShadeHit(w, geo, num, comps, bounces).Some?
    decreases Budget(bounces), 1
  {
    ReflectedTotal(w, geo, num, comps, bounces);
  }

  lemma {:induction false} ReflectedTotal(w: World, geo: Geometry, num: Numerics, comps: Comps, bounces: int)
    requires num.Valid() && w.light.Some?
    ensures ReflectedColour(w, geo, num, comps, bounces).Some?
    decreases Budget(bounces), 0
  {
    if bounces > 0 && comps.shape.data.material.reflective != 0.0 {
      ColourAtTotal(w, geo, num, Ray(comps.overPoint, comps.reflectv), bounces - 1);
    }
  }

  /**
   * Without a light, any ray that reaches shading panics: the source's
   * no-light branch in shade_hit comes after the unwrap in is_shadowed.
   */
  lemma NoLightPanicsOnShading(w: World, geo: Geometry, num: Numerics, ray: Ray, bounces: int)
    requires num.Valid() && w.light.None?
    requires var xs := IntersectWorld(w, geo, ray);
      Hit(xs).Some? && geo.prepare(Hit(xs).value, ray, w.registry, xs).Some?
    ensures ColourAt(w, geo, num, ray, bounces).None?
  {
  }

  /** Any budget at or below zero gives the same colour: no reflection is followed. */
  lemma NoBudgetSameColour(w: World, geo: Geometry, num: Numerics, ray: Ray, b1: int, b2: int)
    requires num.Valid() && b1 <= 0 && b2 <= 0
    ensures ColourAt(w, geo, num, ray, b1) == ColourAt(w, geo, num, ray, b2)
  {
    var xs := IntersectWorld(w, geo, ray);
    if Hit(xs).Some? {
      var comps := geo.prepare(Hit(xs).value, ray, w.registry, xs);
      if comps.Some? {
        assert ReflectedColour(w, geo, num, comps.value, b1) == ReflectedColour(w, geo, num, comps.value, b2);
      }
    }
  }

  /**
   * Shading reads the hit object's material only: the object's own id and
   * transforms never matter, since lighting is handed a fresh sphere.
   */
  lemma ShadeHitReadsOnlyMaterial(w: World, geo: Geometry, num: Numerics, comps: Comps, other: Shape, bounces: int)
    requires num.Valid() && other.data.material == comps.shape.data.material
    ensures ShadeHit(w, geo, num, comps, bounces) == ShadeHit(w, geo, num, comps.(shape := other), bounces)
  {
    assert ReflectedColour(w, geo, num, comps, bounces) == ReflectedColour(w, geo, num, comps.(shape := other), bounces);
  }
}
