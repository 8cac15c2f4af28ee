/**
 * The projectile simulation of the first chapter: an environment of
 * gravity and wind, and projectiles that each tick first take on the
 * forces into their velocity and then move by the new velocity.
 */
module Simulations {
  import opened Tuples

  /** `Environment::new`: the two forces, both vectors in use. */
  datatype Environment = Environment(gravity: Tuple, wind: Tuple)

  /** `Projectile::new`: a position and a velocity. */
  datatype Projectile = Projectile(pos: Tuple, vel: Tuple)

  /** `Simulation::new`: the environment and the projectiles, in order. */
  datatype Simulation = Simulation(environment: Environment, projectiles: seq<Projectile>)

  /** One projectile's update in `tick`: velocity first, then position by the new velocity. */
  function Step(env: Environment, p: Projectile): Projectile
  {
    var vel := Add(Add(p.vel, env.gravity), env.wind);
    Projectile(Add(p.pos, vel), vel)
  }

  /**
   * `tick`: every projectile takes one step, in place; their number and
   * order and the environment stay.
   */
  method Tick(s: Simulation) returns (r: Simulation)
    ensures r.environment == s.environment
    ensures |r.projectiles| == |s.projectiles|
    ensures forall i :: 0 <= i < |s.projectiles| ==> r.projectiles[i] == Step(s.environment, s.projectiles[i])
  {
    var ps := s.projectiles;
    var i := 0;
    while i < |ps|
      invariant 0 <= i <= |ps| && |ps| == |s.projectiles|
      invariant forall j :: 0 <= j < i ==> ps[j] == Step(s.environment, s.projectiles[j])
      invariant forall j :: i <= j < |ps| ==> ps[j] == s.projectiles[j]
    {
      ps := ps[i := Step(s.environment, ps[i])];
      i := i + 1;
    }
    r := Simulation(s.environment, ps);
  }

  /** A projectile whose position is a point and whose velocity and forces are vectors keeps these kinds. */
  lemma StepKeepsKinds(env: Environment, p: Projectile)
    requires IsPoint(p.pos) && IsVector(p.vel) && IsVector(env.gravity) && IsVector(env.wind)
    ensures IsPoint(Step(env, p).pos) && IsVector(Step(env, p).vel)
  {
  }

  /** n steps of one projectile. */
  function Fly(env: Environment, p: Projectile, n: nat): Projectile
  {
    if n == 0 then p else Step(env, Fly(env, p, n - 1))
  }

  /** The n-th triangular number 1 + 2 + ... + n. */
  function Triangle(n: nat): real
  {
    if n == 0 then 0.0 else Triangle(n - 1) + n as real
  }

  /** The triangular number is n (n + 1) / 2. */
  lemma {:induction false} TriangleClosedForm(n: nat)
    ensures Triangle(n) == (n as real) * (n as real + 1.0) / 2.0
  {
    if n > 0 {
      TriangleClosedForm(n - 1);
    }
  }

  /** One component of the closed form, advanced by one step. */
  lemma ComponentStep(p: real, v: real, a: real, n: nat)
    requires n > 0
    ensures (p + v * ((n - 1) as real) + a * Triangle(n - 1)) + (v + a * (n as real))
         == p + v * (n as real) + a * Triangle(n)
  {
    assert v * ((n - 1) as real) + v == v * (n as real);
    assert a * Triangle(n - 1) + a * (n as real) == a * Triangle(n);
  }

  /** The velocity after n ticks is v + n a, with a = gravity + wind. */
  lemma {:induction false} FlyVelocity(env: Environment, p: Projectile, n: nat)
    ensures Fly(env, p, n).vel == Add(p.vel, Scale(Add(env.gravity, env.wind), n as real))
  {
    if n > 0 {
      FlyVelocity(env, p, n - 1);
      var a := Add(env.gravity, env.wind);
      var v := Fly(env, p, n - 1).vel;
      assert Fly(env, p, n).vel == Add(v, a);
      VelocityStep(v, p.vel, a, n);
    }
  }

  /** One tick of the velocity closed form: adding a advances n - 1 multiples of a to n. */
  lemma VelocityStep(v: Tuple, v0: Tuple, a: Tuple, n: nat)
    requires n > 0 && v == Add(v0, Scale(a, (n - 1) as real))
    ensures Add(v, a) == Add(v0, Scale(a, n as real))
  {
    var m := (n - 1) as real;
    assert m + 1.0 == n as real;
    assert a.x * m + a.x == a.x * (n as real) && a.y * m + a.y == a.y * (n as real);
    assert a.z * m + a.z == a.z * (n as real) && a.w * m + a.w == a.w * (n as real);
  }

  /**
   * The update is a semi-implicit Euler step under the constant
   * acceleration a = gravity + wind: after n ticks the position is
   * p + n v + (1 + 2 + ... + n) a.
   */
  lemma {:induction false} FlyPosition(env: Environment, p: Projectile, n: nat)
    ensures var a := Add(env.gravity, env.wind);
      Fly(env, p, n).pos == Add(Add(p.pos, Scale(p.vel, n as real)), Scale(a, Triangle(n)))
  {
    if n > 0 {
      FlyPosition(env, p, n - 1);
      FlyVelocity(env, p, n);
      var a := Add(env.gravity, env.wind);
      PositionStep(Fly(env, p, n - 1).pos, Fly(env, p, n).vel, Fly(env, p, n).pos, p.pos, p.vel, a, n);
    }
  }

  /** One tick of the position closed form: adding the new velocity advances n - 1 to n. */
  lemma PositionStep(q: Tuple, u: Tuple, r: Tuple, p: Tuple, v: Tuple, a: Tuple, n: nat)
    requires n > 0
    requires q == Add(Add(p, Scale(v, (n - 1) as real)), Scale(a, Triangle(n - 1)))
    requires u == Add(v, Scale(a, n as real)) && r == Add(q, u)
    ensures r == Add(Add(p, Scale(v, n as real)), Scale(a, Triangle(n)))
  {
    ComponentStep(p.x, v.x, a.x, n);
    ComponentStep(p.y, v.y, a.y, n);
    ComponentStep(p.z, v.z, a.z, n);
    ComponentStep(p.w, v.w, a.w, n);
    Kinematic(r, p, v, a, n as real, Triangle(n));
  }

  /** A tuple whose every component is p + k v + t a is that combination. */
  lemma Kinematic(r: Tuple, p: Tuple, v: Tuple, a: Tuple, k: real, t: real)
    requires r.x == p.x + v.x * k + a.x * t && r.y == p.y + v.y * k + a.y * t
    requires r.z == p.z + v.z * k + a.z * t && r.w == p.w + v.w * k + a.w * t
    ensures r == Add(Add(p, Scale(v, k)), Scale(a, t))
  {
  }

  /** With no net force a projectile keeps its velocity and moves by it each tick. */
  lemma ForceFreeFlight(env: Environment, p: Projectile, n: nat)
    requires env.gravity.x + env.wind.x == 0.0 && env.gravity.y + env.wind.y == 0.0
    requires env.gravity.z + env.wind.z == 0.0 && env.gravity.w + env.wind.w == 0.0
    ensures Fly(env, p, n).vel == p.vel
    ensures Fly(env, p, n).pos == Add(p.pos, Scale(p.vel, n as real))
  {
    FlyVelocity(env, p, n);
    FlyPosition(env, p, n);
  }

  /**
   * The worked example: gravity (0, -0.1, 0) and wind (-0.01, 0, 0) take the
   * point (0, 1, 0) with velocity (1, 1, 0) to the point (0.99, 1.9, 0).
   */
  lemma TickExample()
    ensures var p := Step(Environment(Vector(0.0, -0.1, 0.0), Vector(-0.01, 0.0, 0.0)),
                          Projectile(Point(0.0, 1.0, 0.0), Vector(1.0, 1.0, 0.0)));
      && p.pos.x == 0.99 && p.pos.y == 1.9 && p.pos.z == 0.0 && IsPoint(p.pos)
      && p.vel.x == 0.99 && p.vel.y == 0.9 && p.vel.z == 0.0 && IsVector(p.vel)
  {
    var v := Add(Add(Vector(1.0, 1.0, 0.0), Vector(0.0, -0.1, 0.0)), Vector(-0.01, 0.0, 0.0));
    assert v.x == 0.99 && v.y == 0.9 && v.z == 0.0 && v.w == 0.0;
    var q := Add(Point(0.0, 1.0, 0.0), v);
    assert q.x == 0.99 && q.y == 1.9 && q.z == 0.0 && q.w == 1.0;
  }
}
