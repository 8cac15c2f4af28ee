/**
 * The projectile scene shown in the browser: each frame clears the
 * canvas, advances the simulation by one tick (or restarts it after the
 * last tick), draws the first projectile as a 5 x 5 red block and
 * refreshes the RGBA bytes.
 */
module Scenes {
  import opened Wrappers
  import opened Tuples
  import Colours
  import opened Cameras
  import opened Framebuffers
  import opened Simulations

  /** Ticks before the simulation restarts. */
  const MaxTicks: nat := 100

  /** The side of the square drawn for the projectile. */
  const DotSize: nat := 5

  datatype Scene = Scene(fb: Framebuffer, time: real, simulation: Simulation, tickCount: nat, maxTicks: nat)

  function Red(): Colours.Colour
  {
    Colours.Colour(1.0, 0.0, 0.0)
  }

  /**
   * `reset_simulation`: gravity (0, -0.25, 0) and wind (-0.15, 0, 0); a
   * single projectile launched from a tenth of the width and a fifth of the
   * height with velocity (0.02 width, 0.025 height, 0); the tick count
   * back at 0. The pixels stay.
   */
  function ResetSimulation(s: Scene): (r: Scene)
    ensures r.fb == s.fb && r.time == s.time && r.maxTicks == s.maxTicks && r.tickCount == 0
    ensures var env := r.simulation.environment;
      && IsVector(env.gravity) && env.gravity.x == 0.0 && env.gravity.y == -0.25 && env.gravity.z == 0.0
      && IsVector(env.wind) && env.wind.x == -0.15 && env.wind.y == 0.0 && env.wind.z == 0.0
    ensures |r.simulation.projectiles| == 1
    ensures var w, h := s.fb.canvas.width as real, s.fb.canvas.height as real;
      var p := r.simulation.projectiles[0];
      && IsPoint(p.pos) && p.pos.x == w * 0.1 && p.pos.y == h * 0.2 && p.pos.z == 0.0
      && IsVector(p.vel) && p.vel.x == w * 0.02 && p.vel.y == h * 0.025 && p.vel.z == 0.0
  {
    var w, h := s.fb.canvas.width as real, s.fb.canvas.height as real;
    var env := Environment(Vector(0.0, -0.25, 0.0), Vector(-0.15, 0.0, 0.0));
    var p := Projectile(Point(w * 0.1, h * 0.2, 0.0), Vector(w * 0.02, h * 0.025, 0.0));
    s.(simulation := Simulation(env, [p]), tickCount := 0)
  }

  /**
   * `Scene::new`: a black width x height framebuffer with zero bytes, time
   * 0, at most 100 ticks per run, and a freshly reset simulation.
   */
  function New(width: nat, height: nat): (s: Scene)
    ensures s.fb == Framebuffers.New(width, height) && s.time == 0.0
    ensures s.maxTicks == MaxTicks && s.tickCount == 0
    ensures s.simulation == ResetSimulation(s).simulation
  {
    var empty := Simulation(Environment(Vector(0.0, 0.0, 0.0), Vector(0.0, 0.0, 0.0)), []);
    ResetSimulation(Scene(Framebuffers.New(width, height), 0.0, empty, 0, MaxTicks))
  }

  /** The pixel (px, py) lies in the block whose top-left corner is (x0, y0). */
  predicate InDot(x0: nat, y0: nat, px: nat, py: nat)
  {
    x0 <= px < x0 + DotSize && y0 <= py < y0 + DotSize
  }

  /**
   * Where the block is drawn, if at all: only when there is a projectile
   * and the first one is inside the viewport; its column is the truncated
   * x, its row the truncated height - y (screen rows grow downwards).
   */
  function DotCorner(sim: Simulation, width: nat, height: nat): (r: Option<(nat, nat)>)
    ensures r.Some? <==> (|sim.projectiles| > 0
      && 0.0 <= sim.projectiles[0].pos.x < width as real && 0.0 <= sim.projectiles[0].pos.y < height as real)
    ensures r.Some? ==> var p := sim.projectiles[0].pos;
      && (r.value.0 as real) <= p.x < (r.value.0 as real) + 1.0 && r.value.0 < width
      && (r.value.1 as real) <= height as real - p.y < (r.value.1 as real) + 1.0 && r.value.1 <= height
  {
    if |sim.projectiles| == 0 then None
    else
      var p := sim.projectiles[0].pos;
      if 0.0 <= p.x < width as real && 0.0 <= p.y < height as real then
        var x := p.x.Floor;
        var y := (height as real - p.y).Floor;
        Some((x as nat, y as nat))
      else None
  }

  /** Pixel (px, py) is red after the frame: it is in the block, which is drawn. */
  predicate DotCovers(sim: Simulation, width: nat, height: nat, px: nat, py: nat)
  {
    var c := DotCorner(sim, width, height);
    c.Some? && InDot(c.value.0, c.value.1, px, py)
  }

  /** The pixels of the block already drawn after `dy` full rows and `dx` more in row dy. */
  predicate Painted(x0: nat, y0: nat, dy: nat, dx: nat, px: nat, py: nat)
  {
    x0 <= px < x0 + DotSize && y0 <= py
      && (py < y0 + dy || (py == y0 + dy && px < x0 + dx))
  }

  /** The black canvas of the frame's first step; the bytes are left as they were. */
  function Clear(fb: Framebuffer): (r: Framebuffer)
    requires fb.Valid()
    ensures r.Valid() && r.canvas.width == fb.canvas.width && r.canvas.height == fb.canvas.height
    ensures r.buffer == fb.buffer
    ensures forall x: nat, y: nat :: PixelAt(r.canvas, x, y) == Colours.Black()
  {
    fb.(canvas := fb.canvas.(pixels := seq(|fb.canvas.pixels|, _ => Colours.Black())))
  }

  /**
   * The nested loops of `render` that draw the block from (x0, y0): every
   * in-range pixel of the 5 x 5 block becomes red, the rest stay.
   */
  method DrawDot(fb: Framebuffer, x0: nat, y0: nat) returns (r: Framebuffer)
    requires fb.Valid()
    ensures r.Valid() && r.canvas.width == fb.canvas.width && r.canvas.height == fb.canvas.height
    ensures forall px: nat, py: nat :: px < fb.canvas.width && py < fb.canvas.height ==>
      PixelAt(r.canvas, px, py) == if InDot(x0, y0, px, py) then Red() else PixelAt(fb.canvas, px, py)
  {
    var width, height := fb.canvas.width, fb.canvas.height;
    r := fb;
    var dy: nat := 0;
    while dy < DotSize
      invariant dy <= DotSize
      invariant r.Valid() && r.canvas.width == width && r.canvas.height == height
      invariant forall px: nat, py: nat :: px < width && py < height ==>
        PixelAt(r.canvas, px, py) == if Painted(x0, y0, dy, 0, px, py) then Red() else PixelAt(fb.canvas, px, py)
    {
      var dx: nat := 0;
      while dx < DotSize
        invariant dx <= DotSize
        invariant r.Valid() && r.canvas.width == width && r.canvas.height == height
        invariant forall px: nat, py: nat :: px < width && py < height ==>
          PixelAt(r.canvas, px, py) == if Painted(x0, y0, dy, dx, px, py) then Red() else PixelAt(fb.canvas, px, py)
      {
        var px, py := x0 + dx, y0 + dy;
        if px < width && py < height {
          r := Framebuffers.WritePixel(r, px, py, Red());
        }
        dx := dx + 1;
      }
      dy := dy + 1;
    }
  }

  /**
   * `render`: the time advances by dt; the canvas is cleared; the
   * simulation ticks while fewer than `maxTicks` ticks have run and is
   * reset otherwise; the block is drawn at the first projectile; finally
   * the bytes are refreshed. Afterwards every pixel is red exactly when
   * the block covers it, the bytes encode the pixels, and the tick count
   * never exceeds `maxTicks`.
   */
  method Render(s: Scene, dt: real) returns (r: Scene)
    requires s.fb.Valid()
    ensures r.fb.Valid() && r.fb.Synced()
    ensures r.fb.canvas.width == s.fb.canvas.width && r.fb.canvas.height == s.fb.canvas.height
    ensures r.time == s.time + dt && r.maxTicks == s.maxTicks && r.tickCount <= r.maxTicks
    ensures s.tickCount < s.maxTicks ==>
      && r.tickCount == s.tickCount + 1
      && r.simulation.environment == s.simulation.environment
      && |r.simulation.projectiles| == |s.simulation.projectiles|
      && forall i :: 0 <= i < |s.simulation.projectiles| ==>
           r.simulation.projectiles[i] == Step(s.simulation.environment, s.simulation.projectiles[i])
    ensures s.tickCount >= s.maxTicks ==> r.tickCount == 0 && r.simulation == ResetSimulation(s).simulation
    ensures forall px: nat, py: nat :: px < s.fb.canvas.width && py < s.fb.canvas.height ==>
      PixelAt(r.fb.canvas, px, py)
        == if DotCovers(r.simulation, s.fb.canvas.width, s.fb.canvas.height, px, py) then Red() else Colours.Black()
  {
    var width, height := s.fb.canvas.width, s.fb.canvas.height;
    var fb := Clear(s.fb);
    var sim: Simulation;
    var tickCount: nat;
    if s.tickCount < s.maxTicks {
      sim := Tick(s.simulation);
      tickCount := s.tickCount + 1;
    } else {
      var reset := ResetSimulation(s);
      sim, tickCount := reset.simulation, reset.tickCount;
    }
    var corner := DotCorner(sim, width, height);
    if corner.Some? {
      fb := DrawDot(fb, corner.value.0, corner.value.1);
    }
    fb := UpdateBufferFromColours(fb);
    r := Scene(fb, s.time + dt, sim, tickCount, s.maxTicks);
  }

  /**
   * The launch point lies inside any non-empty viewport, so the frame
   * that restarts the simulation draws the block at column 0.1 width and
   * row 0.8 height, both truncated.
   */
  lemma LaunchVisible(s: Scene)
    requires s.fb.canvas.width > 0 && s.fb.canvas.height > 0
    ensures var w, h := s.fb.canvas.width, s.fb.canvas.height;
      var c := DotCorner(ResetSimulation(s).simulation, w, h);
      && c.Some?
      && (c.value.0 as real) <= w as real * 0.1 < (c.value.0 as real) + 1.0
      && (c.value.1 as real) <= h as real * 0.8 < (c.value.1 as real) + 1.0
  {
  }

  /**
   * A projectile exactly on the ground (y = 0) passes the viewport check,
   * but its block starts at row `height`, below the last row, so nothing
   * of it is visible.
   */
  lemma GroundLevelInvisible(sim: Simulation, width: nat, height: nat, px: nat, py: nat)
    requires |sim.projectiles| > 0 && sim.projectiles[0].pos.y == 0.0
    requires 0.0 <= sim.projectiles[0].pos.x < width as real && height > 0
    requires py < height
    ensures DotCorner(sim, width, height).Some?
    ensures !DotCovers(sim, width, height, px, py)
  {
  }
}
