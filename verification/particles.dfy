/**
 * The hero section's particle field: a width-keyed particle count, particles
 * drawn with random attributes, and a per-frame update that moves each
 * particle, ages it, and recycles it in place once it leaves the viewport or
 * dies. Coordinates are reals; every `Math.random()` draw is a parameter in
 * [0, 1).
 */
module Particles {
  import opened Draws

  /** `window.innerWidth` and `window.innerHeight` at the time of a call. */
  datatype Viewport = Viewport(width: nat, height: nat)

  datatype Particle = Particle(x: real, y: real, vx: real, vy: real,
                               size: real, opacity: real, life: real, decay: real)

  /** The draws of `createParticle`, in the order it makes them. */
  datatype SpawnDraws = SpawnDraws(x: Unit, y: Unit, vx: Unit, vy: Unit, size: Unit, opacity: Unit, decay: Unit)

  /** The draws of `resetParticle`, in the order it makes them. */
  datatype ResetDraws = ResetDraws(x: Unit, y: Unit, vx: Unit, vy: Unit, opacity: Unit)

  /** `getParticleCount`: 30 below 768 pixels, 50 below 1024, 80 from there on. */
  function DensityCount(width: int): (n: nat)
    ensures n == 30 <==> width < 768
    ensures n == 50 <==> 768 <= width < 1024
    ensures n == 80 <==> 1024 <= width
  {
    if width < 768 then 30 else if width < 1024 then 50 else 80
  }

  /** A wider viewport never gets fewer particles. */
  lemma DensityMonotone(narrow: int, wide: int)
    requires narrow <= wide
    ensures DensityCount(narrow) <= DensityCount(wide)
  {
  }

  lemma DensityExamples()
    ensures DensityCount(500) == 30 && DensityCount(900) == 50 && DensityCount(1400) == 80
  {
  }

  /** A factor in [0, 1] does not enlarge a non-negative quantity. */
  lemma ScaleDown(a: real, b: real)
    requires 0.0 <= a <= 1.0 && 0.0 <= b
    ensures 0.0 <= a * b <= b
    ensures a < 1.0 && b > 0.0 ==> a * b < b
    ensures a > 0.0 && b > 0.0 ==> a * b > 0.0
  {
    assert b - a * b == (1.0 - a) * b;
  }

  /** `Math.random() * extent`: in [0, extent), or 0 when the extent is 0. */
  function Scaled(r: Unit, extent: nat): (c: real)
    ensures 0.0 <= c <= extent as real
    ensures c < extent as real || extent == 0
  {
    ScaleDown(r, extent as real);
    r * extent as real
  }

  /** `(Math.random() - 0.5) * 0.5`: in [-0.25, 0.25). */
  function Velocity(r: Unit): (v: real)
    ensures -0.25 <= v < 0.25
  {
    (r - 0.5) * 0.5
  }

  /** `Math.random() * 0.5 + 0.1`: in [0.1, 0.6). */
  function Opacity(r: Unit): (o: real)
    ensures 0.1 <= o < 0.6
  {
    r * 0.5 + 0.1
  }

  /** The particle lies in the closed viewport rectangle. */
  predicate InViewport(p: Particle, vp: Viewport) {
    0.0 <= p.x <= vp.width as real && 0.0 <= p.y <= vp.height as real
  }

  /** The ranges the draws give the attributes that never leave them. */
  predicate WellFormed(p: Particle) {
    && -0.25 <= p.vx < 0.25 && -0.25 <= p.vy < 0.25
    && 1.0 <= p.size < 4.0
    && 0.1 <= p.opacity < 0.6
    && 0.001 <= p.decay < 0.006
    && 0.0 < p.life <= 1.0
  }

  /** `createParticle`: a fresh particle at full life with every attribute in
      its range and its position inside the viewport. */
  function Spawn(vp: Viewport, d: SpawnDraws): (p: Particle)
    ensures WellFormed(p) && p.life == 1.0
    ensures InViewport(p, vp)
    ensures p.x < vp.width as real || vp.width == 0
    ensures p.y < vp.height as real || vp.height == 0
  {
    Particle(Scaled(d.x, vp.width), Scaled(d.y, vp.height), Velocity(d.vx), Velocity(d.vy),
             d.size * 3.0 + 1.0, Opacity(d.opacity), 1.0, d.decay * 0.005 + 0.001)
  }

  /** `resetParticle`: back to full life at a new position with new velocity
      and opacity; size and decay are kept. */
  function Reset(p: Particle, vp: Viewport, d: ResetDraws): (q: Particle)
    ensures q.life == 1.0 && q.size == p.size && q.decay == p.decay
    ensures InViewport(q, vp)
    ensures -0.25 <= q.vx < 0.25 && -0.25 <= q.vy < 0.25 && 0.1 <= q.opacity < 0.6
  {
    p.(x := Scaled(d.x, vp.width), y := Scaled(d.y, vp.height),
       vx := Velocity(d.vx), vy := Velocity(d.vy), life := 1.0, opacity := Opacity(d.opacity))
  }

  /** The particle after one move: position plus velocity, life minus decay. */
  function Moved(p: Particle): Particle {
    p.(x := p.x + p.vx, y := p.y + p.vy, life := p.life - p.decay)
  }

  /** The reset condition: outside [0, width] x [0, height], or life used up. */
  predicate Expired(p: Particle, vp: Viewport) {
    p.x < 0.0 || p.x > vp.width as real || p.y < 0.0 || p.y > vp.height as real || p.life <= 0.0
  }

  /** `updateParticle`: move and age the particle, and reset it exactly when
      the move takes it out of the viewport or ends its life. A particle with
      positive decay and life at most 1 comes out inside the viewport with
      life in (0, 1]. */
  function Stepped(p: Particle, vp: Viewport, d: ResetDraws): (q: Particle)
    ensures p.decay > 0.0 && p.life <= 1.0 ==> (q == Moved(p) <==> !Expired(Moved(p), vp))
    ensures p.decay > 0.0 && p.life <= 1.0 ==> InViewport(q, vp) && 0.0 < q.life <= 1.0
    ensures q == Moved(p) || q == Reset(Moved(p), vp, d)
    ensures WellFormed(p) ==> WellFormed(q)
    ensures q.size == p.size && q.decay == p.decay
  {
    var m := Moved(p);
    if Expired(m, vp) then Reset(m, vp, d) else m
  }

  /** The opacity written to the particle's element: its life times its opacity. */
  function ShownOpacity(p: Particle): (o: real)
    requires WellFormed(p)
    ensures 0.0 < o < 0.6
  {
    ScaleDown(p.life, p.opacity);
    p.life * p.opacity
  }

  class ParticleSystem {
    var particles: seq<Particle>
    var particleCount: nat
    /** Whether an animation frame is requested (`animationId` is set). */
    var frameRequested: bool

    /** Every particle keeps its attributes in range and its life in (0, 1]. */
    ghost predicate Valid()
      reads this
    {
      forall i | 0 <= i < |particles| :: WellFormed(particles[i])
    }

    /** Every particle is inside the viewport. */
    ghost predicate AllInside(vp: Viewport)
      reads this
    {
      forall i | 0 <= i < |particles| :: InViewport(particles[i], vp)
    }

    /** `new ParticleSystem(container)`: take the count from the viewport
        width, create the particles, and run the first frame. */
    constructor (vp: Viewport, spawn: seq<SpawnDraws>, tick: seq<ResetDraws>)
      requires |spawn| == DensityCount(vp.width) && |tick| == DensityCount(vp.width)
      ensures Valid() && AllInside(vp)
      ensures particleCount == DensityCount(vp.width) && |particles| == particleCount
      ensures frameRequested
      ensures forall i | 0 <= i < |particles| :: particles[i] == Stepped(Spawn(vp, spawn[i]), vp, tick[i])
    {
      particles := [];
      particleCount := DensityCount(vp.width);
      frameRequested := false;
      new;
      CreateParticles(vp, spawn);
      Animate(vp, tick);
    }

    /** `createParticles`: drop every particle and create `particleCount`
        new ones, one per set of draws. */
    method CreateParticles(vp: Viewport, draws: seq<SpawnDraws>)
      requires |draws| == particleCount
      modifies this
      ensures particleCount == old(particleCount) && frameRequested == old(frameRequested)
      ensures |particles| == particleCount
      ensures forall i | 0 <= i < |particles| :: particles[i] == Spawn(vp, draws[i])
      ensures forall i | 0 <= i < |particles| :: particles[i].life == 1.0
      ensures Valid() && AllInside(vp)
    {
      particles := [];
      var i := 0;
      while i < particleCount
        modifies this`particles
        invariant 0 <= i <= particleCount
        invariant |particles| == i
        invariant forall k | 0 <= k < i :: particles[k] == Spawn(vp, draws[k])
      {
        particles := particles + [Spawn(vp, draws[i])];
        i := i + 1;
      }
    }

    /** `resetParticle` on particle `i`. */
    method ResetParticle(i: nat, vp: Viewport, d: ResetDraws)
      requires i < |particles|
      modifies this`particles
      ensures particles == old(particles)[i := Reset(old(particles)[i], vp, d)]
    {
      particles := particles[i := Reset(particles[i], vp, d)];
    }

    /** `updateParticle` on particle `i`. */
    method UpdateParticle(i: nat, vp: Viewport, d: ResetDraws)
      requires i < |particles|
      modifies this`particles
      ensures particles == old(particles)[i := Stepped(old(particles)[i], vp, d)]
    {
      var p := particles[i];
      p := p.(x := p.x + p.vx, y := p.y + p.vy);
      p := p.(life := p.life - p.decay);
      particles := particles[i := p];
      if p.x < 0.0 || p.x > vp.width as real || p.y < 0.0 || p.y > vp.height as real || p.life <= 0.0 {
        ResetParticle(i, vp, d);
      }
    }

    /** One `animate` frame: update every particle once, in order, and
        request the next frame. The number of particles does not change, and
        afterwards every particle is inside the viewport. */
    method Animate(vp: Viewport, draws: seq<ResetDraws>)
      requires Valid() && |draws| == |particles|
      modifies this
      ensures |particles| == |old(particles)|
      ensures forall i | 0 <= i < |particles| :: particles[i] == Stepped(old(particles)[i], vp, draws[i])
      ensures Valid() && AllInside(vp)
      ensures frameRequested && particleCount == old(particleCount)
    {
      var i := 0;
      while i < |particles|
        invariant 0 <= i <= |particles| == |old(particles)|
        invariant forall k | 0 <= k < i :: particles[k] == Stepped(old(particles)[k], vp, draws[k])
        invariant forall k | i <= k < |particles| :: particles[k] == old(particles)[k]
        invariant particleCount == old(particleCount)
      {
        UpdateParticle(i, vp, draws[i]);
        i := i + 1;
      }
      frameRequested := true;
    }

    /** The debounced resize handler: rebuild the particles only when the
        count for the new width differs from the current one. */
    method Resize(vp: Viewport, draws: seq<SpawnDraws>)
      requires Valid() && |draws| == DensityCount(vp.width)
      modifies this
      ensures Valid() && frameRequested == old(frameRequested)
      ensures particleCount == DensityCount(vp.width)
      ensures old(particleCount) == DensityCount(vp.width) ==> particles == old(particles)
      ensures old(particleCount) != DensityCount(vp.width) ==>
                |particles| == particleCount
                && forall i | 0 <= i < |particles| :: particles[i] == Spawn(vp, draws[i])
    {
      var newCount := DensityCount(vp.width);
      if newCount != particleCount {
        particleCount := newCount;
        CreateParticles(vp, draws);
      }
    }

    /** `destroy`: cancel the requested frame and drop every particle; the
        count is left as it was. */
    method Destroy()
      modifies this
      ensures particles == [] && !frameRequested
      ensures particleCount == old(particleCount)
      ensures Valid()
    {
      frameRequested := false;
      particles := [];
    }
  }

  /** Any run of frames keeps every particle well formed, and after each
      frame every particle is inside that frame's viewport. */
  method RunFrames(s: ParticleSystem, vps: seq<Viewport>, draws: seq<seq<ResetDraws>>)
    requires s.Valid() && |vps| == |draws|
    requires forall t | 0 <= t < |draws| :: |draws[t]| == |s.particles|
    modifies s
    ensures s.Valid() && |s.particles| == |old(s.particles)|
    ensures |vps| > 0 ==> s.AllInside(vps[|vps| - 1])
  {
    var t := 0;
    while t < |vps|
      invariant 0 <= t <= |vps|
      invariant s.Valid() && |s.particles| == |old(s.particles)|
      invariant t > 0 ==> s.AllInside(vps[t - 1])
    {
      s.Animate(vps[t], draws[t]);
      t := t + 1;
    }
  }
}
