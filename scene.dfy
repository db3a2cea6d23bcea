/** The scene (script.js, module-level `fireworks` and `particles` with
    `launch`, `explode` and the two removal loops of `animate`): launches append
    a firework; each frame updates every firework from the back of the list,
    turning each arrived one into a burst of 30 sparks and splicing it out, and
    then updates every spark, the new ones included, splicing out the faded. */
module SceneLoop {
  import opened Basics
  import F = Fireworks
  import P = Particles

  /** particleCount: sparks per explosion. */
  const ParticleCount: nat := 30
  /** The five hues one explosion's sparks share one of. */
  const Hues: seq<int> := [200, 210, 220, 230, 240]

  // ---------------------------------------------------------------------------
  // Random draws

  /** The draws `launch` makes for one firework: x, targetX and targetY as
      Math.random() values, the brightness and colour draws of the constructor,
      and the distance and heading that Math.sqrt, Math.atan2, Math.cos and
      Math.sin compute from the launch-to-target vector. */
  datatype LaunchDraw = LaunchDraw(
    x: real, targetX: real, targetY: real,
    distance: real, dirX: real, dirY: real,
    brightness: real, color: real)

  /** The launch point: a random x along the bottom edge of a w-by-h viewport. */
  function LaunchX(w: real, d: LaunchDraw): real { d.x * w }
  /** The target: a random x across the viewport, a random y in its upper half. */
  function TargetX(w: real, d: LaunchDraw): real { d.targetX * w }
  function TargetY(h: real, d: LaunchDraw): real { d.targetY * (h * 0.5) }

  predicate ValidLaunch(w: real, h: real, d: LaunchDraw) {
    && IsDraw(d.x) && IsDraw(d.targetX) && IsDraw(d.targetY)
    && IsDraw(d.brightness) && IsDraw(d.color)
    && IsDistance(d.distance, TargetX(w, d) - LaunchX(w, d), TargetY(h, d) - h)
    && IsHeading(d.dirX, d.dirY, TargetX(w, d) - LaunchX(w, d), TargetY(h, d) - h, d.distance)
  }

  /** The state of the firework `launch` creates. */
  function Launched(w: real, h: real, d: LaunchDraw): F.FireworkState {
    F.Launched(LaunchX(w, d), h, d.distance, d.dirX, d.dirY)
  }

  /** The draws `explode` makes: one for the hue, and one set per spark. */
  datatype BurstDraw = BurstDraw(hue: real, sparks: seq<P.SparkDraw>)

  predicate ValidBurst(b: BurstDraw) {
    && IsDraw(b.hue)
    && |b.sparks| == ParticleCount
    && forall k :: 0 <= k < |b.sparks| ==> P.ValidDraw(b.sparks[k])
  }

  predicate ValidBursts(draws: seq<BurstDraw>) {
    forall k :: 0 <= k < |draws| ==> ValidBurst(draws[k])
  }

  /** hues[Math.floor(Math.random() * hues.length)]: always one of the five hues. */
  function HueOf(b: BurstDraw): (hue: int)
    requires IsDraw(b.hue)
    ensures hue in Hues
    ensures 200 <= hue <= 240 && hue % 10 == 0
  {
    Hues[Pick(b.hue, |Hues|)]
  }

  // ---------------------------------------------------------------------------
  // The frame on values

  /** The sparks of one explosion at (x, y). */
  function Burst(x: real, y: real, b: BurstDraw): (r: seq<P.ParticleState>)
    requires ValidBurst(b)
    ensures |r| == ParticleCount
    ensures forall k :: 0 <= k < |r| ==>
      && r[k].x == x && r[k].y == y && r[k].hue == HueOf(b) && r[k].alpha == 1.0
      && P.WellFormed(r[k])
  {
    seq(ParticleCount, k requires 0 <= k < ParticleCount => P.Spawn(x, y, HueOf(b), b.sparks[k]))
  }

  /** Which fireworks report arrival on this frame's update. */
  function Arrivals(fs: seq<F.FireworkState>): (r: seq<bool>)
    ensures |r| == |fs| && forall k :: 0 <= k < |fs| ==> r[k] == F.Arrives(fs[k])
  {
    seq(|fs|, k requires 0 <= k < |fs| => F.Arrives(fs[k]))
  }

  function AdvanceFireworks(fs: seq<F.FireworkState>): (r: seq<F.FireworkState>)
    ensures |r| == |fs| && forall k :: 0 <= k < |fs| ==> r[k] == F.Advance(fs[k])
  {
    seq(|fs|, k requires 0 <= k < |fs| => F.Advance(fs[k]))
  }

  /** Which sparks report that they have faded on this frame's update. */
  function Deaths(ps: seq<P.ParticleState>): (r: seq<bool>)
    ensures |r| == |ps| && forall k :: 0 <= k < |ps| ==> r[k] == !P.Alive(P.Advance(ps[k]))
  {
    seq(|ps|, k requires 0 <= k < |ps| => !P.Alive(P.Advance(ps[k])))
  }

  function AdvanceParticles(ps: seq<P.ParticleState>): (r: seq<P.ParticleState>)
    ensures |r| == |ps| && forall k :: 0 <= k < |ps| ==> r[k] == P.Advance(ps[k])
  {
    seq(|ps|, k requires 0 <= k < |ps| => P.Advance(ps[k]))
  }

  /** The sparks one firework's explosion adds on this frame: a burst at its
      position after the update when the update reports arrival, none otherwise. */
  function Explosion(f: F.FireworkState, b: BurstDraw): seq<P.ParticleState>
    requires ValidBurst(b)
  {
    if F.Arrives(f) then Burst(F.Advance(f).x, F.Advance(f).y, b) else []
  }

  /** The sparks the firework loop appends while it handles the fireworks from
      index `i` to the last, in the order it appends them: the loop runs from the
      last firework down, so the burst of a later firework comes first. */
  function Spawns(fs: seq<F.FireworkState>, draws: seq<BurstDraw>, i: nat): seq<P.ParticleState>
    requires i <= |fs| == |draws| && ValidBursts(draws)
    decreases |fs| - i
  {
    if i == |fs| then [] else Spawns(fs, draws, i + 1) + Explosion(fs[i], draws[i])
  }

  /** The fireworks the firework loop leaves: the updated ones that did not arrive. */
  function FireworkPassValue(fs: seq<F.FireworkState>): seq<F.FireworkState> {
    Survivors(AdvanceFireworks(fs), Arrivals(fs), 0)
  }

  /** The sparks the particle loop leaves: the updated ones still visible. */
  function SparkPass(ps: seq<P.ParticleState>): seq<P.ParticleState> {
    Survivors(AdvanceParticles(ps), Deaths(ps), 0)
  }

  datatype SceneState = SceneState(fireworks: seq<F.FireworkState>, particles: seq<P.ParticleState>)

  /** One call of `animate`, leaving out the drawing: the firework loop, then the
      particle loop over the sparks that were there plus those just spawned. */
  function Frame(sc: SceneState, draws: seq<BurstDraw>): SceneState
    requires |draws| == |sc.fireworks| && ValidBursts(draws)
  {
    SceneState(FireworkPassValue(sc.fireworks), SparkPass(sc.particles + Spawns(sc.fireworks, draws, 0)))
  }

  ghost predicate WellFormedScene(sc: SceneState) {
    && (forall k :: 0 <= k < |sc.fireworks| ==> F.WellFormed(sc.fireworks[k]))
    && (forall k :: 0 <= k < |sc.particles| ==> P.WellFormed(sc.particles[k]))
  }

  // ---------------------------------------------------------------------------
  // Properties of the frame

  /** Each arriving firework triggers exactly one explosion of exactly 30 sparks. */
  lemma {:induction false} SpawnsCount(fs: seq<F.FireworkState>, draws: seq<BurstDraw>, i: nat)
    requires i <= |fs| == |draws| && ValidBursts(draws)
    ensures |Spawns(fs, draws, i)| == ParticleCount * CountTrue(Arrivals(fs)[i..])
    decreases |fs| - i
  {
    if i < |fs| {
      SpawnsCount(fs, draws, i + 1);
      assert Arrivals(fs)[i..][1..] == Arrivals(fs)[i + 1..];
    } else {
      assert Arrivals(fs)[i..] == [];
    }
  }

  /** Every spawned spark is a well-formed, fully opaque spark at the position of
      an arrived firework, with the hue of that firework's explosion. */
  lemma {:induction false} SpawnsOrigin(fs: seq<F.FireworkState>, draws: seq<BurstDraw>, i: nat, j: nat)
    requires i <= |fs| == |draws| && ValidBursts(draws)
    requires j < |Spawns(fs, draws, i)|
    ensures var q := Spawns(fs, draws, i)[j];
      && P.WellFormed(q) && q.alpha == 1.0 && q.hue in Hues
      && exists k :: i <= k < |fs| && F.Arrives(fs[k])
                    && q.x == fs[k].x && q.y == fs[k].y && q.hue == HueOf(draws[k])
    decreases |fs| - i
  {
    assert i < |fs|;
    var rest, e := Spawns(fs, draws, i + 1), Explosion(fs[i], draws[i]);
    assert Spawns(fs, draws, i) == rest + e;
    if j < |rest| {
      assert Spawns(fs, draws, i)[j] == rest[j];
      SpawnsOrigin(fs, draws, i + 1, j);
    } else {
      assert F.Arrives(fs[i]);
      var a := F.Advance(fs[i]);
      assert e == Burst(a.x, a.y, draws[i]);
      assert Spawns(fs, draws, i)[j] == e[j - |rest|];
      assert a.x == fs[i].x && a.y == fs[i].y;
    }
  }

  /** The firework loop removes exactly the arrived fireworks, keeps the others
      in order, and leaves each survivor updated once and well-formed. */
  lemma FireworkPassKeeps(fs: seq<F.FireworkState>, f: F.FireworkState)
    requires forall k :: 0 <= k < |fs| ==> F.WellFormed(fs[k])
    ensures |FireworkPassValue(fs)| + CountTrue(Arrivals(fs)) == |fs|
    ensures f in FireworkPassValue(fs) <==>
      exists k :: 0 <= k < |fs| && !F.Arrives(fs[k]) && f == F.Advance(fs[k])
    ensures f in FireworkPassValue(fs) ==> F.WellFormed(f)
  {
    SurvivorsLength(AdvanceFireworks(fs), Arrivals(fs), 0);
    assert Arrivals(fs)[0..] == Arrivals(fs);
    SurvivorsMember(AdvanceFireworks(fs), Arrivals(fs), 0, f);
    if f in FireworkPassValue(fs) {
      var k :| 0 <= k < |fs| && !F.Arrives(fs[k]) && f == F.Advance(fs[k]);
      F.AdvanceKeepsWellFormed(fs[k]);
    }
  }

  /** Sparks spawned by this frame's explosions get their first update in this
      same frame: each one still visible after it is in the frame's result in
      its updated form. */
  lemma SpawnedSparksUpdatedThisFrame(sc: SceneState, draws: seq<BurstDraw>, j: nat)
    requires |draws| == |sc.fireworks| && ValidBursts(draws)
    requires j < |Spawns(sc.fireworks, draws, 0)|
    ensures var q := Spawns(sc.fireworks, draws, 0)[j];
      P.Alive(P.Advance(q)) <==> P.Advance(q) in Frame(sc, draws).particles
  {
    var all := sc.particles + Spawns(sc.fireworks, draws, 0);
    var q := Spawns(sc.fireworks, draws, 0)[j];
    var i := |sc.particles| + j;
    assert all[i] == q;
    SurvivorsMember(AdvanceParticles(all), Deaths(all), 0, P.Advance(q));
    SpawnsOrigin(sc.fireworks, draws, 0, j);
    if P.Advance(q) in Frame(sc, draws).particles {
      var k :| 0 <= k < |all| && AdvanceParticles(all)[k] == P.Advance(q) && !Deaths(all)[k];
    }
  }

  /** The particle loop keeps every surviving spark well-formed and never adds
      one. */
  lemma SparkPassKeeps(ps: seq<P.ParticleState>)
    requires forall k :: 0 <= k < |ps| ==> P.WellFormed(ps[k])
    ensures forall k :: 0 <= k < |SparkPass(ps)| ==> P.WellFormed(SparkPass(ps)[k])
    ensures |SparkPass(ps)| <= |ps|
  {
    var r := SparkPass(ps);
    forall k | 0 <= k < |r|
      ensures P.WellFormed(r[k])
    {
      SurvivorsMember(AdvanceParticles(ps), Deaths(ps), 0, r[k]);
      var i :| 0 <= i < |ps| && AdvanceParticles(ps)[i] == r[k] && !Deaths(ps)[i];
      P.AdvanceKeepsWellFormed(ps[i]);
    }
    SurvivorsLength(AdvanceParticles(ps), Deaths(ps), 0);
  }

  /** One frame keeps every firework and spark well-formed, and the number of
      sparks grows by at most 30 per arrived firework. */
  lemma FramePreservesWellFormed(sc: SceneState, draws: seq<BurstDraw>)
    requires |draws| == |sc.fireworks| && ValidBursts(draws)
    requires WellFormedScene(sc)
    ensures WellFormedScene(Frame(sc, draws))
    ensures |Frame(sc, draws).particles|
      <= |sc.particles| + ParticleCount * CountTrue(Arrivals(sc.fireworks))
  {
    var r := Frame(sc, draws);
    forall k | 0 <= k < |r.fireworks|
      ensures F.WellFormed(r.fireworks[k])
    {
      FireworkPassKeeps(sc.fireworks, r.fireworks[k]);
    }
    var spawned := Spawns(sc.fireworks, draws, 0);
    var all := sc.particles + spawned;
    forall k | 0 <= k < |all|
      ensures P.WellFormed(all[k])
    {
      if k >= |sc.particles| {
        SpawnsOrigin(sc.fireworks, draws, 0, k - |sc.particles|);
      }
    }
    SparkPassKeeps(all);
    SpawnsCount(sc.fireworks, draws, 0);
    assert Arrivals(sc.fireworks)[0..] == Arrivals(sc.fireworks);
  }

  // ---------------------------------------------------------------------------
  // The objects

  function FireworkStates(fs: seq<F.Firework>): (r: seq<F.FireworkState>)
    reads fs
    ensures |r| == |fs| && forall k :: 0 <= k < |fs| ==> r[k] == fs[k].State()
  {
    seq(|fs|, k requires 0 <= k < |fs| reads fs => fs[k].State())
  }

  function ParticleStates(ps: seq<P.Particle>): (r: seq<P.ParticleState>)
    reads ps
    ensures |r| == |ps| && forall k :: 0 <= k < |ps| ==> r[k] == ps[k].State()
  {
    seq(|ps|, k requires 0 <= k < |ps| reads ps => ps[k].State())
  }

  lemma FireworkStatesAppend(fs: seq<F.Firework>, f: F.Firework)
    ensures FireworkStates(fs + [f]) == FireworkStates(fs) + [f.State()]
  {
  }

  lemma ParticleStatesAppend(ps: seq<P.Particle>, p: P.Particle)
    ensures ParticleStates(ps + [p]) == ParticleStates(ps) + [p.State()]
  {
  }

  lemma {:induction false} FireworkStatesOfSurvivors(fs: seq<F.Firework>, r: seq<bool>, i: nat)
    requires i <= |fs| == |r|
    ensures FireworkStates(Survivors(fs, r, i)) == Survivors(FireworkStates(fs), r, i)
    decreases |fs| - i
  {
    if i < |fs| {
      FireworkStatesOfSurvivors(fs, r, i + 1);
      var head: seq<F.Firework> := if r[i] then [] else [fs[i]];
      assert FireworkStates(head + Survivors(fs, r, i + 1))
        == FireworkStates(head) + FireworkStates(Survivors(fs, r, i + 1));
    }
  }

  lemma {:induction false} ParticleStatesOfSurvivors(ps: seq<P.Particle>, r: seq<bool>, i: nat)
    requires i <= |ps| == |r|
    ensures ParticleStates(Survivors(ps, r, i)) == Survivors(ParticleStates(ps), r, i)
    decreases |ps| - i
  {
    if i < |ps| {
      ParticleStatesOfSurvivors(ps, r, i + 1);
      var head: seq<P.Particle> := if r[i] then [] else [ps[i]];
      assert ParticleStates(head + Survivors(ps, r, i + 1))
        == ParticleStates(head) + ParticleStates(Survivors(ps, r, i + 1));
    }
  }

  /** What the firework loop's invariant gives once every index is done. */
  lemma FireworksAfterPass(f0: seq<F.Firework>, s0: seq<F.FireworkState>, arrivals: seq<bool>)
    requires |f0| == |s0| && Distinct(f0) && arrivals == Arrivals(s0)
    requires forall k :: 0 <= k < |f0| ==> f0[k].Valid() && f0[k].State() == F.Advance(s0[k])
    ensures FireworkStates(Survivors(f0, arrivals, 0)) == FireworkPassValue(s0)
    ensures Distinct(Survivors(f0, arrivals, 0))
    ensures forall k :: 0 <= k < |Survivors(f0, arrivals, 0)| ==> Survivors(f0, arrivals, 0)[k].Valid()
  {
    FireworkStatesOfSurvivors(f0, arrivals, 0);
    assert FireworkStates(f0) == AdvanceFireworks(s0);
    SurvivorsDistinct(f0, arrivals, 0);
    var rest := Survivors(f0, arrivals, 0);
    forall k | 0 <= k < |rest|
      ensures rest[k].Valid()
    {
      SurvivorsMember(f0, arrivals, 0, rest[k]);
    }
  }

  /** What the particle loop's invariant gives once every index is done. */
  lemma ParticlesAfterPass(p0: seq<P.Particle>, ps0: seq<P.ParticleState>, deaths: seq<bool>)
    requires |p0| == |ps0| && Distinct(p0) && deaths == Deaths(ps0)
    requires forall k :: 0 <= k < |p0| ==> p0[k].Valid() && p0[k].State() == P.Advance(ps0[k])
    ensures ParticleStates(Survivors(p0, deaths, 0)) == SparkPass(ps0)
    ensures Distinct(Survivors(p0, deaths, 0))
    ensures forall k :: 0 <= k < |Survivors(p0, deaths, 0)| ==> Survivors(p0, deaths, 0)[k].Valid()
  {
    ParticleStatesOfSurvivors(p0, deaths, 0);
    assert ParticleStates(p0) == AdvanceParticles(ps0);
    SurvivorsDistinct(p0, deaths, 0);
    var rest := Survivors(p0, deaths, 0);
    forall k | 0 <= k < |rest|
      ensures rest[k].Valid()
    {
      SurvivorsMember(p0, deaths, 0, rest[k]);
    }
  }

  /** Every firework satisfies its invariant and none is listed twice. */
  ghost predicate FireworksValid(fs: seq<F.Firework>)
    reads fs
  {
    (forall k :: 0 <= k < |fs| ==> fs[k].Valid()) && Distinct(fs)
  }

  /** Every spark satisfies its invariant and none is listed twice. */
  ghost predicate ParticlesValid(ps: seq<P.Particle>)
    reads ps
  {
    (forall k :: 0 <= k < |ps| ==> ps[k].Valid()) && Distinct(ps)
  }

  /** Appending a valid firework not yet listed keeps the list valid. */
  lemma FireworksValidAppend(fs: seq<F.Firework>, f: F.Firework)
    requires FireworksValid(fs) && f.Valid() && f !in fs
    ensures FireworksValid(fs + [f])
  {
    DistinctAppend(fs, f);
  }

  /** Appending a valid spark not yet listed keeps the list valid. */
  lemma ParticlesValidAppend(ps: seq<P.Particle>, p: P.Particle)
    requires ParticlesValid(ps) && p.Valid() && p !in ps
    ensures ParticlesValid(ps + [p])
  {
    DistinctAppend(ps, p);
  }

  class Scene {
    var fireworks: seq<F.Firework>
    var particles: seq<P.Particle>

    ghost predicate Valid()
      reads this, fireworks, particles
    {
      FireworksValid(fireworks) && ParticlesValid(particles)
    }

    ghost function Value(): SceneState
      reads this, fireworks, particles
    {
      SceneState(FireworkStates(fireworks), ParticleStates(particles))
    }

    constructor ()
      ensures Valid() && fireworks == [] && particles == []
    {
      fireworks := [];
      particles := [];
    }

    /** `launch`: one new firework from the bottom edge of the w-by-h viewport
        towards a target in its upper half, appended after the others. */
    method Launch(w: real, h: real, d: LaunchDraw)
      requires Valid() && ValidLaunch(w, h, d)
      modifies this
      ensures Valid()
      ensures particles == old(particles)
      ensures |fireworks| == |old(fireworks)| + 1 && fireworks[..|old(fireworks)|] == old(fireworks)
      ensures fresh(fireworks[|old(fireworks)|])
      ensures Value() == SceneState(old(Value()).fireworks + [Launched(w, h, d)], old(Value()).particles)
      ensures fireworks[|old(fireworks)|].startY == h
      ensures fireworks[|old(fireworks)|].targetY == TargetY(h, d)
    {
      var x := LaunchX(w, d);
      var y := h;
      var targetX := TargetX(w, d);
      var targetY := TargetY(h, d);
      ghost var fs, ps := FireworkStates(fireworks), ParticleStates(particles);
      var firework := new F.Firework(x, y, targetX, targetY, d.distance, d.dirX, d.dirY, d.brightness, d.color);
      // allocating the new firework leaves every existing object as it was
      assert FireworkStates(fireworks) == fs && ParticleStates(particles) == ps;
      assert firework.State() == Launched(w, h, d);
      FireworksValidAppend(fireworks, firework);
      FireworkStatesAppend(fireworks, firework);
      fireworks := fireworks + [firework];
    }

    /** `explode`: 30 new sparks at the firework's position, all with one hue,
        appended after the existing sparks, which are left as they were. */
    method Explode(firework: F.Firework, b: BurstDraw)
      requires ParticlesValid(particles) && ValidBurst(b)
      modifies this
      ensures ParticlesValid(particles)
      ensures fireworks == old(fireworks)
      ensures |particles| == |old(particles)| + ParticleCount
      ensures particles[..|old(particles)|] == old(particles)
      ensures forall p :: p in particles ==> p in old(particles) || fresh(p)
      ensures ParticleStates(particles) == old(ParticleStates(particles)) + Burst(firework.x, firework.y, b)
    {
      ghost var ps0 := ParticleStates(particles);
      var hue := HueOf(b);
      var burst := Burst(firework.x, firework.y, b);
      for i := 0 to ParticleCount
        invariant fireworks == old(fireworks)
        invariant |particles| == |old(particles)| + i
        invariant particles[..|old(particles)|] == old(particles)
        invariant forall p :: p in particles ==> p in old(particles) || fresh(p)
        invariant ParticlesValid(particles)
        invariant ParticleStates(particles) == ps0 + burst[..i]
      {
        var particle := new P.Particle(firework.x, firework.y, hue, b.sparks[i]);
        // allocating the new spark leaves the existing ones as they were
        assert ParticlesValid(particles) && ParticleStates(particles) == ps0 + burst[..i];
        assert particle.State() == burst[i];
        ParticlesValidAppend(particles, particle);
        ParticleStatesAppend(particles, particle);
        AppendAssoc(ps0, burst[..i], [burst[i]]);
        particles := particles + [particle];
        assert burst[..i + 1] == burst[..i] + [burst[i]];
      }
      assert burst[..ParticleCount] == burst;
    }

    /** The body of the firework loop at index `i`: draw (only the read of the
        trail is modelled), update, and on arrival explode and splice the firework
        out. `f0`, `s0` and `arrivals` are the list, its states and the arrival
        flags as the loop found them; the entries after `i` are already done. */
    method FireworkStep(i: nat, b: BurstDraw,
                        ghost f0: seq<F.Firework>, ghost s0: seq<F.FireworkState>, ghost arrivals: seq<bool>)
      requires i < |f0| == |s0| && Distinct(f0) && arrivals == Arrivals(s0) && ValidBurst(b)
      requires fireworks == f0[..i + 1] + Survivors(f0, arrivals, i + 1)
      requires forall k :: 0 <= k < |f0| ==>
        f0[k].Valid() && f0[k].State() == if k <= i then s0[k] else F.Advance(s0[k])
      requires ParticlesValid(particles)
      modifies this, f0[i]
      ensures fireworks == f0[..i] + Survivors(f0, arrivals, i)
      ensures forall k :: 0 <= k < |f0| ==>
        f0[k].Valid() && f0[k].State() == if k < i then s0[k] else F.Advance(s0[k])
      ensures ParticlesValid(particles)
      ensures forall p :: p in particles ==> p in old(particles) || fresh(p)
      ensures ParticleStates(particles) == old(ParticleStates(particles)) + Explosion(s0[i], b)
    {
      RemovalStep(f0, arrivals, i);
      ghost var next := f0[..i] + Survivors(f0, arrivals, i);
      ghost var ps := ParticleStates(particles);
      var firework := fireworks[i];
      assert firework == f0[i];
      var origin := firework.DrawStart();
      var arrived := firework.Update();
      assert firework.State() == F.Advance(s0[i]);
      assert arrived == arrivals[i] == F.Arrives(s0[i]);
      assert ParticleStates(particles) == ps;
      if arrived {
        Explode(firework, b);
        fireworks := fireworks[..i] + fireworks[i + 1..];
      } else {
        assert ps + Explosion(s0[i], b) == ps;
      }
      assert fireworks == next;
    }

    /** The firework loop of `animate`: for i from the last index down to 0. */
    method FireworkPass(draws: seq<BurstDraw>)
      requires Valid() && |draws| == |fireworks| && ValidBursts(draws)
      modifies this, fireworks
      ensures Valid()
      ensures fireworks == Survivors(old(fireworks), Arrivals(old(FireworkStates(fireworks))), 0)
      ensures FireworkStates(fireworks) == FireworkPassValue(old(FireworkStates(fireworks)))
      ensures forall k :: 0 <= k < |particles| ==> particles[k] in old(particles) || fresh(particles[k])
      ensures ParticleStates(particles)
        == old(ParticleStates(particles)) + Spawns(old(FireworkStates(fireworks)), draws, 0)
    {
      ghost var f0 := fireworks;
      ghost var s0 := FireworkStates(fireworks);
      ghost var arrivals := Arrivals(s0);
      ghost var p0 := particles;
      ghost var ps0 := ParticleStates(particles);
      RemovalBounds(f0, arrivals);
      assert ps0 + [] == ps0;
      var i := |fireworks| - 1;
      while i >= 0
        invariant -1 <= i < |f0|
        invariant fireworks == f0[..i + 1] + Survivors(f0, arrivals, i + 1)
        invariant forall k :: 0 <= k < |f0| ==>
          f0[k].Valid() && f0[k].State() == if k <= i then s0[k] else F.Advance(s0[k])
        invariant ParticlesValid(particles)
        invariant forall p :: p in particles ==> p in p0 || fresh(p)
        invariant ParticleStates(particles) == ps0 + Spawns(s0, draws, i + 1)
      {
        AppendAssoc(ps0, Spawns(s0, draws, i + 1), Explosion(s0[i], draws[i]));
        FireworkStep(i, draws[i], f0, s0, arrivals);
        i := i - 1;
      }
      FireworksAfterPass(f0, s0, arrivals);
    }

    /** The body of the particle loop at index `i`: draw (not modelled), update,
        and splice the spark out when it has faded. `p0`, `ps0` and `deaths` are the
        list, its states and the fade flags as the loop found them; the entries
        after `i` are already done. */
    method ParticleStep(i: nat, ghost p0: seq<P.Particle>, ghost ps0: seq<P.ParticleState>, ghost deaths: seq<bool>)
      requires i < |p0| == |ps0| && Distinct(p0) && deaths == Deaths(ps0)
      requires particles == p0[..i + 1] + Survivors(p0, deaths, i + 1)
      requires forall k :: 0 <= k < |p0| ==>
        p0[k].Valid() && p0[k].State() == if k <= i then ps0[k] else P.Advance(ps0[k])
      modifies this, p0[i]
      ensures fireworks == old(fireworks)
      ensures particles == p0[..i] + Survivors(p0, deaths, i)
      ensures forall k :: 0 <= k < |p0| ==>
        p0[k].Valid() && p0[k].State() == if k < i then ps0[k] else P.Advance(ps0[k])
    {
      RemovalStep(p0, deaths, i);
      ghost var next := p0[..i] + Survivors(p0, deaths, i);
      var particle := particles[i];
      var alive := particle.Update();
      assert deaths[i] == !alive;
      if !alive {
        particles := particles[..i] + particles[i + 1..];
      }
      assert particles == next;
    }

    /** The particle loop of `animate`: for i from the last index down to 0. */
    method ParticlePass()
      requires ParticlesValid(particles)
      modifies this, particles
      ensures ParticlesValid(particles)
      ensures fireworks == old(fireworks) && unchanged(fireworks)
      ensures particles == Survivors(old(particles), Deaths(old(ParticleStates(particles))), 0)
      ensures ParticleStates(particles) == SparkPass(old(ParticleStates(particles)))
    {
      ghost var p0 := particles;
      ghost var ps0 := ParticleStates(particles);
      ghost var deaths := Deaths(ps0);
      RemovalBounds(p0, deaths);
      var i := |particles| - 1;
      while i >= 0
        invariant -1 <= i < |p0|
        invariant fireworks == old(fireworks)
        invariant particles == p0[..i + 1] + Survivors(p0, deaths, i + 1)
        invariant forall k :: 0 <= k < |p0| ==>
          p0[k].Valid() && p0[k].State() == if k <= i then ps0[k] else P.Advance(ps0[k])
      {
        ParticleStep(i, p0, ps0, deaths);
        i := i - 1;
      }
      ParticlesAfterPass(p0, ps0, deaths);
    }

    /** `animate` without the drawing and the frame request: the firework loop,
        then the particle loop. `draws[i]` holds the draws the explosion of the
        i-th firework would make. */
    method Animate(draws: seq<BurstDraw>)
      requires Valid() && |draws| == |fireworks| && ValidBursts(draws)
      modifies this, fireworks, particles
      ensures Valid()
      ensures Value() == Frame(old(Value()), draws)
    {
      FireworkPass(draws);
      ParticlePass();
    }
  }
}
