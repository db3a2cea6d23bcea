/** The explosion spark (script.js, class Particle): it starts with a trail of
    five copies of its origin, flies off in a random direction under friction
    and gravity, and fades by a fixed random amount per frame until its alpha is
    no longer positive. */
module Particles {
  import opened Basics

  /** coordinateCount: the trail always holds this many points. */
  const TrailLength: nat := 5
  const Friction: real := 0.95
  const Gravity: real := 1.0
  /** decay is drawn from [MinDecay, MaxDecay). */
  const MinDecay: real := 0.005
  const MaxDecay: real := 0.02
  /** No spark outlives this many updates (SparkBurnsOut). */
  const MaxLifetime: nat := 200

  /** The random draws the constructor makes: the heading (cos, sin) of the
      angle 2 * PI * Math.random(), and three plain Math.random() draws for the
      speed, the brightness and the decay. */
  datatype SparkDraw = SparkDraw(dirX: real, dirY: real, speed: real, brightness: real, decay: real)

  predicate ValidDraw(d: SparkDraw) {
    && Sq(d.dirX) + Sq(d.dirY) == 1.0
    && IsDraw(d.speed) && IsDraw(d.brightness) && IsDraw(d.decay)
  }

  /** The fields of a particle that `update` reads or writes. */
  datatype ParticleState = ParticleState(
    x: real, y: real,
    dirX: real, dirY: real,
    speed: real, friction: real, gravity: real,
    hue: int,
    alpha: real, decay: real,
    trail: seq<Point>)

  /** `n` copies of `p`. */
  function Repeat(p: Point, n: nat): seq<Point> {
    seq(n, _ => p)
  }

  /** The state of a particle just constructed at (x, y) with hue `hue`. */
  function Spawn(x: real, y: real, hue: int, d: SparkDraw): (r: ParticleState)
    requires ValidDraw(d)
    ensures |r.trail| == TrailLength && forall k :: 0 <= k < |r.trail| ==> r.trail[k] == Point(x, y)
    ensures r.x == x && r.y == y && r.hue == hue && r.alpha == 1.0
    ensures MinDecay <= r.decay < MaxDecay
    ensures 5.0 <= r.speed < 15.0
  {
    ParticleState(x, y, d.dirX, d.dirY, d.speed * 10.0 + 5.0, Friction, Gravity, hue,
                  1.0, d.decay * 0.015 + 0.005, Repeat(Point(x, y), TrailLength))
  }

  /** What every particle satisfies between calls of `update`. */
  ghost predicate WellFormed(p: ParticleState) {
    && |p.trail| == TrailLength
    && p.friction == Friction && p.gravity == Gravity
    && p.speed > 0.0
    && MinDecay <= p.decay < MaxDecay
    && p.alpha <= 1.0
  }

  predicate Alive(p: ParticleState) {
    p.alpha > 0.0
  }

  /** Array.prototype.pop on the trail: the last entry goes; an empty array stays. */
  function Pop(t: seq<Point>): seq<Point> {
    if |t| > 0 then t[..|t| - 1] else t
  }

  /** One call of `update`: the oldest trail point (at the back) is dropped and
      the current position goes in front; then the particle slows, moves, falls
      and fades. */
  function Advance(p: ParticleState): (r: ParticleState)
    ensures |p.trail| > 0 ==> |r.trail| == |p.trail|
    ensures r.trail != [] && r.trail[0] == Point(p.x, p.y)
    ensures |p.trail| > 0 ==> r.trail[1..] == p.trail[..|p.trail| - 1]
    ensures r.alpha == p.alpha - p.decay
    ensures r.hue == p.hue && r.decay == p.decay
  {
    var trail := [Point(p.x, p.y)] + Pop(p.trail);
    var speed := p.speed * p.friction;
    p.(trail := trail, speed := speed,
       x := p.x + p.dirX * speed,
       y := p.y + p.dirY * speed + p.gravity,
       alpha := p.alpha - p.decay)
  }

  /** `n` successive calls of `update`. */
  function Steps(p: ParticleState, n: nat): ParticleState
    decreases n
  {
    if n == 0 then p else Steps(Advance(p), n - 1)
  }

  /** A freshly constructed particle satisfies the invariant. */
  lemma SpawnWellFormed(x: real, y: real, hue: int, d: SparkDraw)
    requires ValidDraw(d)
    ensures WellFormed(Spawn(x, y, hue, d))
  {
  }

  /** `update` keeps the trail at five points and the invariant, and alpha and
      speed strictly fall on every call. */
  lemma AdvanceKeepsWellFormed(p: ParticleState)
    requires WellFormed(p)
    ensures WellFormed(Advance(p))
    ensures Advance(p).alpha < p.alpha && Advance(p).speed < p.speed
  {
    assert Advance(p).speed == p.speed * Friction;
  }

  /** After `n` calls alpha has dropped by exactly `n` times the decay. */
  lemma {:induction false} AlphaAfter(p: ParticleState, n: nat)
    ensures Steps(p, n).alpha == p.alpha - n as real * p.decay
    ensures Steps(p, n).decay == p.decay
    decreases n
  {
    if n > 0 {
      AlphaAfter(Advance(p), n - 1);
    }
  }

  /** Since decay is at least 0.005 and alpha at most 1, every `update` from the
      200th on reports the particle dead. */
  lemma SparkBurnsOut(p: ParticleState, n: nat)
    requires WellFormed(p) && n >= MaxLifetime
    ensures !Alive(Steps(p, n))
  {
    AlphaAfter(p, n);
    assert n as real * p.decay >= MaxLifetime as real * MinDecay;
  }

  class Particle {
    var x: real
    var y: real
    var coordinates: seq<Point>
    /** Left at -1 by the constructor's `while (this.coordinateCount--)`. */
    const coordinateCount: int
    /** cos and sin of `angle`. */
    const dirX: real
    const dirY: real
    var speed: real
    const friction: real
    const gravity: real
    const hue: int
    const brightness: real
    var alpha: real
    const decay: real

    function State(): ParticleState
      reads this
    {
      ParticleState(x, y, dirX, dirY, speed, friction, gravity, hue, alpha, decay, coordinates)
    }

    ghost predicate Valid()
      reads this
    {
      WellFormed(State())
    }

    constructor (x: real, y: real, color: int, d: SparkDraw)
      requires ValidDraw(d)
      ensures Valid()
      ensures State() == Spawn(x, y, color, d)
      ensures coordinateCount == -1
      ensures 50.0 <= brightness < 100.0
    {
      var trail: seq<Point> := [];
      var count: int := TrailLength;
      while count != 0
        invariant 0 <= count <= TrailLength
        invariant trail == Repeat(Point(x, y), TrailLength - count)
      {
        count := count - 1;
        trail := trail + [Point(x, y)];
      }
      // the post-decrement of the test that ends the loop
      count := count - 1;
      this.x := x;
      this.y := y;
      coordinates := trail;
      coordinateCount := count;
      dirX := d.dirX;
      dirY := d.dirY;
      speed := d.speed * 10.0 + 5.0;
      friction := Friction;
      gravity := Gravity;
      hue := color;
      brightness := d.brightness * 50.0 + 50.0;
      alpha := 1.0;
      decay := d.decay * 0.015 + 0.005;
    }

    /** `update`: returns whether the particle is still visible after fading. */
    method Update() returns (alive: bool)
      requires Valid()
      modifies this
      ensures Valid()
      ensures State() == Advance(old(State()))
      ensures alive == Alive(State())
    {
      AdvanceKeepsWellFormed(State());
      coordinates := Pop(coordinates);
      coordinates := [Point(x, y)] + coordinates;
      speed := speed * friction;
      x := x + dirX * speed;
      y := y + dirY * speed + gravity;
      alpha := alpha - decay;
      return alpha > 0.0;
    }
  }
}
