/** The rising firework (script.js, class Firework): it flies in a straight line
    from its launch point towards its target, accelerating, keeps a three-point
    trail of where it has been, and reports arrival once it has covered the
    target distance less five pixels. */
module Fireworks {
  import opened Basics

  /** coordinateCount: the trail keeps at most this many points. */
  const TrailCap: nat := 3
  const LaunchSpeed: real := 2.0
  const Acceleration: real := 1.05
  /** Arrival is reported this many pixels short of the target distance. */
  const ArrivalSlack: real := 5.0

  datatype Rgb = Rgb(r: int, g: int, b: int)

  /** The five blues a firework's colour is drawn from. */
  const Palette: seq<Rgb> := [
    Rgb(74, 144, 226), Rgb(93, 173, 226), Rgb(52, 152, 219),
    Rgb(41, 128, 185), Rgb(135, 206, 250)
  ]

  /** The fields of a firework that `update` reads or writes. The heading
      (dirX, dirY) is (cos angle, sin angle); `distance` is the straight-line
      distance from the launch point to the target. */
  datatype FireworkState = FireworkState(
    x: real, y: real,
    startX: real, startY: real,
    distance: real,
    dirX: real, dirY: real,
    speed: real, acceleration: real,
    trail: seq<Point>)

  /** The state of a firework just constructed at (x, y). */
  function Launched(x: real, y: real, distance: real, dirX: real, dirY: real): FireworkState {
    FireworkState(x, y, x, y, distance, dirX, dirY, LaunchSpeed, Acceleration, [])
  }

  /** Signed distance travelled along the heading from the launch point. */
  function Along(s: FireworkState): real {
    (s.x - s.startX) * s.dirX + (s.y - s.startY) * s.dirY
  }

  /** Sideways offset from the line of flight; zero while the firework is on course. */
  function Across(s: FireworkState): real {
    (s.x - s.startX) * s.dirY - (s.y - s.startY) * s.dirX
  }

  /** The square of `traveled`, the Euclidean distance from the launch point. */
  function TraveledSq(s: FireworkState): real {
    Sq(s.x - s.startX) + Sq(s.y - s.startY)
  }

  /** The arrival test of `update`, `traveled >= distance - 5`, decided on squares:
      when `distance - 5` is not positive any non-negative `traveled` passes, and
      otherwise both sides are non-negative, so comparing their squares is exact
      (ArrivalMatchesSqrt). */
  predicate Arrives(s: FireworkState) {
    s.distance - ArrivalSlack <= 0.0 || TraveledSq(s) >= Sq(s.distance - ArrivalSlack)
  }

  /** What every firework satisfies between calls of `update`: a trail of at most
      three points, a speed that started at 2 and only grows by the factor 1.05, a
      unit heading, and a position on the ray from the launch point along it. */
  ghost predicate WellFormed(s: FireworkState) {
    && |s.trail| <= TrailCap
    && s.speed >= LaunchSpeed
    && s.acceleration == Acceleration
    && Sq(s.dirX) + Sq(s.dirY) == 1.0
    && s.distance >= 0.0
    && Across(s) == 0.0
    && Along(s) >= 0.0
  }

  /** One call of `update`: record the current position as the newest trail point
      (dropping the oldest beyond three), speed up, then either report arrival
      without moving or move by the velocity. */
  function Advance(s: FireworkState): (r: FireworkState)
    ensures r.trail != [] && r.trail[|r.trail| - 1] == Point(s.x, s.y)
    ensures |s.trail| < TrailCap ==> r.trail == s.trail + [Point(s.x, s.y)]
    ensures |s.trail| >= TrailCap ==> r.trail == s.trail[1..] + [Point(s.x, s.y)]
    ensures r.speed == s.speed * s.acceleration
    ensures Arrives(s) ==> r.x == s.x && r.y == s.y
    ensures r.startX == s.startX && r.startY == s.startY && r.distance == s.distance
    ensures r.dirX == s.dirX && r.dirY == s.dirY && r.acceleration == s.acceleration
  {
    var pushed := s.trail + [Point(s.x, s.y)];
    var trail := if |pushed| > TrailCap then pushed[1..] else pushed;
    var speed := s.speed * s.acceleration;
    if Arrives(s) then s.(trail := trail, speed := speed)
    else s.(trail := trail, speed := speed, x := s.x + s.dirX * speed, y := s.y + s.dirY * speed)
  }

  /** `n` successive calls of `update` on a firework that is never removed. */
  function Steps(s: FireworkState, n: nat): FireworkState
    decreases n
  {
    if n == 0 then s else Steps(Advance(s), n - 1)
  }

  /** The positions recorded by those `n` calls, oldest first. */
  function Visited(s: FireworkState, n: nat): (r: seq<Point>)
    ensures |r| == n
    decreases n
  {
    if n == 0 then [] else [Point(s.x, s.y)] + Visited(Advance(s), n - 1)
  }

  /** A freshly launched firework satisfies the invariant. */
  lemma LaunchedWellFormed(x: real, y: real, tx: real, ty: real, d: real, cx: real, sy: real)
    requires IsDistance(d, tx - x, ty - y) && IsHeading(cx, sy, tx - x, ty - y, d)
    ensures WellFormed(Launched(x, y, d, cx, sy))
    ensures Launched(x, y, d, cx, sy).trail == [] && TraveledSq(Launched(x, y, d, cx, sy)) == 0.0
  {
  }

  lemma HeadingStep(a: real, b: real, dx: real, dy: real, v: real)
    requires Sq(dx) + Sq(dy) == 1.0
    ensures (a + dx * v) * dy - (b + dy * v) * dx == a * dy - b * dx
    ensures (a + dx * v) * dx + (b + dy * v) * dy == a * dx + b * dy + v
  {
    calc {
      (a + dx * v) * dx + (b + dy * v) * dy;
      a * dx + b * dy + v * (dx * dx + dy * dy);
      { assert dx * dx + dy * dy == 1.0; }
      a * dx + b * dy + v;
    }
  }

  /** `update` keeps the invariant, and the speed strictly grows on every call,
      the arrival call included; a non-arriving call moves the firework forward
      along its heading by exactly the new speed. */
  lemma AdvanceKeepsWellFormed(s: FireworkState)
    requires WellFormed(s)
    ensures WellFormed(Advance(s))
    ensures s.speed < Advance(s).speed
    ensures Along(Advance(s)) == if Arrives(s) then Along(s) else Along(s) + Advance(s).speed
  {
    var r := Advance(s);
    if !Arrives(s) {
      HeadingStep(s.x - s.startX, s.y - s.startY, s.dirX, s.dirY, r.speed);
      assert r.x - r.startX == (s.x - s.startX) + s.dirX * r.speed;
      assert r.y - r.startY == (s.y - s.startY) + s.dirY * r.speed;
    }
  }

  /** The two outcomes of `update`: an arriving call leaves the position where it
      is; any other call moves it by the velocity (cos angle, sin angle) times the
      speed just increased. */
  lemma ArrivalStep(s: FireworkState)
    ensures Advance(s).speed == s.speed * s.acceleration
    ensures Arrives(s) ==> Advance(s).x == s.x && Advance(s).y == s.y
    ensures !Arrives(s) ==> && Advance(s).x == s.x + s.dirX * Advance(s).speed
                            && Advance(s).y == s.y + s.dirY * Advance(s).speed
  {
  }

  /** On course, the distance from the launch point is the distance along the
      heading: the square of `traveled` is the square of Along. */
  lemma TraveledIsAlong(s: FireworkState)
    requires WellFormed(s)
    ensures TraveledSq(s) == Sq(Along(s))
  {
    var a, b := s.x - s.startX, s.y - s.startY;
    var dx, dy := s.dirX, s.dirY;
    assert Sq(a * dx + b * dy) + Sq(a * dy - b * dx) == (Sq(a) + Sq(b)) * (Sq(dx) + Sq(dy));
  }

  /** The distance travelled never decreases between calls of `update`, and a
      call that does not report arrival increases it by the new speed. */
  lemma TraveledNonDecreasing(s: FireworkState)
    requires WellFormed(s)
    ensures TraveledSq(s) <= TraveledSq(Advance(s))
    ensures !Arrives(s) ==> TraveledSq(Advance(s)) == Sq(Along(s) + Advance(s).speed)
  {
    AdvanceKeepsWellFormed(s);
    TraveledIsAlong(s);
    TraveledIsAlong(Advance(s));
    var a, a' := Along(s), Along(Advance(s));
    assert 0.0 <= a <= a';
    assert a * a <= a' * a';
  }

  /** The squared arrival test agrees with the source's test on the square root:
      for `t` the non-negative root of TraveledSq, arrival is `t >= distance - 5`. */
  lemma ArrivalMatchesSqrt(s: FireworkState, t: real)
    requires t >= 0.0 && Sq(t) == TraveledSq(s)
    ensures Arrives(s) <==> t >= s.distance - ArrivalSlack
  {
    var m := s.distance - ArrivalSlack;
    if m > 0.0 {
      if t >= m {
        assert t * t >= m * t >= m * m;
      } else {
        calc {
          TraveledSq(s);
          t * t;
          <= { assert t * t <= t * m; }
          t * m;
          < { assert t * m < m * m; }
          m * m;
          Sq(s.distance - ArrivalSlack);
        }
      }
    }
  }

  /** The trail is a FIFO of capacity three: after `n` calls it holds the last
      (at most) three of the old trail followed by the positions recorded since,
      the oldest evicted first. */
  lemma {:induction false} TrailHistory(s: FireworkState, n: nat)
    requires |s.trail| <= TrailCap
    ensures Steps(s, n).trail == LastN(s.trail + Visited(s, n), TrailCap)
    decreases n
  {
    if n == 0 {
      assert s.trail + [] == s.trail;
    } else {
      var p := Point(s.x, s.y);
      var r := Advance(s);
      assert r.trail == LastN(s.trail + [p], TrailCap);
      TrailHistory(r, n - 1);
      LastNAbsorbs(s.trail + [p], Visited(r, n - 1), TrailCap);
      assert Visited(s, n) == [p] + Visited(r, n - 1);
      AppendAssoc(s.trail, [p], Visited(r, n - 1));
    }
  }

  /** The trail grows by one point per call until it holds three, then stays at
      three. */
  lemma TrailLengthAfter(s: FireworkState, n: nat)
    requires |s.trail| <= TrailCap
    ensures |Steps(s, n).trail| == if |s.trail| + n <= TrailCap then |s.trail| + n else TrailCap
  {
    TrailHistory(s, n);
    assert |s.trail + Visited(s, n)| == |s.trail| + n;
  }

  // ---------------------------------------------------------------------------
  // draw: the read of the newest trail point

  /** The point `draw` starts its line from, as written: coordinates[length - 1].
      None when the trail is empty: the read gives undefined and indexing it with
      [0] throws a TypeError. */
  function DrawOriginAsWritten(s: FireworkState): Option<Point> {
    if |s.trail| > 0 then Some(s.trail[|s.trail| - 1]) else None
  }

  /** A firework is drawn before it is first updated, and at that moment its
      trail is empty: the read as written throws. */
  lemma FirstDrawAfterLaunchThrows(x: real, y: real, d: real, cx: real, sy: real)
    ensures DrawOriginAsWritten(Launched(x, y, d, cx, sy)).None?
  {
  }

  /** The read with the empty trail handled: the newest trail point, or the
      current position when there is none yet (a zero-length first segment). */
  function DrawOrigin(s: FireworkState): Point {
    if |s.trail| > 0 then s.trail[|s.trail| - 1] else Point(s.x, s.y)
  }

  /** The guarded read is always defined and differs from the source only before
      the first update: after any update it reads the same newest point, which is
      the position the firework had before that update. */
  lemma DrawOriginAfterUpdate(s: FireworkState)
    ensures DrawOriginAsWritten(Advance(s)) == Some(DrawOrigin(Advance(s)))
    ensures DrawOrigin(Advance(s)) == Point(s.x, s.y)
  {
  }

  // ---------------------------------------------------------------------------
  // The class, as the scene holds it

  class Firework {
    var x: real
    var y: real
    const startX: real
    const startY: real
    const targetX: real
    const targetY: real
    const distance: real
    var coordinates: seq<Point>
    const coordinateCount: nat
    /** cos and sin of `angle`, Math.atan2(targetY - y, targetX - x). */
    const dirX: real
    const dirY: real
    var speed: real
    const acceleration: real
    const brightness: real
    const color: Rgb

    function State(): FireworkState
      reads this
    {
      FireworkState(x, y, startX, startY, distance, dirX, dirY, speed, acceleration, coordinates)
    }

    ghost predicate Valid()
      reads this
    {
      WellFormed(State()) && coordinateCount == TrailCap
    }

    /** `distance`, `dirX` and `dirY` are the results of Math.sqrt and of cos and
        sin of Math.atan2 on the launch-to-target vector; the two draws choose
        the brightness and the palette colour. */
    constructor (x: real, y: real, targetX: real, targetY: real,
                 distance: real, dirX: real, dirY: real,
                 brightnessDraw: real, colorDraw: real)
      requires IsDistance(distance, targetX - x, targetY - y)
      requires IsHeading(dirX, dirY, targetX - x, targetY - y, distance)
      requires IsDraw(brightnessDraw) && IsDraw(colorDraw)
      ensures Valid()
      ensures State() == Launched(x, y, distance, dirX, dirY)
      ensures this.targetX == targetX && this.targetY == targetY
      ensures 50.0 <= brightness < 100.0
      ensures color == Palette[Pick(colorDraw, |Palette|)]
    {
      this.x := x;
      this.y := y;
      startX := x;
      startY := y;
      this.targetX := targetX;
      this.targetY := targetY;
      this.distance := distance;
      coordinates := [];
      coordinateCount := TrailCap;
      this.dirX := dirX;
      this.dirY := dirY;
      speed := LaunchSpeed;
      acceleration := Acceleration;
      brightness := brightnessDraw * 50.0 + 50.0;
      color := Palette[Pick(colorDraw, |Palette|)];
      new;
      LaunchedWellFormed(x, y, targetX, targetY, distance, dirX, dirY);
    }

    /** `update`: returns true, leaving the position where it is, once the
        distance travelled reaches `distance - 5`; otherwise moves and returns
        false. Either way the trail and the speed are updated first. */
    method Update() returns (arrived: bool)
      requires Valid()
      modifies this
      ensures Valid()
      ensures State() == Advance(old(State()))
      ensures arrived == Arrives(old(State()))
    {
      ghost var s := State();
      ghost var r := Advance(s);
      AdvanceKeepsWellFormed(s);
      coordinates := coordinates + [Point(x, y)];
      if |coordinates| > coordinateCount {
        coordinates := coordinates[1..];
      }
      assert coordinates == r.trail;
      speed := speed * acceleration;
      assert speed == r.speed;
      var vx := dirX * speed;
      var vy := dirY * speed;
      var traveledSq := Sq(x - startX) + Sq(y - startY);
      if distance - ArrivalSlack <= 0.0 || traveledSq >= Sq(distance - ArrivalSlack) {
        assert Arrives(s);
        assert State() == r;
        return true;
      }
      assert !Arrives(s);
      x := x + vx;
      y := y + vy;
      assert State() == r;
      return false;
    }

    /** The read `draw` performs before drawing, with the empty trail of a new
        firework handled (see DrawOriginAsWritten for the read as written). */
    method DrawStart() returns (p: Point)
      ensures p == DrawOrigin(State())
      ensures coordinates != [] ==> p == coordinates[|coordinates| - 1]
    {
      if |coordinates| > 0 {
        p := coordinates[|coordinates| - 1];
      } else {
        p := Point(x, y);
      }
    }
  }
}
