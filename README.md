# Fireworks scene: trails, arrival, bursts and the removal loops

A model of the bookkeeping at the heart of the New Year fireworks page
(`script.js`). The canvas drawing, the trigonometry and the random numbers are
not modelled; the lists and buffers they act on are:

- **Firework** (`Fireworks.Firework`): a rising projectile. Each `update` pushes
  its position onto a trail of at most three points, multiplies its speed by
  1.05, and either reports arrival without moving, once the distance travelled
  reaches the target distance less 5, or moves along its heading.
- **Particle** (`Particles.Particle`): an explosion spark. It starts with five
  copies of its origin as its trail. Each `update` pops the oldest point from
  the back and unshifts the current position at the front, slows by friction,
  falls by gravity, and fades by its own decay drawn from [0.005, 0.02). It
  reports whether its alpha is still positive.
- **The scene** (`SceneLoop.Scene`): the module-level `fireworks` and
  `particles` lists.
  - `launch` appends one firework.
  - `explode` appends 30 sparks sharing one hue from {200, 210, 220, 230, 240}.
  - `animate` first walks `fireworks` from the last index down. Each firework
    is updated; an arrived one explodes and is spliced out. Then it walks
    `particles`, the sparks just spawned included, the same way, splicing out
    the faded.

Each class is proved against a function on values:

| class | value | step function |
|---|---|---|
| `Firework` | `FireworkState` | `Fireworks.Advance` |
| `Particle` | `ParticleState` | `Particles.Advance` |
| `Scene` | `SceneState` | `SceneLoop.Frame` (one `animate`) |

`Basics.Survivors` is the filter that a reverse-index loop of
`splice(i, 1)` computes. The loops are proved to leave exactly the surviving
objects, in their order, each updated once.

JS numbers are modelled as mathematical reals. The results of `Math.sqrt`,
`Math.atan2`, `Math.cos` and `Math.sin` are inputs described by their defining
equations:

- a distance is the non-negative root of the sum of squares;
- a heading is a unit vector that, scaled by the distance, gives the
  launch-to-target vector.

Each `Math.random()` result is a parameter in [0, 1).

A firework is drawn from its newest trail point: `push` appends the newest point
at the end, and `draw` reads the last entry (script.js:43, 67-69). A spark is
drawn from its oldest trail point: `unshift` puts its newest point in front, and
`draw` reads the last entry (script.js:99, 111-112).

## Model

| member | source | states |
|---|---|---|
| Basics.Pick | script.js:39 | `Math.floor(Math.random() * n)` is an index below n, the floor of r·n |
| Basics.LastNAbsorbs | script.js:43-47 | trimming a FIFO to its last n entries before or after appending more gives the same last n entries |
| Basics.Survivors | script.js:157-175 | the list a reverse-index loop of `splice(i, 1)` leaves of the entries from index i on: those whose flag is unset, in their order |
| Basics.SurvivorsMember | script.js:157-175 | an object remains after a removal loop exactly when it was in the list and its update did not ask for its removal |
| Basics.SurvivorsLength | script.js:157-175 | a removal loop removes one entry per raised flag and no other |
| Basics.SurvivorsDistinct | script.js:157-175 | removing entries from a list without repetitions leaves a list without repetitions |
| Basics.RemovalStep | script.js:161-164 | one iteration at index i: the entry there is still the original one (the entries after i are done), and splicing it out when flagged extends the filtered suffix to start at i |
| Fireworks.Arrives | script.js:56 | the arrival test `traveled >= distance - 5`, decided on squares (see Fireworks.ArrivalMatchesSqrt) |
| Fireworks.Advance | script.js:42-63 | one `update`: the current position becomes the newest trail point; the oldest is shifted out beyond three; speed is multiplied by the acceleration; an arriving call leaves x and y unchanged |
| Fireworks.LaunchedWellFormed | script.js:13-28 | a new firework has an empty trail, has travelled 0, and satisfies the firework invariant (speed ≥ 2, acceleration 1.05, unit heading, on the line of flight) |
| Fireworks.AdvanceKeepsWellFormed | script.js:42-63 | `update` keeps the invariant; speed strictly grows on every call, the arrival call included; a non-arriving call advances the firework along its heading by exactly the new speed |
| Fireworks.ArrivalStep | script.js:49-62 | an arriving call leaves the position alone; any other call moves it by (cos angle · speed, sin angle · speed) with the already-increased speed |
| Fireworks.TraveledNonDecreasing | script.js:52-54 | the distance travelled never decreases between updates, and grows by the new speed on a non-arriving call |
| Fireworks.ArrivalMatchesSqrt | script.js:52-56 | the arrival test on squares agrees with `traveled >= distance - 5` on the square root |
| Fireworks.TrailHistory | script.js:43-47 | after n updates the trail is the last three of the old trail followed by the n positions recorded, the oldest evicted first |
| Fireworks.TrailLengthAfter | script.js:43-47 | the trail grows by one point per update until it holds three, then stays at three |
| Fireworks.DrawOriginAsWritten | script.js:67-69 | the read `draw` performs as written: the last trail point, and no point (the TypeError) when the trail is empty |
| Fireworks.DrawOrigin | script.js:67-69 | the corrected read: the last trail point, or the current position when the trail is empty |
| Fireworks.FirstDrawAfterLaunchThrows | script.js:67-69 | as written, `draw` finds no trail point on a firework that has not been updated yet |
| Fireworks.DrawOriginAfterUpdate | script.js:67-69 | the guarded read agrees with the read as written on every firework that has been updated, and gives the position before the last update |
| Fireworks.Firework.constructor | script.js:13-40 | a new firework starts at its launch point with speed 2, an empty trail and capacity 3; its brightness is in [50, 100) and its colour is the palette entry picked by the draw |
| Fireworks.Firework.Update | script.js:42-63 | the new state is Advance of the old one; the result is true exactly when the arrival test holds; the invariant is kept |
| Fireworks.Firework.DrawStart | script.js:67-70 | the corrected read of the script.js:67-69 finding: the newest trail point, which is what `draw` reads whenever the trail is non-empty, or the current position while it is empty |
| Particles.Spawn | script.js:79-95 | a new spark has five trail points all equal to its origin, alpha 1, speed in [5, 15) and decay in [0.005, 0.02) |
| Particles.SpawnWellFormed | script.js:79-95 | a new spark satisfies the spark invariant |
| Particles.Pop | script.js:98 | `Array.prototype.pop` on the trail: the last point goes; an empty trail stays empty |
| Particles.Advance | script.js:97-106 | one `update`: the trail keeps its length, the pre-move position goes in at index 0 and the previous last point is dropped; alpha drops by exactly the decay |
| Particles.AdvanceKeepsWellFormed | script.js:97-106 | `update` keeps the spark invariant (five trail points, positive speed, decay in range, alpha ≤ 1); alpha and speed strictly fall |
| Particles.AlphaAfter | script.js:103 | after n updates alpha has fallen by exactly n times the decay |
| Particles.SparkBurnsOut | script.js:93-105 | every update from the 200th on reports the spark faded |
| Particles.Particle.constructor | script.js:79-95 | the new spark's state is Spawn; the `while (this.coordinateCount--)` loop leaves five trail points and the counter at -1; brightness is in [50, 100) |
| Particles.Particle.Update | script.js:97-106 | the new state is Advance of the old one; the result is true exactly when the new alpha is positive; the invariant is kept |
| SceneLoop.HueOf | script.js:144-145 | the hue drawn is one of 200, 210, 220, 230, 240 |
| SceneLoop.Burst | script.js:141-150 | an explosion is 30 sparks, all at the given position, all with the one drawn hue, all at alpha 1 and well-formed |
| SceneLoop.Explosion | script.js:161-162 | the sparks one firework adds during the firework loop: its burst at its position after the update when the update reports arrival, none otherwise |
| SceneLoop.Spawns | script.js:157-165 | the sparks the firework loop appends from index i to the end, in the order they are appended: the loop runs from the last index down, so a later firework's burst comes first |
| SceneLoop.SpawnsCount | script.js:157-165 | the firework loop spawns exactly 30 sparks per arrived firework |
| SceneLoop.SpawnsOrigin | script.js:157-165 | every spawned spark is a fresh, well-formed spark at the position of an arrived firework, with that firework's explosion hue |
| SceneLoop.FireworkPassKeeps | script.js:157-165 | the firework loop keeps exactly the fireworks whose update did not report arrival, each updated once and well-formed, and removes one per arrival |
| SceneLoop.SpawnedSparksUpdatedThisFrame | script.js:157-175 | a spark spawned during the firework loop is updated by the particle loop of the same frame, and kept exactly when that update leaves it visible |
| SceneLoop.SparkPassKeeps | script.js:168-175 | the particle loop keeps every surviving spark well-formed and never adds one |
| SceneLoop.FramePreservesWellFormed | script.js:152-175 | one frame keeps every firework and spark well-formed; the number of sparks grows by at most 30 per arrived firework |
| SceneLoop.Frame | script.js:152-175 | one `animate` on values: the firework pass, then the particle pass over the old sparks followed by the sparks just spawned |
| SceneLoop.Scene.constructor | script.js:121-122 | the scene starts with no fireworks and no sparks |
| SceneLoop.Scene.Launch | script.js:132-139 | appends one fresh firework launched from the bottom edge (y = h) towards a target in the upper half; all else stays as it was |
| SceneLoop.Scene.Explode | script.js:141-150 | appends exactly 30 fresh sparks whose states are the burst at the firework's position; the existing sparks and the fireworks are left as they were |
| SceneLoop.Scene.FireworkStep | script.js:158-164 | one iteration of the firework loop: the firework at i is updated; on arrival its burst is appended and it is spliced out; the filtered suffix then starts at i |
| SceneLoop.Scene.FireworkPass | script.js:157-165 | the fireworks left are exactly the survivors among the originals, in order, each updated once; the sparks gained are exactly the bursts of the arrived fireworks, in loop order |
| SceneLoop.Scene.ParticleStep | script.js:169-174 | one iteration of the particle loop: the spark at i is updated and spliced out when faded; the filtered suffix then starts at i |
| SceneLoop.Scene.ParticlePass | script.js:168-175 | the sparks left are exactly the originals whose update kept them visible, in order, each updated once; the fireworks are untouched |
| SceneLoop.Scene.Animate | script.js:152-175 | the scene after one `animate` is Frame of the scene before: the firework loop, then the particle loop over old and new sparks |

## Left out

- Canvas rendering: the `draw` methods except the read of the newest trail point, `fillRect`, stroke styles and colour strings (script.js:5-9, 65-75, 108-118, 153-154). They are drawing side effects with nothing to prove.
- IEEE floating point: numbers are mathematical reals, so rounding in the position, speed and alpha updates is not modelled.
- `Math.sqrt`, `Math.atan2`, `Math.cos`, `Math.sin`: their results are inputs satisfying their defining equations. The `traveled` field is not stored; arrival is decided on its square (Fireworks.ArrivalMatchesSqrt).
- `Math.random`: each draw is a parameter in [0, 1). The viewport size `w`, `h` is a parameter of `Launch`.
- Particles.Particle.constructor: the heading is any unit vector (cos, sin), not tied to the draw behind `Math.PI * 2 * Math.random()`.
- SceneLoop.Scene.Animate: the firework loop uses the corrected read of the script.js:67-69 finding (Fireworks.Firework.DrawStart), so it completes the frame. As written, the first frame after a launch throws in `draw` and the animation stops; that behaviour is shown only by Fireworks.FirstDrawAfterLaunchThrows.
- SceneLoop.Scene.Animate: takes one set of explosion draws per firework. A set is used only when that firework arrives, which stands in for `Math.random` being called only inside `explode`.
- Scheduling: `requestAnimationFrame`, the `setTimeout`/`setInterval` launches in `startFireworks` and the `resize` listener (script.js:125-130, 177, 181-197). One frame is one call of `Animate`, and launches are calls of `Launch` between frames.
- The background music toggle (script.js:199-256): it depends on the Audio promise, `localStorage` and the DOM.
- The brightness and colour fields take no part in `update` and are only stated by the constructors' contracts.
- The scene's invariant requires that no object appear twice in a list. The source only ever appends freshly constructed objects, so this always holds there.

## Findings

| source | as written | input that shows it | evidently intended | confidence | as-written member | corrected member |
|---|---|---|---|---|---|---|
| script.js:67-69 | `draw` reads `this.coordinates[this.coordinates.length - 1][0]`; the trail of a new firework is empty (script.js:24), so this reads `undefined[0]` and throws a TypeError. The exception escapes `animate` before `requestAnimationFrame(animate)` (script.js:177), so no further frame is scheduled: the animation stalls on the first frame after the first launch, and no firework is ever updated | any firework appended by `launch`, at the next `animate`, which calls `draw` before the first `update` (script.js:159-161) | start the segment at the current position while the trail is empty | high, not executed | Fireworks.FirstDrawAfterLaunchThrows | Fireworks.DrawOriginAfterUpdate |
