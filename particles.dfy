/** A single drifting point of the constellation background: its state as a value,
    and the pure steps that Particle.spawnAt, Particle.respawn and Particle.update take. */
module Particles {

  /** Ambient respawn never raises the active population above this. */
  const TARGET_COUNT: int := 69
  const BASE_SIZE: real := 0.003
  /** Pulse advance per millisecond. */
  const PULSE_RATE: real := 0.005

  /** The canvas: width and height of the window, its diagonal and the proximity range. */
  datatype Viewport = Viewport(width: real, height: real, diag: real, range: real)

  /** What resize() computes: `diag` is the length of the diagonal (Math.hypot, pinned down by
      its square) and `range` is 15% of it. */
  predicate Measured(v: Viewport)
  {
    && v.width >= 0.0 && v.height >= 0.0 && v.diag >= 0.0
    && v.diag * v.diag == v.width * v.width + v.height * v.height
    && v.range == 0.15 * v.diag
  }

  /** The Math.random() draws one (re)spawn consumes. `size` and `pos` are raw draws in [0, 1);
      `vx` and `vy` are the velocity that speed and angle draws produce (trigonometry is not modelled). */
  datatype Roll = Roll(size: real, vx: real, vy: real, pos: real)

  predicate Fair(d: Roll)
  {
    0.0 <= d.size < 1.0 && 0.0 <= d.pos < 1.0
  }

  datatype Particle = Particle(x: real, y: real, vx: real, vy: real, size: real,
                               pulse: real, deg: int, active: bool)

  /** A particle as the constructor leaves it before spawnAt/respawn fills it in. */
  const Fresh: Particle := Particle(0.0, 0.0, 0.0, 0.0, 0.0, 0.0, 0, false)

  /** Math.min on two reals. */
  function Min(a: real, b: real): (r: real)
    ensures r <= a && r <= b && (r == a || r == b)
  {
    if a <= b then a else b
  }

  /** spawnAt: placed exactly at the click, pulse restarted, degree untouched. */
  function SpawnAt(p: Particle, x: real, y: real, d: Roll): (r: Particle)
    ensures r.active && r.x == x && r.y == y && r.pulse == 0.0 && r.deg == p.deg
    ensures r.vx == d.vx && r.vy == d.vy
  {
    p.(active := true, x := x, y := y, size := BASE_SIZE + 0.002 * d.size,
       vx := d.vx, vy := d.vy, pulse := 0.0)
  }

  /** The ring the ambient respawn places particles on: one of the four lines lying `range`
      outside the viewport, with the coordinate along that line inside the side's length
      (half-open, except on a zero-sized canvas where every point is the corner). */
  predicate OnRing(p: Particle, v: Viewport)
  {
    || (p.y == -v.range && Along(p.x, v.width, v))
    || (p.x == v.width + v.range && Along(p.y, v.height, v))
    || (p.y == v.height + v.range && Along(p.x, v.width, v))
    || (p.x == -v.range && Along(p.y, v.height, v))
  }

  predicate Along(c: real, len: real, v: Viewport)
  {
    0.0 <= c <= len && (v.width + v.height > 0.0 ==> c < len)
  }

  /** `2 * (width + height) * Math.random()`: a point on the perimeter, in [0, perimeter). */
  function PerimeterPoint(perimeter: real, t: real): (pos: real)
    requires perimeter >= 0.0 && 0.0 <= t < 1.0
    ensures 0.0 <= pos <= perimeter
    ensures perimeter > 0.0 ==> pos < perimeter
  {
    ScaleBelow(perimeter, t);
    perimeter * t
  }

  lemma ScaleBelow(len: real, t: real)
    requires len >= 0.0 && 0.0 <= t < 1.0
    ensures 0.0 <= len * t <= len
    ensures len > 0.0 ==> len * t < len
  {
    if len > 0.0 {
      var u := 1.0 - t;
      assert u > 0.0;
      assert len * u > 0.0;
      assert len * t == len - len * u;
    }
  }

  /** respawn: `pos` is a uniform point on the perimeter 2 * (width + height), walked clockwise
      from the top-left corner: top, right, bottom, left. */
  function Respawn(p: Particle, v: Viewport, d: Roll): (r: Particle)
    requires v.width >= 0.0 && v.height >= 0.0 && Fair(d)
    ensures r.active && r.pulse == 0.0 && r.deg == 0
    ensures r.vx == d.vx && r.vy == d.vy
    ensures OnRing(r, v)
    // the point lies at the drawn distance along the ring, each side weighted by its length
    ensures Separated(v) ==> RingPos(r, v) == PerimeterPoint(2.0 * (v.width + v.height), d.pos)
  {
    var q := p.(active := true, size := BASE_SIZE + 0.002 * d.size,
                vx := d.vx, vy := d.vy, pulse := 0.0, deg := 0);
    Place(q, v, PerimeterPoint(2.0 * (v.width + v.height), d.pos))
  }

  /** The side selection of respawn: `pos` measured along the perimeter. */
  function Place(q: Particle, v: Viewport, pos: real): (r: Particle)
    requires v.width >= 0.0 && v.height >= 0.0
    requires 0.0 <= pos <= 2.0 * (v.width + v.height)
    requires v.width + v.height > 0.0 ==> pos < 2.0 * (v.width + v.height)
    ensures r == q.(x := r.x, y := r.y)
    ensures OnRing(r, v)
    // `pos` is recovered from the point whenever the four lines of the ring are apart
    ensures Separated(v) ==> RingPos(r, v) == pos
  {
    if pos < v.width then
      q.(x := pos, y := -v.range)
    else if pos - v.width < v.height then
      q.(y := pos - v.width, x := v.width + v.range)
    else if pos - v.width - v.height < v.width then
      q.(x := pos - v.width - v.height, y := v.height + v.range)
    else
      q.(y := pos - v.width - v.height - v.width, x := -v.range)
  }

  /** The four lines of the ring meet only at their ends: the ring lies strictly outside a
      canvas that has a size. */
  predicate Separated(v: Viewport)
  {
    v.range > 0.0 || v.width + v.height == 0.0
  }

  /** The distance along the ring, clockwise from the top-left corner, of a point on it: the
      inverse of the side walk of respawn. */
  function RingPos(p: Particle, v: Viewport): real
  {
    if p.y == -v.range && p.x < v.width then p.x
    else if p.x == v.width + v.range && p.y < v.height then v.width + p.y
    else if p.y == v.height + v.range && p.x < v.width then v.width + v.height + p.x
    else 2.0 * v.width + v.height + p.y
  }

  /** A measured canvas with a size has a positive range, so its ring is separated. */
  lemma MeasuredSeparated(v: Viewport)
    ensures Measured(v) ==> Separated(v)
  {
    if Measured(v) && v.width + v.height > 0.0 {
      var w, h, d := v.width, v.height, v.diag;
      SumPositive(w * w, h * h, d * d) by { Square(w); Square(h); }
      Square(d);
    }
  }

  /** A square is never negative, and is positive exactly away from 0. */
  lemma Square(a: real)
    ensures a * a >= 0.0
    ensures a * a > 0.0 <==> a != 0.0
  {
  }

  lemma SumPositive(x: real, y: real, z: real)
    requires z == x + y && x >= 0.0 && y >= 0.0 && (x != 0.0 || y != 0.0)
    ensures z > 0.0
  {
  }

  /** Outside the viewport grown by `range` on every side. */
  predicate Offscreen(p: Particle, v: Viewport): (off: bool)
    // the respawn ring lies inside that margin, so a respawned particle is never off-screen
    ensures v.width >= 0.0 && v.height >= 0.0 && v.range >= 0.0 && OnRing(p, v) ==> !off
  {
    p.x < -v.range || p.x > v.width + v.range || p.y < -v.range || p.y > v.height + v.range
  }

  /** The kinematic half of update(): pulse towards 1, position along the velocity. */
  function Advance(p: Particle, diag: real, delta: real): (r: Particle)
    ensures r.active == p.active && r.deg == p.deg && r.vx == p.vx && r.vy == p.vy
    ensures delta >= 0.0 && 0.0 <= p.pulse <= 1.0 ==> p.pulse <= r.pulse <= 1.0
  {
    p.(pulse := Min(p.pulse + PULSE_RATE * delta, 1.0),
       x := p.x + p.vx * diag * delta,
       y := p.y + p.vy * diag * delta)
  }

  /** Particle.update(delta), together with the module-level `activeCount` it adjusts:
      despawn when off-screen and free of edges, respawn when inactive and under the target,
      then advance if active. */
  function Drift(p: Particle, count: int, v: Viewport, delta: real, d: Roll): (r: (Particle, int))
    requires v.width >= 0.0 && v.height >= 0.0 && Fair(d)
    // activeCount follows the particle's own active flag
    ensures r.1 - count == (if r.0.active then 1 else 0) - (if p.active then 1 else 0)
    // a particle carrying edges is never despawned, and keeps its degree
    ensures p.active && p.deg != 0 ==> r.0.active && r.0.deg == p.deg
    // the degree only changes by the respawn reset, which an inactive particle with no edges undergoes
    ensures p.active || p.deg == 0 ==> r.0.deg == p.deg
    // ambient respawn never lifts the population above the target
    ensures r.1 > count ==> r.1 <= TARGET_COUNT
    ensures !p.active && count >= TARGET_COUNT ==> r == (p, count)
    // the pulse stays in [0, 1] and does not regress while the particle stays alive
    ensures delta >= 0.0 && 0.0 <= p.pulse <= 1.0 ==> 0.0 <= r.0.pulse <= 1.0
    ensures delta >= 0.0 && p.pulse <= 1.0 && p.active && (p.deg != 0 || !Offscreen(p, v)) ==> r.0.pulse >= p.pulse
    // an inactive result has not moved
    ensures !r.0.active ==> r.0 == p.(active := false)
    // an active particle free of edges that has left the margin is despawned, and respawned at once
    // when the population is then under the target
    ensures p.active && p.deg == 0 && Offscreen(p, v) ==> (r.0.active <==> count - 1 < TARGET_COUNT)
    // an inactive particle is respawned exactly when the population is under the target
    ensures !p.active ==> (r.0.active <==> count < TARGET_COUNT)
    // a respawned particle is placed on the ring and then advanced
    ensures r.0.active && !(p.active && !(p.deg == 0 && Offscreen(p, v))) ==> r.0 == Advance(Respawn(p, v, d), v.diag, delta)
    // any other active particle only advances
    ensures p.active && !(p.deg == 0 && Offscreen(p, v)) ==> r == (Advance(p, v.diag, delta), count)
  {
    var (p1, c1) := if p.active && p.deg == 0 && Offscreen(p, v) then (p.(active := false), count - 1) else (p, count);
    var (p2, c2) := if !p1.active && c1 < TARGET_COUNT then (Respawn(p1, v, d), c1 + 1) else (p1, c1);
    if !p2.active then (p2, c2) else (Advance(p2, v.diag, delta), c2)
  }

  /** particles.forEach((p) => p.update(delta)) over the first `n` particles: each update in
      index order, against the activeCount the previous ones left; particle `j` draws `rolls[j]`. */
  function DriftAll(ps: seq<Particle>, count: int, v: Viewport, delta: real, rolls: seq<Roll>, n: nat)
    : (r: (seq<Particle>, int))
    requires v.width >= 0.0 && v.height >= 0.0
    requires n <= |ps| == |rolls| && forall j | 0 <= j < |rolls| :: Fair(rolls[j])
    ensures |r.0| == |ps| && r.0[n..] == ps[n..]
  {
    if n == 0 then (ps, count)
    else
      var (qs, c) := DriftAll(ps, count, v, delta, rolls, n - 1);
      var d := Drift(qs[n - 1], c, v, delta, rolls[n - 1]);
      (qs[n - 1 := d.0], d.1)
  }

  /** The particle pass keeps activeCount equal to the number of active particles. */
  lemma {:induction false} DriftAllCounts(ps: seq<Particle>, count: int, v: Viewport, delta: real, rolls: seq<Roll>, n: nat)
    requires v.width >= 0.0 && v.height >= 0.0
    requires n <= |ps| == |rolls| && forall j | 0 <= j < |rolls| :: Fair(rolls[j])
    requires count == CountActive(ps)
    ensures DriftAll(ps, count, v, delta, rolls, n).1 == CountActive(DriftAll(ps, count, v, delta, rolls, n).0)
  {
    if n > 0 {
      DriftAllCounts(ps, count, v, delta, rolls, n - 1);
      var (qs, c) := DriftAll(ps, count, v, delta, rolls, n - 1);
      CountActiveUpdate(qs, n - 1, Drift(qs[n - 1], c, v, delta, rolls[n - 1]).0);
    }
  }

  /** The particle pass never lifts the population above the target by respawning, and never
      deactivates a particle that carries edges. */
  lemma {:induction false} DriftAllCapped(ps: seq<Particle>, count: int, v: Viewport, delta: real, rolls: seq<Roll>, n: nat)
    requires v.width >= 0.0 && v.height >= 0.0
    requires n <= |ps| == |rolls| && forall j | 0 <= j < |rolls| :: Fair(rolls[j])
    ensures var r := DriftAll(ps, count, v, delta, rolls, n);
      && r.1 <= (if count < TARGET_COUNT then TARGET_COUNT else count)
      && forall j | 0 <= j < |ps| && ps[j].active && ps[j].deg != 0 :: r.0[j].active && r.0[j].deg == ps[j].deg
  {
    if n > 0 {
      DriftAllCapped(ps, count, v, delta, rolls, n - 1);
    }
  }

  /** Replenishment: a pass over a pool of at least TARGET_COUNT particles that starts at or
      below the target leaves exactly TARGET_COUNT of them active. */
  lemma DriftAllRefills(ps: seq<Particle>, v: Viewport, delta: real, rolls: seq<Roll>)
    requires v.width >= 0.0 && v.height >= 0.0
    requires |ps| == |rolls| && forall j | 0 <= j < |rolls| :: Fair(rolls[j])
    requires |ps| >= TARGET_COUNT && CountActive(ps) <= TARGET_COUNT
    ensures DriftAll(ps, CountActive(ps), v, delta, rolls, |ps|).1 == TARGET_COUNT
  {
    var r := DriftAll(ps, CountActive(ps), v, delta, rolls, |ps|);
    DriftAllCounts(ps, CountActive(ps), v, delta, rolls, |ps|);
    DriftAllCapped(ps, CountActive(ps), v, delta, rolls, |ps|);
    DriftAllFills(ps, CountActive(ps), v, delta, rolls, |ps|);
    if r.1 < TARGET_COUNT {
      CountAllActive(r.0);
    }
  }

  /** After the first n updates, either the population has reached the target or every
      particle updated so far is active. */
  lemma {:induction false} DriftAllFills(ps: seq<Particle>, count: int, v: Viewport, delta: real, rolls: seq<Roll>, n: nat)
    requires v.width >= 0.0 && v.height >= 0.0
    requires n <= |ps| == |rolls| && forall j | 0 <= j < |rolls| :: Fair(rolls[j])
    ensures var r := DriftAll(ps, count, v, delta, rolls, n);
      r.1 >= TARGET_COUNT || forall j | 0 <= j < n :: r.0[j].active
  {
    if n > 0 {
      DriftAllFills(ps, count, v, delta, rolls, n - 1);
    }
  }

  lemma {:induction false} CountAllActive(ps: seq<Particle>)
    requires forall j | 0 <= j < |ps| :: ps[j].active
    ensures CountActive(ps) == |ps|
  {
    if ps != [] {
      CountAllActive(ps[..|ps| - 1]);
    }
  }

  /** Number of active particles. */
  function CountActive(ps: seq<Particle>): nat
  {
    if ps == [] then 0 else CountActive(ps[..|ps| - 1]) + (if ps[|ps| - 1].active then 1 else 0)
  }

  lemma {:induction false} CountActiveUpdate(ps: seq<Particle>, j: nat, q: Particle)
    requires j < |ps|
    ensures CountActive(ps[j := q]) ==
      CountActive(ps) - (if ps[j].active then 1 else 0) + (if q.active then 1 else 0)
  {
    var n := |ps|;
    if j < n - 1 {
      assert ps[j := q][..n - 1] == ps[..n - 1][j := q];
      CountActiveUpdate(ps[..n - 1], j, q);
    } else {
      assert ps[j := q][..n - 1] == ps[..n - 1];
    }
  }

  lemma {:induction false} CountActiveSameFlags(ps: seq<Particle>, qs: seq<Particle>)
    requires |ps| == |qs|
    requires forall j | 0 <= j < |ps| :: ps[j].active == qs[j].active
    ensures CountActive(ps) == CountActive(qs)
  {
    if ps != [] {
      CountActiveSameFlags(ps[..|ps| - 1], qs[..|qs| - 1]);
    }
  }

  lemma CountActiveAppend(ps: seq<Particle>, q: Particle)
    ensures CountActive(ps + [q]) == CountActive(ps) + (if q.active then 1 else 0)
  {
    assert (ps + [q])[..|ps|] == ps;
  }
}
