/** The timed traversal of an EdgeGraph, as functions on values: visiting a particle, growing the
    edges by one frame, and delivering the edges that reached their target. The classes in module
    Constellation are proved against these functions; the lemmas here state what they promise. */
module Propagation {
  import opened Particles

  /** An edge `{from, to, progress}`: `progress` is how far the comet has travelled. */
  datatype Edge = Edge(from: nat, to: nat, progress: real)

  /** Squared Euclidean distance of two particles (the square of Math.hypot of their offsets). */
  function DistSq(a: Particle, b: Particle): real
  {
    (a.x - b.x) * (a.x - b.x) + (a.y - b.y) * (a.y - b.y)
  }

  /** `dist <= range`, without the square root: for a distance `dist >= 0` this holds exactly
      when `range >= 0` and `dist^2 <= range^2`. */
  predicate InRange(a: Particle, b: Particle, range: real)
  {
    range >= 0.0 && DistSq(a, b) <= range * range
  }

  /** Whether two particles are in range depends on their positions only. */
  lemma InRangeSame(a: Particle, b: Particle, a': Particle, b': Particle, range: real)
    requires a.x == a'.x && a.y == a'.y && b.x == b'.x && b.y == b'.y
    ensures InRange(a, b, range) == InRange(a', b', range)
  {
  }

  /** `progress >= dist`, without the square root, in the same way. */
  predicate Reached(progress: real, a: Particle, b: Particle)
  {
    progress >= 0.0 && progress * progress >= DistSq(a, b)
  }

  // ---------------------------------------------------------------- degree bookkeeping

  /** How many ends of edge `e` sit on particle `j`. */
  function Ends(e: Edge, j: nat): nat
  {
    (if e.from == j then 1 else 0) + (if e.to == j then 1 else 0)
  }

  /** How many edge ends of `es` sit on particle `j`: the part of `j`'s degree that `es` owns. */
  function Incidence(es: seq<Edge>, j: nat): nat
  {
    if es == [] then 0 else Incidence(es[..|es| - 1], j) + Ends(es[|es| - 1], j)
  }

  lemma {:induction false} IncidenceAppend(a: seq<Edge>, b: seq<Edge>, j: nat)
    ensures Incidence(a + b, j) == Incidence(a, j) + Incidence(b, j)
  {
    if b == [] {
      assert a + b == a;
    } else {
      assert (a + b)[..|a + b| - 1] == a + b[..|b| - 1];
      IncidenceAppend(a, b[..|b| - 1], j);
    }
  }

  /** No edge of `es` touches `j` exactly when `j` owns none of their ends. */
  lemma {:induction false} IncidenceZero(es: seq<Edge>, j: nat)
    ensures Incidence(es, j) == 0 <==> forall e | e in es :: e.from != j && e.to != j
  {
    if es != [] {
      var init := es[..|es| - 1];
      IncidenceZero(init, j);
      assert es == init + [es[|es| - 1]];
      assert forall e | e in es :: e in init || e == es[|es| - 1];
    }
  }

  /** The degree owned by all live graphs together: `ls` holds each graph's edge list. */
  function TotalIncidence(ls: seq<seq<Edge>>, j: nat): nat
  {
    if ls == [] then 0 else Incidence(ls[0], j) + TotalIncidence(ls[1..], j)
  }

  lemma {:induction false} TotalIncidenceUpdate(ls: seq<seq<Edge>>, k: nat, es: seq<Edge>, j: nat)
    requires k < |ls|
    ensures TotalIncidence(ls[k := es], j) == TotalIncidence(ls, j) - Incidence(ls[k], j) + Incidence(es, j)
  {
    if k > 0 {
      assert ls[k := es][1..] == ls[1..][k - 1 := es];
      TotalIncidenceUpdate(ls[1..], k - 1, es, j);
    } else {
      assert ls[k := es][1..] == ls[1..];
    }
  }

  lemma {:induction false} TotalIncidenceRemove(ls: seq<seq<Edge>>, k: nat, j: nat)
    requires k < |ls|
    ensures TotalIncidence(ls[..k] + ls[k + 1..], j) == TotalIncidence(ls, j) - Incidence(ls[k], j)
  {
    if k > 0 {
      assert (ls[..k] + ls[k + 1..])[1..] == ls[1..][..k - 1] + ls[1..][k..];
      TotalIncidenceRemove(ls[1..], k - 1, j);
    } else {
      assert ls[..k] + ls[k + 1..] == ls[1..];
    }
  }

  lemma {:induction false} TotalIncidenceAppend(ls: seq<seq<Edge>>, es: seq<Edge>, j: nat)
    ensures TotalIncidence(ls + [es], j) == TotalIncidence(ls, j) + Incidence(es, j)
  {
    if ls != [] {
      assert (ls + [es])[1..] == ls[1..] + [es];
      TotalIncidenceAppend(ls[1..], es, j);
    } else {
      assert ([] + [es])[1..] == [];
    }
  }

  /** A particle no live edge touches owns no degree in any graph. */
  lemma {:induction false} TotalIncidenceUntouched(ls: seq<seq<Edge>>, j: nat)
    requires forall k, e | 0 <= k < |ls| && e in ls[k] :: e.from != j && e.to != j
    ensures TotalIncidence(ls, j) == 0
  {
    if ls != [] {
      IncidenceZero(ls[0], j);
      assert forall k, e | 0 <= k < |ls[1..]| && e in ls[1..][k] :: e in ls[k + 1];
      TotalIncidenceUntouched(ls[1..], j);
    }
  }

  /** A particle that owns no degree in any graph is touched by no live edge. */
  lemma {:induction false} TotalIncidenceZero(ls: seq<seq<Edge>>, j: nat)
    requires TotalIncidence(ls, j) == 0
    ensures forall k, e | 0 <= k < |ls| && e in ls[k] :: e.from != j && e.to != j
  {
    if ls != [] {
      IncidenceZero(ls[0], j);
      TotalIncidenceZero(ls[1..], j);
      assert forall k | 1 <= k < |ls| :: ls[k] == ls[1..][k - 1];
    }
  }

  // ---------------------------------------------------------------- traversal state

  /** What an EdgeGraph works on: its `visited` flags and `edges`, and the shared particles. */
  datatype Traversal = Traversal(visited: seq<bool>, edges: seq<Edge>, particles: seq<Particle>)

  /** The `visited` flags of a new graph over `n` particles. */
  function Unvisited(n: nat): (r: seq<bool>)
    ensures |r| == n && forall i | 0 <= i < n :: !r[i]
  {
    seq(n, _ => false)
  }

  /** Every edge end is a particle index. */
  predicate Bounded(es: seq<Edge>, n: nat)
  {
    forall e | e in es :: e.from < n && e.to < n
  }

  /** The indices a graph holds are valid, and `visited` is no longer than the particles. */
  predicate Spans(t: Traversal)
  {
    |t.visited| <= |t.particles| && Bounded(t.edges, |t.particles|)
  }

  /** Every edge end is an active particle. */
  predicate Anchored(es: seq<Edge>, ps: seq<Particle>)
  {
    forall e | e in es :: e.from < |ps| && e.to < |ps| && ps[e.from].active && ps[e.to].active
  }

  /** `qs` is `ps` where only degrees changed and some pulses went back to 0. */
  predicate Touched(ps: seq<Particle>, qs: seq<Particle>)
  {
    && |ps| == |qs|
    && forall j | 0 <= j < |ps| ::
         && qs[j] == ps[j].(deg := qs[j].deg, pulse := qs[j].pulse)
         && (qs[j].pulse == ps[j].pulse || qs[j].pulse == 0.0)
  }

  lemma TouchedTrans(ps: seq<Particle>, qs: seq<Particle>, rs: seq<Particle>)
    requires Touched(ps, qs) && Touched(qs, rs)
    ensures Touched(ps, rs)
  {
  }

  /** Each particle's degree minus what the graph's edges own of it is the same in `t` and `u`:
      whatever the graph added or removed, it added or removed on the degrees too. */
  predicate Balanced(t: Traversal, u: Traversal)
  {
    && |t.particles| == |u.particles|
    && forall j | 0 <= j < |t.particles| ::
         u.particles[j].deg - Incidence(u.edges, j) == t.particles[j].deg - Incidence(t.edges, j)
  }

  /** Adds to each degree the ends `es` puts on it. */
  function AddDegrees(ps: seq<Particle>, es: seq<Edge>): (r: seq<Particle>)
    ensures |r| == |ps|
  {
    seq(|ps|, j requires 0 <= j < |ps| => ps[j].(deg := ps[j].deg + Incidence(es, j)))
  }

  /** Takes from each degree the ends `es` had on it. */
  function DropDegrees(ps: seq<Particle>, es: seq<Edge>): (r: seq<Particle>)
    ensures |r| == |ps|
  {
    seq(|ps|, j requires 0 <= j < |ps| => ps[j].(deg := ps[j].deg - Incidence(es, j)))
  }

  /** `ps[j].deg += k`. */
  function Bump(ps: seq<Particle>, j: nat, k: int): (r: seq<Particle>)
    requires j < |ps|
    ensures |r| == |ps|
  {
    ps[j := ps[j].(deg := ps[j].deg + k)]
  }

  /** Pushing one edge adds one degree at each of its ends: what visit's loop does per edge. */
  lemma AddDegreesPush(ps: seq<Particle>, es: seq<Edge>, e: Edge)
    requires e.from < |ps| && e.to < |ps|
    ensures AddDegrees(ps, es + [e]) == Bump(Bump(AddDegrees(ps, es), e.from, 1), e.to, 1)
  {
    assert (es + [e])[..|es + [e]| - 1] == es;
  }

  /** Delivering one edge takes one degree off each of its ends: what update's pass does per edge. */
  lemma DropDegreesPush(ps: seq<Particle>, es: seq<Edge>, e: Edge)
    requires e.from < |ps| && e.to < |ps|
    ensures DropDegrees(ps, es + [e]) == Bump(Bump(DropDegrees(ps, es), e.from, -1), e.to, -1)
  {
    assert (es + [e])[..|es + [e]| - 1] == es;
  }

  // ---------------------------------------------------------------- visit

  /** Particle `i` gets an edge from `idx`: not yet visited, active, and within range of `idx`. */
  predicate Joins(ps: seq<Particle>, vis: seq<bool>, idx: nat, range: real, i: nat)
    requires idx < |ps| && i < |ps| == |vis|
  {
    !vis[i] && ps[i].active && InRange(ps[idx], ps[i], range)
  }

  /** The edges visit's loop pushes for indices below `n`, in index order. */
  function Candidates(ps: seq<Particle>, vis: seq<bool>, idx: nat, range: real, n: nat): (r: seq<Edge>)
    requires idx < |ps| && n <= |ps| == |vis|
    ensures forall e | e in r :: e.from == idx && e.to < n && e.progress == 0.0 && Joins(ps, vis, idx, range, e.to)
    ensures forall i | 0 <= i < n && Joins(ps, vis, idx, range, i) :: Edge(idx, i, 0.0) in r
    ensures forall a, b | 0 <= a < b < |r| :: r[a].to < r[b].to
  {
    if n == 0 then []
    else
      var r := Candidates(ps, vis, idx, range, n - 1);
      r + (if Joins(ps, vis, idx, range, n - 1) then [Edge(idx, n - 1, 0.0)] else [])
  }

  /** EdgeGraph.visit(idx) on values. */
  function Visit(t: Traversal, idx: nat, range: real): (r: Traversal)
    requires Spans(t) && |t.visited| == |t.particles| && idx < |t.particles|
    ensures Spans(r) && |r.visited| == |r.particles| == |t.particles|
    ensures r.visited[idx]
    ensures Touched(t.particles, r.particles)
  {
    if t.visited[idx] then t
    else
      var vis := t.visited[idx := true];
      var ps := t.particles[idx := t.particles[idx].(pulse := 0.0)];
      var added := Candidates(ps, vis, idx, range, |ps|);
      Traversal(vis, t.edges + added, AddDegrees(ps, added))
  }

  /** visit on an already visited index changes nothing. */
  lemma VisitVisited(t: Traversal, idx: nat, range: real)
    requires Spans(t) && |t.visited| == |t.particles| && idx < |t.particles|
    requires t.visited[idx]
    ensures Visit(t, idx, range) == t
  {
  }

  /** visit is idempotent: a second visit of the same index is a no-op. */
  lemma VisitIdempotent(t: Traversal, idx: nat, range: real)
    requires Spans(t) && |t.visited| == |t.particles| && idx < |t.particles|
    ensures Visit(Visit(t, idx, range), idx, range) == Visit(t, idx, range)
  {
  }

  /** What a first visit of `idx` does: marks it, restarts its pulse, and appends one edge
      `{idx, i, 0}` for every other unvisited active particle `i` in range (each exactly once,
      in index order), raising the degrees at both ends, and nothing else. */
  lemma {:induction false} VisitAdds(t: Traversal, idx: nat, range: real)
    requires Spans(t) && |t.visited| == |t.particles| && idx < |t.particles|
    requires !t.visited[idx]
    ensures var r := Visit(t, idx, range);
      && r.visited == t.visited[idx := true]
      && r.particles[idx].pulse == 0.0
      && |r.edges| >= |t.edges| && r.edges[..|t.edges|] == t.edges
      && (forall e | e in r.edges[|t.edges|..] ::
            && e.from == idx && e.to != idx && e.progress == 0.0
            && e.to < |t.particles| && !t.visited[e.to] && t.particles[e.to].active
            && InRange(t.particles[idx], t.particles[e.to], range))
      && (forall i | 0 <= i < |t.particles| && i != idx && !t.visited[i] && t.particles[i].active
                     && InRange(t.particles[idx], t.particles[i], range) ::
            Edge(idx, i, 0.0) in r.edges[|t.edges|..])
      && (forall a, b | |t.edges| <= a < b < |r.edges| :: r.edges[a].to < r.edges[b].to)
    // the other pulses are kept, and each degree rises by the ends the new edges put on it
    ensures var r := Visit(t, idx, range);
      && (forall j | 0 <= j < |t.particles| && j != idx :: r.particles[j].pulse == t.particles[j].pulse)
      && (forall j | 0 <= j < |t.particles| :: r.particles[j].deg == t.particles[j].deg + Incidence(r.edges[|t.edges|..], j))
  {
    VisitAppends(t, idx, range);
    VisitRaises(t, idx, range);
  }

  /** The edge half of a first visit: idx is marked, its pulse restarts, and the appended edges
      are exactly the candidate edges. */
  lemma VisitAppends(t: Traversal, idx: nat, range: real)
    requires Spans(t) && |t.visited| == |t.particles| && idx < |t.particles|
    requires !t.visited[idx]
    ensures var r := Visit(t, idx, range);
      && r.visited == t.visited[idx := true]
      && r.particles[idx].pulse == 0.0
      && |r.edges| >= |t.edges| && r.edges[..|t.edges|] == t.edges
      && (forall e | e in r.edges[|t.edges|..] ::
            && e.from == idx && e.to != idx && e.progress == 0.0
            && e.to < |t.particles| && !t.visited[e.to] && t.particles[e.to].active
            && InRange(t.particles[idx], t.particles[e.to], range))
      && (forall i | 0 <= i < |t.particles| && i != idx && !t.visited[i] && t.particles[i].active
                     && InRange(t.particles[idx], t.particles[i], range) ::
            Edge(idx, i, 0.0) in r.edges[|t.edges|..])
      && (forall a, b | |t.edges| <= a < b < |r.edges| :: r.edges[a].to < r.edges[b].to)
  {
    var vis := t.visited[idx := true];
    var ps := t.particles[idx := t.particles[idx].(pulse := 0.0)];
    var added := Candidates(ps, vis, idx, range, |ps|);
    var r := Visit(t, idx, range);
    assert r.edges == t.edges + added;
    assert r.edges[|t.edges|..] == added;
    assert forall a | |t.edges| <= a < |r.edges| :: r.edges[a] == added[a - |t.edges|];
    JoinsMarked(t, idx, range);
  }

  /** After idx is marked and its pulse restarted, the particles joining idx are the unvisited,
      active ones in range of it before the visit. */
  lemma JoinsMarked(t: Traversal, idx: nat, range: real)
    requires |t.visited| == |t.particles| && idx < |t.particles| && !t.visited[idx]
    ensures var vis := t.visited[idx := true];
      var ps := t.particles[idx := t.particles[idx].(pulse := 0.0)];
      forall i | 0 <= i < |ps| :: Joins(ps, vis, idx, range, i) <==>
        i != idx && !t.visited[i] && t.particles[i].active && InRange(t.particles[idx], t.particles[i], range)
  {
    var vis := t.visited[idx := true];
    var ps := t.particles[idx := t.particles[idx].(pulse := 0.0)];
    forall i | 0 <= i < |ps|
      ensures Joins(ps, vis, idx, range, i) <==>
        i != idx && !t.visited[i] && t.particles[i].active && InRange(t.particles[idx], t.particles[i], range)
    {
      InRangeSame(ps[idx], ps[i], t.particles[idx], t.particles[i], range);
    }
  }

  /** The particle half of a first visit: only idx's pulse restarts, and the degrees rise by
      the ends of the appended edges. */
  lemma VisitRaises(t: Traversal, idx: nat, range: real)
    requires Spans(t) && |t.visited| == |t.particles| && idx < |t.particles|
    requires !t.visited[idx]
    ensures var r := Visit(t, idx, range);
      && |r.edges| >= |t.edges|
      && (forall j | 0 <= j < |t.particles| && j != idx :: r.particles[j].pulse == t.particles[j].pulse)
      && (forall j | 0 <= j < |t.particles| :: r.particles[j].deg == t.particles[j].deg + Incidence(r.edges[|t.edges|..], j))
  {
    var vis := t.visited[idx := true];
    var ps := t.particles[idx := t.particles[idx].(pulse := 0.0)];
    var added := Candidates(ps, vis, idx, range, |ps|);
    var r := Visit(t, idx, range);
    assert r.edges[|t.edges|..] == added;
  }

  /** A visit whose root has no unvisited active neighbour in range adds no edge. */
  lemma VisitLonely(t: Traversal, idx: nat, range: real)
    requires Spans(t) && |t.visited| == |t.particles| && idx < |t.particles|
    requires forall i | 0 <= i < |t.particles| && i != idx ::
      t.visited[i] || !t.particles[i].active || !InRange(t.particles[idx], t.particles[i], range)
    ensures Visit(t, idx, range).edges == t.edges
  {
    if !t.visited[idx] {
      VisitAdds(t, idx, range);
      var r := Visit(t, idx, range);
      assert r.edges == r.edges[..|t.edges|];
    }
  }

  /** Every degree the visit raises is owned by the edges it added. */
  lemma {:induction false} VisitBalanced(t: Traversal, idx: nat, range: real)
    requires Spans(t) && |t.visited| == |t.particles| && idx < |t.particles|
    ensures Balanced(t, Visit(t, idx, range))
  {
    if !t.visited[idx] {
      var vis := t.visited[idx := true];
      var ps := t.particles[idx := t.particles[idx].(pulse := 0.0)];
      var added := Candidates(ps, vis, idx, range, |ps|);
      forall j | 0 <= j < |t.particles| ensures Incidence(t.edges + added, j) == Incidence(t.edges, j) + Incidence(added, j) {
        IncidenceAppend(t.edges, added, j);
      }
    }
  }

  /** Visiting an active particle keeps every edge end on an active particle. */
  lemma VisitAnchored(t: Traversal, idx: nat, range: real)
    requires Spans(t) && |t.visited| == |t.particles| && idx < |t.particles|
    requires Anchored(t.edges, t.particles) && t.particles[idx].active
    ensures Anchored(Visit(t, idx, range).edges, Visit(t, idx, range).particles)
  {
    var r := Visit(t, idx, range);
    if !t.visited[idx] {
      VisitAdds(t, idx, range);
      forall e | e in r.edges
        ensures e.from < |r.particles| && e.to < |r.particles| && r.particles[e.from].active && r.particles[e.to].active
      {
        if e !in t.edges {
          assert r.edges == t.edges + r.edges[|t.edges|..];
        }
      }
    }
  }

  /** unlocked.forEach(idx => this.visit(idx)) */
  function VisitAll(t: Traversal, idxs: seq<nat>, range: real): (r: Traversal)
    requires Spans(t) && |t.visited| == |t.particles|
    requires forall k | 0 <= k < |idxs| :: idxs[k] < |t.particles|
    ensures Spans(r) && |r.visited| == |r.particles| == |t.particles|
    ensures Touched(t.particles, r.particles)
    decreases |idxs|
  {
    if idxs == [] then t
    else
      var u := Visit(t, idxs[0], range);
      var r := VisitAll(u, idxs[1..], range);
      TouchedTrans(t.particles, u.particles, r.particles);
      r
  }

  lemma {:induction false} VisitAllBalanced(t: Traversal, idxs: seq<nat>, range: real)
    requires Spans(t) && |t.visited| == |t.particles|
    requires forall k | 0 <= k < |idxs| :: idxs[k] < |t.particles|
    ensures Balanced(t, VisitAll(t, idxs, range))
    decreases |idxs|
  {
    if idxs != [] {
      VisitBalanced(t, idxs[0], range);
      VisitAllBalanced(Visit(t, idxs[0], range), idxs[1..], range);
    }
  }

  lemma {:induction false} VisitAllAnchored(t: Traversal, idxs: seq<nat>, range: real)
    requires Spans(t) && |t.visited| == |t.particles|
    requires forall k | 0 <= k < |idxs| :: idxs[k] < |t.particles| && t.particles[idxs[k]].active
    requires Anchored(t.edges, t.particles)
    ensures Anchored(VisitAll(t, idxs, range).edges, VisitAll(t, idxs, range).particles)
    decreases |idxs|
  {
    if idxs != [] {
      VisitAnchored(t, idxs[0], range);
      VisitAllAnchored(Visit(t, idxs[0], range), idxs[1..], range);
    }
  }

  // ---------------------------------------------------------------- growing the edges

  /** The outcome of update's reverse edge pass: the edges still growing (in their order), the
      delivered edges, and the delivered `to` ends in the order the pass found them. */
  datatype Pass = Pass(kept: seq<Edge>, removed: seq<Edge>, unlocked: seq<nat>)

  /** Every edge with `progress` advanced by `step`. */
  function Grown(es: seq<Edge>, step: real): (r: seq<Edge>)
    ensures |r| == |es|
  {
    if es == [] then [] else [es[0].(progress := es[0].progress + step)] + Grown(es[1..], step)
  }

  /** The reverse pass over `es`: advance each edge by `step`, deliver it when its progress has
      reached the current distance of its ends. */
  function Grow(es: seq<Edge>, ps: seq<Particle>, step: real): (r: Pass)
    requires Bounded(es, |ps|)
    // every edge lands on exactly one side, and each delivery unlocks one particle
    ensures |r.kept| + |r.removed| == |es| && |r.unlocked| == |r.removed|
  {
    if es == [] then Pass([], [], [])
    else
      var e := es[0].(progress := es[0].progress + step);
      var rest := Grow(es[1..], ps, step);
      if Reached(e.progress, ps[e.from], ps[e.to]) then
        Pass(rest.kept, rest.removed + [e], rest.unlocked + [e.to])
      else
        Pass([e] + rest.kept, rest.removed, rest.unlocked)
  }

  /** The pass judges every edge: the survivors have not reached their target, the delivered
      edges have, and `unlocked` lists the delivered edges' `to` ends in delivery order. */
  lemma {:induction false} GrowJudged(es: seq<Edge>, ps: seq<Particle>, step: real)
    requires Bounded(es, |ps|)
    ensures var r := Grow(es, ps, step);
      && (forall e | e in r.kept :: e.from < |ps| && e.to < |ps| && !Reached(e.progress, ps[e.from], ps[e.to]))
      && (forall e | e in r.removed :: e.from < |ps| && e.to < |ps| && Reached(e.progress, ps[e.from], ps[e.to]))
      && |r.unlocked| == |r.removed| && (forall k | 0 <= k < |r.removed| :: r.unlocked[k] == r.removed[k].to)
  {
    if es != [] {
      assert Bounded(es[1..], |ps|);
      GrowJudged(es[1..], ps, step);
    }
  }

  /** One step of the pass: the suffix from `i` is edge `i`, advanced and judged, before the
      pass over the suffix after it. */
  lemma GrowHead(es: seq<Edge>, ps: seq<Particle>, step: real, i: nat)
    requires i < |es| && Bounded(es[i..], |ps|)
    ensures Bounded(es[i + 1..], |ps|)
    ensures var e := es[i].(progress := es[i].progress + step);
      var rest := Grow(es[i + 1..], ps, step);
      Grow(es[i..], ps, step) == if Reached(e.progress, ps[e.from], ps[e.to])
        then Pass(rest.kept, rest.removed + [e], rest.unlocked + [e.to])
        else Pass([e] + rest.kept, rest.removed, rest.unlocked)
  {
    assert es[i..][0] == es[i] && es[i..][1..] == es[i + 1..];
  }

  /** Whether an edge has arrived depends on its ends' positions only. */
  lemma ReachedSame(progress: real, a: Particle, b: Particle, a': Particle, b': Particle)
    requires a.x == a'.x && a.y == a'.y && b.x == b'.x && b.y == b'.y
    ensures Reached(progress, a, b) == Reached(progress, a', b')
  {
  }

  /** The pass loses no edge and invents none: survivors and delivered edges together are the
      input edges, each advanced by `step`. */
  lemma {:induction false} GrowPermutes(es: seq<Edge>, ps: seq<Particle>, step: real)
    requires Bounded(es, |ps|)
    ensures multiset(Grow(es, ps, step).kept + Grow(es, ps, step).removed) == multiset(Grown(es, step))
  {
    if es != [] {
      var e := es[0].(progress := es[0].progress + step);
      var rest := Grow(es[1..], ps, step);
      GrowPermutes(es[1..], ps, step);
      assert Grown(es, step) == [e] + Grown(es[1..], step);
      assert multiset(Grown(es, step)) == multiset{e} + multiset(rest.kept + rest.removed);
      var r := Grow(es, ps, step);
      if Reached(e.progress, ps[e.from], ps[e.to]) {
        assert r.kept + r.removed == rest.kept + rest.removed + [e];
      } else {
        assert r.kept + r.removed == [e] + (rest.kept + rest.removed);
      }
    }
  }

  /** A single edge owns its own ends. */
  lemma IncidenceOne(e: Edge, j: nat)
    ensures Incidence([e], j) == Ends(e, j)
  {
    assert [e][..0] == [];
  }

  /** The pass neither creates nor loses edge ends: what the delivered edges owned is exactly
      what the survivors no longer own. */
  lemma {:induction false} GrowSplits(es: seq<Edge>, ps: seq<Particle>, step: real, j: nat)
    requires Bounded(es, |ps|)
    ensures Incidence(es, j) == Incidence(Grow(es, ps, step).kept, j) + Incidence(Grow(es, ps, step).removed, j)
  {
    if es != [] {
      var e := es[0].(progress := es[0].progress + step);
      var rest := Grow(es[1..], ps, step);
      GrowSplits(es[1..], ps, step, j);
      assert es == [es[0]] + es[1..];
      IncidenceAppend([es[0]], es[1..], j);
      var arrived := Reached(e.progress, ps[e.from], ps[e.to]);
      assert Grow(es, ps, step) == if arrived then Pass(rest.kept, rest.removed + [e], rest.unlocked + [e.to])
        else Pass([e] + rest.kept, rest.removed, rest.unlocked);
      SplitStep(es[0], e, rest, arrived, j);
    }
  }

  /** One edge of the pass, kept or delivered as `arrived` says, moves its ends from the input's
      count to the survivors' or the delivered edges'. */
  lemma SplitStep(e0: Edge, e: Edge, rest: Pass, arrived: bool, j: nat)
    requires e.from == e0.from && e.to == e0.to
    ensures var r := if arrived then Pass(rest.kept, rest.removed + [e], rest.unlocked + [e.to])
                     else Pass([e] + rest.kept, rest.removed, rest.unlocked);
      Incidence(r.kept, j) + Incidence(r.removed, j)
        == Incidence([e0], j) + Incidence(rest.kept, j) + Incidence(rest.removed, j)
  {
    IncidenceOne(e0, j);
    IncidenceOne(e, j);
    if arrived {
      IncidenceAppend(rest.removed, [e], j);
    } else {
      IncidenceAppend([e], rest.kept, j);
    }
  }

  /** Visited flags padded with `false` up to the particle count. */
  function Pad(vis: seq<bool>, n: nat): (r: seq<bool>)
    requires |vis| <= n
    ensures |r| == n && r[..|vis|] == vis && forall i | |vis| <= i < n :: !r[i]
  {
    vis + seq(n - |vis|, _ => false)
  }

  /** EdgeGraph.update on values, with `step = 0.0006 * diag * delta`: pad `visited`, run the
      edge pass (taking the delivered edges' ends off the degrees), then visit each delivered
      end in the order the pass found them. */
  function Progress(t: Traversal, step: real, range: real): (r: Traversal)
    requires Spans(t)
    ensures Spans(r) && |r.visited| == |r.particles| == |t.particles|
  {
    GrowJudged(t.edges, t.particles, step);
    var pass := Grow(t.edges, t.particles, step);
    var padded := Traversal(Pad(t.visited, |t.particles|), pass.kept, DropDegrees(t.particles, pass.removed));
    VisitAll(padded, pass.unlocked, range)
  }

  /** update keeps the degree bookkeeping: every degree it takes off was owned by a delivered
      edge, every degree it adds is owned by a new edge. */
  lemma ProgressBalanced(t: Traversal, step: real, range: real)
    requires Spans(t)
    ensures Balanced(t, Progress(t, step, range))
  {
    GrowJudged(t.edges, t.particles, step);
    var pass := Grow(t.edges, t.particles, step);
    var padded := Traversal(Pad(t.visited, |t.particles|), pass.kept, DropDegrees(t.particles, pass.removed));
    forall j | 0 <= j < |t.particles|
      ensures padded.particles[j].deg - Incidence(padded.edges, j) == t.particles[j].deg - Incidence(t.edges, j)
    {
      GrowSplits(t.edges, t.particles, step, j);
    }
    VisitAllBalanced(padded, pass.unlocked, range);
  }

  /** The pass keeps every surviving and every delivered edge on the ends it had. */
  lemma {:induction false} GrowAnchored(es: seq<Edge>, ps: seq<Particle>, step: real)
    requires Anchored(es, ps)
    ensures Anchored(Grow(es, ps, step).kept, ps) && Anchored(Grow(es, ps, step).removed, ps)
  {
    if es != [] {
      assert es[0] in es;
      assert forall e | e in es[1..] :: e in es;
      GrowAnchored(es[1..], ps, step);
    }
  }

  /** update only ever connects active particles, and only changes degrees and pulses. */
  lemma ProgressAnchored(t: Traversal, step: real, range: real)
    requires Spans(t) && Anchored(t.edges, t.particles)
    ensures Anchored(Progress(t, step, range).edges, Progress(t, step, range).particles)
    ensures Touched(t.particles, Progress(t, step, range).particles)
  {
    GrowJudged(t.edges, t.particles, step);
    var pass := Grow(t.edges, t.particles, step);
    var padded := Traversal(Pad(t.visited, |t.particles|), pass.kept, DropDegrees(t.particles, pass.removed));
    GrowDropAnchored(t.edges, t.particles, step);
    VisitAllAnchored(padded, pass.unlocked, range);
  }

  /** The grow phase of update leaves the kept edges and the unlocked targets on active
      particles, and only lowers degrees. */
  lemma GrowDropAnchored(es: seq<Edge>, ps: seq<Particle>, step: real)
    requires Bounded(es, |ps|) && Anchored(es, ps)
    ensures var pass := Grow(es, ps, step);
      var qs := DropDegrees(ps, pass.removed);
      && Touched(ps, qs) && Anchored(pass.kept, qs)
      && forall k | 0 <= k < |pass.unlocked| :: pass.unlocked[k] < |qs| && qs[pass.unlocked[k]].active
  {
    GrowJudged(es, ps, step);
    GrowAnchored(es, ps, step);
    var pass := Grow(es, ps, step);
    assert forall k | 0 <= k < |pass.removed| :: pass.removed[k] in pass.removed;
  }
}
