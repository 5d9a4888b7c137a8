/** The constellation engine: the particle pool with its active count, the EdgeGraph objects
    that animate a traversal from a clicked particle, the frame driver and the click handler. */
module Constellation {
  import opened Particles
  import opened Propagation

  /** Edge growth per millisecond, as a fraction of the diagonal. */
  const EDGE_SPEED: real := 0.0006
  /** The largest time step one frame may take, in milliseconds. */
  const DELTA_CAP: real := 999.0
  const SPEED_JITTER: real := 0.00004

  /** How far every edge grows in a frame of `delta` milliseconds on a canvas with diagonal `diag`. */
  function Step(diag: real, delta: real): real
  {
    EDGE_SPEED * diag * delta
  }

  // ---------------------------------------------------------------- the bookkeeping on values

  /** The degree bookkeeping of the particle pool against the edge lists `ls` of all live graphs:
      every pulse is in [0, 1], every edge end is an active particle, and every degree is the
      number of live edge ends on that particle. */
  predicate Ledger(ps: seq<Particle>, ls: seq<seq<Edge>>)
  {
    && (forall j | 0 <= j < |ps| :: 0.0 <= ps[j].pulse <= 1.0)
    && (forall k | 0 <= k < |ls| :: Anchored(ls[k], ps))
    && (forall j | 0 <= j < |ps| :: ps[j].deg == TotalIncidence(ls, j))
  }

  /** Particles that no live edge touches: exactly the degree-0 ones, and every inactive one. */
  lemma LedgerFree(ps: seq<Particle>, ls: seq<seq<Edge>>, j: nat)
    requires Ledger(ps, ls) && j < |ps|
    ensures !ps[j].active ==> ps[j].deg == 0
    ensures ps[j].deg == 0 <==> forall k, e | 0 <= k < |ls| && e in ls[k] :: e.from != j && e.to != j
  {
    if forall k, e | 0 <= k < |ls| && e in ls[k] :: e.from != j && e.to != j {
      TotalIncidenceUntouched(ls, j);
    }
    if ps[j].deg == 0 {
      TotalIncidenceZero(ls, j);
    }
  }

  /** Replacing particle `j` as update() does keeps the bookkeeping, provided a particle with
      edges stays active with its degree, and only an inactive particle's degree may reset. */
  lemma LedgerDrift(ps: seq<Particle>, ls: seq<seq<Edge>>, j: nat, q: Particle)
    requires Ledger(ps, ls) && j < |ps|
    requires 0.0 <= q.pulse <= 1.0
    requires ps[j].active && ps[j].deg != 0 ==> q.active && q.deg == ps[j].deg
    requires ps[j].active || ps[j].deg == 0 ==> q.deg == ps[j].deg
    ensures Ledger(ps[j := q], ls)
  {
    LedgerFree(ps, ls, j);
    var qs := ps[j := q];
    forall k | 0 <= k < |ls| ensures Anchored(ls[k], qs) {
      forall e | e in ls[k] ensures e.from < |qs| && e.to < |qs| && qs[e.from].active && qs[e.to].active {
        assert ps[e.from].active && ps[e.to].active;
      }
    }
  }

  /** A new particle without degree, appended to the pool, keeps the bookkeeping. */
  lemma LedgerAppend(ps: seq<Particle>, ls: seq<seq<Edge>>, p: Particle)
    requires Ledger(ps, ls)
    requires 0.0 <= p.pulse <= 1.0 && p.deg == 0
    ensures Ledger(ps + [p], ls)
  {
    var n := |ps|;
    forall k, e | 0 <= k < |ls| && e in ls[k] ensures e.from != n && e.to != n {
      assert Anchored(ls[k], ps);
    }
    TotalIncidenceUntouched(ls, n);
  }

  /** One graph's update keeps the bookkeeping of all graphs, and touches only degrees and pulses. */
  lemma LedgerTick(ps: seq<Particle>, ls: seq<seq<Edge>>, i: nat, vis: seq<bool>, step: real, range: real)
    requires Ledger(ps, ls) && i < |ls| && |vis| <= |ps|
    ensures Spans(Traversal(vis, ls[i], ps))
    ensures var u := Progress(Traversal(vis, ls[i], ps), step, range);
      Ledger(u.particles, ls[i := u.edges]) && Touched(ps, u.particles)
  {
    var t := Traversal(vis, ls[i], ps);
    assert Anchored(ls[i], ps);
    var u := Progress(t, step, range);
    ProgressBalanced(t, step, range);
    ProgressAnchored(t, step, range);
    var ls' := ls[i := u.edges];
    forall j | 0 <= j < |u.particles| ensures u.particles[j].deg == TotalIncidence(ls', j) {
      TotalIncidenceUpdate(ls, i, u.edges, j);
    }
    forall k | 0 <= k < |ls'| ensures Anchored(ls'[k], u.particles) {
      if k != i {
        assert Anchored(ls[k], ps);
      }
    }
  }

  /** A graph left without edges can be discarded. */
  lemma LedgerDrop(ps: seq<Particle>, ls: seq<seq<Edge>>, i: nat)
    requires Ledger(ps, ls) && i < |ls| && ls[i] == []
    ensures Ledger(ps, ls[..i] + ls[i + 1..])
  {
    var ls' := ls[..i] + ls[i + 1..];
    forall j | 0 <= j < |ps| ensures ps[j].deg == TotalIncidence(ls', j) {
      TotalIncidenceRemove(ls, i, j);
    }
    forall k | 0 <= k < |ls'| ensures Anchored(ls'[k], ps) {
      if k >= i {
        assert ls'[k] == ls[k + 1];
      }
    }
  }

  /** A new graph rooted at an active particle keeps the bookkeeping of all graphs. */
  lemma LedgerRoot(ps: seq<Particle>, ls: seq<seq<Edge>>, root: nat, range: real)
    requires Ledger(ps, ls) && root < |ps| && ps[root].active
    ensures var u := Propagation.Visit(Traversal(Unvisited(|ps|), [], ps), root, range);
      Ledger(u.particles, ls + [u.edges])
  {
    var t := Traversal(Unvisited(|ps|), [], ps);
    var u := Propagation.Visit(t, root, range);
    VisitBalanced(t, root, range);
    VisitAnchored(t, root, range);
    forall j | 0 <= j < |u.particles| ensures u.particles[j].deg == TotalIncidence(ls + [u.edges], j) {
      TotalIncidenceAppend(ls, u.edges, j);
    }
    forall k | 0 <= k < |ls + [u.edges]| ensures Anchored((ls + [u.edges])[k], u.particles) {
      if k < |ls| {
        assert Anchored(ls[k], ps);
      }
    }
  }

  /** The prefix of `s` up to index `i`, followed by `b`, is `s[..i]`, then `s[i]`, then `b`. */
  lemma Regroup<T>(s: seq<T>, i: nat, b: seq<T>)
    requires i < |s|
    ensures s[..i + 1] + b == s[..i] + ([s[i]] + b)
  {
    assert s[..i + 1] == s[..i] + [s[i]];
  }

  /** Where the parts of `a + [x] + b` lie: what splicing out index `|a|` relies on. */
  lemma Spliced<T>(a: seq<T>, x: T, b: seq<T>)
    ensures var s := a + ([x] + b);
      |s| == |a| + 1 + |b| && s[..|a|] == a && s[|a|] == x && s[|a| + 1..] == b
  {
    var s := a + ([x] + b);
    assert s[|a| + 1..] == b;
  }

  // ---------------------------------------------------------------- the graph loop on values

  /** What an EdgeGraph holds of its own: its `visited` flags and its edges. */
  datatype GraphState = GraphState(visited: seq<bool>, edges: seq<Edge>)

  /** Every graph's flags and edge ends fit a pool of `n` particles. */
  predicate Fits(ss: seq<GraphState>, n: nat)
  {
    forall k | 0 <= k < |ss| :: |ss[k].visited| <= n && Bounded(ss[k].edges, n)
  }

  /** The graph loop of a frame on values, once it has come down to index `i`: every graph from
      the last down to `i` has been updated in that order, each against the particles the graphs
      after it left. Returns every graph's state (edge-free ones included) and the particles. */
  function SweepFrom(ss: seq<GraphState>, ps: seq<Particle>, step: real, range: real, i: nat)
    : (r: (seq<GraphState>, seq<Particle>))
    requires i <= |ss| && Fits(ss, |ps|)
    ensures |r.0| == |ss| && |r.1| == |ps| && Fits(r.0, |ps|)
    ensures r.0[..i] == ss[..i]
    decreases |ss| - i
  {
    if i == |ss| then (ss, ps)
    else
      var (us, qs) := SweepFrom(ss, ps, step, range, i + 1);
      var t := Progress(Traversal(us[i].visited, us[i].edges, qs), step, range);
      (us[i := GraphState(t.visited, t.edges)], t.particles)
  }

  /** `graphs.splice(i, 1)` for every edge-free graph: the graphs whose state still has edges,
      in their order. */
  function Survivors<T(==)>(gs: seq<T>, ss: seq<GraphState>): (r: seq<T>)
    requires |gs| == |ss|
    ensures forall k | 0 <= k < |gs| && ss[k].edges != [] :: gs[k] in r
    ensures forall x | x in r :: exists k :: 0 <= k < |gs| && gs[k] == x && ss[k].edges != []
    ensures forall x | x in r :: x in gs
  {
    if gs == [] then []
    else
      var rest := Survivors(gs[1..], ss[1..]);
      assert forall k | 1 <= k < |gs| :: gs[1..][k - 1] == gs[k] && ss[1..][k - 1] == ss[k];
      (if ss[0].edges != [] then [gs[0]] else []) + rest
  }

  /** Survivors from index `i` on: graph `i` if it has edges, then the survivors after it. */
  lemma SurvivorsFrom<T>(gs: seq<T>, ss: seq<GraphState>, i: nat)
    requires i < |gs| == |ss|
    ensures Survivors(gs[i..], ss[i..])
      == (if ss[i].edges != [] then [gs[i]] else []) + Survivors(gs[i + 1..], ss[i + 1..])
  {
    assert gs[i..][1..] == gs[i + 1..] && ss[i..][1..] == ss[i + 1..];
  }

  /** Replacing state `i` keeps the survivors after it and decides graph `i` by the new state. */
  lemma KeptStep<T>(gs: seq<T>, before: seq<GraphState>, st: GraphState, i: nat)
    requires i < |gs| == |before|
    ensures Survivors(gs[i..], before[i := st][i..])
      == (if st.edges != [] then [gs[i]] else []) + Survivors(gs[i + 1..], before[i + 1..])
  {
    assert before[i := st][i + 1..] == before[i + 1..];
    SurvivorsFrom(gs, before[i := st], i);
  }

  /** One more step of the sweep: graph `i` advances over the particles the later graphs left. */
  lemma SweepStep(ss: seq<GraphState>, ps: seq<Particle>, step: real, range: real, i: nat,
                  us: seq<GraphState>, qs: seq<Particle>)
    requires i < |ss| && Fits(ss, |ps|) && (us, qs) == SweepFrom(ss, ps, step, range, i + 1)
    ensures var t := Progress(Traversal(us[i].visited, us[i].edges, qs), step, range);
      SweepFrom(ss, ps, step, range, i) == (us[i := GraphState(t.visited, t.edges)], t.particles)
  {
  }

  /** Among distinct graphs, graph `i` is not among the survivors of those after it. */
  lemma NotYetKept<T>(gs: seq<T>, ss: seq<GraphState>, i: nat)
    requires i < |gs| == |ss| && forall a, b | 0 <= a < b < |gs| :: gs[a] != gs[b]
    ensures gs[i] !in Survivors(gs[i + 1..], ss[i + 1..])
  {
    var later := gs[i + 1..];
    forall k | 0 <= k < |later| ensures later[k] != gs[i] {
      assert later[k] == gs[i + 1 + k];
    }
  }

  // ---------------------------------------------------------------- the objects

  /** The edge lists of the graphs, in order. */
  ghost function EdgesOf(gs: seq<EdgeGraph>): (r: seq<seq<Edge>>)
    reads gs
    ensures |r| == |gs| && forall k | 0 <= k < |gs| :: r[k] == gs[k].edges
  {
    seq(|gs|, k requires 0 <= k < |gs| reads gs => gs[k].edges)
  }

  /** The states of the graphs, in order. */
  ghost function StatesOf(gs: seq<EdgeGraph>): (r: seq<GraphState>)
    reads gs
    ensures |r| == |gs| && forall k | 0 <= k < |gs| :: r[k] == GraphState(gs[k].visited, gs[k].edges)
  {
    seq(|gs|, k requires 0 <= k < |gs| reads gs => GraphState(gs[k].visited, gs[k].edges))
  }

  lemma EdgesOfAppend(gs: seq<EdgeGraph>, g: EdgeGraph)
    ensures EdgesOf(gs + [g]) == EdgesOf(gs) + [g.edges]
  {
  }

  /** One turn of visit's loop, judged on the degrees raised so far: whether index `i` gets an
      edge is decided as on the particles before the visit, and the edge it gets is pushed and
      counted on both ends. */
  lemma ConnectStep(ps0: seq<Particle>, vis: seq<bool>, idx: nat, range: real, i: nat)
    requires idx < |ps0| == |vis| && i < |ps0|
    ensures var c := Candidates(ps0, vis, idx, range, i);
      var ps := AddDegrees(ps0, c);
      && (Joins(ps0, vis, idx, range, i) <==> !vis[i] && ps[i].active && InRange(ps[idx], ps[i], range))
      && (Joins(ps0, vis, idx, range, i) ==>
            && Candidates(ps0, vis, idx, range, i + 1) == c + [Edge(idx, i, 0.0)]
            && AddDegrees(ps0, c + [Edge(idx, i, 0.0)]) == Bump(Bump(ps, idx, 1), i, 1))
      && (!Joins(ps0, vis, idx, range, i) ==> Candidates(ps0, vis, idx, range, i + 1) == c)
  {
    var c := Candidates(ps0, vis, idx, range, i);
    var ps := AddDegrees(ps0, c);
    assert ps[i].active == ps0[i].active;
    InRangeSame(ps[idx], ps[i], ps0[idx], ps0[i], range);
    AddDegreesPush(ps0, c, Edge(idx, i, 0.0));
  }

  class EdgeGraph {
    var visited: seq<bool>
    var edges: seq<Edge>

    /** new EdgeGraph(startIndex): nothing visited yet, no edges, then visit(startIndex). */
    constructor (s: Scene, start: nat)
      requires start < |s.particles|
      modifies s`particles
      ensures Traversal(visited, edges, s.particles)
        == Propagation.Visit(Traversal(Unvisited(|old(s.particles)|), [], old(s.particles)), start, s.view.range)
    {
      visited := Unvisited(|s.particles|);
      edges := [];
      new;
      Visit(s, start);
    }

    /** visit(idx): mark idx, restart its pulse, connect it to every unvisited active particle
        within range and count each new edge on both ends' degrees. */
    method Visit(s: Scene, idx: nat)
      requires Spans(Traversal(visited, edges, s.particles)) && |visited| == |s.particles|
      requires idx < |s.particles|
      modifies this, s`particles
      ensures Traversal(visited, edges, s.particles)
        == Propagation.Visit(old(Traversal(visited, edges, s.particles)), idx, s.view.range)
    {
      if visited[idx] {
        return;
      }
      var vis := visited[idx := true];
      var ps := s.particles[idx := s.particles[idx].(pulse := 0.0)];
      var es;
      es, ps := Connect(ps, vis, idx, s.view.range, edges);
      visited := vis;
      edges := es;
      s.particles := ps;
    }

    /** The loop of visit(idx): for each index in turn, push an edge from `idx` to every
        unvisited active particle within range and raise both ends' degrees. */
    method Connect(ps0: seq<Particle>, vis: seq<bool>, idx: nat, range: real, es0: seq<Edge>)
      returns (es: seq<Edge>, ps: seq<Particle>)
      requires idx < |ps0| == |vis|
      ensures es == es0 + Candidates(ps0, vis, idx, range, |ps0|)
      ensures ps == AddDegrees(ps0, Candidates(ps0, vis, idx, range, |ps0|))
    {
      es, ps := es0, ps0;
      assert es0 + [] == es0;
      for i := 0 to |ps|
        invariant |ps| == |ps0|
        invariant es == es0 + Candidates(ps0, vis, idx, range, i)
        invariant ps == AddDegrees(ps0, Candidates(ps0, vis, idx, range, i))
      {
        ConnectStep(ps0, vis, idx, range, i);
        if vis[i] || !ps[i].active || !InRange(ps[idx], ps[i], range) {
          continue;
        }
        es := es + [Edge(idx, i, 0.0)];
        ps := Bump(Bump(ps, idx, 1), i, 1);
      }
    }

    /** update(delta): pad `visited` to the particle count, grow every edge (last to first),
        deliver those that reached their target, then visit the delivered ends. */
    method Update(s: Scene, delta: real)
      requires Spans(Traversal(visited, edges, s.particles))
      modifies this, s`particles
      ensures Traversal(visited, edges, s.particles)
        == Progress(old(Traversal(visited, edges, s.particles)), Step(s.view.diag, delta), s.view.range)
    {
      PadVisited(|s.particles|);
      var step := Step(s.view.diag, delta);
      GrowJudged(old(edges), old(s.particles), step);
      var unlocked := Deliver(s, step);
      VisitEach(s, unlocked);
    }

    /** The first loop of update(): push `false` until `visited` covers `n` particles. */
    method PadVisited(n: nat)
      requires |visited| <= n
      modifies this`visited
      ensures visited == Pad(old(visited), n)
    {
      while |visited| < n
        invariant |old(visited)| <= |visited| <= n
        invariant visited[..|old(visited)|] == old(visited)
        invariant forall i | |old(visited)| <= i < |visited| :: !visited[i]
        decreases n - |visited|
      {
        visited := visited + [false];
      }
    }

    /** The last loop of update(): visit each delivered end in turn. */
    method VisitEach(s: Scene, idxs: seq<nat>)
      requires Spans(Traversal(visited, edges, s.particles)) && |visited| == |s.particles|
      requires forall k | 0 <= k < |idxs| :: idxs[k] < |s.particles|
      modifies this, s`particles
      ensures Traversal(visited, edges, s.particles)
        == VisitAll(old(Traversal(visited, edges, s.particles)), idxs, s.view.range)
    {
      ghost var start := Traversal(visited, edges, s.particles);
      for k := 0 to |idxs|
        invariant Spans(Traversal(visited, edges, s.particles)) && |visited| == |s.particles| == |start.particles|
        invariant VisitAll(Traversal(visited, edges, s.particles), idxs[k..], s.view.range)
               == VisitAll(start, idxs, s.view.range)
      {
        assert idxs[k..][1..] == idxs[k + 1..];
        Visit(s, idxs[k]);
      }
      assert idxs[|idxs|..] == [];
    }

    /** The edge loop of update(): from the last edge to the first, advance its progress by
        `step`; once it covers the distance between its ends, splice it out, take one degree off
        each end and record its `to` end. */
    method Deliver(s: Scene, step: real) returns (unlocked: seq<nat>)
      requires Bounded(edges, |s.particles|)
      modifies this`edges, s`particles
      ensures var pass := Grow(old(edges), old(s.particles), step);
        && edges == pass.kept
        && unlocked == pass.unlocked
        && s.particles == DropDegrees(old(s.particles), pass.removed)
    {
      var ps := s.particles;
      var es := edges;
      ghost var ps0 := ps;
      ghost var es0 := es;
      ghost var pass := Pass([], [], []);
      unlocked := [];
      var i := |es|;
      while i > 0
        invariant 0 <= i <= |es0| && Bounded(es0[i..], |ps0|) && |ps| == |ps0|
        invariant pass == Grow(es0[i..], ps0, step)
        invariant es == es0[..i] + pass.kept && unlocked == pass.unlocked
        invariant ps == DropDegrees(ps0, pass.removed)
      {
        i := i - 1;
        es, ps, unlocked, pass := Judge(step, i, es, ps, unlocked, es0, ps0, pass);
      }
      assert es0[0..] == es0;
      edges := es;
      s.particles := ps;
    }

    /** One turn of update's reverse loop: edge i is advanced, then spliced out and taken off
        both ends' degrees if it has arrived. */
    static method Judge(step: real, i: nat, es: seq<Edge>, ps: seq<Particle>, unlocked: seq<nat>,
                        ghost es0: seq<Edge>, ghost ps0: seq<Particle>, ghost pass: Pass)
      returns (es': seq<Edge>, ps': seq<Particle>, unlocked': seq<nat>, ghost pass': Pass)
      requires i < |es0| && Bounded(es0[i..], |ps0|) && |ps| == |ps0|
      requires pass == Grow(es0[i + 1..], ps0, step)
      requires es == es0[..i + 1] + pass.kept && unlocked == pass.unlocked
      requires ps == DropDegrees(ps0, pass.removed)
      ensures |ps'| == |ps0| && pass' == Grow(es0[i..], ps0, step)
      ensures es' == es0[..i] + pass'.kept && unlocked' == pass'.unlocked
      ensures ps' == DropDegrees(ps0, pass'.removed)
    {
      GrowHead(es0, ps0, step, i);
      assert es[i] == es0[i];
      var edge := es[i].(progress := es[i].progress + step);
      // only degrees differ from ps0, so arrival is judged as on ps0
      ReachedSame(edge.progress, ps[edge.from], ps[edge.to], ps0[edge.from], ps0[edge.to]);
      assert es[..i] == es0[..i] && es[i + 1..] == pass.kept;
      if Reached(edge.progress, ps[edge.from], ps[edge.to]) {
        DropDegreesPush(ps0, pass.removed, edge);
        pass' := Pass(pass.kept, pass.removed + [edge], pass.unlocked + [edge.to]);
        es' := es[..i] + es[i + 1..];
        ps' := Bump(Bump(ps, edge.from, -1), edge.to, -1);
        unlocked' := unlocked + [edge.to];
      } else {
        assert es[i := edge] == es0[..i] + ([edge] + pass.kept);
        pass' := Pass([edge] + pass.kept, pass.removed, pass.unlocked);
        es' := es[i := edge];
        ps' := ps;
        unlocked' := unlocked;
      }
    }
  }

  /** The state of the engine's closure: viewport, particle pool, active count, live graphs,
      the running flag and the last frame's timestamp (0 before the first frame). */
  class Scene {
    var view: Viewport
    var particles: seq<Particle>
    var activeCount: int
    var graphs: seq<EdgeGraph>
    var running: bool
    var lastTime: real

    /** The engine's invariant: the canvas has a size, `activeCount` counts the active particles, the graphs are
        distinct objects whose `visited` flags cover no more than the pool, and the particles'
        degrees and pulses agree with the graphs' edges as Ledger says. */
    ghost predicate Valid()
      reads this`view, this`activeCount, this`particles, this`graphs, graphs
    {
      && view.width >= 0.0 && view.height >= 0.0
      && activeCount == CountActive(particles)
      && (forall a, b | 0 <= a < b < |graphs| :: graphs[a] != graphs[b])
      && (forall k | 0 <= k < |graphs| :: |graphs[k].visited| <= |particles|)
      && Ledger(particles, EdgesOf(graphs))
    }

    /** Module start-up: resize, then TARGET_COUNT particles, each respawned on the ring and
        aged by one update of `(0.145 / SPEED_JITTER) * Math.random()` milliseconds. */
    constructor (width: real, height: real, diag: real, rolls: seq<Roll>, ages: seq<real>)
      requires Measured(Viewport(width, height, diag, 0.15 * diag))
      requires |rolls| == |ages| == TARGET_COUNT
      requires forall i | 0 <= i < TARGET_COUNT :: Fair(rolls[i]) && 0.0 <= ages[i] < 1.0
      ensures Valid()
      ensures |particles| == TARGET_COUNT && activeCount == TARGET_COUNT
      // each particle is respawned on the ring and aged by its update, which never despawns it
      ensures forall i | 0 <= i < TARGET_COUNT ::
        particles[i] == Aged(view, rolls[i], ages[i])
      ensures graphs == [] && running && lastTime == 0.0
    {
      view := Viewport(width, height, diag, 0.15 * diag);
      particles := [];
      activeCount := 0;
      graphs := [];
      running := true;
      lastTime := 0.0;
      new;
      PopulateAll(rolls, ages);
    }

    /** The start-up loop: one respawned, aged particle per draw. */
    method PopulateAll(rolls: seq<Roll>, ages: seq<real>)
      requires Valid() && particles == [] && activeCount == 0 && graphs == [] && view.range >= 0.0
      requires |rolls| == |ages| && forall i | 0 <= i < |rolls| :: Fair(rolls[i]) && 0.0 <= ages[i]
      modifies this`particles, this`activeCount
      ensures Valid() && |particles| == |rolls| && activeCount == |rolls|
      ensures forall i | 0 <= i < |rolls| :: particles[i] == Aged(view, rolls[i], ages[i])
    {
      for i := 0 to |rolls|
        invariant Valid() && |particles| == i && activeCount == i
        invariant forall k | 0 <= k < i :: particles[k] == Aged(view, rolls[k], ages[k])
      {
        Populate(ages[i], rolls[i]);
      }
    }

    /** A start-up particle: respawned on the ring, then updated by `(0.145 / SPEED_JITTER) * age`. */
    static function Aged(v: Viewport, d: Roll, age: real): Particle
      requires v.width >= 0.0 && v.height >= 0.0 && Fair(d)
    {
      Advance(Respawn(Fresh, v, d), v.diag, (0.145 / SPEED_JITTER) * age)
    }

    /** One turn of the start-up loop: particles.push(new Particle()), then update it by `age`.
        A respawned particle sits on the ring, inside the margin, so the update only ages it. */
    method Populate(age: real, d: Roll)
      requires Valid() && graphs == [] && Fair(d) && 0.0 <= age && view.range >= 0.0
      modifies this`particles, this`activeCount
      ensures Valid() && activeCount == old(activeCount) + 1
      ensures particles == old(particles) + [Aged(view, d, age)]
    {
      var p := Respawn(Fresh, view, d);
      var a := (0.145 / SPEED_JITTER) * age;
      // a particle on the ring is not off-screen, so its update only advances it
      assert !Offscreen(p, view);
      assert Drift(p, activeCount + 1, view, a, d) == (Aged(view, d, age), activeCount + 1);
      var ps := particles + [p];
      CountActiveAppend(particles, p);
      LedgerAppend(particles, [], p);
      particles := ps;
      activeCount := activeCount + 1;
      UpdateParticle(|particles| - 1, a, d);
      assert particles == ps[|ps| - 1 := Aged(view, d, age)];
    }

    /** resize(): read the window size; `diag` is Math.hypot(width, height). */
    method Resize(width: real, height: real, diag: real)
      requires Valid() && Measured(Viewport(width, height, diag, 0.15 * diag))
      modifies this`view
      ensures Valid() && view == Viewport(width, height, diag, 0.15 * diag)
    {
      view := Viewport(width, height, diag, 0.15 * diag);
    }

    /** particles[j].update(delta), with the draws a respawn would consume. */
    method UpdateParticle(j: nat, delta: real, d: Roll)
      requires Valid() && j < |particles| && Fair(d) && delta >= 0.0
      modifies this`particles, this`activeCount
      ensures |particles| == |old(particles)| && particles == old(particles)[j := particles[j]]
      ensures Valid()
      ensures particles[j] == Drift(old(particles[j]), old(activeCount), view, delta, d).0
      ensures activeCount == Drift(old(particles[j]), old(activeCount), view, delta, d).1
    {
      var r := Drift(particles[j], activeCount, view, delta, d);
      LedgerFree(particles, EdgesOf(graphs), j);
      LedgerDrift(particles, EdgesOf(graphs), j, r.0);
      CountActiveUpdate(particles, j, r.0);
      particles := particles[j := r.0];
      activeCount := r.1;
    }

    /** beforeunload: stop the frame loop. */
    method Unload()
      modifies this`running
      ensures !running
    {
      running := false;
    }

    /** handleClick: append a particle spawned at the click (the population cap does not apply)
        and start a new graph rooted at it. */
    method HandleClick(x: real, y: real, d: Roll)
      requires Valid()
      modifies this`particles, this`activeCount, this`graphs
      ensures Valid()
      ensures activeCount == old(activeCount) + 1
      ensures |graphs| == |old(graphs)| + 1 && graphs[..|old(graphs)|] == old(graphs)
      ensures fresh(graphs[|old(graphs)|])
      ensures var ps := old(particles) + [SpawnAt(Fresh, x, y, d)];
        var t := Propagation.Visit(Traversal(Unvisited(|ps|), [], ps), |ps| - 1, view.range);
        && particles == t.particles
        && graphs[|old(graphs)|].visited == t.visited
        && graphs[|old(graphs)|].edges == t.edges
    {
      Spawn(x, y, d);
      StartGraph(|particles| - 1);
    }

    /** `particles.push(new Particle(x, y))`: spawnAt also counts the particle as active. */
    method Spawn(x: real, y: real, d: Roll)
      requires Valid()
      modifies this`particles, this`activeCount
      ensures Valid()
      ensures particles == old(particles) + [SpawnAt(Fresh, x, y, d)]
      ensures activeCount == old(activeCount) + 1
    {
      var p := SpawnAt(Fresh, x, y, d);
      CountActiveAppend(particles, p);
      LedgerAppend(particles, EdgesOf(graphs), p);
      particles := particles + [p];
      activeCount := activeCount + 1;
    }

    /** `graphs.push(new EdgeGraph(root))`. */
    method StartGraph(root: nat)
      requires Valid() && root < |particles| && particles[root].active
      modifies this`particles, this`graphs
      ensures Valid()
      ensures |graphs| == |old(graphs)| + 1 && graphs[..|old(graphs)|] == old(graphs)
      ensures fresh(graphs[|old(graphs)|])
      ensures var t := Propagation.Visit(Traversal(Unvisited(|old(particles)|), [], old(particles)), root, view.range);
        && particles == t.particles
        && graphs[|old(graphs)|].visited == t.visited
        && graphs[|old(graphs)|].edges == t.edges
    {
      ghost var ls := EdgesOf(graphs);
      ghost var ps := particles;
      ghost var u := Propagation.Visit(Traversal(Unvisited(|ps|), [], ps), root, view.range);
      LedgerRoot(ps, ls, root, view.range);
      label before:
      var g := new EdgeGraph(this, root);
      forall k | 0 <= k < |graphs|
        ensures graphs[k].edges == old@before(graphs[k].edges) && graphs[k].visited == old@before(graphs[k].visited)
      {
      }
      assert EdgesOf(graphs) == ls;
      CountActiveSameFlags(ps, particles);
      Adopt(g);
    }

    /** Appending a new graph, whose edges the bookkeeping already counts, keeps the invariant. */
    method Adopt(g: EdgeGraph)
      requires view.width >= 0.0 && view.height >= 0.0 && activeCount == CountActive(particles)
      requires forall a, b | 0 <= a < b < |graphs| :: graphs[a] != graphs[b]
      requires g !in graphs && |g.visited| <= |particles|
      requires forall k | 0 <= k < |graphs| :: |graphs[k].visited| <= |particles|
      requires Ledger(particles, EdgesOf(graphs) + [g.edges])
      modifies this`graphs
      ensures Valid() && graphs == old(graphs) + [g]
    {
      EdgesOfAppend(graphs, g);
      graphs := graphs + [g];
    }

    /** frame(timestamp): one animation tick. Nothing happens once stopped or for a missing
        timestamp; the first frame only records the time; later frames update every particle
        with the clamped delta, then every graph from last to first, dropping those left
        without edges. */
    method Frame(timestamp: real, width: real, height: real, diag: real, rolls: seq<Roll>)
      requires Valid()
      requires 0.0 <= lastTime <= timestamp
      requires Measured(Viewport(width, height, diag, 0.15 * diag))
      requires |rolls| == |particles| && forall j | 0 <= j < |rolls| :: Fair(rolls[j])
      modifies this, graphs
      ensures Valid()
      ensures running == old(running) && |particles| == |old(particles)|
      ensures !old(running) || timestamp == 0.0 ==> unchanged(this) && forall g | g in old(graphs) :: unchanged(g)
      ensures old(running) && timestamp != 0.0 ==>
        view == Viewport(width, height, diag, 0.15 * diag) && lastTime == timestamp
      ensures old(running) && timestamp != 0.0 && old(lastTime) == 0.0 ==>
        && particles == old(particles) && activeCount == old(activeCount) && graphs == old(graphs)
        && forall g | g in old(graphs) :: unchanged(g)
      // ambient respawn never raises the population above TARGET_COUNT
      ensures activeCount <= if old(activeCount) < TARGET_COUNT then TARGET_COUNT else old(activeCount)
      // a particle that carried edges at the start of the frame is still active
      ensures forall j | 0 <= j < |particles| :: old(particles[j].active) && old(particles[j].deg) != 0 ==> particles[j].active
      // exactly the graphs that still have edges are kept
      ensures old(running) && timestamp != 0.0 && old(lastTime) != 0.0 ==>
        && (forall g | g in graphs :: g in old(graphs) && g.edges != [])
        && (forall g | g in old(graphs) && g.edges != [] :: g in graphs)
      // a later frame is one Tick with the elapsed time capped at DELTA_CAP
      ensures old(running) && timestamp != 0.0 && old(lastTime) != 0.0 ==>
        Ticked(old(graphs), old(StatesOf(graphs)), old(particles), old(activeCount),
               Min(timestamp - old(lastTime), DELTA_CAP), rolls)
    {
      if !running {
        return;
      }
      if timestamp == 0.0 {
        return;
      }
      // resize() does not touch lastTime, so the first-frame test may read it before resizing
      if lastTime == 0.0 {
        Resize(width, height, diag);
        Stamp(timestamp);
        return;
      }
      Elapse(timestamp, width, height, diag, rolls);
    }

    /** A frame after the first: resize, record the timestamp, then Tick with the elapsed time
        capped at DELTA_CAP. */
    method Elapse(timestamp: real, width: real, height: real, diag: real, rolls: seq<Roll>)
      requires Valid() && 0.0 < lastTime <= timestamp
      requires Measured(Viewport(width, height, diag, 0.15 * diag))
      requires |rolls| == |particles| && forall j | 0 <= j < |rolls| :: Fair(rolls[j])
      modifies this`view, this`lastTime, this`particles, this`activeCount, this`graphs, graphs
      ensures Valid() && |particles| == |old(particles)|
      ensures view == Viewport(width, height, diag, 0.15 * diag) && lastTime == timestamp
      ensures activeCount <= if old(activeCount) < TARGET_COUNT then TARGET_COUNT else old(activeCount)
      ensures forall j | 0 <= j < |particles| :: old(particles[j].active) && old(particles[j].deg) != 0 ==> particles[j].active
      ensures forall g | g in graphs :: g in old(graphs) && g.edges != []
      ensures forall g | g in old(graphs) && g.edges != [] :: g in graphs
      ensures Ticked(old(graphs), old(StatesOf(graphs)), old(particles), old(activeCount),
                     Min(timestamp - old(lastTime), DELTA_CAP), rolls)
    {
      ghost var ss := StatesOf(graphs);
      Resize(width, height, diag);
      var delta := Min(timestamp - lastTime, DELTA_CAP);
      Stamp(timestamp);
      assert StatesOf(graphs) == ss && delta == Min(timestamp - old(lastTime), DELTA_CAP);
      assert particles == old(particles) && activeCount == old(activeCount) && graphs == old(graphs);
      Tick(delta, rolls);
    }

    /** lastTime = timestamp. */
    method Stamp(timestamp: real)
      requires Valid()
      modifies this`lastTime
      ensures Valid() && lastTime == timestamp
    {
      lastTime := timestamp;
    }

    /** What a Tick of `delta` leaves, starting from graphs `gs` in states `ss`, particles `ps`
        and `n` active: the particles drift in index order, then the graphs advance from last to
        first over the drifted particles, and the graphs left without edges are dropped. */
    ghost predicate Ticked(gs: seq<EdgeGraph>, ss: seq<GraphState>, ps: seq<Particle>, n: int,
                           delta: real, rolls: seq<Roll>)
      reads this`view, this`particles, this`activeCount, this`graphs, gs
    {
      && |ss| == |gs| && |rolls| == |ps| && (forall j | 0 <= j < |rolls| :: Fair(rolls[j]))
      && view.width >= 0.0 && view.height >= 0.0
      && var d := DriftAll(ps, n, view, delta, rolls, |rolls|);
      && Fits(ss, |d.0|)
      && var r := SweepFrom(ss, d.0, Step(view.diag, delta), view.range, 0);
      && particles == r.1 && activeCount == d.1
      && StatesOf(gs) == r.0 && graphs == Survivors(gs, r.0)
    }

    /** The work of a frame once `delta` is known: every particle, then every graph. */
    method Tick(delta: real, rolls: seq<Roll>)
      requires Valid() && delta >= 0.0
      requires |rolls| == |particles| && forall j | 0 <= j < |rolls| :: Fair(rolls[j])
      modifies this`particles, this`activeCount, this`graphs, graphs
      ensures Valid() && |particles| == |old(particles)| && view == old(view) && lastTime == old(lastTime)
      ensures activeCount <= if old(activeCount) < TARGET_COUNT then TARGET_COUNT else old(activeCount)
      ensures forall j | 0 <= j < |particles| :: old(particles[j].active) && old(particles[j].deg) != 0 ==> particles[j].active
      ensures forall g | g in graphs :: g in old(graphs) && g.edges != []
      ensures forall g | g in old(graphs) && g.edges != [] :: g in graphs
      ensures Ticked(old(graphs), old(StatesOf(graphs)), old(particles), old(activeCount), delta, rolls)
      ensures |particles| >= TARGET_COUNT && old(activeCount) <= TARGET_COUNT ==> activeCount == TARGET_COUNT
    {
      ghost var ps0 := particles;
      ghost var ss := StatesOf(graphs);
      Drive(delta, rolls);
      assert StatesOf(graphs) == ss;
      ghost var ps1 := particles;
      Sweep(delta);
      forall j | 0 <= j < |particles| && ps0[j].active && ps0[j].deg != 0 ensures particles[j].active {
        assert ps1[j].active;
      }
    }

    /** The particle half of a frame: particles[j].update(delta) for every j in order. */
    method Drive(delta: real, rolls: seq<Roll>)
      requires Valid() && delta >= 0.0
      requires |rolls| == |particles| && forall j | 0 <= j < |rolls| :: Fair(rolls[j])
      modifies this`particles, this`activeCount
      ensures Valid() && |particles| == |old(particles)|
      ensures activeCount <= if old(activeCount) < TARGET_COUNT then TARGET_COUNT else old(activeCount)
      ensures forall j | 0 <= j < |particles| :: old(particles[j].active) && old(particles[j].deg) != 0 ==> particles[j].active
      ensures (particles, activeCount) == DriftAll(old(particles), old(activeCount), view, delta, rolls, |rolls|)
      // a pool of at least TARGET_COUNT particles is refilled to exactly the target
      ensures |particles| >= TARGET_COUNT && old(activeCount) <= TARGET_COUNT ==> activeCount == TARGET_COUNT
    {
      ghost var ps := particles;
      for j := 0 to |particles|
        invariant Valid() && |particles| == |old(particles)|
        invariant (particles, activeCount) == DriftAll(old(particles), old(activeCount), view, delta, rolls, j)
        invariant activeCount <= if old(activeCount) < TARGET_COUNT then TARGET_COUNT else old(activeCount)
        invariant forall i | 0 <= i < j :: old(particles[i].active) && old(particles[i].deg) != 0 ==> particles[i].active
        invariant forall i | j <= i < |particles| :: particles[i] == old(particles[i])
      {
        UpdateParticle(j, delta, rolls[j]);
      }
      if |ps| >= TARGET_COUNT && CountActive(ps) <= TARGET_COUNT {
        DriftAllRefills(ps, view, delta, rolls);
      }
    }

    /** The graph half of a frame: for each graph from last to first, update(delta), then
        splice it out if it has no edges left. */
    method Sweep(delta: real)
      requires Valid()
      modifies this`particles, this`graphs, graphs
      ensures Valid() && |particles| == |old(particles)| && view == old(view) && lastTime == old(lastTime)
      ensures activeCount == old(activeCount) && Touched(old(particles), particles)
      ensures Fits(old(StatesOf(graphs)), |old(particles)|)
      ensures var r := SweepFrom(old(StatesOf(graphs)), old(particles), Step(view.diag, delta), view.range, 0);
        particles == r.1 && StatesOf(old(graphs)) == r.0 && graphs == Survivors(old(graphs), r.0)
      ensures forall g | g in graphs :: g in old(graphs) && g.edges != []
      ensures forall g | g in old(graphs) && g.edges != [] :: g in graphs
    {
      Fitting();
      GraphLoop(delta, graphs, StatesOf(graphs), particles);
      Kept(old(graphs), StatesOf(old(graphs)));
    }

    /** The loop of Sweep, from the last graph down to the first; `gs`, `ss` and `ps` are the
        graphs, their states and the particles it starts from. */
    method GraphLoop(delta: real, ghost gs: seq<EdgeGraph>, ghost ss: seq<GraphState>, ghost ps: seq<Particle>)
      requires Valid() && graphs == gs && ss == StatesOf(gs) && ps == particles && Fits(ss, |ps|)
      modifies this`particles, this`graphs, gs
      ensures Valid() && activeCount == old(activeCount) && Touched(ps, particles)
      ensures view == old(view) && lastTime == old(lastTime)
      ensures (StatesOf(gs), particles) == SweepFrom(ss, ps, Step(view.diag, delta), view.range, 0)
      ensures graphs == Survivors(gs, StatesOf(gs))
    {
      ghost var kept: seq<EdgeGraph> := [];
      ghost var n, v, t := activeCount, view, lastTime;
      var i := |graphs|;
      assert gs[..i] + kept == gs;
      assert gs[i..] == [] && StatesOf(gs)[i..] == [];
      while i > 0
        invariant 0 <= i <= |gs|
        invariant graphs == gs[..i] + kept
        invariant Valid() && activeCount == n && Touched(ps, particles)
        invariant view == v && lastTime == t
        invariant forall a, b | 0 <= a < b < |gs| :: gs[a] != gs[b]
        invariant (StatesOf(gs), particles) == SweepFrom(ss, ps, Step(view.diag, delta), view.range, i)
        invariant kept == Survivors(gs[i..], StatesOf(gs)[i..])
      {
        i := i - 1;
        kept := TickGraph(i, delta, gs, kept, ss, ps);
      }
      assert gs[0..] == gs && StatesOf(gs)[0..] == StatesOf(gs);
    }

    /** The survivors of the graph loop are the graphs left with edges. */
    lemma Kept(gs: seq<EdgeGraph>, ss: seq<GraphState>)
      requires |gs| == |ss| && forall k | 0 <= k < |gs| :: ss[k].edges == gs[k].edges
      ensures forall g | g in Survivors(gs, ss) :: g in gs && g.edges != []
      ensures forall g | g in gs && g.edges != [] :: g in Survivors(gs, ss)
    {
      forall g | g in gs && g.edges != [] ensures g in Survivors(gs, ss) {
        var k :| 0 <= k < |gs| && gs[k] == g;
      }
    }

    /** The graphs' flags and edges fit the particle pool. */
    lemma Fitting()
      requires Valid()
      ensures Fits(StatesOf(graphs), |particles|)
    {
      forall k | 0 <= k < |graphs| ensures Bounded(graphs[k].edges, |particles|) {
        assert EdgesOf(graphs)[k] == graphs[k].edges;
      }
    }

    /** One turn of the graph loop: graphs[i].update(delta), then splice the graph out if it has
        no edges left. The ghost parameters are the graphs the loop started with (`gs`), their
        states (`ss`) and the particles (`ps`) at that point, and the graphs it has kept so far,
        from index `i + 1` on. */
    method TickGraph(i: nat, delta: real, ghost gs: seq<EdgeGraph>, ghost kept: seq<EdgeGraph>,
                     ghost ss: seq<GraphState>, ghost ps: seq<Particle>)
      returns (ghost kept': seq<EdgeGraph>)
      requires Valid() && i < |gs| && graphs == gs[..i + 1] + kept
      requires forall a, b | 0 <= a < b < |gs| :: gs[a] != gs[b]
      requires |ss| == |gs| && Fits(ss, |ps|)
      requires (StatesOf(gs), particles) == SweepFrom(ss, ps, Step(view.diag, delta), view.range, i + 1)
      requires kept == Survivors(gs[i + 1..], StatesOf(gs)[i + 1..]) && Touched(ps, particles)
      modifies gs[i], this`particles, this`graphs
      ensures Valid() && activeCount == old(activeCount) && Touched(ps, particles)
      ensures view == old(view) && lastTime == old(lastTime)
      ensures graphs == gs[..i] + kept'
      ensures (StatesOf(gs), particles) == SweepFrom(ss, ps, Step(view.diag, delta), view.range, i)
      ensures kept' == Survivors(gs[i..], StatesOf(gs)[i..])
    {
      Spliced(gs[..i], gs[i], kept);
      Regroup(gs, i, kept);
      ghost var before := StatesOf(gs);
      NotYetKept(gs, before, i);
      ghost var qs := particles;
      AdvanceGraph(i, delta, gs, ss, ps);
      TouchedTrans(ps, qs, particles);
      KeptStep(gs, before, GraphState(gs[i].visited, gs[i].edges), i);
      if graphs[i].edges == [] {
        DropGraph(i);
        kept' := kept;
      } else {
        kept' := [gs[i]] + kept;
      }
    }

    /** graphs[i].update(delta) as the sweep's step `i`: only state `i` changes, by Progress. */
    method AdvanceGraph(i: nat, delta: real, ghost gs: seq<EdgeGraph>, ghost ss: seq<GraphState>,
                        ghost ps: seq<Particle>)
      requires Valid() && i < |gs| && i < |graphs| && graphs[i] == gs[i]
      requires forall a, b | 0 <= a < b < |gs| :: gs[a] != gs[b]
      requires |ss| == |gs| && Fits(ss, |ps|)
      requires (StatesOf(gs), particles) == SweepFrom(ss, ps, Step(view.diag, delta), view.range, i + 1)
      modifies gs[i], this`particles
      ensures Valid() && activeCount == old(activeCount) && Touched(old(particles), particles)
      ensures view == old(view) && lastTime == old(lastTime)
      ensures StatesOf(gs) == old(StatesOf(gs))[i := GraphState(gs[i].visited, gs[i].edges)]
      ensures (StatesOf(gs), particles) == SweepFrom(ss, ps, Step(view.diag, delta), view.range, i)
    {
      ghost var before := StatesOf(gs);
      SweepStep(ss, ps, Step(view.diag, delta), view.range, i, before, particles);
      ghost var t0 := Traversal(before[i].visited, before[i].edges, particles);
      UpdateGraph(i, delta);
      ghost var t := Progress(t0, Step(view.diag, delta), view.range);
      assert Traversal(gs[i].visited, gs[i].edges, particles) == t;
      forall k | 0 <= k < |gs| && k != i
        ensures gs[k].edges == old(gs[k].edges) && gs[k].visited == old(gs[k].visited)
      {
        assert gs[k] != gs[i];
      }
      assert StatesOf(gs) == before[i := GraphState(t.visited, t.edges)];
    }

    /** graphs[i].update(delta) inside the frame. */
    method UpdateGraph(i: nat, delta: real)
      requires Valid() && i < |graphs|
      modifies graphs[i], this`particles
      ensures Valid()
      ensures activeCount == CountActive(particles) && Touched(old(particles), particles)
      ensures Spans(old(Traversal(graphs[i].visited, graphs[i].edges, particles)))
      ensures Traversal(graphs[i].visited, graphs[i].edges, particles)
        == Progress(old(Traversal(graphs[i].visited, graphs[i].edges, particles)), Step(view.diag, delta), view.range)
    {
      var g := graphs[i];
      ghost var ls := EdgesOf(graphs);
      ghost var ps := particles;
      LedgerTick(particles, ls, i, g.visited, Step(view.diag, delta), view.range);
      g.Update(this, delta);
      CountActiveSameFlags(ps, particles);
      forall k | 0 <= k < |graphs| && k != i
        ensures graphs[k].edges == old(graphs[k].edges) && graphs[k].visited == old(graphs[k].visited)
      {
        assert graphs[k] != g;
      }
      assert EdgesOf(graphs) == ls[i := g.edges];
    }

    /** graphs.splice(i, 1) for a graph left without edges. */
    method DropGraph(i: nat)
      requires Valid() && i < |graphs| && graphs[i].edges == []
      modifies this`graphs
      ensures Valid() && graphs == old(graphs[..i] + graphs[i + 1..])
    {
      ghost var ls := EdgesOf(graphs);
      LedgerDrop(particles, ls, i);
      graphs := graphs[..i] + graphs[i + 1..];
      assert EdgesOf(graphs) == ls[..i] + ls[i + 1..];
    }
  }
}
