/** The search under arbitrary weights: it comes to an end exactly when no negative closed walk can be reached,
    and then its distances are right. */
module AnyWeights {
  import opened Base
  import opened Sorting
  import opened RoadGraph
  import opened Walks
  import opened Search

  ghost predicate AnyQuery(g: Graph, w: seq<real>, s: nat) {
    g.Valid() && |w| == g.E() && s < g.N()
  }

  /** The source reaches a node from which one can come back at a negative weight. */
  ghost predicate NegativeLoop(g: Graph, w: seq<real>, s: nat)
    requires g.WellFormed()
  {
    exists v, p, q :: IsNegativeLoop(g, w, s, v, p, q)
  }

  ghost predicate IsNegativeLoop(g: Graph, w: seq<real>, s: nat, v: nat, p: seq<nat>, q: seq<nat>)
    requires g.WellFormed()
  {
    IsWalk(g, s, v, p) && IsWalk(g, v, v, q) && Sum(w, q) < 0.0
  }

  /** The search runs out of entries. */
  ghost predicate Ends(g: Graph, w: seq<real>, s: nat)
    requires AnyQuery(g, w, s)
  {
    exists k: nat :: |Iter(g, w, s, k).heap| == 0
  }

  // ---------- what every step keeps, whatever the weights ----------

  /** Entries name reached nodes, at their distance or above; metres are known where distances are. */
  ghost predicate Sound(g: Graph, st: Search) {
    && Shaped(g, st)
    && (forall x :: x in st.heap ==> x.1 < g.N() && st.dist[x.1].Fin? && st.dist[x.1].v <= x.0)
    && (forall v: nat :: v < g.N() ==> (st.dist[v].Fin? <==> st.length[v].Fin?))
  }

  ghost predicate Satisfied(g: Graph, w: seq<real>, st: Search, e: nat)
    requires g.Valid() && |w| == g.E() && Shaped(g, st) && e < g.E()
  {
    var a, b := st.dist[g.src[e]], st.dist[g.dst[e]];
    a.Fin? && b.Fin? && b.v <= a.v + w[e]
  }

  /** A reached node is queued at its distance, or all its edges are satisfied. */
  ghost predicate Served(g: Graph, w: seq<real>, st: Search, v: nat)
    requires g.Valid() && |w| == g.E() && Shaped(g, st) && v < g.N()
  {
    st.dist[v].Fin? && (st.dist[v].v, v) !in st.heap ==> AllSatisfied(g, w, st, v)
  }

  ghost predicate AllSatisfied(g: Graph, w: seq<real>, st: Search, v: nat)
    requires g.Valid() && |w| == g.E() && Shaped(g, st)
  {
    forall e: nat :: e < g.E() && g.src[e] == v ==> Satisfied(g, w, st, e)
  }

  ghost predicate Tracks(g: Graph, w: seq<real>, s: nat, st: Search) {
    && AnyQuery(g, w, s) && Sound(g, st)
    && st.dist[s].Fin? && st.dist[s].v <= 0.0
    && forall v: nat :: v < g.N() ==> Served(g, w, st, v)
  }

  /** The row of u, popped at d, has been looked at up to pos. */
  ghost predicate RowTracks(g: Graph, w: seq<real>, s: nat, st: Search, d: real, u: nat, pos: nat) {
    && AnyQuery(g, w, s) && Sound(g, st)
    && st.dist[s].Fin? && st.dist[s].v <= 0.0
    && u < g.N() && g.indptr[u] <= pos <= g.indptr[u + 1]
    && (forall v: nat :: v < g.N() && v != u ==> Served(g, w, st, v))
    && st.dist[u].Fin? && st.dist[u].v <= d
    && (st.dist[u].v < d ==> (st.dist[u].v, u) in st.heap)
    && (st.dist[u].v == d ==> RowSatisfied(g, w, st, u, pos))
  }

  ghost predicate RowSatisfied(g: Graph, w: seq<real>, st: Search, u: nat, pos: nat)
    requires g.Valid() && |w| == g.E() && Shaped(g, st) && u < g.N() && g.indptr[u] <= pos <= g.indptr[u + 1]
  {
    forall p: nat :: g.indptr[u] <= p < pos ==> g.InRow(u, p) && Satisfied(g, w, st, g.adj[p])
  }

  /** A distance went down at v, which is queued for it; nothing else about distances and the heap changed. */
  ghost predicate Lowered(g: Graph, st: Search, st': Search, v: nat, nd: real) {
    && Shaped(g, st) && Shaped(g, st') && v < g.N()
    && Less(Fin(nd), st.dist[v])
    && st'.dist == st.dist[v := Fin(nd)] && st'.heap == st.heap + multiset{(nd, v)}
  }

  lemma LoweredServes(g: Graph, w: seq<real>, st: Search, st': Search, v: nat, nd: real, x: nat)
    requires g.Valid() && |w| == g.E() && Lowered(g, st, st', v, nd) && x < g.N() && Served(g, w, st, x)
    ensures Served(g, w, st', x)
  {
    if x != v && st'.dist[x].Fin? && (st'.dist[x].v, x) !in st'.heap {
      forall e: nat | e < g.E() && g.src[e] == x ensures Satisfied(g, w, st', e) {
        assert Satisfied(g, w, st, e);
      }
    }
  }

  lemma LoweredKeepsRow(g: Graph, w: seq<real>, st: Search, st': Search, v: nat, nd: real, u: nat, pos: nat)
    requires g.Valid() && |w| == g.E() && Lowered(g, st, st', v, nd) && v != u
    requires u < g.N() && g.indptr[u] <= pos <= g.indptr[u + 1] && RowSatisfied(g, w, st, u, pos)
    ensures RowSatisfied(g, w, st', u, pos)
  {
    forall p: nat | g.indptr[u] <= p < pos ensures g.InRow(u, p) && Satisfied(g, w, st', g.adj[p]) {
      assert g.InRow(u, p) && Satisfied(g, w, st, g.adj[p]);
    }
  }

  lemma RelaxLowers(g: Graph, w: seq<real>, st: Search, d: real, u: nat, e: nat)
    requires g.Valid() && |w| == g.E() && Sound(g, st) && u < g.N() && e < g.E() && st.dist[u].Fin?
    ensures var st', v, nd := RelaxEdge(g, w, st, d, u, e), g.dst[e], d + w[e];
      && Sound(g, st')
      && if Less(Fin(nd), st.dist[v]) then Lowered(g, st, st', v, nd) else st'.dist == st.dist && st'.heap == st.heap
  {
  }

  lemma RelaxTracks(g: Graph, w: seq<real>, s: nat, st: Search, d: real, u: nat, pos: nat)
    requires RowTracks(g, w, s, st, d, u, pos) && pos < g.indptr[u + 1]
    ensures RowTracks(g, w, s, RelaxEdge(g, w, st, d, u, g.adj[pos]), d, u, pos + 1)
  {
    hide RelaxEdge;
    hide Served;
    hide Graph.HasPlace;
    var e := g.adj[pos];
    assert g.InRow(u, pos);
    var st', v, nd := RelaxEdge(g, w, st, d, u, e), g.dst[e], d + w[e];
    RelaxLowers(g, w, st, d, u, e);
    if Less(Fin(nd), st.dist[v]) {
      forall x: nat | x < g.N() && x != u ensures Served(g, w, st', x) {
        LoweredServes(g, w, st, st', v, nd, x);
      }
      if v != u && st.dist[u].v == d { LoweredKeepsRow(g, w, st, st', v, nd, u, pos); }
    } else {
      forall x: nat | x < g.N() && x != u ensures Served(g, w, st', x) {
        SameServes(g, w, st, st', x);
      }
      if st.dist[u].v == d { SameRow(g, w, st, st', u, pos); }
    }
  }

  lemma SameServes(g: Graph, w: seq<real>, st: Search, st': Search, x: nat)
    requires g.Valid() && |w| == g.E() && Shaped(g, st) && Shaped(g, st') && x < g.N() && Served(g, w, st, x)
    requires st'.dist == st.dist && st.heap <= st'.heap
    ensures Served(g, w, st', x)
  {
    if st'.dist[x].Fin? && (st'.dist[x].v, x) !in st'.heap {
      forall e: nat | e < g.E() && g.src[e] == x ensures Satisfied(g, w, st', e) {
        assert Satisfied(g, w, st, e);
      }
    }
  }

  lemma SameRow(g: Graph, w: seq<real>, st: Search, st': Search, u: nat, pos: nat)
    requires g.Valid() && |w| == g.E() && Shaped(g, st) && Shaped(g, st') && st'.dist == st.dist
    requires u < g.N() && g.indptr[u] <= pos <= g.indptr[u + 1] && RowSatisfied(g, w, st, u, pos)
    ensures RowSatisfied(g, w, st', u, pos)
  {
    forall p: nat | g.indptr[u] <= p < pos ensures g.InRow(u, p) && Satisfied(g, w, st', g.adj[p]) {
      assert g.InRow(u, p) && Satisfied(g, w, st, g.adj[p]);
    }
  }

  lemma {:induction false} RowKeepsTrack(g: Graph, w: seq<real>, s: nat, st: Search, d: real, u: nat, pos: nat)
    requires AnyQuery(g, w, s) && Shaped(g, st) && u < g.N() && g.indptr[u] <= pos <= g.indptr[u + 1]
    requires RowTracks(g, w, s, st, d, u, g.indptr[u])
    ensures RowTracks(g, w, s, RelaxRow(g, w, st, d, u, pos), d, u, pos)
    decreases pos
  {
    hide RelaxEdge;
    hide RowTracks;
    if pos > g.indptr[u] {
      RowKeepsTrack(g, w, s, st, d, u, pos - 1);
      RelaxTracks(g, w, s, RelaxRow(g, w, st, d, u, pos - 1), d, u, pos - 1);
    }
  }

  /** At the end of its row u is queued again or all its edges are satisfied. */
  lemma RowDoneServes(g: Graph, w: seq<real>, s: nat, st: Search, d: real, u: nat)
    requires u < g.N() && u + 1 < |g.indptr| && RowTracks(g, w, s, st, d, u, g.indptr[u + 1])
    ensures Tracks(g, w, s, st)
  {
    if st.dist[u].v == d {
      forall e: nat | e < g.E() && g.src[e] == u ensures Satisfied(g, w, st, e) {
        assert g.HasPlace(e);
        var p: nat :| g.InRow(g.src[e], p) && g.adj[p] == e;
      }
    }
    assert Served(g, w, st, u);
  }

  lemma PopTracks(g: Graph, w: seq<real>, s: nat, st: Search, v: nat)
    requires Tracks(g, w, s, st) && |st.heap| > 0 && v < g.N() && st.dist[v].Fin?
    requires (st.dist[v].v, v) != Top(st.heap)
    ensures Served(g, w, Popped(st), v)
  {
    assert Served(g, w, st, v);
    if (st.dist[v].v, v) !in Popped(st).heap {
      forall e: nat | e < g.E() && g.src[e] == v ensures Satisfied(g, w, Popped(st), e) {
        assert Satisfied(g, w, st, e);
      }
    }
  }

  lemma TopSound(g: Graph, st: Search)
    requires Sound(g, st) && |st.heap| > 0
    ensures var (d, u) := Top(st.heap); u < g.N() && st.dist[u].Fin? && st.dist[u].v <= d
    ensures Sound(g, Popped(st))
  {
  }

  lemma StepTracks(g: Graph, w: seq<real>, s: nat, st: Search)
    requires Tracks(g, w, s, st)
    ensures Tracks(g, w, s, Step(g, w, st))
  {
    hide IsTop;
    hide Served;
    hide RowTracks;
    hide RelaxEdge;
    if |st.heap| > 0 {
      TopSound(g, st);
      var (d, u) := Top(st.heap);
      if Stale(g, st) {
        forall v: nat | v < g.N() ensures Served(g, w, Popped(st), v) {
          PopServes(g, w, s, st, v);
        }
      } else {
        SettledRowStarts(g, w, s, st);
        var st1 := Settle(Popped(st), d, u);
        RowKeepsTrack(g, w, s, st1, d, u, g.indptr[u + 1]);
        RowDoneServes(g, w, s, RelaxRow(g, w, st1, d, u, g.indptr[u + 1]), d, u);
      }
    }
  }

  lemma PopServes(g: Graph, w: seq<real>, s: nat, st: Search, v: nat)
    requires Tracks(g, w, s, st) && |st.heap| > 0 && v < g.N() && (Stale(g, st) || v != Top(st.heap).1)
    ensures Served(g, w, Popped(st), v)
  {
    hide Served;
    if st.dist[v].Fin? { PopTracks(g, w, s, st, v); } else { Unreached(g, w, Popped(st), v); }
  }

  lemma SettledRowStarts(g: Graph, w: seq<real>, s: nat, st: Search)
    requires Tracks(g, w, s, st) && |st.heap| > 0 && !Stale(g, st)
    ensures var (d, u) := Top(st.heap);
      u < g.N() && RowTracks(g, w, s, Settle(Popped(st), d, u), d, u, g.indptr[u])
  {
    hide IsTop;
    hide Served;
    TopSound(g, st);
    var (d, u) := Top(st.heap);
    var st1 := Settle(Popped(st), d, u);
    forall v: nat | v < g.N() && v != u ensures Served(g, w, st1, v) {
      PopServes(g, w, s, st, v);
      SameServes(g, w, Popped(st), st1, v);
    }
  }

  lemma Unreached(g: Graph, w: seq<real>, st: Search, v: nat)
    requires g.Valid() && |w| == g.E() && Shaped(g, st) && v < g.N() && st.dist[v].Inf?
    ensures Served(g, w, st, v)
  {
  }

  lemma {:induction false} IterTracks(g: Graph, w: seq<real>, s: nat, k: nat)
    requires AnyQuery(g, w, s)
    ensures Tracks(g, w, s, Iter(g, w, s, k))
  {
    hide Step;
    if k > 0 {
      IterTracks(g, w, s, k - 1);
      StepTracks(g, w, s, Iter(g, w, s, k - 1));
    }
  }

  // ---------- a search that ended ----------

  /** With nothing queued, every distance is at most the one before it on a walk plus the weight between. */
  lemma {:induction false} EndedBound(g: Graph, w: seq<real>, s: nat, st: Search, u: nat, t: nat, p: seq<nat>)
    requires Tracks(g, w, s, st) && |st.heap| == 0 && u < g.N() && st.dist[u].Fin? && IsWalk(g, u, t, p)
    ensures t < g.N() && st.dist[t].Fin? && st.dist[t].v <= st.dist[u].v + Sum(w, p)
    decreases |p|
  {
    if p != [] {
      var e := p[|p| - 1];
      EndedBound(g, w, s, st, u, g.src[e], p[..|p| - 1]);
      assert Served(g, w, st, g.src[e]);
      assert (st.dist[g.src[e]].v, g.src[e]) !in st.heap;
      assert Satisfied(g, w, st, e);
    }
  }

  /** So it has found no way to gain by going round. */
  lemma EndedMeansNoLoop(g: Graph, w: seq<real>, s: nat, k: nat)
    requires AnyQuery(g, w, s) && |Iter(g, w, s, k).heap| == 0
    ensures !NegativeLoop(g, w, s)
  {
    var st := Iter(g, w, s, k);
    IterTracks(g, w, s, k);
    forall v, p, q | IsWalk(g, s, v, p) && IsWalk(g, v, v, q) ensures Sum(w, q) >= 0.0 {
      EndedBound(g, w, s, st, s, v, p);
      EndedBound(g, w, s, st, v, v, q);
    }
  }

  // ---------- without a negative closed walk, walks stay simple ----------

  /** The node a walk from s stands at after i edges. */
  function Stand(g: Graph, s: nat, p: seq<nat>, i: nat): nat
    requires i <= |p|
  {
    if i == 0 then s else if p[i - 1] < |g.dst| then g.dst[p[i - 1]] else 0
  }

  lemma {:induction false} WalkSplit(g: Graph, w: seq<real>, s: nat, t: nat, p: seq<nat>, i: nat)
    requires g.WellFormed() && IsWalk(g, s, t, p) && i <= |p|
    ensures IsWalk(g, s, Stand(g, s, p, i), p[..i]) && IsWalk(g, Stand(g, s, p, i), t, p[i..])
    ensures Sum(w, p) == Sum(w, p[..i]) + Sum(w, p[i..])
    decreases |p|
  {
    if i == |p| {
      assert p[..i] == p && p[i..] == [];
    } else {
      var e, q := p[|p| - 1], p[..|p| - 1];
      WalkSplit(g, w, s, g.src[e], q, i);
      assert q[..i] == p[..i];
      assert p[i..][..|p[i..]| - 1] == q[i..];
    }
  }

  ghost predicate Simple(g: Graph, s: nat, p: seq<nat>) {
    forall i: nat, j: nat :: i < j <= |p| ==> Stand(g, s, p, i) != Stand(g, s, p, j)
  }

  /** No node on the walk is farther than the walk makes it. */
  ghost predicate Within(g: Graph, w: seq<real>, s: nat, st: Search, p: seq<nat>)
    requires Shaped(g, st)
  {
    forall i: nat :: i <= |p| ==> WithinAt(g, w, s, st, p, i)
  }

  ghost predicate WithinAt(g: Graph, w: seq<real>, s: nat, st: Search, p: seq<nat>, i: nat)
    requires Shaped(g, st) && i <= |p|
  {
    var x := Stand(g, s, p, i);
    x < g.N() && AtMost(st.dist[x], Fin(Sum(w, p[..i])))
  }

  /** The distance of v, if it has one, is the weight of a simple walk. */
  ghost predicate Traced(g: Graph, w: seq<real>, s: nat, st: Search, v: nat)
    requires g.Valid() && Shaped(g, st) && v < g.N()
  {
    var p := st.walk[v];
    st.dist[v].Fin? ==>
      IsWalk(g, s, v, p) && st.dist[v].v == Sum(w, p) && Simple(g, s, p) && Within(g, w, s, st, p)
  }

  ghost predicate Traces(g: Graph, w: seq<real>, s: nat, st: Search) {
    && AnyQuery(g, w, s) && Sound(g, st)
    && forall v: nat :: v < g.N() ==> Traced(g, w, s, st, v)
  }

  ghost predicate RowTraces(g: Graph, w: seq<real>, s: nat, st: Search, d: real, u: nat) {
    Traces(g, w, s, st) && u < g.N() && st.dist[u] == Fin(d)
  }

  /** An edge that improves a node of the walk it extends closes a negative walk. */
  lemma ImprovementIsNew(g: Graph, w: seq<real>, s: nat, st: Search, d: real, u: nat, e: nat, i: nat)
    requires RowTraces(g, w, s, st, d, u) && !NegativeLoop(g, w, s) && e < g.E() && g.src[e] == u
    requires Less(Fin(d + w[e]), st.dist[g.dst[e]]) && i <= |st.walk[u]|
    ensures Stand(g, s, st.walk[u], i) != g.dst[e]
  {
    var p, v := st.walk[u], g.dst[e];
    assert Traced(g, w, s, st, u);
    assert WithinAt(g, w, s, st, p, i);
    if Stand(g, s, p, i) == v {
      WalkSplit(g, w, s, u, p, i);
      WalkSnoc(g, w, v, p[i..], e);
      assert IsNegativeLoop(g, w, s, v, p[..i], p[i..] + [e]);
      assert false;
    }
  }

  lemma ExtendedWalk(g: Graph, w: seq<real>, s: nat, st: Search, d: real, u: nat, e: nat)
    requires RowTraces(g, w, s, st, d, u) && !NegativeLoop(g, w, s) && e < g.E() && g.src[e] == u
    requires Less(Fin(d + w[e]), st.dist[g.dst[e]])
    ensures Traced(g, w, s, RelaxEdge(g, w, st, d, u, e), g.dst[e])
  {
    hide NegativeLoop;
    var p, v, st' := st.walk[u], g.dst[e], RelaxEdge(g, w, st, d, u, e);
    var q := p + [e];
    assert Traced(g, w, s, st, u);
    WalkSnoc(g, w, s, p, e);
    assert Stand(g, s, q, |q|) == v && q[..|q|] == q;
    forall i: nat | i <= |p|
      ensures Stand(g, s, q, i) == Stand(g, s, p, i) != v && WithinAt(g, w, s, st', q, i)
    {
      ImprovementIsNew(g, w, s, st, d, u, e, i);
      assert WithinAt(g, w, s, st, p, i);
      assert q[..i] == p[..i];
    }
  }

  lemma OthersTraced(g: Graph, w: seq<real>, s: nat, st: Search, st': Search, v: nat, nd: real, x: nat)
    requires g.Valid() && |w| == g.E() && Lowered(g, st, st', v, nd) && x < g.N() && x != v
    requires Traced(g, w, s, st, x) && st'.walk[x] == st.walk[x]
    ensures Traced(g, w, s, st', x)
  {
    hide IsWalk;
    hide Sum;
    hide Simple;
    if st.dist[x].Fin? {
      var p := st.walk[x];
      forall i: nat | i <= |p| ensures WithinAt(g, w, s, st', p, i) {
        assert WithinAt(g, w, s, st, p, i);
      }
    }
  }

  lemma RelaxTraces(g: Graph, w: seq<real>, s: nat, st: Search, d: real, u: nat, e: nat)
    requires RowTraces(g, w, s, st, d, u) && !NegativeLoop(g, w, s) && e < g.E() && g.src[e] == u
    ensures RowTraces(g, w, s, RelaxEdge(g, w, st, d, u, e), d, u)
  {
    hide NegativeLoop;
    hide IsWalk;
    hide Sum;
    hide Simple;
    hide Within;
    var st', v, nd := RelaxEdge(g, w, st, d, u, e), g.dst[e], d + w[e];
    RelaxLowers(g, w, st, d, u, e);
    if Less(Fin(nd), st.dist[v]) {
      ExtendedWalk(g, w, s, st, d, u, e);
      ImprovementIsNew(g, w, s, st, d, u, e, |st.walk[u]|);
      EndOfWalk(g, w, s, st, u);
      forall x: nat | x < g.N() ensures Traced(g, w, s, st', x) {
        if x != v { OthersTraced(g, w, s, st, st', v, nd, x); }
      }
    } else {
      forall x: nat | x < g.N() ensures Traced(g, w, s, st', x) { SameTraced(g, w, s, st, st', x); }
    }
  }

  lemma EndOfWalk(g: Graph, w: seq<real>, s: nat, st: Search, v: nat)
    requires Traces(g, w, s, st) && v < g.N() && st.dist[v].Fin?
    ensures Stand(g, s, st.walk[v], |st.walk[v]|) == v
  {
    assert Traced(g, w, s, st, v);
  }

  lemma SameTraced(g: Graph, w: seq<real>, s: nat, st: Search, st': Search, x: nat)
    requires g.Valid() && Shaped(g, st) && Shaped(g, st') && st'.dist == st.dist && st'.walk == st.walk
    requires x < g.N() && Traced(g, w, s, st, x)
    ensures Traced(g, w, s, st', x)
  {
    hide IsWalk;
    hide Sum;
    hide Simple;
    if st.dist[x].Fin? {
      var p := st.walk[x];
      forall i: nat | i <= |p| ensures WithinAt(g, w, s, st', p, i) {
        assert WithinAt(g, w, s, st, p, i);
      }
    }
  }

  // ---------- and distances can only take finitely many values ----------

  ghost function Values(w: seq<real>, n: nat): set<real> {
    if n == 0 then {0.0} else Values(w, n - 1) + Extended(Values(w, n - 1), w, |w|)
  }

  /** The values one of the first k edges further on. */
  ghost function Extended(values: set<real>, w: seq<real>, k: nat): set<real> {
    if k == 0 then {} else Extended(values, w, k - 1) + (set c | c in values :: c + At(w, k - 1))
  }

  lemma {:induction false} ExtendedHas(values: set<real>, w: seq<real>, k: nat, c: real, e: nat)
    requires c in values && e < k
    ensures c + At(w, e) in Extended(values, w, k)
  {
    if e < k - 1 { ExtendedHas(values, w, k - 1, c, e); }
  }

  lemma {:induction false} SumIsValue(g: Graph, w: seq<real>, s: nat, t: nat, p: seq<nat>, n: nat)
    requires g.WellFormed() && |w| == g.E() && IsWalk(g, s, t, p) && |p| <= n
    ensures Sum(w, p) in Values(w, n)
    decreases n
  {
    hide Extended;
    hide Graph.WellFormed;
    if n > 0 {
      if p == [] {
        SumIsValue(g, w, s, t, p, n - 1);
      } else {
        var e := p[|p| - 1];
        SumIsValue(g, w, s, g.src[e], p[..|p| - 1], n - 1);
        ExtendedHas(Values(w, n - 1), w, |w|, Sum(w, p[..|p| - 1]), e);
      }
    }
  }

  lemma SimpleIsShort(g: Graph, s: nat, t: nat, p: seq<nat>)
    requires g.WellFormed() && s < g.N() && IsWalk(g, s, t, p) && Simple(g, s, p)
    ensures |p| < g.N()
  {
    var nodes := seq(|p| + 1, i requires 0 <= i <= |p| => Stand(g, s, p, i));
    DistinctCardinality(nodes);
    forall x | x in nodes ensures x < g.N() {
      var i :| 0 <= i < |nodes| && nodes[i] == x;
      StandsOnNode(g, s, t, p, i);
    }
    SubsetSize(Elements(nodes), Below(g.N()));
  }

  lemma StandsOnNode(g: Graph, s: nat, t: nat, p: seq<nat>, i: nat)
    requires g.WellFormed() && s < g.N() && i <= |p|
    ensures Stand(g, s, p, i) < g.N()
  {
  }

  /** How many values lie below a distance. */
  ghost function Rank(values: set<real>, c: Cost): nat {
    match c
    case Inf => |values|
    case Fin(d) => |set x | x in values && x < d|
  }

  lemma RankDrops(values: set<real>, nd: real, c: Cost)
    requires nd in values && Less(Fin(nd), c)
    ensures Rank(values, Fin(nd)) < Rank(values, c)
  {
    var lower := set x | x in values && x < nd;
    match c
    case Inf =>
      assert nd !in lower;
      SubsetSize(lower, values);
    case Fin(d) =>
      var upper := set x | x in values && x < d;
      assert nd in upper && nd !in lower;
      SubsetSize(lower, upper);
  }

  ghost function TotalRank(values: set<real>, dist: seq<Cost>): nat {
    if dist == [] then 0 else TotalRank(values, dist[..|dist| - 1]) + Rank(values, dist[|dist| - 1])
  }

  lemma {:induction false} TotalRankDrops(values: set<real>, dist: seq<Cost>, v: nat, nd: real)
    requires v < |dist| && nd in values && Less(Fin(nd), dist[v])
    ensures TotalRank(values, dist[v := Fin(nd)]) < TotalRank(values, dist)
    decreases |dist|
  {
    var n, dist' := |dist| - 1, dist[v := Fin(nd)];
    if v == n {
      assert dist'[..n] == dist[..n];
      RankDrops(values, nd, dist[v]);
    } else {
      TotalRankDrops(values, dist[..n], v, nd);
      assert dist'[..n] == dist[..n][v := Fin(nd)];
    }
  }

  /** How far the distances can still go down. */
  ghost function Left(g: Graph, w: seq<real>, st: Search): nat {
    TotalRank(Values(w, g.N()), st.dist)
  }

  /** Some distance went down, or nothing was queued. */
  ghost predicate Nearer(g: Graph, w: seq<real>, st: Search, st': Search) {
    var before, after := Left(g, w, st), Left(g, w, st');
    after < before || (after == before && |st'.heap| <= |st.heap|)
  }

  lemma RelaxNearer(g: Graph, w: seq<real>, s: nat, st: Search, d: real, u: nat, e: nat)
    requires RowTraces(g, w, s, st, d, u) && !NegativeLoop(g, w, s) && e < g.E() && g.src[e] == u
    ensures Nearer(g, w, st, RelaxEdge(g, w, st, d, u, e))
  {
    hide NegativeLoop;
    hide Values;
    hide TotalRank;
    var st', v, nd := RelaxEdge(g, w, st, d, u, e), g.dst[e], d + w[e];
    if Less(Fin(nd), st.dist[v]) {
      ExtendedWalk(g, w, s, st, d, u, e);
      SimpleIsShort(g, s, v, st'.walk[v]);
      SumIsValue(g, w, s, v, st'.walk[v], g.N());
      TotalRankDrops(Values(w, g.N()), st.dist, v, nd);
    }
  }

  lemma {:induction false} RowNearer(g: Graph, w: seq<real>, s: nat, st: Search, d: real, u: nat, pos: nat)
    requires AnyQuery(g, w, s) && Shaped(g, st) && u < g.N() && g.indptr[u] <= pos <= g.indptr[u + 1]
    requires RowTraces(g, w, s, st, d, u) && !NegativeLoop(g, w, s)
    ensures RowTraces(g, w, s, RelaxRow(g, w, st, d, u, pos), d, u)
    ensures Nearer(g, w, st, RelaxRow(g, w, st, d, u, pos))
    decreases pos
  {
    hide NegativeLoop;
    hide RelaxEdge;
    hide RowTraces;
    hide TotalRank;
    hide Values;
    if pos > g.indptr[u] {
      RowNearer(g, w, s, st, d, u, pos - 1);
      assert g.InRow(u, pos - 1);
      RelaxTraces(g, w, s, RelaxRow(g, w, st, d, u, pos - 1), d, u, g.adj[pos - 1]);
      RelaxNearer(g, w, s, RelaxRow(g, w, st, d, u, pos - 1), d, u, g.adj[pos - 1]);
    }
  }

  lemma PoppedTraces(g: Graph, w: seq<real>, s: nat, st: Search, d: real, u: nat)
    requires Traces(g, w, s, st) && |st.heap| > 0
    ensures Traces(g, w, s, Popped(st)) && Traces(g, w, s, Settle(Popped(st), d, u))
    ensures |Popped(st).heap| < |st.heap|
  {
    TopSound(g, st);
    forall x: nat | x < g.N()
      ensures Traced(g, w, s, Popped(st), x) && Traced(g, w, s, Settle(Popped(st), d, u), x)
    {
      SameTraced(g, w, s, st, Popped(st), x);
      SameTraced(g, w, s, st, Settle(Popped(st), d, u), x);
    }
  }

  /** Every step lowers a distance to one of finitely many values, or takes an entry away. */
  lemma StepNearer(g: Graph, w: seq<real>, s: nat, st: Search)
    requires Traces(g, w, s, st) && !NegativeLoop(g, w, s) && |st.heap| > 0
    ensures Traces(g, w, s, Step(g, w, st))
    ensures var before, after := Left(g, w, st), Left(g, w, Step(g, w, st));
      after < before || (after == before && |Step(g, w, st).heap| < |st.heap|)
  {
    hide NegativeLoop;
    hide IsTop;
    hide Traced;
    hide TotalRank;
    hide Values;
    var (d, u) := Top(st.heap);
    TopSound(g, st);
    PoppedTraces(g, w, s, st, d, u);
    if !Stale(g, st) { RowNearer(g, w, s, Settle(Popped(st), d, u), d, u, g.indptr[u + 1]); }
  }

  lemma StartTraces(g: Graph, w: seq<real>, s: nat)
    requires AnyQuery(g, w, s)
    ensures Traces(g, w, s, Start(g.N(), s))
  {
  }

  lemma {:induction false} IterTraces(g: Graph, w: seq<real>, s: nat, k: nat)
    requires AnyQuery(g, w, s) && !NegativeLoop(g, w, s)
    ensures Traces(g, w, s, Iter(g, w, s, k))
  {
    hide NegativeLoop;
    hide Step;
    hide Traces;
    if k == 0 {
      StartTraces(g, w, s);
    } else {
      IterTraces(g, w, s, k - 1);
      var st := Iter(g, w, s, k - 1);
      if |st.heap| > 0 { StepNearer(g, w, s, st); } else { StepAtRest(g, w, st); }
    }
  }

  lemma {:induction false} EmptiesFrom(g: Graph, w: seq<real>, s: nat, k: nat)
    requires AnyQuery(g, w, s) && !NegativeLoop(g, w, s)
    ensures Ends(g, w, s)
    decreases Left(g, w, Iter(g, w, s, k)), |Iter(g, w, s, k).heap|
  {
    hide NegativeLoop;
    hide Step;
    hide Left;
    if |Iter(g, w, s, k).heap| > 0 {
      IterTraces(g, w, s, k);
      StepNearer(g, w, s, Iter(g, w, s, k));
      EmptiesFrom(g, w, s, k + 1);
    }
  }

  // ---------- the exact condition ----------

  /** A search for nothing in particular ends exactly when no negative closed walk can be reached. */
  lemma EndsExactly(g: Graph, w: seq<real>, s: nat)
    requires AnyQuery(g, w, s)
    ensures Ends(g, w, s) <==> !NegativeLoop(g, w, s)
  {
    if Ends(g, w, s) {
      var k: nat :| |Iter(g, w, s, k).heap| == 0;
      EndedMeansNoLoop(g, w, s, k);
    } else if !NegativeLoop(g, w, s) {
      EmptiesFrom(g, w, s, 0);
      assert false;
    }
  }

  /** When it has ended, every distance is the least weight over all walks, and `inf` exactly when there is
      none, whatever the signs of the weights. */
  lemma EndedIsShortest(g: Graph, w: seq<real>, s: nat, k: nat, t: nat)
    requires AnyQuery(g, w, s) && |Iter(g, w, s, k).heap| == 0 && t < g.N()
    ensures IsShortest(g, w, s, t, Iter(g, w, s, k).dist[t])
  {
    var st := Iter(g, w, s, k);
    IterTracks(g, w, s, k);
    EndedMeansNoLoop(g, w, s, k);
    IterTraces(g, w, s, k);
    assert Traced(g, w, s, st, t);
    assert IsWalk(g, s, s, []);
    forall p | IsWalk(g, s, t, p) ensures AtMost(st.dist[t], Fin(Sum(w, p))) {
      EndedBound(g, w, s, st, s, t, p);
    }
  }

  lemma NonNegativeHasNoLoop(g: Graph, w: seq<real>, s: nat)
    requires Query(g, w, s)
    ensures !NegativeLoop(g, w, s)
  {
    forall v, p, q | IsWalk(g, s, v, p) && IsWalk(g, v, v, q) ensures Sum(w, q) >= 0.0 { SumNonNegative(w, q); }
  }

  // ---------- why weights must not be negative ----------

  /** Two nodes and one edge, from the first to itself. */
  function LoopGraph(): Graph {
    Graph([0, 1], [0], [0], [0.0], [1.0], [0, 1, 1], [0])
  }

  lemma LoopGraphTiles()
    ensures LoopGraph().WellFormed() && LoopGraph().RowsTile()
  {
  }

  lemma LoopGraphRows()
    ensures LoopGraph().WellFormed() && LoopGraph().RowsTile()
    ensures var g := LoopGraph();
      && IsPermutation(g.adj, g.E())
      && (forall u: nat, pos: nat :: g.InRow(u, pos) ==> g.src[g.adj[pos]] == u)
  {
    hide Graph.HasPlace;
    LoopGraphTiles();
  }

  lemma LoopGraphValid()
    ensures LoopGraph().Valid()
  {
    hide IsPermutation;
    hide Graph.WellFormed;
    LoopGraphRows();
    assert LoopGraph().HasPlace(0) by { assert LoopGraph().InRow(0, 0); }
  }

  lemma OnlyEntry(x: (real, nat))
    ensures Top(multiset{x}) == x
  {
    assert IsTop(multiset{x}, x);
    TopUnique(multiset{x}, Top(multiset{x}), x);
  }

  /** On this graph, with weight -1, every step finds the first node nearer than before and queues it again: a
      query for the second node, to which no walk leads, is never answered. */
  lemma {:induction false} NegativeLoopNeverEnds(k: nat)
    ensures LoopGraph().Valid() && Loops(Iter(LoopGraph(), [-1.0], 0, k), 0.0 - k as real)
    ensures var heap := Iter(LoopGraph(), [-1.0], 0, k).heap; |heap| > 0 && Top(heap).1 != 1
    ensures !IsFinal(LoopGraph(), [-1.0], 0, k, 1)
  {
    LoopGraphValid();
    hide Loops;
    hide Step;
    if k == 0 {
      LoopStart();
    } else {
      NegativeLoopNeverEnds(k - 1);
      LoopStep(Iter(LoopGraph(), [-1.0], 0, k - 1), 0.0 - (k - 1) as real);
    }
    LoopTop(Iter(LoopGraph(), [-1.0], 0, k), 0.0 - k as real);
    LoopStep(Iter(LoopGraph(), [-1.0], 0, k), 0.0 - k as real);
  }

  lemma LoopTop(st: Search, d: real)
    requires LoopGraph().Valid() && Loops(st, d)
    ensures |st.heap| > 0 && Top(st.heap).1 != 1
  {
    OnlyEntry((d, 0));
  }

  /** One entry is queued, for the first node at its current distance. */
  ghost predicate Loops(st: Search, d: real) {
    Shaped(LoopGraph(), st) && st.heap == multiset{(d, 0)} && st.dist[0] == Fin(d) && 1 !in st.settled
  }

  lemma LoopStart()
    ensures Loops(Start(LoopGraph().N(), 0), 0.0)
  {
  }

  lemma LoopStep(st: Search, d: real)
    requires LoopGraph().Valid() && Loops(st, d)
    ensures Loops(Step(LoopGraph(), [-1.0], st), d - 1.0)
  {
    var g, w := LoopGraph(), [-1.0];
    OnlyEntry((d, 0));
    var st1 := Settle(Popped(st), d, 0);
    assert RelaxRow(g, w, st1, d, 0, 0) == st1;
    assert RelaxRow(g, w, st1, d, 0, 1) == RelaxEdge(g, w, st1, d, 0, 0);
  }

  // ---------- and why a query must not stop early without that ----------

  /** Three nodes: the second is next to the first, and also lies behind the third. */
  function DetourGraph(): Graph {
    Graph([0, 1, 2], [0, 0, 2], [1, 2, 1], [0.0, 0.0, 0.0], [1.0, 1.0, 1.0], [0, 2, 2, 3], [0, 1, 2])
  }

  const DETOUR_WEIGHTS := [1.0, 2.0, -2.0]

  lemma DetourGraphTiles()
    ensures DetourGraph().WellFormed() && DetourGraph().RowsTile()
  {
  }

  lemma DetourGraphRows()
    ensures DetourGraph().WellFormed() && DetourGraph().RowsTile()
    ensures var g := DetourGraph();
      && IsPermutation(g.adj, g.E())
      && (forall u: nat, pos: nat :: g.InRow(u, pos) ==> g.src[g.adj[pos]] == u)
      && (forall u: nat, p: nat, q: nat :: g.InRow(u, p) && g.InRow(u, q) && p < q ==> g.adj[p] < g.adj[q])
  {
    hide Graph.HasPlace;
    DetourGraphTiles();
  }

  lemma DetourGraphValid()
    ensures DetourGraph().Valid()
  {
    var g := DetourGraph();
    DetourGraphRows();
    assert g.HasPlace(0) by { assert g.InRow(0, 0); }
    assert g.HasPlace(1) by { assert g.InRow(0, 1); }
    assert g.HasPlace(2) by { assert g.InRow(2, 2); }
  }

  /** Edges lead from the first node to the third and then to the second, never back. */
  function Depth(v: nat): nat {
    if v == 0 then 0 else if v == 2 then 1 else 2
  }

  lemma {:induction false} DetourGoesDown(u: nat, t: nat, p: seq<nat>)
    requires DetourGraph().WellFormed() && IsWalk(DetourGraph(), u, t, p)
    ensures Depth(u) + |p| <= Depth(t)
    decreases |p|
  {
    if p != [] { DetourGoesDown(u, DetourGraph().src[p[|p| - 1]], p[..|p| - 1]); }
  }

  lemma DetourHasNoLoop()
    ensures DetourGraph().WellFormed() && !NegativeLoop(DetourGraph(), DETOUR_WEIGHTS, 0)
  {
    DetourGraphTiles();
    forall v, p, q | IsWalk(DetourGraph(), 0, v, p) && IsWalk(DetourGraph(), v, v, q)
      ensures Sum(DETOUR_WEIGHTS, q) >= 0.0
    {
      DetourGoesDown(v, v, q);
    }
  }

  lemma DetourFirstStep()
    ensures DetourGraph().Valid()
    ensures var st := Iter(DetourGraph(), DETOUR_WEIGHTS, 0, 1);
      st.dist == [Fin(0.0), Fin(1.0), Fin(2.0)] && st.heap == multiset{(1.0, 1), (2.0, 2)}
  {
    DetourGraphValid();
    var g, w, st := DetourGraph(), DETOUR_WEIGHTS, Start(3, 0);
    assert Iter(g, w, 0, 0) == st;
    OnlyEntry((0.0, 0));
    var st1 := Settle(Popped(st), 0.0, 0);
    assert RelaxRow(g, w, st1, 0.0, 0, 0) == st1;
    assert RelaxRow(g, w, st1, 0.0, 0, 1) == RelaxEdge(g, w, st1, 0.0, 0, 0);
    assert RelaxRow(g, w, st1, 0.0, 0, 2) == RelaxEdge(g, w, RelaxEdge(g, w, st1, 0.0, 0, 0), 0.0, 0, 1);
  }

  /** The next pop settles the second node at 1, although a walk through the third one costs 0. */
  lemma DetourSecondStep()
    ensures DetourGraph().Valid() && IsFinal(DetourGraph(), DETOUR_WEIGHTS, 0, 1, 1)
  {
    hide Start;
    hide IsPermutation;
    DetourFirstStep();
    var g, w := DetourGraph(), DETOUR_WEIGHTS;
    var st := Iter(g, w, 0, 1);
    assert IsTop(st.heap, (1.0, 1));
    TopUnique(st.heap, Top(st.heap), (1.0, 1));
    assert Step(g, w, st) == RelaxRow(g, w, Settle(Popped(st), 1.0, 1), 1.0, 1, 2);
  }

  lemma DetourIsFree()
    ensures DetourGraph().WellFormed()
    ensures IsWalk(DetourGraph(), 0, 1, [1] + [2]) && Sum(DETOUR_WEIGHTS, [1] + [2]) == 0.0
  {
    DetourGraphTiles();
    var g, w := DetourGraph(), DETOUR_WEIGHTS;
    assert IsWalk(g, 0, 0, []);
    WalkSnoc(g, w, 0, [], 1);
    assert [] + [1] == [1];
    WalkSnoc(g, w, 0, [1], 2);
  }

  /** Here the whole search ends, yet a query for the second node stops at 1 where a walk costs 0: without
      non-negative weights the early stop is not harmless. */
  lemma EarlyStopMisleads()
    ensures DetourGraph().Valid() && !NegativeLoop(DetourGraph(), DETOUR_WEIGHTS, 0)
    ensures IsFinal(DetourGraph(), DETOUR_WEIGHTS, 0, 1, 1)
    ensures !IsShortest(DetourGraph(), DETOUR_WEIGHTS, 0, 1, Iter(DetourGraph(), DETOUR_WEIGHTS, 0, 1).dist[1])
  {
    hide Iter;
    hide IsWalk;
    hide Graph.RowsCorrect;
    DetourFirstStep();
    DetourSecondStep();
    DetourHasNoLoop();
    DetourIsFree();
  }
}
