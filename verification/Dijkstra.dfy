/** Lazy-deletion Dijkstra as a procedure: it follows the steps of the search in place. */
module Dijkstra {
  import opened Base
  import opened RoadGraph
  import opened Walks
  import opened Search
  import opened AnyWeights

  /** The three arrays hold what the search state says. */
  ghost predicate Holds(g: Graph, st: Search, dist: array<Cost>, length: array<Cost>, prev: array<int>)
    reads dist, length, prev
  {
    dist[..] == st.dist && length[..] == st.length && prev[..] == st.prev && Shaped(g, st)
  }

  method PopTop(heap: Heap) returns (top: (real, nat), rest: Heap)
    requires |heap| > 0
    ensures top == Top(heap) && rest == heap - multiset{Top(heap)}
  {
    TopExists(heap);
    top :| top in heap && forall y :: y in heap ==> TupleAtMost(top, y);
    TopUnique(heap, top, Top(heap));
    rest := heap - multiset{top};
  }

  /** Looking at a row settles nobody and leaves u with a distance and with metres. */
  lemma {:induction false} RowSound(g: Graph, w: seq<real>, st: Search, d: real, u: nat, pos: nat)
    requires g.Valid() && |w| == g.E() && Shaped(g, st) && u < g.N() && g.indptr[u] <= pos <= g.indptr[u + 1]
    requires Sound(g, st) && st.dist[u].Fin?
    ensures var st' := RelaxRow(g, w, st, d, u, pos);
      Sound(g, st') && st'.dist[u].Fin? && st'.length[u].Fin? && st'.settled == st.settled
    decreases pos
  {
    hide Sound;
    if pos == g.indptr[u] {
      LengthKnown(g, st, u);
    } else {
      RowSound(g, w, st, d, u, pos - 1);
      var mid := RelaxRow(g, w, st, d, u, pos - 1);
      RelaxLowers(g, w, mid, d, u, g.adj[pos - 1]);
      LengthKnown(g, RelaxEdge(g, w, mid, d, u, g.adj[pos - 1]), u);
    }
  }

  lemma LengthKnown(g: Graph, st: Search, u: nat)
    requires Sound(g, st) && u < g.N() && st.dist[u].Fin?
    ensures st.length[u].Fin?
  {
  }

  /** The inner loop: every edge out of u is looked at in place. */
  method RelaxNode(g: Graph, w: seq<real>, ghost st: Search, dist: array<Cost>, length: array<Cost>,
                   prev: array<int>, heap: Heap, d: real, u: nat) returns (heap': Heap)
    requires g.Valid() && |w| == g.E() && Sound(g, st) && u < g.N() && st.dist[u].Fin? && heap == st.heap
    requires Holds(g, st, dist, length, prev) && dist != length
    modifies dist, length, prev
    ensures Holds(g, RelaxRow(g, w, st, d, u, g.indptr[u + 1]), dist, length, prev)
    ensures heap' == RelaxRow(g, w, st, d, u, g.indptr[u + 1]).heap
  {
    hide RelaxEdge;
    heap' := heap;
    for pos := g.indptr[u] to g.indptr[u + 1]
      invariant Holds(g, RelaxRow(g, w, st, d, u, pos), dist, length, prev)
      invariant heap' == RelaxRow(g, w, st, d, u, pos).heap
    {
      RowSound(g, w, st, d, u, pos);
      var e := g.adj[pos];
      heap' := RelaxOne(g, w, RelaxRow(g, w, st, d, u, pos), dist, length, prev, heap', d, u, e);
    }
  }

  method RelaxOne(g: Graph, w: seq<real>, ghost mid: Search, dist: array<Cost>, length: array<Cost>,
                  prev: array<int>, heap: Heap, d: real, u: nat, e: nat) returns (heap': Heap)
    requires g.Valid() && |w| == g.E() && e < g.E() && u < g.N()
    requires Holds(g, mid, dist, length, prev) && heap == mid.heap && mid.length[u].Fin? && dist != length
    modifies dist, length, prev
    ensures Holds(g, RelaxEdge(g, w, mid, d, u, e), dist, length, prev)
    ensures heap' == RelaxEdge(g, w, mid, d, u, e).heap
  {
    heap' := heap;
    var v, nd := g.dst[e], d + w[e];
    if Less(Fin(nd), dist[v]) {
      var metres := Fin(length[u].v + g.len[e]);
      dist[v] := Fin(nd);
      length[v] := metres;
      prev[v] := e;
      heap' := heap' + multiset{(nd, v)};
    }
  }

  /** The body of the search loop: one step, unless the popped node was the last one needed. */
  method PopOne(g: Graph, w: seq<real>, ghost st: Search, dist: array<Cost>, length: array<Cost>,
                prev: array<int>, heap: Heap, need: bool, remaining: set<nat>)
    returns (heap': Heap, remaining': set<nat>, done: bool)
    requires g.Valid() && |w| == g.E() && Sound(g, st) && heap == st.heap && |heap| > 0
    requires Holds(g, st, dist, length, prev) && dist != length
    modifies dist, length, prev
    ensures done ==> Holds(g, st, dist, length, prev) && need && remaining' == {}
    ensures !done ==> Holds(g, Step(g, w, st), dist, length, prev) && heap' == Step(g, w, st).heap
    ensures remaining' <= remaining && remaining - remaining' <= Step(g, w, st).settled
  {
    var top, rest := PopTop(heap);
    var d, u := top.0, top.1;
    TopSound(g, st);
    remaining', done := remaining, false;
    if Less(dist[u], Fin(d)) {
      heap' := rest;
      return;
    }
    JustSettled(g, w, st);
    if need && u in remaining {
      remaining' := remaining - {u};
      if remaining' == {} {
        return rest, remaining', true;
      }
    }
    heap' := RelaxNode(g, w, Settle(Popped(st), d, u), dist, length, prev, rest, d, u);
  }

  /** A step settles the popped node, unless its entry is stale, and forgets nobody. */
  lemma JustSettled(g: Graph, w: seq<real>, st: Search)
    requires g.Valid() && |w| == g.E() && Sound(g, st) && |st.heap| > 0
    ensures Sound(g, Settle(Popped(st), Top(st.heap).0, Top(st.heap).1))
    ensures st.settled <= Step(g, w, st).settled
    ensures !Stale(g, st) ==> Top(st.heap).1 in Step(g, w, st).settled
  {
    hide IsTop;
    TopSound(g, st);
    var (d, u) := Top(st.heap);
    if !Stale(g, st) { RowSound(g, w, Settle(Popped(st), d, u), d, u, g.indptr[u + 1]); }
  }

  /** Nothing is lost track of: each step leaves less to do, drops no needed node, and keeps the state sound. */
  lemma StepShrinks(g: Graph, w: seq<real>, s: nat, k: nat)
    requires AnyQuery(g, w, s) && !NegativeLoop(g, w, s) && |Iter(g, w, s, k).heap| > 0
    ensures var st, st' := Iter(g, w, s, k), Iter(g, w, s, k + 1);
      && Sound(g, st) && st.settled <= st'.settled
      && (Left(g, w, st') < Left(g, w, st) || (Left(g, w, st') == Left(g, w, st) && |st'.heap| < |st.heap|))
  {
    hide NegativeLoop;
    hide Left;
    hide Step;
    IterTraces(g, w, s, k);
    StepNearer(g, w, s, Iter(g, w, s, k));
    JustSettled(g, w, Iter(g, w, s, k));
  }

  lemma IterSucc(g: Graph, w: seq<real>, s: nat, k: nat)
    requires AnyQuery(g, w, s)
    ensures Iter(g, w, s, k + 1) == Step(g, w, Iter(g, w, s, k))
  {
  }

  lemma BoundedPushes(g: Graph, w: seq<real>, s: nat, k: nat)
    requires AnyQuery(g, w, s) && NonNegative(w)
    ensures Iter(g, w, s, k).pushes <= g.E() + 1
  {
    hide Inv;
    IterInv(g, w, s, k);
    SearchBounds(g, w, s, Iter(g, w, s, k));
  }

  method Begin(g: Graph, ghost w: seq<real>, s: nat)
    returns (dist: array<Cost>, length: array<Cost>, prev: array<int>, heap: Heap)
    requires AnyQuery(g, w, s)
    ensures fresh(dist) && fresh(length) && fresh(prev) && dist != length
    ensures Holds(g, Iter(g, w, s, 0), dist, length, prev) && heap == Iter(g, w, s, 0).heap
  {
    dist := new Cost[g.N()](v => if v == s then Fin(0.0) else Inf);
    length := new Cost[g.N()](v => if v == s then Fin(0.0) else Inf);
    prev := new int[g.N()](_ => -1);
    heap := multiset{(0.0, s)};
  }

  /** Every needed node is still awaited or has been settled. */
  ghost predicate Awaited(g: Graph, w: seq<real>, s: nat, k: nat, need: seq<nat>, remaining: set<nat>)
    requires AnyQuery(g, w, s)
  {
    forall t :: t in need ==> t in remaining || t in Iter(g, w, s, k).settled
  }

  lemma AwaitedNext(g: Graph, w: seq<real>, s: nat, k: nat, need: seq<nat>, remaining: set<nat>, remaining': set<nat>)
    requires AnyQuery(g, w, s) && Awaited(g, w, s, k, need, remaining)
    requires remaining - remaining' <= Iter(g, w, s, k + 1).settled
    requires Iter(g, w, s, k).settled <= Iter(g, w, s, k + 1).settled
    ensures Awaited(g, w, s, k + 1, need, remaining')
  {
    hide Iter;
    forall t | t in need ensures t in remaining' || t in Iter(g, w, s, k + 1).settled {
      assert t in remaining ==> t in remaining' || t in remaining - remaining';
    }
  }

  /** When nothing is awaited any more, or nothing is queued, every needed node is final. */
  lemma AwaitedIsFinal(g: Graph, w: seq<real>, s: nat, k: nat, need: seq<nat>)
    requires AnyQuery(g, w, s)
    requires |Iter(g, w, s, k).heap| == 0 || Awaited(g, w, s, k + 1, need, {})
    ensures forall t :: t in need ==> IsFinal(g, w, s, k, t)
  {
    hide Iter;
  }

  /** `_dijkstra`. It follows the run of steps and stops for all weights that let a search end; then every
      needed node has been settled, and with non-negative weights it has pushed at most one entry per edge
      besides the first. */
  method Dijkstra(g: Graph, s: nat, w: seq<real>, need: Option<seq<nat>>)
    returns (dist: array<Cost>, length: array<Cost>, prev: array<int>, ghost k: nat)
    requires AnyQuery(g, w, s) && !NegativeLoop(g, w, s)
    ensures fresh(dist) && fresh(length) && fresh(prev)
    ensures Holds(g, Iter(g, w, s, k), dist, length, prev)
    ensures need.None? ==> |Iter(g, w, s, k).heap| == 0
    ensures need.Some? ==> forall t :: t in need.value ==> IsFinal(g, w, s, k, t)
    ensures NonNegative(w) ==> Iter(g, w, s, k).pushes <= g.E() + 1
  {
    hide Graph.Valid;
    hide Step;
    hide Iter;
    hide Holds;
    hide Sound;
    hide NegativeLoop;
    hide Left;
    hide IsFinal;
    hide NonNegative;
    var heap;
    dist, length, prev, heap := Begin(g, w, s);
    var remaining: set<nat> := if need.Some? then set x | x in need.value else {};
    k := 0;
    while |heap| > 0
      invariant heap == Iter(g, w, s, k).heap && Holds(g, Iter(g, w, s, k), dist, length, prev)
      invariant need.Some? ==> Awaited(g, w, s, k, need.value, remaining)
      decreases Left(g, w, Iter(g, w, s, k)), |heap|
    {
      StepShrinks(g, w, s, k);
      IterSucc(g, w, s, k);
      ghost var before := remaining;
      var done;
      heap, remaining, done := PopOne(g, w, Iter(g, w, s, k), dist, length, prev, heap, need.Some?, remaining);
      if need.Some? { AwaitedNext(g, w, s, k, need.value, before, remaining); }
      if done {
        break;
      }
      k := k + 1;
    }
    if need.Some? { AwaitedIsFinal(g, w, s, k, need.value); }
    if NonNegative(w) { BoundedPushes(g, w, s, k); }
  }
}
