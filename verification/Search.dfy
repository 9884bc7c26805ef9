/** Lazy-deletion Dijkstra: the search as a sequence of steps, what every step keeps, and why the
    distances, the carried metres and the predecessor chains are right whenever the search stops. */
module Search {
  import opened Base
  import opened Sorting
  import opened RoadGraph
  import opened Walks

  type Heap = multiset<(real, nat)>

  /** The state between two pops: the three arrays and the heap of the search, and, for the argument
      only, which nodes have been settled, which edges relaxed, how many entries pushed, at which key the
      search stands, and a walk that justifies each finite distance. */
  datatype Search = Search(dist: seq<Cost>, length: seq<Cost>, prev: seq<int>, heap: Heap,
                           settled: set<nat>, relaxed: set<nat>, pushes: nat, key: real, walk: seq<seq<nat>>)

  function Start(n: nat, s: nat): Search
    requires s < n
  {
    Search(seq(n, v => if v == s then Fin(0.0) else Inf), seq(n, v => if v == s then Fin(0.0) else Inf),
           seq(n, _ => -1), multiset{(0.0, s)}, {}, {}, 1, 0.0, seq(n, _ => []))
  }

  // ---------- the heap ----------

  predicate TupleAtMost(a: (real, nat), b: (real, nat)) {
    a.0 < b.0 || (a.0 == b.0 && a.1 <= b.1)
  }

  /** What `heappop` returns: the least tuple. */
  predicate IsTop(heap: Heap, x: (real, nat)) {
    x in heap && forall y :: y in heap ==> TupleAtMost(x, y)
  }

  lemma {:induction false} TopExists(heap: Heap)
    requires |heap| > 0
    ensures exists x :: IsTop(heap, x)
    decreases |heap|
  {
    var y :| y in heap;
    var rest := heap - multiset{y};
    if |rest| == 0 {
      assert forall z :: z in heap ==> z in rest || z == y;
      assert IsTop(heap, y);
    } else {
      TopExists(rest);
      var x :| IsTop(rest, x);
      assert forall z :: z in heap ==> z in rest || z == y;
      assert IsTop(heap, if TupleAtMost(x, y) then x else y);
    }
  }

  ghost function Top(heap: Heap): (x: (real, nat))
    requires |heap| > 0
    ensures IsTop(heap, x)
  {
    TopExists(heap);
    var x :| IsTop(heap, x);
    x
  }

  lemma TopUnique(heap: Heap, x: (real, nat), y: (real, nat))
    requires IsTop(heap, x) && IsTop(heap, y)
    ensures x == y
  {
    assert TupleAtMost(x, y) && TupleAtMost(y, x);
  }

  // ---------- one step ----------

  /** Looking at edge e out of u, which was popped at distance d. */
  function RelaxEdge(g: Graph, w: seq<real>, st: Search, d: real, u: nat, e: nat): Search
    requires e < |g.dst| && e < |w| && e < |g.len| && u < |st.length| && u < |st.walk|
    requires g.dst[e] < |st.dist| == |st.length| == |st.prev| == |st.walk|
  {
    var v, nd := g.dst[e], d + w[e];
    var seen := st.(relaxed := st.relaxed + {e});
    if Less(Fin(nd), st.dist[v]) then
      seen.(dist := st.dist[v := Fin(nd)],
            length := st.length[v := if st.length[u].Fin? then Fin(st.length[u].v + g.len[e]) else Inf],
            prev := st.prev[v := e],
            heap := st.heap + multiset{(nd, v)},
            pushes := st.pushes + 1,
            walk := st.walk[v := st.walk[u] + [e]])
    else seen
  }

  ghost predicate Shaped(g: Graph, st: Search) {
    |st.dist| == |st.length| == |st.prev| == |st.walk| == g.N()
  }

  /** The row of u up to position pos has been looked at. */
  ghost function RelaxRow(g: Graph, w: seq<real>, st: Search, d: real, u: nat, pos: nat): (st': Search)
    requires g.Valid() && |w| == g.E() && Shaped(g, st) && u < g.N() && g.indptr[u] <= pos <= g.indptr[u + 1]
    ensures Shaped(g, st')
    decreases pos
  {
    if pos == g.indptr[u] then st
    else RelaxEdge(g, w, RelaxRow(g, w, st, d, u, pos - 1), d, u, g.adj[pos - 1])
  }

  /** The top entry leaves the heap. */
  ghost function Popped(st: Search): Search
    requires |st.heap| > 0
  {
    st.(heap := st.heap - multiset{Top(st.heap)})
  }

  ghost predicate Stale(g: Graph, st: Search)
    requires |st.heap| > 0 && Shaped(g, st)
  {
    var (d, u) := Top(st.heap);
    u < g.N() && Less(st.dist[u], Fin(d))
  }

  ghost function Settle(st: Search, d: real, u: nat): Search {
    st.(settled := st.settled + {u}, key := d)
  }

  /** One turn of the search loop, without the early stop. */
  ghost function Step(g: Graph, w: seq<real>, st: Search): (st': Search)
    requires g.Valid() && |w| == g.E() && Shaped(g, st)
    ensures Shaped(g, st')
  {
    if |st.heap| == 0 then st
    else
      var (d, u) := Top(st.heap);
      if u >= g.N() || Stale(g, st) then Popped(st)
      else RelaxRow(g, w, Settle(Popped(st), d, u), d, u, g.indptr[u + 1])
  }

  // ---------- what every step keeps ----------

  /** Every finite distance is the weight of a walk whose last edge is the recorded predecessor, and the
      carried length is the length of the same walk. */
  ghost predicate Justified(g: Graph, w: seq<real>, s: nat, st: Search, v: nat)
    requires g.Valid() && Shaped(g, st) && v < g.N()
  {
    if st.dist[v].Inf? then st.length[v].Inf? && st.prev[v] == -1 && v != s
    else
      && IsWalk(g, s, v, st.walk[v])
      && st.dist[v].v == Sum(w, st.walk[v])
      && st.length[v] == Fin(Sum(g.len, st.walk[v]))
      && (if v == s then st.walk[v] == [] && st.prev[v] == -1
          else ChainLink(g, st, v))
  }

  /** The walk to v is the walk to the settled source of its predecessor edge, plus that edge. */
  ghost predicate ChainLink(g: Graph, st: Search, v: nat)
    requires g.Valid() && Shaped(g, st) && v < g.N()
  {
    var e := st.prev[v];
    && 0 <= e < g.E()
    && g.dst[e] == v
    && g.src[e] in st.settled
    && st.walk[v] == st.walk[g.src[e]] + [e]
  }

  ghost predicate GoodEntry(g: Graph, st: Search, x: (real, nat))
    requires Shaped(g, st)
  {
    && x.1 < g.N()
    && st.dist[x.1].Fin? && st.dist[x.1].v <= x.0
    && st.heap[x] == 1
    && (x.1 in st.settled ==> st.dist[x.1].v < x.0)
  }

  /** Settled nodes are at or below the key; other reached nodes are at or above it and queued. */
  ghost predicate GoodNode(g: Graph, st: Search, v: nat)
    requires Shaped(g, st) && v < g.N()
  {
    if v in st.settled then st.dist[v].Fin? && st.dist[v].v <= st.key
    else st.dist[v].Fin? ==> st.key <= st.dist[v].v && (st.dist[v].v, v) in st.heap
  }

  ghost predicate GoodEdge(g: Graph, w: seq<real>, st: Search, e: nat)
    requires g.Valid() && |w| == g.E() && Shaped(g, st) && e < g.E()
  {
    var u, v := g.src[e], g.dst[e];
    u in st.settled && st.dist[u].Fin? && st.dist[v].Fin? && st.dist[v].v <= st.dist[u].v + w[e]
  }

  ghost predicate Inv(g: Graph, w: seq<real>, s: nat, st: Search) {
    && g.Valid() && IsWeighting(g, w) && s < g.N() && Shaped(g, st)
    && st.key >= 0.0
    && st.dist[s] == Fin(0.0)
    && (forall v :: v in st.settled ==> v < g.N())
    && (forall e :: e in st.relaxed ==> e < g.E())
    && (forall v: nat :: v < g.N() ==> Justified(g, w, s, st, v))
    && (forall v: nat :: v < g.N() ==> GoodNode(g, st, v))
    && (forall x :: x in st.heap ==> GoodEntry(g, st, x))
    && (forall e :: e in st.relaxed ==> GoodEdge(g, w, st, e))
    && st.pushes <= 1 + |st.relaxed|
  }

  /** All edges out of settled nodes have been relaxed, possibly except those of one node. */
  ghost predicate Complete(g: Graph, st: Search, except: int)
    requires g.Valid()
  {
    forall e: nat :: e < g.E() && g.src[e] in st.settled && g.src[e] != except ==> e in st.relaxed
  }

  lemma StartInv(g: Graph, w: seq<real>, s: nat)
    requires g.Valid() && IsWeighting(g, w) && s < g.N()
    ensures Inv(g, w, s, Start(g.N(), s)) && Complete(g, Start(g.N(), s), -1)
  {
  }

  /** Edge e leaves the node u that was settled last and has not been looked at yet. */
  ghost predicate CanRelax(g: Graph, w: seq<real>, s: nat, st: Search, u: nat, e: nat) {
    && Inv(g, w, s, st)
    && u in st.settled && st.dist[u] == Fin(st.key)
    && e < g.E() && g.src[e] == u && e !in st.relaxed
  }

  /** The edge improves on what is known about its end, which therefore is not settled. */
  ghost predicate Improves(g: Graph, w: seq<real>, s: nat, st: Search, u: nat, e: nat) {
    && CanRelax(g, w, s, st, u, e)
    && Less(Fin(st.key + w[e]), st.dist[g.dst[e]])
  }

  lemma ImprovedIsOpen(g: Graph, w: seq<real>, s: nat, st: Search, u: nat, e: nat)
    requires Improves(g, w, s, st, u, e)
    ensures g.dst[e] !in st.settled && g.dst[e] != s
    ensures (st.key + w[e], g.dst[e]) !in st.heap
  {
    var v := g.dst[e];
    assert GoodNode(g, st, v);
    assert GoodEntry(g, st, (st.key + w[e], v)) || (st.key + w[e], v) !in st.heap;
  }

  /** The improved node gets the walk of u plus the edge. */
  lemma ImprovedWalk(g: Graph, w: seq<real>, s: nat, st: Search, u: nat, e: nat)
    requires Improves(g, w, s, st, u, e)
    ensures Justified(g, w, s, RelaxEdge(g, w, st, st.key, u, e), g.dst[e])
  {
    hide IsWalk;
    hide Sum;
    hide GoodNode;
    hide GoodEdge;
    hide GoodEntry;
    ImprovedIsOpen(g, w, s, st, u, e);
    assert Justified(g, w, s, st, u);
    WalkSnoc(g, w, s, st.walk[u], e);
    WalkSnoc(g, g.len, s, st.walk[u], e);
  }

  /** The others keep theirs: the node their walk comes through is settled, so it did not move. */
  lemma OthersJustified(g: Graph, w: seq<real>, s: nat, st: Search, u: nat, e: nat, x: nat)
    requires Improves(g, w, s, st, u, e) && x < g.N() && x != g.dst[e]
    ensures Justified(g, w, s, RelaxEdge(g, w, st, st.key, u, e), x)
  {
    ImprovedIsOpen(g, w, s, st, u, e);
    assert Justified(g, w, s, st, x);
  }

  lemma ImprovedNode(g: Graph, w: seq<real>, s: nat, st: Search, u: nat, e: nat, x: nat)
    requires Improves(g, w, s, st, u, e) && x < g.N()
    ensures GoodNode(g, RelaxEdge(g, w, st, st.key, u, e), x)
  {
    ImprovedIsOpen(g, w, s, st, u, e);
    assert GoodNode(g, st, x);
  }

  lemma ImprovedEntry(g: Graph, w: seq<real>, s: nat, st: Search, u: nat, e: nat, x: (real, nat))
    requires Improves(g, w, s, st, u, e) && x in RelaxEdge(g, w, st, st.key, u, e).heap
    ensures GoodEntry(g, RelaxEdge(g, w, st, st.key, u, e), x)
  {
    ImprovedIsOpen(g, w, s, st, u, e);
    if x in st.heap { assert GoodEntry(g, st, x); }
  }

  lemma ImprovedEdge(g: Graph, w: seq<real>, s: nat, st: Search, u: nat, e: nat, f: nat)
    requires Improves(g, w, s, st, u, e) && f in RelaxEdge(g, w, st, st.key, u, e).relaxed
    ensures GoodEdge(g, w, RelaxEdge(g, w, st, st.key, u, e), f)
  {
    ImprovedIsOpen(g, w, s, st, u, e);
    if f in st.relaxed { assert GoodEdge(g, w, st, f); }
  }

  lemma ImprovedInv(g: Graph, w: seq<real>, s: nat, st: Search, u: nat, e: nat)
    requires Improves(g, w, s, st, u, e)
    ensures Inv(g, w, s, RelaxEdge(g, w, st, st.key, u, e))
  {
    var st' := RelaxEdge(g, w, st, st.key, u, e);
    ImprovedIsOpen(g, w, s, st, u, e);
    forall x: nat | x < g.N() ensures Justified(g, w, s, st', x) {
      if x == g.dst[e] {
        ImprovedWalk(g, w, s, st, u, e);
      } else {
        OthersJustified(g, w, s, st, u, e, x);
      }
    }
    forall x: nat | x < g.N() ensures GoodNode(g, st', x) { ImprovedNode(g, w, s, st, u, e, x); }
    forall x | x in st'.heap ensures GoodEntry(g, st', x) { ImprovedEntry(g, w, s, st, u, e, x); }
    forall f | f in st'.relaxed ensures GoodEdge(g, w, st', f) { ImprovedEdge(g, w, s, st, u, e, f); }
  }

  lemma NotImprovedInv(g: Graph, w: seq<real>, s: nat, st: Search, u: nat, e: nat)
    requires CanRelax(g, w, s, st, u, e) && !Improves(g, w, s, st, u, e)
    ensures Inv(g, w, s, RelaxEdge(g, w, st, st.key, u, e))
  {
    var st' := RelaxEdge(g, w, st, st.key, u, e);
    forall x: nat | x < g.N() ensures Justified(g, w, s, st', x) && GoodNode(g, st', x) {
      assert Justified(g, w, s, st, x) && GoodNode(g, st, x);
    }
    forall x | x in st'.heap ensures GoodEntry(g, st', x) { assert GoodEntry(g, st, x); }
    forall f | f in st'.relaxed ensures GoodEdge(g, w, st', f) {
      if f in st.relaxed { assert GoodEdge(g, w, st, f); }
    }
  }

  /** Looking at one more edge of the node just settled keeps the invariant. */
  lemma RelaxEdgeInv(g: Graph, w: seq<real>, s: nat, st: Search, u: nat, e: nat)
    requires CanRelax(g, w, s, st, u, e)
    ensures Inv(g, w, s, RelaxEdge(g, w, st, st.key, u, e))
  {
    if Improves(g, w, s, st, u, e) {
      ImprovedInv(g, w, s, st, u, e);
    } else {
      NotImprovedInv(g, w, s, st, u, e);
    }
  }

  /** The search says the same about x before and after. */
  ghost predicate SameAt(st: Search, st': Search, x: nat) {
    && x < |st.dist| == |st'.dist|
    && |st.length| == |st.prev| == |st.walk| == |st.dist|
    && |st'.length| == |st'.prev| == |st'.walk| == |st'.dist|
    && st'.dist[x] == st.dist[x] && st'.length[x] == st.length[x]
    && st'.prev[x] == st.prev[x] && st'.walk[x] == st.walk[x]
  }

  /** Relaxing the given edges changed nothing about settled nodes. */
  ghost predicate Extends(st: Search, st': Search, edges: set<nat>) {
    && st'.settled == st.settled && st'.key == st.key && st'.relaxed == st.relaxed + edges
    && (forall x :: x in st.settled ==> SameAt(st, st', x))
  }

  /** An edge never changes its own source, nor anything settled. */
  lemma RelaxEdgeKeeps(g: Graph, w: seq<real>, s: nat, st: Search, u: nat, e: nat)
    requires CanRelax(g, w, s, st, u, e)
    ensures Extends(st, RelaxEdge(g, w, st, st.key, u, e), {e})
  {
    if Improves(g, w, s, st, u, e) { ImprovedIsOpen(g, w, s, st, u, e); }
  }

  lemma ExtendsTransitive(a: Search, b: Search, c: Search, x: set<nat>, y: set<nat>)
    requires Extends(a, b, x) && Extends(b, c, y)
    ensures Extends(a, c, x + y)
  {
    forall v | v in a.settled ensures SameAt(a, c, v) {
      assert SameAt(a, b, v) && SameAt(b, c, v);
    }
  }

  // ---------- a whole row ----------

  /** The edges at the positions of u's row before pos. */
  ghost function RowEdges(g: Graph, u: nat, pos: nat): set<nat>
    requires g.Valid() && u < g.N() && g.indptr[u] <= pos <= g.indptr[u + 1]
    decreases pos
  {
    if pos == g.indptr[u] then {} else RowEdges(g, u, pos - 1) + {g.adj[pos - 1]}
  }

  lemma {:induction false} RowEdgesAt(g: Graph, u: nat, pos: nat)
    requires g.Valid() && u < g.N() && g.indptr[u] <= pos <= g.indptr[u + 1]
    ensures forall e :: e in RowEdges(g, u, pos) ==> e < g.E() && g.src[e] == u
    ensures forall p: nat :: g.indptr[u] <= p < pos ==> g.adj[p] in RowEdges(g, u, pos)
    ensures forall p: nat :: pos <= p < g.indptr[u + 1] ==> g.adj[p] !in RowEdges(g, u, pos)
    decreases pos
  {
    if pos > g.indptr[u] {
      RowEdgesAt(g, u, pos - 1);
      assert g.InRow(u, pos - 1);
    }
  }

  /** The full row of u is all edges leaving u. */
  lemma RowIsAllEdges(g: Graph, u: nat, e: nat)
    requires g.Valid() && u < g.N() && e < g.E() && g.src[e] == u
    ensures e in RowEdges(g, u, g.indptr[u + 1])
  {
    RowEdgesAt(g, u, g.indptr[u + 1]);
    assert g.HasPlace(e);
  }

  /** Node u was just settled and none of its edges has been looked at. */
  ghost predicate RowReady(g: Graph, w: seq<real>, s: nat, st: Search, u: nat) {
    && Inv(g, w, s, st)
    && u in st.settled && st.dist[u] == Fin(st.key)
    && forall e :: e in st.relaxed ==> g.src[e] != u
  }

  lemma RowStarts(g: Graph, w: seq<real>, s: nat, st: Search, u: nat)
    requires RowReady(g, w, s, st, u)
    ensures RowDone(g, w, s, st, st, u, g.indptr[u])
  {
  }

  /** After the first positions of u's row: the invariant holds and nothing settled has changed. */
  ghost predicate RowDone(g: Graph, w: seq<real>, s: nat, st: Search, st': Search, u: nat, pos: nat)
    requires g.Valid() && u < g.N() && g.indptr[u] <= pos <= g.indptr[u + 1]
  {
    Inv(g, w, s, st') && Extends(st, st', RowEdges(g, u, pos))
  }

  lemma {:induction false} RelaxRowInv(g: Graph, w: seq<real>, s: nat, st: Search, u: nat, pos: nat)
    requires RowReady(g, w, s, st, u) && g.indptr[u] <= pos <= g.indptr[u + 1]
    ensures RowDone(g, w, s, st, RelaxRow(g, w, st, st.key, u, pos), u, pos)
    decreases pos
  {
    hide RelaxEdge;
    hide RowDone;
    if pos == g.indptr[u] {
      RowStarts(g, w, s, st, u);
    } else {
      RelaxRowInv(g, w, s, st, u, pos - 1);
      var mid := RelaxRow(g, w, st, st.key, u, pos - 1);
      RelaxNext(g, w, s, st, mid, u, pos - 1);
      var next := RelaxEdge(g, w, mid, st.key, u, g.adj[pos - 1]);
      assert RelaxRow(g, w, st, st.key, u, pos) == next;
      assert RowDone(g, w, s, st, next, u, pos);
    }
  }

  lemma RelaxNext(g: Graph, w: seq<real>, s: nat, st: Search, mid: Search, u: nat, pos: nat)
    requires RowReady(g, w, s, st, u) && g.indptr[u] <= pos < g.indptr[u + 1]
    requires RowDone(g, w, s, st, mid, u, pos)
    ensures RowDone(g, w, s, st, RelaxEdge(g, w, mid, st.key, u, g.adj[pos]), u, pos + 1)
  {
    var e := g.adj[pos];
    NextInRow(g, w, s, st, mid, u, pos);
    RelaxEdgeInv(g, w, s, mid, u, e);
    RelaxEdgeKeeps(g, w, s, mid, u, e);
    ExtendsTransitive(st, mid, RelaxEdge(g, w, mid, mid.key, u, e), RowEdges(g, u, pos), {e});
  }

  lemma NextInRow(g: Graph, w: seq<real>, s: nat, st: Search, mid: Search, u: nat, pos: nat)
    requires RowReady(g, w, s, st, u) && g.indptr[u] <= pos < g.indptr[u + 1]
    requires Inv(g, w, s, mid) && Extends(st, mid, RowEdges(g, u, pos))
    ensures CanRelax(g, w, s, mid, u, g.adj[pos])
  {
    RowEdgesAt(g, u, pos);
    assert g.InRow(u, pos);
    assert SameAt(st, mid, u);
  }

  // ---------- a whole step ----------

  /** A stale entry, or one for no node, is dropped without harm. */
  lemma PoppedInv(g: Graph, w: seq<real>, s: nat, st: Search)
    requires Inv(g, w, s, st) && |st.heap| > 0 && Stale(g, st)
    ensures Inv(g, w, s, Popped(st))
  {
    var st', top := Popped(st), Top(st.heap);
    assert GoodEntry(g, st, top);
    forall v: nat | v < g.N() ensures Justified(g, w, s, st', v) && GoodNode(g, st', v) {
      assert Justified(g, w, s, st, v) && GoodNode(g, st, v);
    }
    forall x | x in st'.heap ensures GoodEntry(g, st', x) { assert GoodEntry(g, st, x); }
    forall e | e in st'.relaxed ensures GoodEdge(g, w, st', e) { assert GoodEdge(g, w, st, e); }
  }

  /** The top entry of the heap, if it is not stale, is the distance of an unsettled node, and no
      unsettled node is nearer. */
  lemma TopIsNearest(g: Graph, w: seq<real>, s: nat, st: Search)
    requires Inv(g, w, s, st) && |st.heap| > 0 && !Stale(g, st)
    ensures var (d, u) := Top(st.heap);
      && u < g.N() && u !in st.settled && st.dist[u] == Fin(d) && st.key <= d
      && (forall v: nat :: v < g.N() && v !in st.settled && st.dist[v].Fin? ==> d <= st.dist[v].v)
  {
    var (d, u) := Top(st.heap);
    assert GoodEntry(g, st, (d, u));
    assert GoodNode(g, st, u);
    forall v: nat | v < g.N() && v !in st.settled && st.dist[v].Fin? ensures d <= st.dist[v].v {
      assert GoodNode(g, st, v);
      assert TupleAtMost((d, u), (st.dist[v].v, v));
    }
  }

  /** Settling the nearest unsettled node. */
  lemma SettleInv(g: Graph, w: seq<real>, s: nat, st: Search)
    requires Inv(g, w, s, st) && |st.heap| > 0 && !Stale(g, st)
    ensures var (d, u) := Top(st.heap); RowReady(g, w, s, Settle(Popped(st), d, u), u)
  {
    TopIsNearest(g, w, s, st);
    var (d, u) := Top(st.heap);
    var st' := Settle(Popped(st), d, u);
    assert GoodEntry(g, st, (d, u));
    forall v: nat | v < g.N() ensures Justified(g, w, s, st', v) && GoodNode(g, st', v) {
      assert Justified(g, w, s, st, v) && GoodNode(g, st, v);
    }
    forall x | x in st'.heap ensures GoodEntry(g, st', x) { assert GoodEntry(g, st, x); }
    forall e | e in st'.relaxed ensures GoodEdge(g, w, st', e) && g.src[e] != u { assert GoodEdge(g, w, st, e); }
  }

  /** A whole step keeps the invariant, and settles a node or shrinks the heap. */
  lemma StepKeepsInv(g: Graph, w: seq<real>, s: nat, st: Search)
    requires Inv(g, w, s, st) && Complete(g, st, -1)
    ensures Inv(g, w, s, Step(g, w, st)) && Complete(g, Step(g, w, st), -1)
    ensures st.settled <= Step(g, w, st).settled
    ensures |st.heap| > 0 && Step(g, w, st).settled == st.settled ==> |Step(g, w, st).heap| < |st.heap|
  {
    if |st.heap| > 0 {
      if Stale(g, st) {
        PoppedInv(g, w, s, st);
      } else {
        SettlingStep(g, w, s, st);
      }
    }
  }

  lemma InvShape(g: Graph, w: seq<real>, s: nat, st: Search)
    requires Inv(g, w, s, st)
    ensures g.Valid() && |w| == g.E() && s < g.N() && Shaped(g, st)
    ensures forall v :: v in st.settled ==> v < g.N()
  {
  }

  lemma SettlingStep(g: Graph, w: seq<real>, s: nat, st: Search)
    requires Inv(g, w, s, st) && Complete(g, st, -1) && |st.heap| > 0 && !Stale(g, st)
    ensures Inv(g, w, s, Step(g, w, st)) && Complete(g, Step(g, w, st), -1)
    ensures st.settled < Step(g, w, st).settled
  {
    hide RelaxEdge;
    hide Inv;
    hide IsTop;
    InvShape(g, w, s, st);
    SettleInv(g, w, s, st);
    TopIsNearest(g, w, s, st);
    var (d, u) := Top(st.heap);
    var st1 := Settle(Popped(st), d, u);
    RelaxRowInv(g, w, s, st1, u, g.indptr[u + 1]);
    forall e: nat | e < g.E() && g.src[e] in st1.settled ensures e in Step(g, w, st).relaxed {
      if g.src[e] == u { RowIsAllEdges(g, u, e); }
    }
  }

  /** A step never changes what is said about a node that is settled after it. */
  lemma StepFreezes(g: Graph, w: seq<real>, s: nat, st: Search, x: nat)
    requires Inv(g, w, s, st) && x in Step(g, w, st).settled
    ensures SameAt(st, Step(g, w, st), x)
  {
    hide RelaxEdge;
    hide Justified;
    hide GoodNode;
    hide GoodEdge;
    if |st.heap| > 0 && !Stale(g, st) {
      SettleInv(g, w, s, st);
      TopIsNearest(g, w, s, st);
      var (d, u) := Top(st.heap);
      var st1 := Settle(Popped(st), d, u);
      RelaxRowInv(g, w, s, st1, u, g.indptr[u + 1]);
      assert SameAt(st1, RelaxRow(g, w, st1, d, u, g.indptr[u + 1]), x);
    } else if |st.heap| > 0 {
      assert GoodEntry(g, st, Top(st.heap));
    }
  }

  // ---------- the search as a run of steps ----------

  /** The state after k steps; whatever the query asks for, a search follows this one run. */
  ghost function Iter(g: Graph, w: seq<real>, s: nat, k: nat): (st: Search)
    requires g.Valid() && |w| == g.E() && s < g.N()
    ensures Shaped(g, st)
  {
    if k == 0 then Start(g.N(), s) else Step(g, w, Iter(g, w, s, k - 1))
  }

  ghost predicate Query(g: Graph, w: seq<real>, s: nat) {
    g.Valid() && IsWeighting(g, w) && s < g.N()
  }

  lemma {:induction false} IterInv(g: Graph, w: seq<real>, s: nat, k: nat)
    requires Query(g, w, s)
    ensures Inv(g, w, s, Iter(g, w, s, k)) && Complete(g, Iter(g, w, s, k), -1)
  {
    if k == 0 {
      StartInv(g, w, s);
    } else {
      IterInv(g, w, s, k - 1);
      StepKeepsInv(g, w, s, Iter(g, w, s, k - 1));
    }
  }

  lemma {:induction false} SettledGrows(g: Graph, w: seq<real>, s: nat, k: nat, k': nat)
    requires Query(g, w, s) && k <= k'
    ensures Iter(g, w, s, k).settled <= Iter(g, w, s, k').settled
    decreases k'
  {
    hide Step;
    hide Inv;
    if k < k' {
      SettledGrows(g, w, s, k, k' - 1);
      IterInv(g, w, s, k' - 1);
      StepKeepsInv(g, w, s, Iter(g, w, s, k' - 1));
    }
  }

  /** The answer for t is final after k steps: the next pop settles it, if it was not settled before, or
      nothing is left to pop. */
  ghost predicate IsFinal(g: Graph, w: seq<real>, s: nat, k: nat, t: nat)
    requires g.Valid() && |w| == g.E() && s < g.N()
  {
    t in Iter(g, w, s, k + 1).settled || |Iter(g, w, s, k).heap| == 0
  }

  lemma StepAtRest(g: Graph, w: seq<real>, st: Search)
    requires g.Valid() && |w| == g.E() && Shaped(g, st) && |st.heap| == 0
    ensures Step(g, w, st) == st
  {
  }

  /** A final answer stays as it is, however much longer the search runs. */
  lemma {:induction false} FinalStays(g: Graph, w: seq<real>, s: nat, k: nat, k': nat, t: nat)
    requires Query(g, w, s) && IsFinal(g, w, s, k, t) && k <= k' && t < g.N()
    ensures SameAt(Iter(g, w, s, k), Iter(g, w, s, k'), t)
    ensures |Iter(g, w, s, k).heap| == 0 ==> Iter(g, w, s, k') == Iter(g, w, s, k)
    decreases k'
  {
    hide Step;
    hide Inv;
    if k < k' {
      FinalStays(g, w, s, k, k' - 1, t);
      IterInv(g, w, s, k' - 1);
      if |Iter(g, w, s, k).heap| == 0 {
        StepAtRest(g, w, Iter(g, w, s, k));
      } else {
        SettledGrows(g, w, s, k + 1, k');
        StepFreezes(g, w, s, Iter(g, w, s, k' - 1), t);
      }
    }
  }

  // ---------- counting ----------

  function Below(n: nat): (s: set<nat>)
    ensures forall v: nat :: v in s <==> v < n
    ensures |s| == n
  {
    if n == 0 then {} else Below(n - 1) + {n - 1}
  }

  lemma SubsetSize<T>(a: set<T>, b: set<T>)
    requires a <= b
    ensures |a| <= |b|
    ensures a < b ==> |a| < |b|
  {
    assert b == a + (b - a);
    assert |b| == |a| + |b - a|;
    if |b - a| == 0 { assert b - a == {}; }
  }

  lemma SearchBounds(g: Graph, w: seq<real>, s: nat, st: Search)
    requires Inv(g, w, s, st)
    ensures |st.settled| <= g.N() && st.pushes <= g.E() + 1
  {
    SubsetSize(st.settled, Below(g.N()));
    SubsetSize(st.relaxed, Below(g.E()));
  }

  // ---------- why final distances are shortest ----------

  /** Every unsettled node that was reached is at least b away. */
  ghost predicate OpenAtLeast(g: Graph, st: Search, b: Cost)
    requires Shaped(g, st)
  {
    forall v: nat :: v < g.N() && v !in st.settled && st.dist[v].Fin? ==> AtMost(b, st.dist[v])
  }

  /** Along any walk the search is never behind, except where the walk has left the settled region, which
      costs at least b. */
  lemma {:induction false} WalkBound(g: Graph, w: seq<real>, s: nat, st: Search, b: Cost, t: nat, p: seq<nat>)
    requires Inv(g, w, s, st) && Complete(g, st, -1) && OpenAtLeast(g, st, b)
    requires t < g.N() && IsWalk(g, s, t, p)
    ensures AtMost(st.dist[t], Fin(Sum(w, p))) || AtMost(b, Fin(Sum(w, p)))
    decreases |p|
  {
    if p != [] {
      var e := p[|p| - 1];
      var y := g.src[e];
      WalkBound(g, w, s, st, b, y, p[..|p| - 1]);
      if y in st.settled {
        assert GoodEdge(g, w, st, e);
      }
    }
  }

  lemma OpenBound(g: Graph, w: seq<real>, s: nat, st: Search, t: nat)
    requires Inv(g, w, s, st) && t < g.N() && (t in Step(g, w, st).settled || |st.heap| == 0)
    ensures OpenAtLeast(g, st, if |st.heap| == 0 then Inf else st.dist[t])
    ensures |st.heap| > 0 ==> st.dist[t].Fin?
  {
    if |st.heap| == 0 {
      forall v: nat | v < g.N() && v !in st.settled ensures st.dist[v].Inf? {
        assert GoodNode(g, st, v);
        assert |st.heap| == 0;
      }
    } else if t in st.settled {
      assert GoodNode(g, st, t);
      forall v: nat | v < g.N() && v !in st.settled && st.dist[v].Fin? ensures AtMost(st.dist[t], st.dist[v]) {
        assert GoodNode(g, st, v);
      }
    } else {
      NewlySettled(g, w, s, st, t);
      TopIsNearest(g, w, s, st);
    }
  }

  lemma StaleSettlesNobody(g: Graph, w: seq<real>, s: nat, st: Search)
    requires Inv(g, w, s, st) && |st.heap| > 0 && Stale(g, st)
    ensures Step(g, w, st).settled == st.settled
  {
  }

  lemma NewlySettled(g: Graph, w: seq<real>, s: nat, st: Search, t: nat)
    requires Inv(g, w, s, st) && |st.heap| > 0 && t !in st.settled && t in Step(g, w, st).settled
    ensures !Stale(g, st) && Top(st.heap).1 == t
  {
    hide RelaxEdge;
    hide Justified;
    hide GoodNode;
    hide GoodEdge;
    hide GoodEntry;
    hide IsTop;
    if Stale(g, st) {
      StaleSettlesNobody(g, w, s, st);
    } else {
      SettleInv(g, w, s, st);
      TopIsNearest(g, w, s, st);
      var (d, u) := Top(st.heap);
      RelaxRowInv(g, w, s, Settle(Popped(st), d, u), u, g.indptr[u + 1]);
    }
  }

  /** A final distance is the least weight over all walks, and `inf` exactly when there is none. */
  lemma FinalIsShortest(g: Graph, w: seq<real>, s: nat, k: nat, t: nat)
    requires Query(g, w, s) && IsFinal(g, w, s, k, t) && t < g.N()
    ensures IsShortest(g, w, s, t, Iter(g, w, s, k).dist[t])
  {
    var st := Iter(g, w, s, k);
    IterInv(g, w, s, k);
    OpenBound(g, w, s, st, t);
    assert Justified(g, w, s, st, t);
    forall p | IsWalk(g, s, t, p) ensures AtMost(st.dist[t], Fin(Sum(w, p))) {
      WalkBound(g, w, s, st, if |st.heap| == 0 then Inf else st.dist[t], t, p);
    }
  }

  // ---------- what a query may rely on ----------

  /** A query for t from s reports this time and these metres. */
  ghost predicate Reports(g: Graph, w: seq<real>, s: nat, t: nat, time: Cost, metres: Cost)
    requires Query(g, w, s) && t < g.N()
  {
    exists k: nat :: IsFinal(g, w, s, k, t)
                  && Iter(g, w, s, k).dist[t] == time && Iter(g, w, s, k).length[t] == metres
  }

  /** Stopping early does not change answers: whatever else a query asked for, and whenever it stopped,
      it reports the same time and the same metres for t. */
  lemma EarlyStopIsHarmless(g: Graph, w: seq<real>, s: nat, t: nat, a: Cost, am: Cost, b: Cost, bm: Cost)
    requires Query(g, w, s) && t < g.N() && Reports(g, w, s, t, a, am) && Reports(g, w, s, t, b, bm)
    ensures a == b && am == bm
  {
    var k: nat :| IsFinal(g, w, s, k, t) && Iter(g, w, s, k).dist[t] == a && Iter(g, w, s, k).length[t] == am;
    var l: nat :| IsFinal(g, w, s, l, t) && Iter(g, w, s, l).dist[t] == b && Iter(g, w, s, l).length[t] == bm;
    if k <= l {
      FinalStays(g, w, s, k, l, t);
    } else {
      FinalStays(g, w, s, l, k, t);
    }
  }
}
