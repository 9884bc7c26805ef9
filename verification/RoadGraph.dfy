/** The directed road network and its adjacency in compressed sparse rows. */
module RoadGraph {
  import opened Base
  import opened Sorting

  datatype GraphError = TooFewNodes | NoEdges | LengthMismatch | DuplicateNodes | SourceOutOfRange
                      | DestinationOutOfRange | BadLength | BadFreeFlow | UnknownNode(id: int) | WrongWeights
                      | NoPath(origin: int, destination: int) | Disconnected

  /** Nodes and edges are indices; adj lists the edges grouped by source node, indptr[u]..indptr[u+1]
      being the group of node u. */
  datatype Graph = Graph(nodeIds: seq<int>, src: seq<nat>, dst: seq<nat>, len: seq<real>, freeFlow: seq<real>,
                         indptr: seq<nat>, adj: seq<nat>)
  {
    function N(): nat { |nodeIds| }

    function E(): nat { |src| }

    /** What the constructor checks. */
    ghost predicate WellFormed() {
      && N() >= 2 && E() >= 1
      && |dst| == |len| == |freeFlow| == E()
      && (forall i, j :: 0 <= i < j < N() ==> nodeIds[i] != nodeIds[j])
      && (forall e :: 0 <= e < E() ==> src[e] < N() && dst[e] < N())
      && (forall e :: 0 <= e < E() ==> len[e] >= 0.0 && freeFlow[e] > 0.0)
    }

    /** The rows tile the adjacency list ... */
    ghost predicate RowsTile() {
      && |indptr| == N() + 1
      && indptr[0] == 0 && indptr[N()] == E() == |adj|
      && (forall u, v :: 0 <= u <= v <= N() ==> indptr[u] <= indptr[v])
    }

    ghost predicate InRow(u: nat, pos: nat)
      requires RowsTile()
    {
      u < N() && indptr[u] <= pos < indptr[u + 1]
    }

    /** Edge e stands somewhere in the row of its source. */
    ghost predicate HasPlace(e: nat)
      requires WellFormed() && RowsTile() && e < E()
    {
      exists pos: nat :: InRow(src[e], pos) && adj[pos] == e
    }

    /** ... and row u holds exactly the edges that leave u, each once, in edge order. */
    ghost predicate RowsCorrect()
      requires WellFormed() && RowsTile()
    {
      && IsPermutation(adj, E())
      && (forall u: nat, pos: nat :: InRow(u, pos) ==> src[adj[pos]] == u)
      && (forall e: nat :: e < E() ==> HasPlace(e))
      && (forall u: nat, p: nat, q: nat :: InRow(u, p) && InRow(u, q) && p < q ==> adj[p] < adj[q])
    }

    ghost predicate Valid() {
      WellFormed() && RowsTile() && RowsCorrect()
    }
  }

  // ---------- counting ----------

  function CountBelow(s: seq<nat>, u: nat): nat {
    if s == [] then 0 else CountBelow(s[..|s| - 1], u) + if s[|s| - 1] < u then 1 else 0
  }

  function CountAt(s: seq<nat>, u: nat): nat {
    if s == [] then 0 else CountAt(s[..|s| - 1], u) + if s[|s| - 1] == u then 1 else 0
  }

  lemma {:induction false} CountBelowNext(s: seq<nat>, u: nat)
    ensures CountBelow(s, u + 1) == CountBelow(s, u) + CountAt(s, u)
  {
    if s != [] { CountBelowNext(s[..|s| - 1], u); }
  }

  lemma {:induction false} CountBelowBounds(s: seq<nat>, u: nat)
    ensures CountBelow(s, u) <= |s|
    ensures (forall i :: 0 <= i < |s| ==> s[i] < u) ==> CountBelow(s, u) == |s|
    ensures u == 0 ==> CountBelow(s, u) == 0
  {
    if s != [] { CountBelowBounds(s[..|s| - 1], u); }
  }

  lemma {:induction false} CountBelowMonotone(s: seq<nat>, u: nat, v: nat)
    requires u <= v
    ensures CountBelow(s, u) <= CountBelow(s, v)
  {
    if s != [] { CountBelowMonotone(s[..|s| - 1], u, v); }
  }

  lemma {:induction false} CountBelowAppend(a: seq<nat>, b: seq<nat>, u: nat)
    ensures CountBelow(a + b, u) == CountBelow(a, u) + CountBelow(b, u)
    decreases |b|
  {
    if b == [] {
      assert a + b == a;
    } else {
      CountBelowAppend(a, b[..|b| - 1], u);
      assert (a + b)[..|a + b| - 1] == a + b[..|b| - 1];
    }
  }

  lemma CountBelowRemove(s: seq<nat>, i: nat, u: nat)
    requires i < |s|
    ensures CountBelow(s, u) == CountBelow(RemoveAt(s, i), u) + if s[i] < u then 1 else 0
  {
    CountBelowAppend(s[..i], s[i + 1..], u);
    CountBelowAppend(s[..i + 1], s[i + 1..], u);
    assert s == s[..i + 1] + s[i + 1..];
    assert s[..i + 1][..i] == s[..i];
  }

  lemma {:induction false} CountBelowPermuted(a: seq<nat>, b: seq<nat>, u: nat)
    requires multiset(a) == multiset(b)
    ensures CountBelow(a, u) == CountBelow(b, u)
    decreases |a|
  {
    if |a| == 0 {
      assert |multiset(a)| == |multiset(b)|;
    } else {
      assert a[0] in multiset(b);
      var i :| 0 <= i < |b| && b[i] == a[0];
      RemoveAtElements(a, 0);
      RemoveAtElements(b, i);
      CountBelowPermuted(RemoveAt(a, 0), RemoveAt(b, i), u);
      CountBelowRemove(a, 0, u);
      CountBelowRemove(b, i, u);
    }
  }

  /** In a sorted list the elements below u are exactly the first CountBelow of them. */
  lemma {:induction false} SortedBoundary(s: seq<nat>, u: nat, p: nat)
    requires forall i, j :: 0 <= i < j < |s| ==> s[i] <= s[j]
    requires p < |s|
    ensures s[p] < u <==> p < CountBelow(s, u)
  {
    var m := |s| - 1;
    CountBelowBounds(s[..m], u);
    if p < m {
      SortedBoundary(s[..m], u, p);
    }
  }

  // ---------- building the rows ----------

  /** Counts per node, then running totals: indptr[u] is the number of edges that leave nodes below u. */
  method RowPointers(n: nat, src: seq<nat>) returns (indptr: seq<nat>)
    requires forall e :: 0 <= e < |src| ==> src[e] < n
    ensures |indptr| == n + 1 && forall u :: 0 <= u <= n ==> indptr[u] == CountBelow(src, u)
  {
    var counts := new nat[n + 1](_ => 0);
    for e := 0 to |src|
      invariant counts[0] == 0
      invariant forall u :: 0 <= u < n ==> counts[u + 1] == CountAt(src[..e], u)
    {
      assert src[..e + 1][..e] == src[..e];
      counts[src[e] + 1] := counts[src[e] + 1] + 1;
    }
    assert src[..|src|] == src;
    assert forall u :: 0 <= u < n ==> counts[u + 1] == CountAt(src, u);
    CountBelowBounds(src, 0);
    indptr := [counts[0]];
    for u := 0 to n
      invariant |indptr| == u + 1
      invariant forall x :: 0 <= x < n ==> counts[x + 1] == CountAt(src, x)
      invariant forall x :: 0 <= x <= u ==> indptr[x] == CountBelow(src, x)
    {
      CountBelowNext(src, u);
      assert counts[u + 1] == CountAt(src, u);
      indptr := indptr + [indptr[u] + counts[u + 1]];
    }
  }

  function SourceKeys(src: seq<nat>): (keys: seq<real>)
    ensures |keys| == |src| && forall e :: 0 <= e < |src| ==> keys[e] == src[e] as real
  {
    seq(|src|, e requires 0 <= e < |src| => src[e] as real)
  }

  /** Position p of the sorted adjacency lies in row u exactly when the edge there leaves u. */
  lemma RowOfPosition(src: seq<nat>, adj: seq<nat>, u: nat, p: nat)
    requires adj == Argsort(SourceKeys(src)) && p < |src|
    ensures |adj| == |src| && adj[p] < |src|
    ensures CountBelow(src, u) <= p < CountBelow(src, u + 1) <==> src[adj[p]] == u
  {
    var keys := SourceKeys(src);
    assert IsStableArgsort(keys, adj);
    var sorted := Gather(src, adj);
    forall i, j | 0 <= i < j < |sorted| ensures sorted[i] <= sorted[j] {
      assert Before(keys, adj[i], adj[j]);
    }
    PermutationKeepsElements(src, adj);
    CountBelowPermuted(sorted, src, u);
    CountBelowPermuted(sorted, src, u + 1);
    SortedBoundary(sorted, u, p);
    SortedBoundary(sorted, u + 1, p);
  }

  /** What the two build steps leave behind. */
  ghost predicate Built(g: Graph) {
    && g.WellFormed()
    && g.adj == Argsort(SourceKeys(g.src))
    && |g.indptr| == g.N() + 1
    && forall u :: 0 <= u <= g.N() ==> g.indptr[u] == CountBelow(g.src, u)
  }

  lemma BuiltRowsTile(g: Graph)
    requires Built(g)
    ensures g.RowsTile() && IsPermutation(g.adj, g.E())
  {
    assert IsStableArgsort(SourceKeys(g.src), g.adj);
    CountBelowBounds(g.src, 0);
    CountBelowBounds(g.src, g.N());
    forall u, v | 0 <= u <= v <= g.N() ensures g.indptr[u] <= g.indptr[v] {
      CountBelowMonotone(g.src, u, v);
    }
  }

  lemma BuiltRow(g: Graph, u: nat, pos: nat)
    requires Built(g) && g.RowsTile() && IsPermutation(g.adj, g.E()) && u < g.N() && pos < g.E()
    ensures g.InRow(u, pos) <==> g.src[g.adj[pos]] == u
  {
    RowOfPosition(g.src, g.adj, u, pos);
  }

  lemma BuiltRowHasEdge(g: Graph, e: nat)
    requires Built(g) && g.RowsTile() && IsPermutation(g.adj, g.E()) && e < g.E()
    ensures g.HasPlace(e)
  {
    PermutationReaches(g.adj, g.E());
    assert e in g.adj;
    var pos: nat :| pos < |g.adj| && g.adj[pos] == e;
    BuiltRow(g, g.src[e], pos);
  }

  lemma BuiltRowInOrder(g: Graph, u: nat, p: nat, q: nat)
    requires Built(g) && g.RowsTile() && IsPermutation(g.adj, g.E()) && g.InRow(u, p) && g.InRow(u, q) && p < q
    ensures g.adj[p] < g.adj[q]
  {
    BuiltRow(g, u, p);
    BuiltRow(g, u, q);
    assert IsStableArgsort(SourceKeys(g.src), g.adj);
    assert Before(SourceKeys(g.src), g.adj[p], g.adj[q]);
  }

  /** The rows built by counting and a stable sort hold exactly the edges leaving each node. */
  lemma BuiltGraphIsValid(g: Graph)
    requires Built(g)
    ensures g.Valid()
  {
    BuiltRowsTile(g);
    forall u: nat, pos: nat | g.InRow(u, pos) ensures g.src[g.adj[pos]] == u {
      BuiltRow(g, u, pos);
    }
    forall e: nat | e < g.E() ensures g.HasPlace(e) {
      BuiltRowHasEdge(g, e);
    }
    forall u: nat, p: nat, q: nat | g.InRow(u, p) && g.InRow(u, q) && p < q ensures g.adj[p] < g.adj[q] {
      BuiltRowInOrder(g, u, p, q);
    }
  }

  predicate InRange(xs: seq<int>, n: nat) {
    forall i :: 0 <= i < |xs| ==> 0 <= xs[i] < n
  }

  function AsIndices(xs: seq<int>, n: nat): (ys: seq<nat>)
    requires InRange(xs, n)
    ensures |ys| == |xs| && forall i :: 0 <= i < |xs| ==> ys[i] == xs[i]
  {
    seq(|xs|, i requires 0 <= i < |xs| => xs[i])
  }

  /** The first check that fails, in the order of the constructor. */
  function FirstProblem(nodeIds: seq<int>, src: seq<int>, dst: seq<int>, len: seq<real>, freeFlow: seq<real>)
    : Option<GraphError>
  {
    if |nodeIds| < 2 then Some(TooFewNodes)
    else if |src| < 1 then Some(NoEdges)
    else if |dst| != |src| || |len| != |src| || |freeFlow| != |src| then Some(LengthMismatch)
    else if exists i, j :: 0 <= i < j < |nodeIds| && nodeIds[i] == nodeIds[j] then Some(DuplicateNodes)
    else if !InRange(src, |nodeIds|) then Some(SourceOutOfRange)
    else if !InRange(dst, |nodeIds|) then Some(DestinationOutOfRange)
    else if exists e :: 0 <= e < |len| && len[e] < 0.0 then Some(BadLength)
    else if exists e :: 0 <= e < |freeFlow| && freeFlow[e] <= 0.0 then Some(BadFreeFlow)
    else None
  }

  /** Check number k of the constructor. */
  ghost predicate Passes(nodeIds: seq<int>, src: seq<int>, dst: seq<int>, len: seq<real>, freeFlow: seq<real>, k: nat) {
    match k
    case 0 => |nodeIds| >= 2
    case 1 => src != []
    case 2 => |dst| == |len| == |freeFlow| == |src|
    case 3 => forall i, j :: 0 <= i < j < |nodeIds| ==> nodeIds[i] != nodeIds[j]
    case 4 => forall e :: 0 <= e < |src| ==> 0 <= src[e] < |nodeIds|
    case 5 => forall e :: 0 <= e < |dst| ==> 0 <= dst[e] < |nodeIds|
    case 6 => forall e :: 0 <= e < |len| ==> len[e] >= 0.0
    case _ => forall e :: 0 <= e < |freeFlow| ==> freeFlow[e] > 0.0
  }

  const CHECKS: seq<GraphError> := [TooFewNodes, NoEdges, LengthMismatch, DuplicateNodes, SourceOutOfRange,
                                    DestinationOutOfRange, BadLength, BadFreeFlow]

  ghost predicate PassesAll(nodeIds: seq<int>, src: seq<int>, dst: seq<int>, len: seq<real>, freeFlow: seq<real>,
                            n: nat)
  {
    forall k: nat :: k < n ==> Passes(nodeIds, src, dst, len, freeFlow, k)
  }

  /** The input fails check k and no earlier one. */
  ghost predicate FailsFirst(nodeIds: seq<int>, src: seq<int>, dst: seq<int>, len: seq<real>, freeFlow: seq<real>,
                             err: GraphError, k: nat)
  {
    k < |CHECKS| && err == CHECKS[k] && PassesAll(nodeIds, src, dst, len, freeFlow, k)
    && !Passes(nodeIds, src, dst, len, freeFlow, k)
  }

  /** Nothing is wrong exactly when all checks pass; otherwise the problem is that of the first that fails. */
  lemma ProblemMeans(nodeIds: seq<int>, src: seq<int>, dst: seq<int>, len: seq<real>, freeFlow: seq<real>)
    ensures var problem := FirstProblem(nodeIds, src, dst, len, freeFlow);
      && (problem.None? <==> PassesAll(nodeIds, src, dst, len, freeFlow, |CHECKS|))
      && (problem.Some? ==> exists k: nat :: FailsFirst(nodeIds, src, dst, len, freeFlow, problem.value, k))
  {
    var problem := FirstProblem(nodeIds, src, dst, len, freeFlow);
    var k := if problem.None? then 8 else if problem.value.TooFewNodes? then 0 else if problem.value.NoEdges? then 1
             else if problem.value.LengthMismatch? then 2 else if problem.value.DuplicateNodes? then 3
             else if problem.value.SourceOutOfRange? then 4 else if problem.value.DestinationOutOfRange? then 5
             else if problem.value.BadLength? then 6 else 7;
    assert PassesAll(nodeIds, src, dst, len, freeFlow, k);
    if k < 8 { assert FailsFirst(nodeIds, src, dst, len, freeFlow, problem.value, k); }
  }

  /** `RoadGraph.__init__`: a rejected input yields the first failed check, any other a graph whose rows
      are correct. */
  method Build(nodeIds: seq<int>, src: seq<int>, dst: seq<int>, len: seq<real>, freeFlow: seq<real>)
    returns (r: Result<Graph, GraphError>)
    ensures r.Success? <==> PassesAll(nodeIds, src, dst, len, freeFlow, |CHECKS|)
    ensures r.Failure? ==> exists k: nat :: FailsFirst(nodeIds, src, dst, len, freeFlow, r.error, k)
    ensures r.Success? ==>
      var g := r.value;
      g.Valid() && g.nodeIds == nodeIds && g.src == src && g.dst == dst && g.len == len && g.freeFlow == freeFlow
  {
    ProblemMeans(nodeIds, src, dst, len, freeFlow);
    var problem := FirstProblem(nodeIds, src, dst, len, freeFlow);
    if problem.Some? {
      return Failure(problem.value);
    }
    var sources, targets := AsIndices(src, |nodeIds|), AsIndices(dst, |nodeIds|);
    var adj := Argsort(SourceKeys(sources));
    var indptr := RowPointers(|nodeIds|, sources);
    var g := Graph(nodeIds, sources, targets, len, freeFlow, indptr, adj);
    BuiltGraphIsValid(g);
    r := Success(g);
  }
}
