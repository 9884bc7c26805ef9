/** Queries over the road graph: one path with its edges, tables of costs, and the cost matrix of one
    weight snapshot, which is a quasi-metric. */
module RoadMatrix {
  import opened Base
  import opened RoadGraph
  import opened Walks
  import opened Search
  import opened Dijkstra
  import opened AnyWeights
  import P = Problem
  import R = Repair

  // ---------- node ids ----------

  function IndexOf(ids: seq<int>, id: int): (r: Option<nat>)
    ensures r.Some? ==> r.value < |ids| && ids[r.value] == id
    ensures r.None? ==> id !in ids
  {
    if ids == [] then None
    else if ids[|ids| - 1] == id then Some(|ids| - 1)
    else IndexOf(ids[..|ids| - 1], id)
  }

  predicate AllKnown(ids: seq<int>, wanted: seq<int>) {
    forall i :: 0 <= i < |wanted| ==> wanted[i] in ids
  }

  function FirstUnknown(ids: seq<int>, wanted: seq<int>): (i: nat)
    requires !AllKnown(ids, wanted)
    ensures i < |wanted| && wanted[i] !in ids && AllKnown(ids, wanted[..i])
  {
    if wanted[0] !in ids then 0 else FirstUnknown(ids, wanted[1..]) + 1
  }

  function Indices(ids: seq<int>, wanted: seq<int>): (ps: seq<nat>)
    requires AllKnown(ids, wanted)
    ensures |ps| == |wanted|
    ensures forall i :: 0 <= i < |ps| ==> ps[i] < |ids| && ids[ps[i]] == wanted[i]
  {
    seq(|wanted|, i requires 0 <= i < |wanted| => assert wanted[i] in ids; IndexOf(ids, wanted[i]).value)
  }

  lemma FinalReports(g: Graph, w: seq<real>, s: nat, k: nat, t: nat)
    requires Query(g, w, s) && t < g.N() && IsFinal(g, w, s, k, t)
    ensures IsShortest(g, w, s, t, Iter(g, w, s, k).dist[t])
    ensures Reports(g, w, s, t, Iter(g, w, s, k).dist[t], Iter(g, w, s, k).length[t])
  {
    FinalIsShortest(g, w, s, k, t);
  }

  // ---------- one path ----------

  datatype Path = Path(nodes: seq<int>, edges: seq<nat>, time: real, metres: real)

  function Reversed<T>(s: seq<T>): seq<T> {
    if s == [] then [] else [s[|s| - 1]] + Reversed(s[..|s| - 1])
  }

  lemma ReversedSnoc<T>(s: seq<T>, x: T)
    ensures Reversed(s + [x]) == [x] + Reversed(s)
  {
    assert (s + [x])[..|s|] == s;
  }

  /** nodes lists, by id, the node v and then the end of each edge. */
  ghost predicate ListsNodes(g: Graph, v: nat, edges: seq<nat>, nodes: seq<int>)
    requires g.WellFormed() && v < g.N()
  {
    && |nodes| == |edges| + 1
    && nodes[0] == g.nodeIds[v]
    && (forall i :: 0 <= i < |edges| ==> edges[i] < g.E() && nodes[i + 1] == g.nodeIds[g.dst[edges[i]]])
  }

  /** What the recorded predecessor of a reached node other than the source says. */
  lemma ChainStep(g: Graph, w: seq<real>, s: nat, st: Search, v: nat)
    requires Inv(g, w, s, st) && v < g.N() && v != s && st.dist[v].Fin?
    ensures var e := st.prev[v];
      && 0 <= e < g.E() && g.dst[e] == v && g.src[e] < g.N() && st.dist[g.src[e]].Fin?
      && st.walk[v] == st.walk[g.src[e]] + [e]
  {
    assert Justified(g, w, s, st, v);
    assert ChainLink(g, st, v);
    assert GoodNode(g, st, g.src[st.prev[v]]);
  }

  lemma ChainEnds(g: Graph, w: seq<real>, s: nat, st: Search, t: nat)
    requires Inv(g, w, s, st) && t < g.N() && st.dist[t].Fin?
    ensures g.WellFormed() && Shaped(g, st) && s < g.N()
    ensures IsWalk(g, s, t, st.walk[t]) && st.walk[s] == []
  {
    assert Justified(g, w, s, st, t) && Justified(g, w, s, st, s);
  }

  lemma ListsMore(g: Graph, e: nat, edges: seq<nat>, nodes: seq<int>)
    requires g.WellFormed() && e < g.E() && ListsNodes(g, g.dst[e], edges, nodes)
    ensures ListsNodes(g, g.src[e], [e] + edges, [g.nodeIds[g.src[e]]] + nodes)
  {
  }

  lemma ConcatShift<T>(a: seq<T>, x: T, b: seq<T>)
    ensures (a + [x]) + b == a + ([x] + b)
  {
  }

  /** Following the predecessors from a reached node: the chain ends at the source, whatever the
      weights, and read backwards it is the walk that justifies the distance. */
  method RebuildPath(g: Graph, ghost w: seq<real>, s: nat, t: nat, prev: array<int>, ghost st: Search)
    returns (nodes: seq<int>, edges: seq<nat>)
    requires Inv(g, w, s, st) && prev[..] == st.prev && t < g.N() && st.dist[t].Fin?
    ensures edges == st.walk[t] && IsWalk(g, s, t, edges)
    ensures ListsNodes(g, s, edges, nodes)
  {
    hide Inv;
    hide IsWalk;
    ChainEnds(g, w, s, st, t);
    var cur: nat := t;
    var edgesRev, nodesRev := [], [g.nodeIds[t]];
    ghost var es: seq<nat>, ns := [], [g.nodeIds[t]];
    while cur != s
      invariant cur < g.N() && st.dist[cur].Fin?
      invariant Reversed(edgesRev) == es && Reversed(nodesRev) == ns
      invariant st.walk[t] == st.walk[cur] + es
      invariant ListsNodes(g, cur, es, ns)
      decreases |st.walk[cur]|
    {
      ChainStep(g, w, s, st, cur);
      var e := prev[cur];
      ListsMore(g, e, es, ns);
      ReversedSnoc(edgesRev, e);
      ReversedSnoc(nodesRev, g.nodeIds[g.src[e]]);
      ConcatShift(st.walk[g.src[e]], e, es);
      edgesRev := edgesRev + [e];
      cur := g.src[e];
      nodesRev := nodesRev + [g.nodeIds[cur]];
      es, ns := [e] + es, [g.nodeIds[cur]] + ns;
    }
    nodes, edges := Reversed(nodesRev), Reversed(edgesRev);
  }

  /** What a path query from s to t may answer. */
  ghost predicate IsAnswer(g: Graph, w: seq<real>, s: nat, t: nat, p: Path)
    requires Query(g, w, s) && t < g.N()
  {
    && IsWalk(g, s, t, p.edges)
    && ListsNodes(g, s, p.edges, p.nodes)
    && p.time == Sum(w, p.edges)
    && p.metres == Sum(g.len, p.edges)
    && NoneLighter(g, w, s, t, p.time)
    && Reports(g, w, s, t, Fin(p.time), Fin(p.metres))
  }

  /** `shortest_path`: the edges form a walk from origin to destination, their weights sum to the least
      possible time, their lengths to the reported metres; only an unreachable destination has no path. */
  method ShortestPath(g: Graph, origin: int, destination: int, w: seq<real>) returns (r: Result<Path, GraphError>)
    requires g.Valid() && NonNegative(w)
    ensures |w| != g.E() ==> r == Failure(WrongWeights)
    ensures |w| == g.E() && origin !in g.nodeIds ==> r == Failure(UnknownNode(origin))
    ensures |w| == g.E() && origin in g.nodeIds && destination !in g.nodeIds ==> r == Failure(UnknownNode(destination))
    ensures |w| == g.E() && origin in g.nodeIds && destination in g.nodeIds ==>
      var s, t := IndexOf(g.nodeIds, origin).value, IndexOf(g.nodeIds, destination).value;
      match r
      case Failure(e) => e == NoPath(origin, destination) && !Reachable(g, s, t)
      case Success(p) => IsAnswer(g, w, s, t, p)
  {
    if |w| != g.E() {
      return Failure(WrongWeights);
    }
    var from, to := IndexOf(g.nodeIds, origin), IndexOf(g.nodeIds, destination);
    if from.None? {
      return Failure(UnknownNode(origin));
    }
    if to.None? {
      return Failure(UnknownNode(destination));
    }
    var s, t := from.value, to.value;
    var dist, length, prev;
    ghost var k;
    NonNegativeHasNoLoop(g, w, s);
    dist, length, prev, k := Dijkstra.Dijkstra(g, s, w, Some([t]));
    r := ReadPath(g, w, s, t, origin, destination, dist, length, prev, k);
  }

  method ReadPath(g: Graph, w: seq<real>, s: nat, t: nat, origin: int, destination: int, dist: array<Cost>,
                  length: array<Cost>, prev: array<int>, ghost k: nat) returns (r: Result<Path, GraphError>)
    requires Query(g, w, s) && t < g.N() && IsFinal(g, w, s, k, t)
    requires Holds(g, Iter(g, w, s, k), dist, length, prev)
    ensures match r
      case Failure(e) => e == NoPath(origin, destination) && !Reachable(g, s, t)
      case Success(p) => IsAnswer(g, w, s, t, p)
  {
    ghost var st := Iter(g, w, s, k);
    IterInv(g, w, s, k);
    FinalIsShortest(g, w, s, k, t);
    if dist[t].Inf? {
      return Failure(NoPath(origin, destination));
    }
    assert Justified(g, w, s, st, t);
    var nodes, edges := RebuildPath(g, w, s, t, prev, st);
    FinalReports(g, w, s, k, t);
    r := Success(Path(nodes, edges, dist[t].v, length[t].v));
  }

  // ---------- tables ----------

  datatype Table = Table(time: seq<seq<Cost>>, metres: seq<seq<Cost>>)

  /** Row i of a table holds the answers from source s for all targets. */
  ghost predicate IsRow(g: Graph, w: seq<real>, s: nat, targets: seq<nat>, time: seq<Cost>, metres: seq<Cost>)
    requires Query(g, w, s) && forall j :: 0 <= j < |targets| ==> targets[j] < g.N()
  {
    && |time| == |metres| == |targets|
    && forall j :: 0 <= j < |targets| ==>
         IsShortest(g, w, s, targets[j], time[j]) && Reports(g, w, s, targets[j], time[j], metres[j])
  }

  ghost predicate IsTable(g: Graph, w: seq<real>, sources: seq<nat>, targets: seq<nat>, table: Table)
    requires g.Valid() && IsWeighting(g, w)
    requires forall i :: 0 <= i < |sources| ==> sources[i] < g.N()
    requires forall j :: 0 <= j < |targets| ==> targets[j] < g.N()
  {
    && |table.time| == |table.metres| == |sources|
    && forall i :: 0 <= i < |sources| ==> IsRow(g, w, sources[i], targets, table.time[i], table.metres[i])
  }

  lemma RowStart(g: Graph, w: seq<real>, s: nat, targets: seq<nat>)
    requires Query(g, w, s) && forall i :: 0 <= i < |targets| ==> targets[i] < g.N()
    ensures IsRow(g, w, s, targets[..0], [], [])
  {
  }

  lemma RowSnoc(g: Graph, w: seq<real>, s: nat, targets: seq<nat>, j: nat, time: seq<Cost>, metres: seq<Cost>,
                a: Cost, b: Cost)
    requires Query(g, w, s) && (forall i :: 0 <= i < |targets| ==> targets[i] < g.N()) && j < |targets|
    requires IsRow(g, w, s, targets[..j], time, metres)
    requires IsShortest(g, w, s, targets[j], a) && Reports(g, w, s, targets[j], a, b)
    ensures IsRow(g, w, s, targets[..j + 1], time + [a], metres + [b])
  {
    hide IsShortest;
    hide Reports;
  }

  lemma TableSnoc(g: Graph, w: seq<real>, ss: seq<nat>, i: nat, ts: seq<nat>, table: Table,
                  row: seq<Cost>, rowMetres: seq<Cost>)
    requires g.Valid() && IsWeighting(g, w) && i < |ss|
    requires forall x :: 0 <= x < |ss| ==> ss[x] < g.N()
    requires forall x :: 0 <= x < |ts| ==> ts[x] < g.N()
    requires IsTable(g, w, ss[..i], ts, table) && IsRow(g, w, ss[i], ts, row, rowMetres)
    ensures IsTable(g, w, ss[..i + 1], ts, Table(table.time + [row], table.metres + [rowMetres]))
  {
    hide IsRow;
  }

  method TableRow(g: Graph, w: seq<real>, s: nat, targets: seq<nat>) returns (time: seq<Cost>, metres: seq<Cost>)
    requires Query(g, w, s) && forall j :: 0 <= j < |targets| ==> targets[j] < g.N()
    ensures IsRow(g, w, s, targets, time, metres)
  {
    var dist, length, prev;
    ghost var k;
    NonNegativeHasNoLoop(g, w, s);
    dist, length, prev, k := Dijkstra.Dijkstra(g, s, w, Some(targets));
    var ds, ls := dist[..], length[..];
    time, metres := [], [];
    hide IsShortest;
    hide Reports;
    hide Iter;
    hide IsRow;
    RowStart(g, w, s, targets);
    for j := 0 to |targets|
      invariant IsRow(g, w, s, targets[..j], time, metres)
    {
      var t := targets[j];
      FinalReports(g, w, s, k, t);
      RowSnoc(g, w, s, targets, j, time, metres, ds[t], ls[t]);
      time, metres := time + [ds[t]], metres + [ls[t]];
    }
    assert targets[..|targets|] == targets;
  }

  /** `many_to_many`. */
  method ManyToMany(g: Graph, sources: seq<int>, targets: seq<int>, w: seq<real>) returns (r: Result<Table, GraphError>)
    requires g.Valid() && NonNegative(w)
    ensures r.Success? <==> |w| == g.E() && AllKnown(g.nodeIds, sources) && AllKnown(g.nodeIds, targets)
    ensures |w| != g.E() ==> r == Failure(WrongWeights)
    ensures |w| == g.E() && !AllKnown(g.nodeIds, sources) ==>
      r == Failure(UnknownNode(sources[FirstUnknown(g.nodeIds, sources)]))
    ensures |w| == g.E() && AllKnown(g.nodeIds, sources) && !AllKnown(g.nodeIds, targets) ==>
      r == Failure(UnknownNode(targets[FirstUnknown(g.nodeIds, targets)]))
    ensures r.Success? ==> IsTable(g, w, Indices(g.nodeIds, sources), Indices(g.nodeIds, targets), r.value)
  {
    if |w| != g.E() {
      return Failure(WrongWeights);
    }
    if !AllKnown(g.nodeIds, sources) {
      return Failure(UnknownNode(sources[FirstUnknown(g.nodeIds, sources)]));
    }
    if !AllKnown(g.nodeIds, targets) {
      return Failure(UnknownNode(targets[FirstUnknown(g.nodeIds, targets)]));
    }
    var ss, ts := Indices(g.nodeIds, sources), Indices(g.nodeIds, targets);
    var time, metres := [], [];
    for i := 0 to |ss|
      invariant IsTable(g, w, ss[..i], ts, Table(time, metres))
    {
      var row, rowMetres := TableRow(g, w, ss[i], ts);
      TableSnoc(g, w, ss, i, ts, Table(time, metres), row, rowMetres);
      time, metres := time + [row], metres + [rowMetres];
    }
    assert ss[..|ss|] == ss;
    r := Success(Table(time, metres));
  }

  /** A path query and a table entry for the same pair agree, in seconds and in metres. */
  lemma PathAgreesWithTable(g: Graph, w: seq<real>, s: nat, targets: seq<nat>, time: seq<Cost>, metres: seq<Cost>,
                            j: nat, p: Path)
    requires Query(g, w, s) && forall i :: 0 <= i < |targets| ==> targets[i] < g.N()
    requires IsRow(g, w, s, targets, time, metres) && j < |targets|
    requires Reports(g, w, s, targets[j], Fin(p.time), Fin(p.metres))
    ensures time[j] == Fin(p.time) && metres[j] == Fin(p.metres)
  {
    EarlyStopIsHarmless(g, w, s, targets[j], time[j], metres[j], Fin(p.time), Fin(p.metres));
  }

  // ---------- the matrix of one weight snapshot ----------

  /** The cost oracle over a fixed node list. */
  datatype RoadMatrix = RoadMatrix(nodes: seq<int>, time: seq<seq<real>>, metres: seq<seq<real>>)
  {
    ghost predicate Shaped() {
      && |time| == |metres| == |nodes|
      && forall i :: 0 <= i < |nodes| ==> |time[i]| == |metres[i]| == |nodes|
    }

    /** Seconds from one listed node to another. */
    function TravelTime(a: int, b: int): (r: Option<real>)
      requires Shaped()
    {
      var i, j := IndexOf(nodes, a), IndexOf(nodes, b);
      if i.Some? && j.Some? then Some(time[i.value][j.value]) else None
    }

    /** Metres from one listed node to another. */
    function Distance(a: int, b: int): (r: Option<real>)
      requires Shaped()
    {
      var i, j := IndexOf(nodes, a), IndexOf(nodes, b);
      if i.Some? && j.Some? then Some(metres[i.value][j.value]) else None
    }
  }

  /** What the matrix answers for two of its nodes: the least weight of all walks between them, and the length of
      such a walk. */
  lemma MatrixAnswers(g: Graph, w: seq<real>, m: RoadMatrix, a: int, b: int)
    requires g.Valid() && IsWeighting(g, w) && IsMatrix(g, w, m)
    ensures m.TravelTime(a, b).Some? <==> a in m.nodes && b in m.nodes
    ensures m.Distance(a, b).Some? <==> m.TravelTime(a, b).Some?
    ensures a in m.nodes && b in m.nodes ==>
      && IndexOf(g.nodeIds, a).Some? && IndexOf(g.nodeIds, b).Some?
      && exists p :: IsFastest(g, w, IndexOf(g.nodeIds, a).value, IndexOf(g.nodeIds, b).value, p)
                     && m.TravelTime(a, b) == Some(Sum(w, p)) && m.Distance(a, b) == Some(Sum(g.len, p))
  {
    hide Reports;
    if a in m.nodes && b in m.nodes {
      var i, j := IndexOf(m.nodes, a).value, IndexOf(m.nodes, b).value;
      var ps := Indices(g.nodeIds, m.nodes);
      assert a in g.nodeIds && b in g.nodeIds;
      SameIndex(g, ps[i], IndexOf(g.nodeIds, a).value);
      SameIndex(g, ps[j], IndexOf(g.nodeIds, b).value);
      assert IsEntry(g, w, m, i, j);
      var p := ReportedWalk(g, w, ps[i], ps[j], m.time[i][j], m.metres[i][j]);
    }
  }

  lemma SameIndex(g: Graph, i: nat, j: nat)
    requires g.WellFormed() && i < g.N() && j < g.N() && g.nodeIds[i] == g.nodeIds[j]
    ensures i == j
  {
  }

  /** p leads from s to t and no walk does so faster. */
  ghost predicate IsFastest(g: Graph, w: seq<real>, s: nat, t: nat, p: seq<nat>)
    requires g.WellFormed()
  {
    IsWalk(g, s, t, p) && NoneLighter(g, w, s, t, Sum(w, p))
  }

  /** Behind reported figures there is one walk with this time and these metres. */
  lemma ReportedWalk(g: Graph, w: seq<real>, s: nat, t: nat, time: real, metres: real) returns (p: seq<nat>)
    requires Query(g, w, s) && t < g.N() && Reports(g, w, s, t, Fin(time), Fin(metres))
    ensures IsFastest(g, w, s, t, p) && time == Sum(w, p) && metres == Sum(g.len, p)
  {
    var k: nat :| IsFinal(g, w, s, k, t) && Iter(g, w, s, k).dist[t] == Fin(time)
                  && Iter(g, w, s, k).length[t] == Fin(metres);
    IterInv(g, w, s, k);
    FinalIsShortest(g, w, s, k, t);
    assert Justified(g, w, s, Iter(g, w, s, k), t);
    p := Iter(g, w, s, k).walk[t];
  }

  /** The matrix holds the answers of the graph under these weights, for every pair of its nodes. */
  ghost predicate IsMatrix(g: Graph, w: seq<real>, m: RoadMatrix)
    requires g.Valid() && IsWeighting(g, w)
  {
    && m.Shaped()
    && |m.nodes| >= 2
    && AllKnown(g.nodeIds, m.nodes)
    && (forall i, j :: 0 <= i < j < |m.nodes| ==> m.nodes[i] != m.nodes[j])
    && (forall i, j :: 0 <= i < |m.nodes| && 0 <= j < |m.nodes| ==> IsEntry(g, w, m, i, j))
  }

  ghost predicate IsEntry(g: Graph, w: seq<real>, m: RoadMatrix, i: nat, j: nat)
    requires g.Valid() && IsWeighting(g, w) && m.Shaped() && AllKnown(g.nodeIds, m.nodes)
    requires i < |m.nodes| && j < |m.nodes|
  {
    var ps := Indices(g.nodeIds, m.nodes);
    && IsShortest(g, w, ps[i], ps[j], Fin(m.time[i][j]))
    && Reports(g, w, ps[i], ps[j], Fin(m.time[i][j]), Fin(m.metres[i][j]))
  }

  predicate AllFinite(row: seq<Cost>) {
    forall j :: 0 <= j < |row| ==> row[j].Fin?
  }

  function Values(row: seq<Cost>): (vs: seq<real>)
    ensures |vs| == |row| && forall j :: 0 <= j < |row| && row[j].Fin? ==> row[j] == Fin(vs[j])
  {
    seq(|row|, j requires 0 <= j < |row| => if row[j].Fin? then row[j].v else 0.0)
  }

  function ValueRows(rows: seq<seq<Cost>>): (vs: seq<seq<real>>)
    ensures |vs| == |rows| && forall i :: 0 <= i < |rows| ==> vs[i] == Values(rows[i])
  {
    seq(|rows|, i requires 0 <= i < |rows| => Values(rows[i]))
  }

  /** A reached target has finite metres. */
  lemma ReportedMetres(g: Graph, w: seq<real>, s: nat, t: nat, time: Cost, metres: Cost)
    requires Query(g, w, s) && t < g.N() && Reports(g, w, s, t, time, metres)
    ensures time.Fin? <==> metres.Fin?
  {
    var k: nat :| IsFinal(g, w, s, k, t) && Iter(g, w, s, k).dist[t] == time && Iter(g, w, s, k).length[t] == metres;
    IterInv(g, w, s, k);
    assert Justified(g, w, s, Iter(g, w, s, k), t);
  }

  predicate Repeats(nodes: seq<int>) {
    exists i, j :: 0 <= i < j < |nodes| && nodes[i] == nodes[j]
  }

  datatype MatrixError = TooFew | Unknown | WrongSnapshot | NotConnected | Duplicated | TooMany

  /** `RoadGraphMatrix.__init__`; `with_epoch` is the same with the weights of another snapshot. */
  method BuildMatrix(g: Graph, nodes: seq<int>, w: seq<real>, maxNodes: nat)
    returns (r: Result<RoadMatrix, MatrixError>)
    requires g.Valid() && NonNegative(w)
    ensures |nodes| < 2 ==> r == Failure(TooFew)
    ensures |nodes| >= 2 && !AllKnown(g.nodeIds, nodes) ==> r == Failure(Unknown)
    ensures |nodes| >= 2 && AllKnown(g.nodeIds, nodes) && |w| != g.E() ==> r == Failure(WrongSnapshot)
    ensures |nodes| >= 2 && AllKnown(g.nodeIds, nodes) && |w| == g.E() ==>
      if !Connected(g, Indices(g.nodeIds, nodes)) then r == Failure(NotConnected)
      else if Repeats(nodes) then r == Failure(Duplicated)
      else if |nodes| > maxNodes then r == Failure(TooMany)
      else r.Success? && r.value.nodes == nodes && IsMatrix(g, w, r.value)
  {
    if |nodes| < 2 {
      return Failure(TooFew);
    }
    if !AllKnown(g.nodeIds, nodes) {
      return Failure(Unknown);
    }
    var table := ManyToMany(g, nodes, nodes, w);
    if table.Failure? {
      return Failure(WrongSnapshot);
    }
    var ps := Indices(g.nodeIds, nodes);
    FiniteMeansConnected(g, w, ps, table.value);
    if !(forall i :: 0 <= i < |table.value.time| ==> AllFinite(table.value.time[i])) {
      return Failure(NotConnected);
    }
    if Repeats(nodes) {
      return Failure(Duplicated);
    }
    if |nodes| > maxNodes {
      return Failure(TooMany);
    }
    var m := RoadMatrix(nodes, ValueRows(table.value.time), ValueRows(table.value.metres));
    TableIsMatrix(g, w, table.value, m);
    r := Success(m);
  }

  /** Every listed node can be reached from every listed node. */
  ghost predicate Connected(g: Graph, ps: seq<nat>)
    requires g.WellFormed()
  {
    forall i, j :: 0 <= i < |ps| && 0 <= j < |ps| ==> Reachable(g, ps[i], ps[j])
  }

  lemma FiniteMeansConnected(g: Graph, w: seq<real>, ps: seq<nat>, table: Table)
    requires g.Valid() && IsWeighting(g, w) && forall i :: 0 <= i < |ps| ==> ps[i] < g.N()
    requires IsTable(g, w, ps, ps, table)
    ensures (forall i :: 0 <= i < |table.time| ==> AllFinite(table.time[i])) <==> Connected(g, ps)
  {
    hide Reports;
    forall i, j | 0 <= i < |ps| && 0 <= j < |ps| ensures table.time[i][j].Fin? <==> Reachable(g, ps[i], ps[j]) {
      assert IsRow(g, w, ps[i], ps, table.time[i], table.metres[i]);
      assert IsShortest(g, w, ps[i], ps[j], table.time[i][j]);
    }
    forall i | 0 <= i < |ps| ensures |table.time[i]| == |ps| {
      assert IsRow(g, w, ps[i], ps, table.time[i], table.metres[i]);
    }
  }

  lemma TableIsMatrix(g: Graph, w: seq<real>, table: Table, m: RoadMatrix)
    requires g.Valid() && IsWeighting(g, w) && |m.nodes| >= 2 && AllKnown(g.nodeIds, m.nodes) && !Repeats(m.nodes)
    requires IsTable(g, w, Indices(g.nodeIds, m.nodes), Indices(g.nodeIds, m.nodes), table)
    requires forall i :: 0 <= i < |table.time| ==> AllFinite(table.time[i])
    requires m.time == ValueRows(table.time) && m.metres == ValueRows(table.metres)
    ensures IsMatrix(g, w, m)
  {
    hide Reports;
    hide IsShortest;
    var ps := Indices(g.nodeIds, m.nodes);
    forall i | 0 <= i < |ps| ensures |m.time[i]| == |m.metres[i]| == |ps| {
      assert IsRow(g, w, ps[i], ps, table.time[i], table.metres[i]);
    }
    forall i, j | 0 <= i < |ps| && 0 <= j < |ps| ensures IsEntry(g, w, m, i, j) {
      assert IsRow(g, w, ps[i], ps, table.time[i], table.metres[i]);
      ReportedMetres(g, w, ps[i], ps[j], table.time[i][j], table.metres[i][j]);
    }
  }

  // ---------- the matrix is a quasi-metric ----------

  /** Zero diagonal, no negative entry, and the triangle inequality. */
  lemma MatrixIsQuasiMetric(g: Graph, w: seq<real>, m: RoadMatrix, i: nat, j: nat, k: nat)
    requires g.Valid() && IsWeighting(g, w) && IsMatrix(g, w, m)
    requires i < |m.nodes| && j < |m.nodes| && k < |m.nodes|
    ensures m.time[i][i] == 0.0 && m.time[i][j] >= 0.0
    ensures m.time[i][k] <= m.time[i][j] + m.time[j][k]
  {
    hide Reports;
    var ps := Indices(g.nodeIds, m.nodes);
    assert IsEntry(g, w, m, i, i) && IsEntry(g, w, m, i, j) && IsEntry(g, w, m, j, k) && IsEntry(g, w, m, i, k);
    assert IsEntry(g, w, m, j, i);
    ShortestToSelf(g, w, ps[i], Fin(m.time[i][i]));
    ShortestTriangle(g, w, ps[i], ps[j], ps[k], Fin(m.time[i][j]), Fin(m.time[j][k]), Fin(m.time[i][k]));
    ShortestNonNegative(g, w, ps[i], ps[j], Fin(m.time[i][j]));
  }

  /** Slower edges never shorten an entry; so no snapshot is faster than free flow. */
  lemma MatrixMonotoneInTraffic(g: Graph, a: seq<real>, b: seq<real>, ma: RoadMatrix, mb: RoadMatrix, i: nat, j: nat)
    requires g.Valid() && IsWeighting(g, a) && IsWeighting(g, b) && Pointwise(a, b)
    requires IsMatrix(g, a, ma) && IsMatrix(g, b, mb) && ma.nodes == mb.nodes
    requires i < |ma.nodes| && j < |ma.nodes|
    ensures ma.time[i][j] <= mb.time[i][j]
  {
    hide Reports;
    var ps := Indices(g.nodeIds, ma.nodes);
    assert IsEntry(g, a, ma, i, j) && IsEntry(g, b, mb, i, j);
    ShortestMonotone(g, a, b, ps[i], ps[j], Fin(ma.time[i][j]), Fin(mb.time[i][j]));
  }

  /** The solver's cost oracle answers from the matrix. */
  ghost predicate Backs(m: RoadMatrix, mx: P.Matrix)
    requires m.Shaped()
  {
    forall i, j :: 0 <= i < |m.nodes| && 0 <= j < |m.nodes| ==>
      mx.time(m.nodes[i], m.nodes[j]) == m.time[i][j] && mx.dist(m.nodes[i], m.nodes[j]) == m.metres[i][j]
  }

  /** On a road matrix inserting a stop never saves travel time. */
  lemma InsertionDeltaNonNegative(g: Graph, w: seq<real>, m: RoadMatrix, mx: P.Matrix, v: P.Vehicle,
                                  route: seq<P.Stop>, pos: nat, node: int)
    requires g.Valid() && IsWeighting(g, w) && IsMatrix(g, w, m) && Backs(m, mx)
    requires pos <= |route| && node in m.nodes
    requires forall i :: 0 <= i < |P.RouteNodes(v, route)| ==> P.RouteNodes(v, route)[i] in m.nodes
    ensures R.Delta(mx, v, route, pos, node) >= 0.0
  {
    var nodes := P.RouteNodes(v, route);
    assert nodes[pos] in m.nodes && nodes[pos + 1] in m.nodes;
    var a: nat :| a < |m.nodes| && m.nodes[a] == nodes[pos];
    var b: nat :| b < |m.nodes| && m.nodes[b] == nodes[pos + 1];
    var x: nat :| x < |m.nodes| && m.nodes[x] == node;
    MatrixIsQuasiMetric(g, w, m, a, x, b);
  }
}
