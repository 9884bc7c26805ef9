/** The instance, the cost oracle, and what a route is worth by definition: its load, the length of
    its node path, and when the vehicle reaches and leaves each stop. The algorithms of the other
    modules are proved against these definitions. */
module Problem {
  import opened Base

  datatype Objective = MinTravelTime | MinDistance | MinMakespan

  /** A time limit that may be absent: a float that may be `inf`. */
  datatype Limit = Never | At(t: real)

  datatype Stop = Stop(id: string, node: int, demand: real, service: real, twOpen: real, twClose: Limit)
  {
    predicate Valid() {
      && demand >= 0.0
      && service >= 0.0
      && (twClose.At? ==> twOpen <= twClose.t)
    }
  }

  datatype Vehicle = Vehicle(id: string, capacity: real, startNode: int, endNode: int,
                             shiftStart: real, shiftEnd: Limit)
  {
    predicate Valid() {
      && capacity > 0.0
      && (shiftEnd.At? ==> shiftStart <= shiftEnd.t)
    }
  }

  datatype Spec = Spec(stops: seq<Stop>, vehicles: seq<Vehicle>, objective: Objective,
                       maxRoute: Option<real>, enforceTw: bool)
  {
    /** What `ProblemSpec`, `Stop` and `Vehicle` check when they are built. */
    ghost predicate Valid() {
      && |stops| > 0
      && |vehicles| > 0
      && (forall i :: 0 <= i < |stops| ==> stops[i].Valid())
      && (forall v :: 0 <= v < |vehicles| ==> vehicles[v].Valid())
      && (forall i, j :: 0 <= i < j < |stops| ==> stops[i].id != stops[j].id)
      && (forall v, u :: 0 <= v < u < |vehicles| ==> vehicles[v].id != vehicles[u].id)
    }
  }

  /** The cost oracle: seconds and metres of the leg between two nodes. */
  datatype Matrix = Matrix(time: (int, int) -> real, dist: (int, int) -> real)
  {
    /** `DenseCostMatrix` rejects negative entries. */
    ghost predicate NonNegative() {
      forall a, b :: time(a, b) >= 0.0 && dist(a, b) >= 0.0
    }

    /** The leg cost the objective is measured in. */
    function LegCost(objective: Objective): (int, int) -> real {
      if objective.MinDistance? then dist else time
    }
  }

  // ---------- loads ----------

  function Load(route: seq<Stop>): real {
    if route == [] then 0.0 else Load(route[..|route| - 1]) + route[|route| - 1].demand
  }

  /** "Fits": the load is within the capacity up to the tolerance. */
  predicate Fits(v: Vehicle, route: seq<Stop>) {
    Load(route) <= v.capacity + EPS
  }

  ghost predicate NonNegativeDemand(route: seq<Stop>) {
    forall i :: 0 <= i < |route| ==> route[i].demand >= 0.0
  }

  lemma {:induction false} LoadAppend(a: seq<Stop>, b: seq<Stop>)
    ensures Load(a + b) == Load(a) + Load(b)
    decreases |b|
  {
    if b == [] {
      assert a + b == a;
    } else {
      LoadAppend(a, b[..|b| - 1]);
      assert (a + b)[..|a + b| - 1] == a + b[..|b| - 1];
    }
  }

  lemma {:induction false} LoadNonNegative(route: seq<Stop>)
    requires NonNegativeDemand(route)
    ensures Load(route) >= 0.0
  {
    if route != [] { LoadNonNegative(route[..|route| - 1]); }
  }

  lemma LoadPrefix(route: seq<Stop>, k: nat)
    requires NonNegativeDemand(route) && k <= |route|
    ensures Load(route[..k]) <= Load(route)
  {
    hide Load;
    assert route == route[..k] + route[k..];
    LoadAppend(route[..k], route[k..]);
    LoadNonNegative(route[k..]);
  }

  lemma LoadSingle(s: Stop)
    ensures Load([s]) == s.demand
  {
    assert [s][..0] == [];
  }

  lemma LoadCons(s: Stop, route: seq<Stop>)
    ensures Load([s] + route) == s.demand + Load(route)
  {
    hide Load;
    LoadAppend([s], route);
    LoadSingle(s);
  }

  /** Inserting a stop anywhere adds exactly its demand. */
  lemma LoadInsert(route: seq<Stop>, pos: nat, s: Stop)
    requires pos <= |route|
    ensures Load(InsertAt(route, pos, s)) == Load(route) + s.demand
  {
    hide Load;
    LoadAppend(route[..pos] + [s], route[pos..]);
    LoadAppend(route[..pos], [s]);
    LoadSingle(s);
    assert route == route[..pos] + route[pos..];
    LoadAppend(route[..pos], route[pos..]);
  }

  lemma LoadRemove(route: seq<Stop>, i: nat)
    requires i < |route|
    ensures Load(route) == Load(RemoveAt(route, i)) + route[i].demand
  {
    hide Load;
    LoadAppend(route[..i], route[i + 1..]);
    assert route == route[..i] + route[i..];
    LoadAppend(route[..i], route[i..]);
    LoadCons(route[i], route[i + 1..]);
    assert route[i..] == [route[i]] + route[i + 1..];
  }

  lemma {:induction false} LoadPermute(a: seq<Stop>, b: seq<Stop>)
    requires multiset(a) == multiset(b)
    ensures Load(a) == Load(b)
    decreases |a|
  {
    if |a| == 0 {
      assert |multiset(a)| == |multiset(b)|;
    } else {
      assert a[0] in multiset(b);
      var i :| 0 <= i < |b| && b[i] == a[0];
      RemoveAtElements(a, 0);
      RemoveAtElements(b, i);
      LoadPermute(RemoveAt(a, 0), RemoveAt(b, i));
      LoadRemove(a, 0);
      LoadRemove(b, i);
    }
  }

  // ---------- node paths ----------

  function NodesOf(route: seq<Stop>): (nodes: seq<int>)
    ensures |nodes| == |route|
    ensures forall i :: 0 <= i < |route| ==> nodes[i] == route[i].node
  {
    seq(|route|, i requires 0 <= i < |route| => route[i].node)
  }

  /** The nodes a vehicle drives through: start depot, stops in order, end depot. */
  function RouteNodes(v: Vehicle, route: seq<Stop>): seq<int> {
    [v.startNode] + NodesOf(route) + [v.endNode]
  }

  /** `DenseCostMatrix.route_time` / `route_distance`: the sum of the consecutive legs. */
  function PathCost(f: (int, int) -> real, nodes: seq<int>): real {
    if |nodes| < 2 then 0.0
    else PathCost(f, nodes[..|nodes| - 1]) + f(nodes[|nodes| - 2], nodes[|nodes| - 1])
  }

  lemma PathCostSnoc(f: (int, int) -> real, nodes: seq<int>, x: int)
    requires |nodes| > 0
    ensures PathCost(f, nodes + [x]) == PathCost(f, nodes) + f(nodes[|nodes| - 1], x)
  {
    assert (nodes + [x])[..|nodes|] == nodes;
  }

  /** A path splits at any node it visits. */
  lemma {:induction false} PathCostJoin(f: (int, int) -> real, a: seq<int>, x: int, b: seq<int>)
    ensures PathCost(f, a + [x] + b) == PathCost(f, a + [x]) + PathCost(f, [x] + b)
    decreases |b|
  {
    if b == [] {
      assert a + [x] + b == a + [x];
    } else {
      var c, y := b[..|b| - 1], b[|b| - 1];
      PathCostJoin(f, a, x, c);
      assert a + [x] + b == (a + [x] + c) + [y] && [x] + b == ([x] + c) + [y];
      PathCostSnoc(f, a + [x] + c, y);
      PathCostSnoc(f, [x] + c, y);
      assert (a + [x] + c)[|a + [x] + c| - 1] == ([x] + c)[|[x] + c| - 1];
    }
  }

  lemma {:induction false} PathCostNonNegative(f: (int, int) -> real, nodes: seq<int>)
    requires forall a, b :: f(a, b) >= 0.0
    ensures PathCost(f, nodes) >= 0.0
  {
    if |nodes| >= 2 { PathCostNonNegative(f, nodes[..|nodes| - 1]); }
  }

  /** What the objective charges for one route driven by v, empty or not. */
  function DrivenCost(mx: Matrix, objective: Objective, v: Vehicle, route: seq<Stop>): real {
    PathCost(mx.LegCost(objective), RouteNodes(v, route))
  }

  // ---------- clocks ----------

  /** The node a vehicle is at after serving the route so far. */
  function LastNode(v: Vehicle, route: seq<Stop>): int {
    if route == [] then v.startNode else route[|route| - 1].node
  }

  /** When v leaves the last stop of the route (its shift start if there is none). */
  function Leaves(tw: bool, mx: Matrix, v: Vehicle, route: seq<Stop>): real
    decreases |route|, 1
  {
    if route == [] then v.shiftStart
    else
      var arrive := Reaches(tw, mx, v, route);
      var s := route[|route| - 1];
      (if tw then Max(arrive, s.twOpen) else arrive) + s.service
  }

  /** When v reaches the last stop of a non-empty route. */
  function Reaches(tw: bool, mx: Matrix, v: Vehicle, route: seq<Stop>): real
    requires route != []
    decreases |route|, 0
  {
    var before := route[..|route| - 1];
    Leaves(tw, mx, v, before) + mx.time(LastNode(v, before), route[|route| - 1].node)
  }

  function LateBy(arrive: real, close: Limit): real {
    if close.At? then Max(0.0, arrive - close.t) else 0.0
  }

  /** Total lateness of a route: how much after its window each stop is reached. */
  function Lateness(tw: bool, mx: Matrix, v: Vehicle, route: seq<Stop>): real {
    if route == [] || !tw then 0.0
    else Lateness(tw, mx, v, route[..|route| - 1])
         + LateBy(Reaches(tw, mx, v, route), route[|route| - 1].twClose)
  }

  lemma {:induction false} LatenessNonNegative(tw: bool, mx: Matrix, v: Vehicle, route: seq<Stop>)
    ensures Lateness(tw, mx, v, route) >= 0.0
  {
    if route != [] { LatenessNonNegative(tw, mx, v, route[..|route| - 1]); }
  }

  /** How every route measure grows when one more stop is served. */
  lemma RouteSnoc(tw: bool, mx: Matrix, f: (int, int) -> real, v: Vehicle, route: seq<Stop>, s: Stop)
    ensures Load(route + [s]) == Load(route) + s.demand
    ensures LastNode(v, route + [s]) == s.node
    ensures PathCost(f, [v.startNode] + NodesOf(route + [s]))
         == PathCost(f, [v.startNode] + NodesOf(route)) + f(LastNode(v, route), s.node)
    ensures Reaches(tw, mx, v, route + [s]) == Leaves(tw, mx, v, route) + mx.time(LastNode(v, route), s.node)
    ensures Lateness(tw, mx, v, route + [s])
         == Lateness(tw, mx, v, route) + if tw then LateBy(Reaches(tw, mx, v, route + [s]), s.twClose) else 0.0
  {
    assert (route + [s])[..|route|] == route;
    assert [v.startNode] + NodesOf(route + [s]) == [v.startNode] + NodesOf(route) + [s.node];
    PathCostSnoc(f, [v.startNode] + NodesOf(route), s.node);
    if !tw { NoLateness(mx, v, route); }
  }

  lemma NoLateness(mx: Matrix, v: Vehicle, route: seq<Stop>)
    ensures Lateness(false, mx, v, route) == 0.0
  {
  }

  /** The closing leg to the end depot. */
  lemma RouteClose(f: (int, int) -> real, v: Vehicle, route: seq<Stop>)
    ensures PathCost(f, RouteNodes(v, route))
         == PathCost(f, [v.startNode] + NodesOf(route)) + f(LastNode(v, route), v.endNode)
  {
    PathCostSnoc(f, [v.startNode] + NodesOf(route), v.endNode);
  }

  // ---------- routes ----------

  /** One vehicle's plan: the ids of the stops it serves, in order. */
  datatype Route = Route(vehicleId: string, stopIds: seq<string>)

  function IdsOf(route: seq<Stop>): (ids: seq<string>)
    ensures |ids| == |route|
    ensures forall i :: 0 <= i < |route| ==> ids[i] == route[i].id
  {
    seq(|route|, i requires 0 <= i < |route| => route[i].id)
  }

  /** `Routes.all_stop_ids`. */
  function AllIds(routes: seq<Route>): seq<string> {
    if routes == [] then [] else AllIds(routes[..|routes| - 1]) + routes[|routes| - 1].stopIds
  }

  /** The stop-id lookup. */
  function FindStop(stops: seq<Stop>, id: string): (r: Option<nat>)
    ensures r.Some? ==> r.value < |stops| && stops[r.value].id == id
    ensures r.None? ==> forall i :: 0 <= i < |stops| ==> stops[i].id != id
  {
    if stops == [] then None
    else if stops[|stops| - 1].id == id then Some(|stops| - 1)
    else FindStop(stops[..|stops| - 1], id)
  }

  /** The vehicle-id lookup. */
  function FindVehicle(vehicles: seq<Vehicle>, id: string): (r: Option<nat>)
    ensures r.Some? ==> r.value < |vehicles| && vehicles[r.value].id == id
    ensures r.None? ==> forall v :: 0 <= v < |vehicles| ==> vehicles[v].id != id
  {
    if vehicles == [] then None
    else if vehicles[|vehicles| - 1].id == id then Some(|vehicles| - 1)
    else FindVehicle(vehicles[..|vehicles| - 1], id)
  }

  /** The spec positions of the known ids of a list, unknown ones skipped. */
  function Positions(spec: Spec, ids: seq<string>): (ps: seq<nat>)
    ensures forall i :: 0 <= i < |ps| ==> ps[i] < |spec.stops|
  {
    if ids == [] then []
    else
      var front := Positions(spec, ids[..|ids| - 1]);
      match FindStop(spec.stops, ids[|ids| - 1])
      case None => front
      case Some(i) => front + [i]
  }

  function StopsAt(spec: Spec, ps: seq<nat>): (route: seq<Stop>)
    requires forall i :: 0 <= i < |ps| ==> ps[i] < |spec.stops|
    ensures |route| == |ps|
    ensures forall i :: 0 <= i < |ps| ==> route[i] == spec.stops[ps[i]]
  {
    seq(|ps|, i requires 0 <= i < |ps| => spec.stops[ps[i]])
  }

  /** The stops a list of ids names, unknown ids skipped. */
  function KnownStops(spec: Spec, ids: seq<string>): seq<Stop> {
    StopsAt(spec, Positions(spec, ids))
  }

  ghost predicate FromSpec(spec: Spec, route: seq<Stop>) {
    forall i :: 0 <= i < |route| ==> route[i] in spec.stops
  }

  lemma FoundByItsId(spec: Spec, s: Stop)
    requires spec.Valid() && s in spec.stops
    ensures FindStop(spec.stops, s.id).Some? && spec.stops[FindStop(spec.stops, s.id).value] == s
  {
  }

  /** Naming stops and looking the names up again gives the stops back. */
  lemma {:induction false} KnownIds(spec: Spec, route: seq<Stop>)
    requires spec.Valid() && FromSpec(spec, route)
    ensures KnownStops(spec, IdsOf(route)) == route
    ensures |Positions(spec, IdsOf(route))| == |route|
  {
    if route != [] {
      var m := |route| - 1;
      KnownIds(spec, route[..m]);
      assert IdsOf(route)[..m] == IdsOf(route[..m]);
      FoundByItsId(spec, route[m]);
    }
  }

  lemma {:induction false} PositionsAppend(spec: Spec, a: seq<string>, b: seq<string>)
    ensures Positions(spec, a + b) == Positions(spec, a) + Positions(spec, b)
    decreases |b|
  {
    if b == [] {
      assert a + b == a;
    } else {
      PositionsAppend(spec, a, b[..|b| - 1]);
      assert (a + b)[..|a + b| - 1] == a + b[..|b| - 1];
    }
  }

  lemma KnownAppend(spec: Spec, a: seq<string>, b: seq<string>)
    ensures KnownStops(spec, a + b) == KnownStops(spec, a) + KnownStops(spec, b)
  {
    PositionsAppend(spec, a, b);
  }
}
