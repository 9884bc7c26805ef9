/** Measuring routes: one walk per route, every breach recorded, and the totals over a solution. */
module Validator {
  import opened Base
  import opened Problem
  import opened Sorting
  import opened Split
  import opened Encoding

  datatype Kind = Capacity | TimeWindow | Duration | Unassigned | Duplicate | UnknownVehicle | UnknownStop

  /** A broken constraint: who broke it (a vehicle or stop id) and by how much. */
  datatype Violation = Violation(kind: Kind, amount: real, subject: string, routeIndex: int)

  datatype RouteMetrics = RouteMetrics(vehicleId: string, stops: nat, travel: real, dist: real, load: real,
                                       duration: real, overflow: real, lateness: real, overrun: real)

  datatype Totals = Totals(travel: real, dist: real, overflow: real, lateness: real, overrun: real, makespan: real)

  datatype SolutionMetrics = SolutionMetrics(routes: seq<RouteMetrics>, total: Totals, unassigned: seq<string>,
                                             duplicates: seq<string>, violations: seq<Violation>)
  {
    predicate IsFeasible() {
      violations == []
    }
  }

  // ---------- one route ----------

  /** When v is back at its end depot. */
  function Returns(tw: bool, mx: Matrix, v: Vehicle, route: seq<Stop>): real {
    Leaves(tw, mx, v, route) + mx.time(LastNode(v, route), v.endNode)
  }

  /** How far the duration limit and the end of the shift are overrun, together. */
  function Overrun(spec: Spec, mx: Matrix, v: Vehicle, route: seq<Stop>): real {
    var back := Returns(spec.enforceTw, mx, v, route);
    (if spec.maxRoute.Some? then Max(0.0, back - v.shiftStart - spec.maxRoute.value) else 0.0)
    + (if v.shiftEnd.At? then Max(0.0, back - v.shiftEnd.t) else 0.0)
  }

  /** What measuring a route of known stops means. */
  function Measured(spec: Spec, mx: Matrix, v: Vehicle, route: seq<Stop>): RouteMetrics {
    RouteMetrics(v.id, |route|,
                 PathCost(mx.time, RouteNodes(v, route)),
                 PathCost(mx.dist, RouteNodes(v, route)),
                 Load(route),
                 Returns(spec.enforceTw, mx, v, route) - v.shiftStart,
                 Max(0.0, Load(route) - v.capacity),
                 Lateness(spec.enforceTw, mx, v, route),
                 Overrun(spec, mx, v, route))
  }

  function UnknownStops(spec: Spec, idx: int, ids: seq<string>): seq<Violation> {
    if ids == [] then []
    else
      var last := ids[|ids| - 1];
      UnknownStops(spec, idx, ids[..|ids| - 1])
      + if FindStop(spec.stops, last).None? then [Violation(UnknownStop, 1.0, last, idx)] else []
  }

  function Breaches(m: RouteMetrics, idx: int): seq<Violation> {
    (if m.overflow > 0.0 then [Violation(Capacity, m.overflow, m.vehicleId, idx)] else [])
    + (if m.lateness > 0.0 then [Violation(TimeWindow, m.lateness, m.vehicleId, idx)] else [])
    + (if m.overrun > 0.0 then [Violation(Duration, m.overrun, m.vehicleId, idx)] else [])
  }

  /** A dictionary that counts how often each key was seen. */
  ghost predicate Counts(count: map<string, nat>, seen: seq<string>) {
    && (forall id :: id in count <==> id in seen)
    && (forall id :: id in count ==> count[id] == multiset(seen)[id])
  }

  function CountOne(count: map<string, nat>, id: string): map<string, nat> {
    count[id := (if id in count then count[id] else 0) + 1]
  }

  lemma CountNext(count: map<string, nat>, seen: seq<string>, ids: seq<string>, i: nat)
    requires i < |ids| && Counts(count, seen + ids[..i])
    ensures Counts(CountOne(count, ids[i]), seen + ids[..i + 1])
  {
    assert seen + ids[..i + 1] == seen + ids[..i] + [ids[i]];
    assert ids[i] !in seen + ids[..i] ==> ids[i] !in multiset(seen + ids[..i]);
  }

  /** The accumulators of the walk. */
  datatype Walk = Walk(clock: real, prev: int, load: real, travel: real, dist: real, lateness: real)

  ghost function WalkOf(tw: bool, mx: Matrix, v: Vehicle, route: seq<Stop>): Walk {
    Walk(Leaves(tw, mx, v, route), LastNode(v, route), Load(route),
         PathCost(mx.time, [v.startNode] + NodesOf(route)), PathCost(mx.dist, [v.startNode] + NodesOf(route)),
         Lateness(tw, mx, v, route))
  }

  /** One turn of the walk: drive to the stop, wait if time windows say so, serve. */
  method Serve(tw: bool, mx: Matrix, v: Vehicle, ghost route: seq<Stop>, w: Walk, stop: Stop) returns (w': Walk)
    requires w == WalkOf(tw, mx, v, route)
    ensures w' == WalkOf(tw, mx, v, route + [stop])
  {
    RouteSnoc(tw, mx, mx.time, v, route, stop);
    RouteSnoc(tw, mx, mx.dist, v, route, stop);
    assert (route + [stop])[..|route|] == route;
    var legT, legD := mx.time(w.prev, stop.node), mx.dist(w.prev, stop.node);
    var arrive := w.clock + legT;
    var lateness, serviceStart := w.lateness, arrive;
    if tw {
      lateness := lateness + LateBy(arrive, stop.twClose);
      serviceStart := Max(arrive, stop.twOpen);
    }
    w' := Walk(serviceStart + stop.service, stop.node, w.load + stop.demand, w.travel + legT, w.dist + legD, lateness);
  }

  /** The drive back and the comparison with every limit. */
  method Finish(spec: Spec, mx: Matrix, v: Vehicle, ghost route: seq<Stop>, w: Walk, served: nat)
    returns (m: RouteMetrics)
    requires w == WalkOf(spec.enforceTw, mx, v, route) && served == |route|
    ensures m == Measured(spec, mx, v, route)
  {
    RouteClose(mx.time, v, route);
    RouteClose(mx.dist, v, route);
    var legT := mx.time(w.prev, v.endNode);
    var travel, dist, clock := w.travel + legT, w.dist + mx.dist(w.prev, v.endNode), w.clock + legT;
    var duration := clock - v.shiftStart;
    var overrun := 0.0;
    if spec.maxRoute.Some? {
      overrun := overrun + Max(0.0, duration - spec.maxRoute.value);
    }
    if v.shiftEnd.At? {
      overrun := overrun + Max(0.0, clock - v.shiftEnd.t);
    }
    m := RouteMetrics(v.id, served, travel, dist, w.load, duration, Max(0.0, w.load - v.capacity), w.lateness, overrun);
  }

  lemma KnownSnoc(spec: Spec, ids: seq<string>, i: nat)
    requires i < |ids|
    ensures KnownStops(spec, ids[..i + 1]) == KnownStops(spec, ids[..i])
         + match FindStop(spec.stops, ids[i]) case None => [] case Some(p) => [spec.stops[p]]
    ensures ids[..i + 1][..i] == ids[..i]
  {
    assert ids[..i + 1][..i] == ids[..i];
  }

  /** `_walk_route`, with the shared visit counter passed through. */
  method WalkRoute(spec: Spec, mx: Matrix, idx: int, veh: Vehicle, ids: seq<string>,
                   visits: map<string, nat>, ghost seen: seq<string>)
    returns (m: RouteMetrics, found: seq<Violation>, visits': map<string, nat>)
    requires Counts(visits, seen)
    ensures m == Measured(spec, mx, veh, KnownStops(spec, ids))
    ensures found == UnknownStops(spec, idx, ids) + Breaches(m, idx)
    ensures Counts(visits', seen + ids)
  {
    var tw := spec.enforceTw;
    var w, served := Walk(veh.shiftStart, veh.startNode, 0.0, 0.0, 0.0, 0.0), 0;
    found, visits' := [], visits;
    assert seen + ids[..0] == seen;
    for i := 0 to |ids|
      invariant w == WalkOf(tw, mx, veh, KnownStops(spec, ids[..i]))
      invariant served == |KnownStops(spec, ids[..i])|
      invariant found == UnknownStops(spec, idx, ids[..i])
      invariant Counts(visits', seen + ids[..i])
    {
      var id := ids[i];
      CountNext(visits', seen, ids, i);
      KnownSnoc(spec, ids, i);
      visits' := CountOne(visits', id);
      var at := FindStop(spec.stops, id);
      if at.None? {
        found := found + [Violation(UnknownStop, 1.0, id, idx)];
        continue;
      }
      w := Serve(tw, mx, veh, KnownStops(spec, ids[..i]), w, spec.stops[at.value]);
      served := served + 1;
    }
    assert ids[..|ids|] == ids;
    m := Finish(spec, mx, veh, KnownStops(spec, ids), w, served);
    found := found + Breaches(m, idx);
  }

  // ---------- a whole solution ----------

  function RouteMeasure(spec: Spec, mx: Matrix, route: Route): seq<RouteMetrics> {
    match FindVehicle(spec.vehicles, route.vehicleId)
    case None => []
    case Some(v) => [Measured(spec, mx, spec.vehicles[v], KnownStops(spec, route.stopIds))]
  }

  function RouteBreaches(spec: Spec, mx: Matrix, route: Route, idx: int): seq<Violation> {
    match FindVehicle(spec.vehicles, route.vehicleId)
    case None => [Violation(UnknownVehicle, |route.stopIds| as real, route.vehicleId, idx)]
    case Some(v) =>
      UnknownStops(spec, idx, route.stopIds)
      + Breaches(Measured(spec, mx, spec.vehicles[v], KnownStops(spec, route.stopIds)), idx)
  }

  function MeasureLists(spec: Spec, mx: Matrix, routes: seq<Route>): (lists: seq<seq<RouteMetrics>>)
    ensures |lists| == |routes|
    ensures forall i :: 0 <= i < |routes| ==> lists[i] == RouteMeasure(spec, mx, routes[i])
  {
    seq(|routes|, i requires 0 <= i < |routes| => RouteMeasure(spec, mx, routes[i]))
  }

  function BreachLists(spec: Spec, mx: Matrix, routes: seq<Route>): (lists: seq<seq<Violation>>)
    ensures |lists| == |routes|
    ensures forall i :: 0 <= i < |routes| ==> lists[i] == RouteBreaches(spec, mx, routes[i], i)
  {
    seq(|routes|, i requires 0 <= i < |routes| => RouteBreaches(spec, mx, routes[i], i))
  }

  /** The metrics of the routes that have a vehicle, in order. */
  function AllMetrics(spec: Spec, mx: Matrix, routes: seq<Route>): seq<RouteMetrics> {
    Flatten(MeasureLists(spec, mx, routes))
  }

  function AllBreaches(spec: Spec, mx: Matrix, routes: seq<Route>): seq<Violation> {
    Flatten(BreachLists(spec, mx, routes))
  }

  lemma OneMoreRoute(spec: Spec, mx: Matrix, routes: seq<Route>, idx: nat)
    requires idx < |routes|
    ensures AllMetrics(spec, mx, routes[..idx + 1])
         == AllMetrics(spec, mx, routes[..idx]) + RouteMeasure(spec, mx, routes[idx])
    ensures AllBreaches(spec, mx, routes[..idx + 1])
         == AllBreaches(spec, mx, routes[..idx]) + RouteBreaches(spec, mx, routes[idx], idx)
  {
    assert MeasureLists(spec, mx, routes[..idx + 1])[..idx] == MeasureLists(spec, mx, routes[..idx]);
    assert BreachLists(spec, mx, routes[..idx + 1])[..idx] == BreachLists(spec, mx, routes[..idx]);
  }

  function Summed(rs: seq<RouteMetrics>): Totals {
    if rs == [] then Totals(0.0, 0.0, 0.0, 0.0, 0.0, 0.0)
    else
      var t, r := Summed(rs[..|rs| - 1]), rs[|rs| - 1];
      Totals(t.travel + r.travel, t.dist + r.dist, t.overflow + r.overflow, t.lateness + r.lateness,
             t.overrun + r.overrun, if |rs| == 1 then r.duration else Max(t.makespan, r.duration))
  }

  ghost predicate SortedIds(ids: seq<string>) {
    forall i, j :: 0 <= i < j < |ids| ==> StringLess(ids[i], ids[j])
  }

  function StringAtMost(a: string, b: string): bool {
    a == b || StringLess(a, b)
  }

  lemma StringOrder()
    ensures TotalPreorder(StringAtMost)
  {
    forall a, b ensures StringAtMost(a, b) || StringAtMost(b, a) {
      StringLessTotal(a, b);
    }
    forall a, b, c | StringAtMost(a, b) && StringAtMost(b, c) ensures StringAtMost(a, c) {
      if a != b && b != c { StringLessTransitive(a, b, c); }
    }
  }

  /** `sorted(ids)` of a set, given as a list without repetitions. */
  method Sort(ids: seq<string>) returns (sorted: seq<string>)
    requires forall i, j :: 0 <= i < j < |ids| ==> ids[i] != ids[j]
    ensures SortedIds(sorted) && |sorted| == |ids|
    ensures forall id :: id in sorted <==> id in ids
  {
    sorted := SortBy(StringAtMost, ids);
    StringOrder();
    SortByCorrect(StringAtMost, ids);
    forall id ensures id in sorted <==> id in ids {
      assert id in sorted <==> id in multiset(sorted);
      assert id in ids <==> id in multiset(ids);
    }
    forall i, j | 0 <= i < j < |sorted| ensures StringLess(sorted[i], sorted[j]) {
      SplitCount(sorted, i, j);
      assert sorted[i] in multiset(ids);
      DistinctOnce(ids, sorted[i]);
    }
  }

  /** The required stops nobody visited, and the ids visited more than once. */
  ghost predicate Coverage(spec: Spec, routes: seq<Route>, unassigned: seq<string>, duplicates: seq<string>) {
    var seen := multiset(AllIds(routes));
    && SortedIds(unassigned)
    && SortedIds(duplicates)
    && (forall id :: id in unassigned <==> id !in seen && exists i :: 0 <= i < |spec.stops| && spec.stops[i].id == id)
    && (forall id :: id in duplicates <==> seen[id] > 1)
  }

  function Missing(ids: seq<string>): seq<Violation> {
    seq(|ids|, i requires 0 <= i < |ids| => Violation(Unassigned, 1.0, ids[i], -1))
  }

  ghost function Repeated(ids: seq<string>, seen: multiset<string>): seq<Violation> {
    seq(|ids|, i requires 0 <= i < |ids| => Violation(Duplicate, seen[ids[i]] as real - 1.0, ids[i], -1))
  }

  method ListRepeated(ids: seq<string>, visits: map<string, nat>, ghost seen: seq<string>) returns (vs: seq<Violation>)
    requires Counts(visits, seen) && forall i :: 0 <= i < |ids| ==> multiset(seen)[ids[i]] > 1
    ensures vs == Repeated(ids, multiset(seen))
  {
    vs := [];
    for i := 0 to |ids|
      invariant vs == Repeated(ids[..i], multiset(seen))
    {
      assert ids[i] in multiset(seen);
      vs := vs + [Violation(Duplicate, visits[ids[i]] as real - 1.0, ids[i], -1)];
    }
    assert ids[..|ids|] == ids;
  }

  method FindUnassigned(spec: Spec, visits: map<string, nat>, ghost seen: seq<string>) returns (unassigned: seq<string>)
    requires spec.Valid() && Counts(visits, seen)
    ensures SortedIds(unassigned)
    ensures (forall id :: id in unassigned <==>
              id !in multiset(seen) && exists i :: 0 <= i < |spec.stops| && spec.stops[i].id == id)
  {
    var missing := [];
    for i := 0 to |spec.stops|
      invariant forall p, q :: 0 <= p < q < |missing| ==> missing[p] != missing[q]
      invariant (forall id :: id in missing <==>
                  id !in visits && exists j :: 0 <= j < i && spec.stops[j].id == id)
    {
      if spec.stops[i].id !in visits {
        missing := missing + [spec.stops[i].id];
      }
    }
    unassigned := Sort(missing);
    forall id ensures id in visits <==> id in multiset(seen) {
      assert id in seen <==> id in multiset(seen);
    }
  }

  method FindDuplicates(visits: map<string, nat>, ghost seen: seq<string>) returns (duplicates: seq<string>)
    requires Counts(visits, seen)
    ensures SortedIds(duplicates)
    ensures forall id :: id in duplicates <==> multiset(seen)[id] > 1
  {
    var twice, left := [], visits.Keys;
    while left != {}
      invariant left <= visits.Keys
      invariant forall p, q :: 0 <= p < q < |twice| ==> twice[p] != twice[q]
      invariant forall id :: id in twice <==> id in visits && id !in left && visits[id] > 1
      decreases left
    {
      var id :| id in left;
      if visits[id] > 1 {
        twice := twice + [id];
      }
      left := left - {id};
    }
    duplicates := Sort(twice);
    forall id ensures (id in visits && visits[id] > 1) <==> multiset(seen)[id] > 1 {
      assert id in seen <==> id in multiset(seen);
    }
  }

  /** `ConstraintValidator.evaluate`. */
  method Evaluate(spec: Spec, mx: Matrix, routes: seq<Route>) returns (metrics: SolutionMetrics)
    requires spec.Valid()
    ensures metrics.routes == AllMetrics(spec, mx, routes)
    ensures metrics.total == Summed(metrics.routes)
    ensures Coverage(spec, routes, metrics.unassigned, metrics.duplicates)
    ensures metrics.violations == AllBreaches(spec, mx, routes) + Missing(metrics.unassigned)
                                  + Repeated(metrics.duplicates, multiset(AllIds(routes)))
  {
    var measured, violations, visits := MeasureRoutes(spec, mx, routes);
    var unassigned := FindUnassigned(spec, visits, AllIds(routes));
    var duplicates := FindDuplicates(visits, AllIds(routes));
    var repeated := ListRepeated(duplicates, visits, AllIds(routes));
    var total := SumUp(measured);
    metrics := SolutionMetrics(measured, total, unassigned, duplicates,
                               violations + Missing(unassigned) + repeated);
  }

  /** The loop over the routes: metrics, breaches and visit counts of all of them. */
  method MeasureRoutes(spec: Spec, mx: Matrix, routes: seq<Route>)
    returns (measured: seq<RouteMetrics>, violations: seq<Violation>, visits: map<string, nat>)
    ensures measured == AllMetrics(spec, mx, routes)
    ensures violations == AllBreaches(spec, mx, routes)
    ensures Counts(visits, AllIds(routes))
  {
    measured, violations, visits := [], [], map[];
    for idx := 0 to |routes|
      invariant measured == AllMetrics(spec, mx, routes[..idx])
      invariant violations == AllBreaches(spec, mx, routes[..idx])
      invariant Counts(visits, AllIds(routes[..idx]))
    {
      assert routes[..idx + 1][..idx] == routes[..idx];
      OneMoreRoute(spec, mx, routes, idx);
      var ms, vs;
      ms, vs, visits := MeasureRoute(spec, mx, idx, routes[idx], visits, AllIds(routes[..idx]));
      measured, violations := measured + ms, violations + vs;
    }
    assert routes[..|routes|] == routes;
  }

  /** One route: measured if its vehicle is known, else only reported and counted. */
  method MeasureRoute(spec: Spec, mx: Matrix, idx: nat, route: Route, visits: map<string, nat>, ghost seen: seq<string>)
    returns (ms: seq<RouteMetrics>, vs: seq<Violation>, visits': map<string, nat>)
    requires Counts(visits, seen)
    ensures ms == RouteMeasure(spec, mx, route)
    ensures vs == RouteBreaches(spec, mx, route, idx)
    ensures Counts(visits', seen + route.stopIds)
  {
    var at := FindVehicle(spec.vehicles, route.vehicleId);
    if at.None? {
      visits' := CountAll(visits, seen, route.stopIds);
      return [], [Violation(UnknownVehicle, |route.stopIds| as real, route.vehicleId, idx)], visits';
    }
    var m;
    m, vs, visits' := WalkRoute(spec, mx, idx, spec.vehicles[at.value], route.stopIds, visits, seen);
    ms := [m];
  }

  method CountAll(visits: map<string, nat>, ghost seen: seq<string>, ids: seq<string>)
    returns (visits': map<string, nat>)
    requires Counts(visits, seen)
    ensures Counts(visits', seen + ids)
  {
    visits' := visits;
    assert seen + ids[..0] == seen;
    for i := 0 to |ids|
      invariant Counts(visits', seen + ids[..i])
    {
      CountNext(visits', seen, ids, i);
      visits' := CountOne(visits', ids[i]);
    }
    assert ids[..|ids|] == ids;
  }

  method SumUp(rs: seq<RouteMetrics>) returns (t: Totals)
    ensures t == Summed(rs)
  {
    t := Totals(0.0, 0.0, 0.0, 0.0, 0.0, 0.0);
    for i := 0 to |rs|
      invariant t == Summed(rs[..i])
    {
      var r := rs[i];
      assert rs[..i + 1][..i] == rs[..i];
      t := Totals(t.travel + r.travel, t.dist + r.dist, t.overflow + r.overflow, t.lateness + r.lateness,
                  t.overrun + r.overrun, if i == 0 then r.duration else Max(t.makespan, r.duration));
    }
    assert rs[..|rs|] == rs;
  }

  // ---------- the validator and the split agree ----------

  /** The objective's share of a measured route. */
  function BaseOf(objective: Objective, m: RouteMetrics): real {
    if objective.MinDistance? then m.dist else m.travel
  }

  /** Start-to-end legs of the vehicles a plan leaves idle, which the validator counts. */
  function IdleLegs(spec: Spec, mx: Matrix, plan: seq<seq<Stop>>): real
    requires |plan| <= |spec.vehicles|
  {
    if plan == [] then 0.0
    else
      var v := |plan| - 1;
      IdleLegs(spec, mx, plan[..v])
      + if plan[v] == [] then mx.LegCost(spec.objective)(spec.vehicles[v].startNode, spec.vehicles[v].endNode) else 0.0
  }

  ghost function MeasuredPlan(spec: Spec, mx: Matrix, plan: seq<seq<Stop>>): seq<RouteMetrics>
    requires |plan| <= |spec.vehicles|
  {
    seq(|plan|, v requires 0 <= v < |plan| => Measured(spec, mx, spec.vehicles[v], plan[v]))
  }

  /** For a served vehicle the split's score is the measured cost plus 100 per second of lateness. */
  lemma ScoreIsMeasured(t: Tour, v: nat, route: seq<Stop>)
    requires v < t.K()
    ensures var m := Measured(t.spec, t.mx, t.spec.vehicles[v], route);
      Score(t, v, route) == BaseOf(t.spec.objective, m) + 100.0 * m.lateness
  {
  }

  /** For the sum objectives the value of a plan and the measured totals differ by the idle legs only. */
  lemma {:induction false} PlanScoreIsMeasured(t: Tour, plan: seq<seq<Stop>>)
    requires !t.spec.objective.MinMakespan? && |plan| <= t.K()
    ensures var total := Summed(MeasuredPlan(t.spec, t.mx, plan));
      PlanScore(t, plan) + IdleLegs(t.spec, t.mx, plan)
      == (if t.spec.objective.MinDistance? then total.dist else total.travel) + 100.0 * total.lateness
  {
    if plan != [] {
      var v := |plan| - 1;
      var ms := MeasuredPlan(t.spec, t.mx, plan);
      PlanScoreIsMeasured(t, plan[..v]);
      assert ms[..v] == MeasuredPlan(t.spec, t.mx, plan[..v]);
      ScoreIsMeasured(t, v, plan[v]);
      if plan[v] == [] {
        IdleRoute(t.spec, t.mx, t.spec.vehicles[v]);
      }
    }
  }

  lemma IdleRoute(spec: Spec, mx: Matrix, v: Vehicle)
    ensures var m := Measured(spec, mx, v, []);
      m.lateness == 0.0 && m.travel == mx.time(v.startNode, v.endNode) && m.dist == mx.dist(v.startNode, v.endNode)
  {
    RouteClose(mx.time, v, []);
    RouteClose(mx.dist, v, []);
    assert [v.startNode] + NodesOf([]) == [v.startNode];
  }

  /** ... so they are equal exactly when no idle vehicle's start-to-end leg costs anything. */
  lemma SplitValueIsMeasuredTotal(t: Tour, plan: seq<seq<Stop>>)
    requires !t.spec.objective.MinMakespan? && t.mx.NonNegative() && |plan| == t.K()
    ensures var total := Summed(MeasuredPlan(t.spec, t.mx, plan));
      PlanScore(t, plan)
        == (if t.spec.objective.MinDistance? then total.dist else total.travel) + 100.0 * total.lateness
      <==> forall v :: 0 <= v < |plan| && plan[v] == [] ==>
             t.mx.LegCost(t.spec.objective)(t.spec.vehicles[v].startNode, t.spec.vehicles[v].endNode) == 0.0
  {
    PlanScoreIsMeasured(t, plan);
    IdleLegsZero(t.spec, t.mx, plan);
  }

  lemma {:induction false} IdleLegsZero(spec: Spec, mx: Matrix, plan: seq<seq<Stop>>)
    requires mx.NonNegative() && |plan| <= |spec.vehicles|
    ensures IdleLegs(spec, mx, plan) >= 0.0
    ensures IdleLegs(spec, mx, plan) == 0.0 <==> forall v :: 0 <= v < |plan| && plan[v] == [] ==>
      mx.LegCost(spec.objective)(spec.vehicles[v].startNode, spec.vehicles[v].endNode) == 0.0
  {
    if plan != [] {
      var v := |plan| - 1;
      IdleLegsZero(spec, mx, plan[..v]);
      assert forall u :: 0 <= u < |plan| ==> u == v || plan[..v][u] == plan[u];
    }
  }

  /** A route takes at least as long as it drives: waiting and service only add. */
  lemma DurationCoversTravel(spec: Spec, mx: Matrix, v: Vehicle, route: seq<Stop>)
    requires forall i :: 0 <= i < |route| ==> route[i].Valid()
    ensures var m := Measured(spec, mx, v, route); m.travel <= m.duration
  {
    LeavesAfterTravel(spec.enforceTw, mx, v, route);
    RouteClose(mx.time, v, route);
  }

  lemma {:induction false} LeavesAfterTravel(tw: bool, mx: Matrix, v: Vehicle, route: seq<Stop>)
    requires forall i :: 0 <= i < |route| ==> route[i].Valid()
    ensures v.shiftStart + PathCost(mx.time, [v.startNode] + NodesOf(route)) <= Leaves(tw, mx, v, route)
  {
    if route != [] {
      var front, last := route[..|route| - 1], route[|route| - 1];
      LeavesAfterTravel(tw, mx, v, front);
      RouteSnoc(tw, mx, mx.time, v, front, last);
      assert route == front + [last];
    }
  }

  /** Under the makespan objective the decoder, which counts driving only, never claims more than the
      measured makespan of the same plan. */
  lemma {:induction false} DecodedMakespanIsAtMostMeasured(spec: Spec, mx: Matrix, plan: seq<seq<Stop>>)
    requires spec.objective.MinMakespan? && mx.NonNegative() && 0 < |plan| <= |spec.vehicles|
    requires forall v :: 0 <= v < |plan| ==> ValidRoute(plan[v])
    ensures PlanCost(spec, mx, plan) <= Summed(MeasuredPlan(spec, mx, plan)).makespan
  {
    var v := |plan| - 1;
    var ms := MeasuredPlan(spec, mx, plan);
    ChargedWithinDuration(spec, mx, v, plan[v]);
    assert ms[v] == Measured(spec, mx, spec.vehicles[v], plan[v]);
    if v > 0 {
      DecodedMakespanIsAtMostMeasured(spec, mx, plan[..v]);
      assert ms[..v] == MeasuredPlan(spec, mx, plan[..v]);
    } else {
      assert plan[..v] == [];
    }
  }

  ghost predicate ValidRoute(route: seq<Stop>) {
    forall i :: 0 <= i < |route| ==> route[i].Valid()
  }

  lemma ChargedWithinDuration(spec: Spec, mx: Matrix, v: nat, route: seq<Stop>)
    requires spec.objective.MinMakespan? && mx.NonNegative() && v < |spec.vehicles| && ValidRoute(route)
    ensures 0.0 <= ChargedCost(spec, mx, v, route) <= Measured(spec, mx, spec.vehicles[v], route).duration
  {
    DurationCoversTravel(spec, mx, spec.vehicles[v], route);
    PathCostNonNegative(mx.time, RouteNodes(spec.vehicles[v], route));
  }
}
