/** What a measurement says, in terms of the routes alone: which violations are reported and by how much, when a
    solution is feasible, and where a route's time goes. */
module Feasibility {
  import opened Base
  import opened Problem
  import opened Validator
  import opened Encoding
  import opened Evaluate

  // ---------- the clock of one route ----------

  /** How long v waits on the route for windows to open. */
  function Waiting(mx: Matrix, v: Vehicle, route: seq<Stop>): real {
    if route == [] then 0.0
    else
      var open, arrive := route[|route| - 1].twOpen, Reaches(true, mx, v, route);
      Waiting(mx, v, route[..|route| - 1]) + if arrive < open then open - arrive else 0.0
  }

  function Serving(route: seq<Stop>): real {
    if route == [] then 0.0 else Serving(route[..|route| - 1]) + route[|route| - 1].service
  }

  lemma {:induction false} LeavesAddsUp(tw: bool, mx: Matrix, v: Vehicle, route: seq<Stop>)
    ensures Leaves(tw, mx, v, route)
         == v.shiftStart + PathCost(mx.time, [v.startNode] + NodesOf(route)) + Serving(route)
            + if tw then Waiting(mx, v, route) else 0.0
  {
    if route == [] {
      assert [v.startNode] + NodesOf(route) == [v.startNode];
    } else {
      var front, last := route[..|route| - 1], route[|route| - 1];
      LeavesAddsUp(tw, mx, v, front);
      RouteSnoc(tw, mx, mx.time, v, front, last);
      assert route == front + [last];
    }
  }

  /** A route's duration is its driving, its service and, with time windows on, its waiting. */
  lemma DurationAddsUp(spec: Spec, mx: Matrix, v: Vehicle, route: seq<Stop>)
    ensures var m := Measured(spec, mx, v, route);
      && m.duration == m.travel + Serving(route) + (if spec.enforceTw then Waiting(mx, v, route) else 0.0)
      && m.travel == PathCost(mx.time, RouteNodes(v, route)) && m.dist == PathCost(mx.dist, RouteNodes(v, route))
      && Returns(spec.enforceTw, mx, v, route) == v.shiftStart + m.duration
  {
    LeavesAddsUp(spec.enforceTw, mx, v, route);
    RouteClose(mx.time, v, route);
  }

  // ---------- the three soft limits ----------

  /** Every stop is reached by its closing time. */
  ghost predicate Punctual(mx: Matrix, v: Vehicle, route: seq<Stop>) {
    forall k :: 0 <= k < |route| && route[k].twClose.At? ==> Reaches(true, mx, v, route[..k + 1]) <= route[k].twClose.t
  }

  lemma {:induction false} PunctualExactly(mx: Matrix, v: Vehicle, route: seq<Stop>)
    ensures Lateness(true, mx, v, route) >= 0.0
    ensures Lateness(true, mx, v, route) == 0.0 <==> Punctual(mx, v, route)
  {
    if route != [] {
      var m := |route| - 1;
      PunctualExactly(mx, v, route[..m]);
      assert route[..m + 1] == route;
      forall k | 0 <= k < m ensures route[..m][k] == route[k] && route[..m][..k + 1] == route[..k + 1] {
      }
    }
  }

  /** One more stop adds to the lateness exactly what it is reached too late, if anything. */
  lemma LatenessGrows(mx: Matrix, v: Vehicle, route: seq<Stop>)
    requires route != []
    ensures var arrive, close, more := Reaches(true, mx, v, route), route[|route| - 1].twClose,
                                       Lateness(true, mx, v, route) - Lateness(true, mx, v, route[..|route| - 1]);
      more == if close.At? && arrive > close.t then arrive - close.t else 0.0
  {
  }

  /** Within both limits: the longest route and the end of the shift. */
  ghost predicate BackInTime(spec: Spec, mx: Matrix, v: Vehicle, route: seq<Stop>) {
    && (spec.maxRoute.Some? ==> Returns(spec.enforceTw, mx, v, route) <= v.shiftStart + spec.maxRoute.value)
    && (v.shiftEnd.At? ==> Returns(spec.enforceTw, mx, v, route) <= v.shiftEnd.t)
  }

  /** How far x goes beyond a limit. */
  function Beyond(x: real, limit: real): real {
    if x > limit then x - limit else 0.0
  }

  /** The overrun is how far each limit that is set is missed, both together; so it is 0 exactly when the vehicle
      is back in time. */
  lemma OverrunExactly(spec: Spec, mx: Matrix, v: Vehicle, route: seq<Stop>)
    ensures var over, back := Measured(spec, mx, v, route).overrun, Returns(spec.enforceTw, mx, v, route);
      && over >= 0.0
      && (over == 0.0 <==> BackInTime(spec, mx, v, route))
      && (spec.maxRoute.None? && v.shiftEnd.Never? ==> over == 0.0)
      && (spec.maxRoute.Some? && v.shiftEnd.Never? ==> over == Beyond(back, v.shiftStart + spec.maxRoute.value))
      && (spec.maxRoute.None? && v.shiftEnd.At? ==> over == Beyond(back, v.shiftEnd.t))
      && (spec.maxRoute.Some? && v.shiftEnd.At? ==>
           over == Beyond(back, v.shiftStart + spec.maxRoute.value) + Beyond(back, v.shiftEnd.t))
  {
  }

  /** What one measured route amounts to, limit by limit. */
  lemma MeasuredExcess(spec: Spec, mx: Matrix, v: Vehicle, route: seq<Stop>)
    ensures var m := Measured(spec, mx, v, route);
      && m.vehicleId == v.id && m.stops == |route| && m.load == Load(route)
      && m.overflow == Beyond(Load(route), v.capacity)
      && m.lateness == (if spec.enforceTw then Lateness(true, mx, v, route) else 0.0)
  {
  }

  // ---------- every violation ----------

  /** Route idx is driven by vehicle v. */
  ghost predicate DrivenBy(spec: Spec, routes: seq<Route>, idx: int, v: nat) {
    0 <= idx < |routes| && v < |spec.vehicles| && spec.vehicles[v].id == routes[idx].vehicleId
  }

  ghost predicate VehicleKnown(spec: Spec, route: Route) {
    exists v: nat :: v < |spec.vehicles| && spec.vehicles[v].id == route.vehicleId
  }

  ghost predicate StopKnown(spec: Spec, id: string) {
    exists i: nat :: i < |spec.stops| && spec.stops[i].id == id
  }

  /** Vehicle v, driving route idx, breaks a soft limit by that amount. */
  ghost predicate BreaksLimit(spec: Spec, mx: Matrix, routes: seq<Route>, x: Violation, v: nat)
    requires DrivenBy(spec, routes, x.routeIndex, v)
  {
    var veh, route := spec.vehicles[v], KnownStops(spec, routes[x.routeIndex].stopIds);
    && x.subject == veh.id
    && x.amount > 0.0
    && match x.kind
       case Capacity => x.amount == Beyond(Load(route), veh.capacity)
       case TimeWindow => spec.enforceTw && x.amount == Lateness(true, mx, veh, route)
       case Duration => x.amount == Measured(spec, mx, veh, route).overrun
       case _ => false
  }

  /** Why a violation is on the list. */
  ghost predicate Deserved(spec: Spec, mx: Matrix, routes: seq<Route>, x: Violation) {
    match x.kind
    case Unassigned =>
      StopKnown(spec, x.subject) && x.subject !in AllIds(routes) && x.amount == 1.0 && x.routeIndex == -1
    case Duplicate =>
      var visits := multiset(AllIds(routes))[x.subject];
      visits > 1 && x.amount == visits as real - 1.0 && x.routeIndex == -1
    case UnknownVehicle =>
      && 0 <= x.routeIndex < |routes| && !VehicleKnown(spec, routes[x.routeIndex])
      && x.subject == routes[x.routeIndex].vehicleId && x.amount == |routes[x.routeIndex].stopIds| as real
    case UnknownStop =>
      && 0 <= x.routeIndex < |routes| && VehicleKnown(spec, routes[x.routeIndex])
      && x.subject in routes[x.routeIndex].stopIds && !StopKnown(spec, x.subject) && x.amount == 1.0
    case _ =>
      exists v: nat :: DrivenBy(spec, routes, x.routeIndex, v) && BreaksLimit(spec, mx, routes, x, v)
  }

  lemma {:induction false} UnknownStopsExactly(spec: Spec, idx: int, ids: seq<string>, x: Violation)
    ensures x in UnknownStops(spec, idx, ids)
         <==> x.kind == UnknownStop && x.amount == 1.0 && x.routeIndex == idx
              && x.subject in ids && !StopKnown(spec, x.subject)
  {
    if ids != [] {
      var front, last := ids[..|ids| - 1], ids[|ids| - 1];
      UnknownStopsExactly(spec, idx, front, x);
      assert x.subject in ids <==> x.subject in front || x.subject == last by { assert ids == front + [last]; }
      LookedUp(spec, last);
    }
  }

  lemma LookedUp(spec: Spec, id: string)
    ensures Problem.FindStop(spec.stops, id).Some? <==> StopKnown(spec, id)
  {
  }

  lemma BreachesExactly(spec: Spec, mx: Matrix, routes: seq<Route>, idx: nat, v: nat, x: Violation)
    requires DrivenBy(spec, routes, idx, v)
    ensures x in Breaches(Measured(spec, mx, spec.vehicles[v], KnownStops(spec, routes[idx].stopIds)), idx)
         <==> x.routeIndex == idx && x.kind in {Capacity, TimeWindow, Duration} && BreaksLimit(spec, mx, routes, x, v)
  {
    MeasuredExcess(spec, mx, spec.vehicles[v], KnownStops(spec, routes[idx].stopIds));
  }

  /** One route's violations. */
  lemma RouteBreachesExactly(spec: Spec, mx: Matrix, routes: seq<Route>, idx: nat, x: Violation)
    requires spec.Valid() && idx < |routes|
    ensures x in RouteBreaches(spec, mx, routes[idx], idx)
         <==> x.routeIndex == idx && x.kind !in {Unassigned, Duplicate} && Deserved(spec, mx, routes, x)
  {
    hide Breaches;
    hide Measured;
    var route := routes[idx];
    match Problem.FindVehicle(spec.vehicles, route.vehicleId)
    case None =>
      assert !VehicleKnown(spec, route);
    case Some(v) =>
      assert VehicleKnown(spec, route) && DrivenBy(spec, routes, idx, v);
      UnknownStopsExactly(spec, idx, route.stopIds, x);
      BreachesExactly(spec, mx, routes, idx, v, x);
      forall u: nat | DrivenBy(spec, routes, idx, u) ensures u == v {
      }
  }

  lemma {:induction false} InFlatten<T>(xss: seq<seq<T>>, x: T)
    ensures x in Flatten(xss) <==> exists i :: 0 <= i < |xss| && x in xss[i]
  {
    if xss != [] {
      var m := |xss| - 1;
      InFlatten(xss[..m], x);
      if x in Flatten(xss[..m]) {
        var i :| 0 <= i < m && x in xss[..m][i];
        assert x in xss[i];
      }
      if i :| 0 <= i < |xss| && x in xss[i] && i < m { assert x in xss[..m][i]; }
    }
  }

  lemma MissingExactly(spec: Spec, mx: Matrix, routes: seq<Route>, m: SolutionMetrics, x: Violation)
    requires IsMeasurement(spec, mx, routes, m)
    ensures x in Missing(m.unassigned) <==> x.kind == Unassigned && Deserved(spec, mx, routes, x)
  {
    var id, seen := x.subject, AllIds(routes);
    assert id in seen <==> id in multiset(seen);
    assert id in m.unassigned <==> id !in seen && StopKnown(spec, id) by {
      if i: nat :| i < |spec.stops| && spec.stops[i].id == id {
      }
    }
    if x.kind == Unassigned && Deserved(spec, mx, routes, x) {
      var i :| 0 <= i < |m.unassigned| && m.unassigned[i] == id;
      assert Missing(m.unassigned)[i] == x;
    }
  }

  lemma RepeatedExactly(spec: Spec, mx: Matrix, routes: seq<Route>, m: SolutionMetrics, x: Violation)
    requires IsMeasurement(spec, mx, routes, m)
    ensures x in Repeated(m.duplicates, multiset(AllIds(routes)))
         <==> x.kind == Duplicate && Deserved(spec, mx, routes, x)
  {
    var seen := multiset(AllIds(routes));
    assert x.subject in m.duplicates <==> seen[x.subject] > 1;
    if x.kind == Duplicate && Deserved(spec, mx, routes, x) {
      var i :| 0 <= i < |m.duplicates| && m.duplicates[i] == x.subject;
      assert Repeated(m.duplicates, seen)[i] == x;
    }
  }

  lemma AllBreachesExactly(spec: Spec, mx: Matrix, routes: seq<Route>, x: Violation)
    requires spec.Valid()
    ensures x in AllBreaches(spec, mx, routes)
         <==> x.kind !in {Unassigned, Duplicate} && Deserved(spec, mx, routes, x)
  {
    hide Deserved;
    hide RouteBreaches;
    var lists := BreachLists(spec, mx, routes);
    InFlatten(lists, x);
    DeservedRoute(spec, mx, routes, x);
    if x in AllBreaches(spec, mx, routes) {
      var idx :| 0 <= idx < |lists| && x in lists[idx];
      RouteBreachesExactly(spec, mx, routes, idx, x);
    }
    if x.kind !in {Unassigned, Duplicate} && Deserved(spec, mx, routes, x) {
      RouteBreachesExactly(spec, mx, routes, x.routeIndex, x);
      assert x in lists[x.routeIndex];
    }
  }

  /** The list of violations holds exactly what the routes deserve. */
  lemma ViolationsExactly(spec: Spec, mx: Matrix, routes: seq<Route>, m: SolutionMetrics, x: Violation)
    requires spec.Valid() && IsMeasurement(spec, mx, routes, m)
    ensures x in m.violations <==> Deserved(spec, mx, routes, x)
  {
    hide Deserved;
    hide AllBreaches;
    hide Missing;
    hide Repeated;
    AllBreachesExactly(spec, mx, routes, x);
    MissingExactly(spec, mx, routes, m, x);
    RepeatedExactly(spec, mx, routes, m, x);
  }

  lemma DeservedRoute(spec: Spec, mx: Matrix, routes: seq<Route>, x: Violation)
    ensures x.kind !in {Unassigned, Duplicate} && Deserved(spec, mx, routes, x) ==> 0 <= x.routeIndex < |routes|
  {
  }

  // ---------- feasible solutions ----------

  /** Every route has a vehicle of the instance and lists stops of the instance. */
  ghost predicate AllKnown(spec: Spec, routes: seq<Route>) {
    forall idx :: 0 <= idx < |routes| ==>
      VehicleKnown(spec, routes[idx]) && forall id :: id in routes[idx].stopIds ==> StopKnown(spec, id)
  }

  /** Every stop is listed once. */
  ghost predicate EachOnce(spec: Spec, routes: seq<Route>) {
    && (forall i :: 0 <= i < |spec.stops| ==> spec.stops[i].id in AllIds(routes))
    && (forall id :: multiset(AllIds(routes))[id] <= 1)
  }

  /** The vehicle carries, reaches and returns within its limits. */
  ghost predicate WithinLimits(spec: Spec, mx: Matrix, v: Vehicle, route: seq<Stop>) {
    && Load(route) <= v.capacity
    && (spec.enforceTw ==> Punctual(mx, v, route))
    && BackInTime(spec, mx, v, route)
  }

  ghost predicate AllWithinLimits(spec: Spec, mx: Matrix, routes: seq<Route>) {
    forall idx, v: nat :: DrivenBy(spec, routes, idx, v) ==>
      WithinLimits(spec, mx, spec.vehicles[v], KnownStops(spec, routes[idx].stopIds))
  }

  /** A solution is feasible exactly when everything it names is known, every stop is served once, and every
      route is within the capacity, the time windows and both duration limits. */
  lemma FeasibleExactly(spec: Spec, mx: Matrix, routes: seq<Route>, m: SolutionMetrics)
    requires spec.Valid() && IsMeasurement(spec, mx, routes, m)
    ensures m.IsFeasible() <==> AllKnown(spec, routes) && EachOnce(spec, routes) && AllWithinLimits(spec, mx, routes)
  {
    hide IsMeasurement;
    hide AllKnown;
    hide EachOnce;
    hide AllWithinLimits;
    if m.IsFeasible() {
      forall x ensures !Deserved(spec, mx, routes, x) { ViolationsExactly(spec, mx, routes, m, x); }
      NothingUnknown(spec, mx, routes);
      NothingMissed(spec, mx, routes);
      NothingBroken(spec, mx, routes);
    } else {
      var x := m.violations[0];
      ViolationsExactly(spec, mx, routes, m, x);
      DeservedMeansWrong(spec, mx, routes, x);
    }
  }

  lemma NothingUnknown(spec: Spec, mx: Matrix, routes: seq<Route>)
    requires forall x :: !Deserved(spec, mx, routes, x)
    ensures AllKnown(spec, routes)
  {
    forall idx | 0 <= idx < |routes|
      ensures VehicleKnown(spec, routes[idx]) && forall id :: id in routes[idx].stopIds ==> StopKnown(spec, id)
    {
      var route := routes[idx];
      assert !Deserved(spec, mx, routes, Violation(UnknownVehicle, |route.stopIds| as real, route.vehicleId, idx));
      forall id | id in route.stopIds ensures StopKnown(spec, id) {
        assert !Deserved(spec, mx, routes, Violation(UnknownStop, 1.0, id, idx));
      }
    }
  }

  lemma NothingMissed(spec: Spec, mx: Matrix, routes: seq<Route>)
    requires forall x :: !Deserved(spec, mx, routes, x)
    ensures EachOnce(spec, routes)
  {
    forall i | 0 <= i < |spec.stops| ensures spec.stops[i].id in AllIds(routes) {
      assert StopKnown(spec, spec.stops[i].id);
      assert !Deserved(spec, mx, routes, Violation(Unassigned, 1.0, spec.stops[i].id, -1));
    }
    forall id ensures multiset(AllIds(routes))[id] <= 1 {
      var visits := multiset(AllIds(routes))[id];
      assert !Deserved(spec, mx, routes, Violation(Duplicate, visits as real - 1.0, id, -1));
    }
  }

  lemma NothingBroken(spec: Spec, mx: Matrix, routes: seq<Route>)
    requires forall x :: !Deserved(spec, mx, routes, x)
    ensures AllWithinLimits(spec, mx, routes)
  {
    forall idx, v: nat | DrivenBy(spec, routes, idx, v)
      ensures WithinLimits(spec, mx, spec.vehicles[v], KnownStops(spec, routes[idx].stopIds))
    {
      forall kind, amount ensures !BreaksLimit(spec, mx, routes, Violation(kind, amount, spec.vehicles[v].id, idx), v) {
        var x := Violation(kind, amount, spec.vehicles[v].id, idx);
        assert !Deserved(spec, mx, routes, x);
      }
      UnbrokenIsWithin(spec, mx, routes, idx, v);
    }
  }

  lemma UnbrokenIsWithin(spec: Spec, mx: Matrix, routes: seq<Route>, idx: int, v: nat)
    requires DrivenBy(spec, routes, idx, v)
    requires (forall kind, amount ::
               !BreaksLimit(spec, mx, routes, Violation(kind, amount, spec.vehicles[v].id, idx), v))
    ensures WithinLimits(spec, mx, spec.vehicles[v], KnownStops(spec, routes[idx].stopIds))
  {
    hide Measured;
    hide Load;
    hide Lateness;
    var veh, route := spec.vehicles[v], KnownStops(spec, routes[idx].stopIds);
    OverrunExactly(spec, mx, veh, route);
    PunctualExactly(mx, veh, route);
    var over, late, long := Beyond(Load(route), veh.capacity), Lateness(true, mx, veh, route),
                            Measured(spec, mx, veh, route).overrun;
    assert !BreaksLimit(spec, mx, routes, Violation(Capacity, over, veh.id, idx), v);
    assert !BreaksLimit(spec, mx, routes, Violation(TimeWindow, late, veh.id, idx), v);
    assert !BreaksLimit(spec, mx, routes, Violation(Duration, long, veh.id, idx), v);
  }

  lemma DeservedMeansWrong(spec: Spec, mx: Matrix, routes: seq<Route>, x: Violation)
    requires Deserved(spec, mx, routes, x)
    ensures !(AllKnown(spec, routes) && EachOnce(spec, routes) && AllWithinLimits(spec, mx, routes))
  {
    if x.kind in {Capacity, TimeWindow, Duration} {
      var v: nat :| DrivenBy(spec, routes, x.routeIndex, v) && BreaksLimit(spec, mx, routes, x, v);
      BrokenIsNotWithin(spec, mx, routes, x, v);
    } else if x.kind == Unassigned {
      var i: nat :| i < |spec.stops| && spec.stops[i].id == x.subject;
    }
  }

  lemma BrokenIsNotWithin(spec: Spec, mx: Matrix, routes: seq<Route>, x: Violation, v: nat)
    requires DrivenBy(spec, routes, x.routeIndex, v) && BreaksLimit(spec, mx, routes, x, v)
    ensures !WithinLimits(spec, mx, spec.vehicles[v], KnownStops(spec, routes[x.routeIndex].stopIds))
  {
    hide Measured;
    hide Load;
    hide Lateness;
    var veh, route := spec.vehicles[v], KnownStops(spec, routes[x.routeIndex].stopIds);
    OverrunExactly(spec, mx, veh, route);
    PunctualExactly(mx, veh, route);
  }

  /** For a plan that serves every stop once only the limits are left. */
  lemma CompletePlanFeasible(spec: Spec, mx: Matrix, plan: seq<seq<Stop>>, m: SolutionMetrics)
    requires spec.Valid() && IsComplete(spec, plan) && IsMeasurement(spec, mx, RoutesOf(spec, plan), m)
    ensures |plan| == |spec.vehicles|
    ensures m.IsFeasible() <==> forall v :: 0 <= v < |plan| ==> WithinLimits(spec, mx, spec.vehicles[v], plan[v])
  {
    hide IsMeasurement;
    hide AllKnown;
    hide EachOnce;
    hide WithinLimits;
    var routes := RoutesOf(spec, plan);
    FeasibleExactly(spec, mx, routes, m);
    CompleteEachOnce(spec, plan);
    CompleteAllKnown(spec, plan);
    CompleteFromSpec(spec, plan);
    forall v: nat | v < |plan|
      ensures DrivenBy(spec, routes, v, v) && KnownStops(spec, routes[v].stopIds) == plan[v]
    {
      KnownIds(spec, plan[v]);
    }
    forall idx, v: nat | DrivenBy(spec, routes, idx, v) ensures idx == v {
    }
  }

  lemma CompleteEachOnce(spec: Spec, plan: seq<seq<Stop>>)
    requires spec.Valid() && IsComplete(spec, plan)
    ensures EachOnce(spec, RoutesOf(spec, plan))
  {
    CompleteVisits(spec, plan);
    forall i | 0 <= i < |spec.stops| ensures spec.stops[i].id in AllIds(RoutesOf(spec, plan)) {
      assert spec.stops[i].id in multiset(AllIds(RoutesOf(spec, plan)));
    }
  }

  lemma CompleteAllKnown(spec: Spec, plan: seq<seq<Stop>>)
    requires spec.Valid() && IsComplete(spec, plan)
    ensures AllKnown(spec, RoutesOf(spec, plan))
  {
    var routes := RoutesOf(spec, plan);
    CompleteFromSpec(spec, plan);
    forall idx | 0 <= idx < |routes|
      ensures VehicleKnown(spec, routes[idx]) && forall id :: id in routes[idx].stopIds ==> StopKnown(spec, id)
    {
      assert spec.vehicles[idx].id == routes[idx].vehicleId;
      forall id | id in routes[idx].stopIds ensures StopKnown(spec, id) {
        var k :| 0 <= k < |plan[idx]| && plan[idx][k].id == id;
        assert plan[idx][k] in spec.stops;
      }
    }
  }
}
