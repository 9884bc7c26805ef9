/** What a repair does, step by step, said of the routes alone: who gives up which stop, where it goes, and what
    that costs. */
module RepairSteps {
  import opened Base
  import opened Problem
  import opened Sorting
  import opened Validator
  import opened Encoding
  import opened Repair

  // ---------- putting one stop somewhere ----------

  /** Seconds driven on a route, as the validator measures them. */
  function Drive(spec: Spec, mx: Matrix, v: nat, route: seq<Stop>): real
    requires v < |spec.vehicles|
  {
    Measured(spec, mx, spec.vehicles[v], route).travel
  }

  /** `after` is `before` with s at position k. */
  ghost predicate HoldsAt(before: seq<Stop>, after: seq<Stop>, k: nat, s: Stop) {
    k < |after| && after[k] == s && after[..k] + after[k + 1..] == before
  }

  /** Vehicle u may still take s: afterwards it is within its capacity, up to the tolerance. */
  ghost predicate Carries(spec: Spec, plan: seq<seq<Stop>>, u: nat, s: Stop)
    requires u < |plan| == |spec.vehicles|
  {
    Load(plan[u]) + s.demand <= spec.vehicles[u].capacity + 0.000000001
  }

  /** Putting s at position k of vehicle u, which turns its route into `after`, adds no more driving than any
      other position of any vehicle that can take it; among equals the least vehicle id and then the first
      position is taken. */
  ghost predicate AddsLeast(spec: Spec, mx: Matrix, plan: seq<seq<Stop>>, s: Stop, exclude: Option<nat>, u: nat, k: nat,
                            after: seq<Stop>)
    requires |plan| == |spec.vehicles| && u < |plan|
  {
    forall x: nat, q: nat, other: seq<Stop> ::
      x < |plan| && exclude != Some(x) && Carries(spec, plan, x, s) && HoldsAt(plan[x], other, q, s) ==>
        NoWorse(spec, Drive(spec, mx, u, after) - Drive(spec, mx, u, plan[u]), u, k,
                Drive(spec, mx, x, other) - Drive(spec, mx, x, plan[x]), x, q)
  }

  ghost predicate NoWorse(spec: Spec, more: real, u: nat, k: nat, moreThere: real, x: nat, q: nat)
    requires u < |spec.vehicles| && x < |spec.vehicles|
  {
    || more < moreThere
    || (more == moreThere && StringLess(spec.vehicles[u].id, spec.vehicles[x].id))
    || (more == moreThere && u == x && k <= q)
  }

  /** s went to its cheapest place with room: position k of vehicle u. No other route changed. */
  ghost predicate PutCheapest(spec: Spec, mx: Matrix, plan: seq<seq<Stop>>, s: Stop, exclude: Option<nat>, u: nat,
                              k: nat, plan': seq<seq<Stop>>)
    requires |plan| == |spec.vehicles|
  {
    && |plan'| == |plan| && u < |plan| && exclude != Some(u)
    && Carries(spec, plan, u, s)
    && HoldsAt(plan[u], plan'[u], k, s)
    && AddsLeast(spec, mx, plan, s, exclude, u, k, plan'[u])
    && forall x :: 0 <= x < |plan| && x != u ==> plan'[x] == plan[x]
  }

  /** Nobody but the excluded vehicle can take s. */
  ghost predicate NobodyCarries(spec: Spec, plan: seq<seq<Stop>>, s: Stop, exclude: Option<nat>)
    requires |plan| == |spec.vehicles|
  {
    forall x: nat :: x < |plan| && exclude != Some(x) ==> !Carries(spec, plan, x, s)
  }

  lemma InsertHolds(route: seq<Stop>, pos: nat, s: Stop)
    requires pos <= |route|
    ensures HoldsAt(route, InsertAt(route, pos, s), pos, s)
  {
    var after := InsertAt(route, pos, s);
    assert after[..pos] == route[..pos] && after[pos + 1..] == route[pos..];
  }

  lemma HoldsIsInsert(before: seq<Stop>, after: seq<Stop>, k: nat, s: Stop)
    requires HoldsAt(before, after, k, s)
    ensures k <= |before| && after == InsertAt(before, k, s)
  {
    assert before[..k] == after[..k] && before[k..] == after[k + 1..];
  }

  /** The cheapest insertion, performed, is the cheapest put. */
  lemma CheapestPuts(spec: Spec, mx: Matrix, plan: seq<seq<Stop>>, s: Stop, exclude: Option<nat>, b: Insertion)
    requires spec.Valid() && |plan| == |spec.vehicles| && IsCheapest(spec, mx, plan, s, exclude, Some(b))
    ensures b.vehicle < |plan| && b.pos <= |plan[b.vehicle]|
    ensures PutCheapest(spec, mx, plan, s, exclude, b.vehicle, b.pos,
                        plan[b.vehicle := InsertAt(plan[b.vehicle], b.pos, s)])
  {
    hide Measured;
    hide Delta;
    hide Load;
    hide Cheaper;
    var u, k := b.vehicle, b.pos;
    var after := InsertAt(plan[u], k, s);
    InsertHolds(plan[u], k, s);
    InsertionChangesTravelByDelta(spec, mx, spec.vehicles[u], plan[u], k, s);
    forall x: nat, q: nat, other: seq<Stop> |
      x < |plan| && exclude != Some(x) && Carries(spec, plan, x, s) && HoldsAt(plan[x], other, q, s)
      ensures NoWorse(spec, Drive(spec, mx, u, after) - Drive(spec, mx, u, plan[u]), u, k,
                      Drive(spec, mx, x, other) - Drive(spec, mx, x, plan[x]), x, q)
    {
      HoldsIsInsert(plan[x], other, q, s);
      InsertionChangesTravelByDelta(spec, mx, spec.vehicles[x], plan[x], q, s);
      var c := Insertion(Delta(mx, spec.vehicles[x], plan[x], q, s.node), x, q);
      assert IsInsertion(spec, mx, plan, s, exclude, c);
      NotCheaperNoWorse(spec, b, c);
    }
  }

  lemma NotCheaperNoWorse(spec: Spec, b: Insertion, c: Insertion)
    requires spec.Valid() && b.vehicle < |spec.vehicles| && c.vehicle < |spec.vehicles| && !Cheaper(spec, c, b)
    ensures NoWorse(spec, b.delta, b.vehicle, b.pos, c.delta, c.vehicle, c.pos)
  {
    StringLessTotal(spec.vehicles[b.vehicle].id, spec.vehicles[c.vehicle].id);
    assert spec.vehicles[b.vehicle].id == spec.vehicles[c.vehicle].id ==> b.vehicle == c.vehicle;
  }

  // ---------- relieving ----------

  /** Vehicle v is overloaded, the most so, and before all that are equally so. */
  ghost predicate WorstOff(spec: Spec, plan: seq<seq<Stop>>, v: nat)
    requires |plan| == |spec.vehicles|
  {
    && v < |plan|
    && Load(plan[v]) - spec.vehicles[v].capacity > 0.000000001
    && (forall x :: 0 <= x < |plan| ==>
          Load(plan[x]) - spec.vehicles[x].capacity <= Load(plan[v]) - spec.vehicles[v].capacity)
    && (forall x :: 0 <= x < v ==>
          Load(plan[x]) - spec.vehicles[x].capacity < Load(plan[v]) - spec.vehicles[v].capacity)
  }

  /** Position i holds the heaviest stop of the route, of equally heavy ones that with the greatest id, at its
      first occurrence. */
  ghost predicate HeaviestAt(route: seq<Stop>, i: nat) {
    && i < |route|
    && (forall j :: 0 <= j < |route| ==> route[j].demand <= route[i].demand)
    && (forall j :: 0 <= j < |route| && route[j].demand == route[i].demand ==> !StringLess(route[i].id, route[j].id))
    && (forall j :: 0 <= j < i ==> route[j] != route[i])
  }

  /** One relieving step: the worst off vehicle v gave up its heaviest stop, at position i; it went to the
      cheapest place another vehicle could offer, or waits because no other vehicle can take it. */
  ghost predicate Relieved(spec: Spec, mx: Matrix, s: State, s': State, v: nat, i: nat, place: Option<(nat, nat)>)
    requires |s.plan| == |spec.vehicles|
  {
    && WorstOff(spec, s.plan, v)
    && HeaviestAt(s.plan[v], i)
    && var victim, rest := s.plan[v][i], s.plan[v := s.plan[v][..i] + s.plan[v][i + 1..]];
       match place
       case None => NobodyCarries(spec, rest, victim, Some(v)) && s' == State(rest, s.loose + [victim])
       case Some((u, k)) => PutCheapest(spec, mx, rest, victim, Some(v), u, k, s'.plan) && s'.loose == s.loose
  }

  /** Every ejection is such a step. */
  lemma EjectionRelieves(spec: Spec, mx: Matrix, s: State, s': State)
    returns (v: nat, i: nat, place: Option<(nat, nat)>)
    requires spec.Valid() && s.Valid(spec) && IsEjection(spec, mx, s, s')
    ensures Relieved(spec, mx, s, s', v, i, place)
  {
    hide IsCheapest;
    hide PutCheapest;
    hide Load;
    var best: Option<Insertion>;
    v, i, best :| IsChoice(spec, mx, s.plan, v, i, best) && s' == Ejected(s, v, i, best);
    var victim, rest := s.plan[v][i], s.plan[v := RemoveAt(s.plan[v], i)];
    WorstSaid(spec, s.plan, v);
    HeaviestSaid(s.plan[v], i);
    if best.Some? {
      place := Some((best.value.vehicle, best.value.pos));
      CheapestPuts(spec, mx, rest, victim, Some(v), best.value);
    } else {
      place := None;
      NobodySaid(spec, mx, rest, victim, Some(v));
    }
  }

  lemma WorstSaid(spec: Spec, plan: seq<seq<Stop>>, v: nat)
    requires |plan| == |spec.vehicles| && IsMostOverloaded(spec, plan, Some(v))
    ensures WorstOff(spec, plan, v)
  {
    hide Load;
    forall x | 0 <= x < |plan|
      ensures Load(plan[x]) - spec.vehicles[x].capacity <= Load(plan[v]) - spec.vehicles[v].capacity
      ensures x < v ==> Load(plan[x]) - spec.vehicles[x].capacity < Load(plan[v]) - spec.vehicles[v].capacity
    {
      assert Excess(spec, plan, x) <= Excess(spec, plan, v);
    }
  }

  lemma HeaviestSaid(route: seq<Stop>, i: nat)
    requires IsHeaviest(route, i)
    ensures HeaviestAt(route, i)
  {
    forall j | 0 <= j < |route|
      ensures route[j].demand <= route[i].demand
      ensures route[j].demand == route[i].demand ==> !StringLess(route[i].id, route[j].id)
    {
      assert LighterOrSame(route[j], route[i]);
      StringLessTotal(route[i].id, route[j].id);
    }
  }

  lemma NobodySaid(spec: Spec, mx: Matrix, plan: seq<seq<Stop>>, s: Stop, exclude: Option<nat>)
    requires |plan| == |spec.vehicles| && IsCheapest(spec, mx, plan, s, exclude, None)
    ensures NobodyCarries(spec, plan, s, exclude)
  {
    forall x: nat | x < |plan| && exclude != Some(x) ensures !Carries(spec, plan, x, s) {
      assert !HasRoom(spec, plan, x, s);
    }
  }

  /** So is every step of every repair, until all routes fit. */
  lemma RepairRelieves(spec: Spec, mx: Matrix, routes: seq<Route>, out: seq<Route>, h: History, n: nat)
    returns (v: nat, i: nat, place: Option<(nat, nat)>)
    requires spec.Valid() && IsRepair(spec, mx, routes, out, h) && n + 1 < |h.relief|
    ensures |h.relief[n].plan| == |spec.vehicles|
    ensures Relieved(spec, mx, h.relief[n], h.relief[n + 1], v, i, place)
  {
    LoadRoutesKeepsStops(spec, routes);
    ReliefKeepsStops(spec, mx, h.relief, n);
    assert IsEjection(spec, mx, h.relief[n], h.relief[n + 1]);
    v, i, place := EjectionRelieves(spec, mx, h.relief[n], h.relief[n + 1]);
  }

  // ---------- loading, placing, tidying ----------

  /** The ids listed for one vehicle, route after route. */
  function IdsFor(routes: seq<Route>, vehicleId: string): seq<string> {
    if routes == [] then []
    else
      var last := routes[|routes| - 1];
      IdsFor(routes[..|routes| - 1], vehicleId) + if last.vehicleId == vehicleId then last.stopIds else []
  }

  /** The ids listed for no vehicle of the instance. */
  function IdsForNobody(spec: Spec, routes: seq<Route>): seq<string> {
    if routes == [] then []
    else
      var last := routes[|routes| - 1];
      IdsForNobody(spec, routes[..|routes| - 1])
      + if forall v :: 0 <= v < |spec.vehicles| ==> spec.vehicles[v].id != last.vehicleId then last.stopIds else []
  }

  /** Every vehicle starts with the known stops of all its routes, in order; those of nobody wait. */
  lemma {:induction false} LoadedInOrder(spec: Spec, routes: seq<Route>, v: nat)
    requires spec.Valid() && v < |spec.vehicles|
    ensures var s := LoadRoutes(spec, routes);
      && |s.plan| == |spec.vehicles|
      && s.plan[v] == KnownStops(spec, IdsFor(routes, spec.vehicles[v].id))
      && s.loose == KnownStops(spec, IdsForNobody(spec, routes))
  {
    hide KnownStops;
    KnownNothing(spec);
    if routes != [] {
      var front, last := routes[..|routes| - 1], routes[|routes| - 1];
      LoadedInOrder(spec, front, v);
      KnownAppend(spec, IdsFor(front, spec.vehicles[v].id), last.stopIds);
      KnownAppend(spec, IdsForNobody(spec, front), last.stopIds);
      assert IdsFor(front, spec.vehicles[v].id) + [] == IdsFor(front, spec.vehicles[v].id);
      assert IdsForNobody(spec, front) + [] == IdsForNobody(spec, front);
      VehicleAt(spec, v);
    }
  }

  lemma KnownNothing(spec: Spec)
    ensures KnownStops(spec, []) == []
  {
  }

  /** Nobody carries less than vehicle v, and no vehicle of a smaller id carries as little. */
  ghost predicate LeastFilled(spec: Spec, plan: seq<seq<Stop>>, v: nat)
    requires v < |plan| == |spec.vehicles|
  {
    forall x :: 0 <= x < |plan| ==>
      Load(plan[v]) < Load(plan[x])
      || (Load(plan[v]) == Load(plan[x]) && !StringLess(spec.vehicles[x].id, spec.vehicles[v].id))
  }

  /** One waiting stop was placed: where it adds least among the vehicles that can take it or, when none can, at
      the end of the least filled route. */
  ghost predicate Placed(spec: Spec, mx: Matrix, plan: seq<seq<Stop>>, s: Stop, p: Placement, plan': seq<seq<Stop>>) {
    && p.vehicle < |plan| == |spec.vehicles|
    && if p.forced
       then
         && NobodyCarries(spec, plan, s, None)
         && LeastFilled(spec, plan, p.vehicle)
         && plan' == plan[p.vehicle := plan[p.vehicle] + [s]]
       else PutCheapest(spec, mx, plan, s, None, p.vehicle, p.pos, plan')
  }

  lemma PlacementPlaces(spec: Spec, mx: Matrix, plan: seq<seq<Stop>>, s: Stop, p: Placement, plan': seq<seq<Stop>>)
    requires spec.Valid() && IsPlacement(spec, mx, plan, s, p, plan')
    ensures Placed(spec, mx, plan, s, p, plan')
  {
    hide IsCheapest;
    hide PutCheapest;
    hide NobodyCarries;
    if p.forced {
      NobodySaid(spec, mx, plan, s, None);
      LeastSaid(spec, plan, p.vehicle);
      assert InsertAt(plan[p.vehicle], p.pos, s) == plan[p.vehicle] + [s];
    } else {
      var delta :| IsCheapest(spec, mx, plan, s, None, Some(Insertion(delta, p.vehicle, p.pos)));
      CheapestPuts(spec, mx, plan, s, None, Insertion(delta, p.vehicle, p.pos));
    }
  }

  lemma LeastSaid(spec: Spec, plan: seq<seq<Stop>>, v: nat)
    requires |plan| == |spec.vehicles| && IsLeastLoaded(spec, plan, v)
    ensures LeastFilled(spec, plan, v)
  {
    hide Load;
    forall x | 0 <= x < |plan|
      ensures Load(plan[v]) < Load(plan[x])
              || (Load(plan[v]) == Load(plan[x]) && !StringLess(spec.vehicles[x].id, spec.vehicles[v].id))
    {
      assert LoadOrIdAtMost(spec, plan, v, x);
      StringLessTotal(spec.vehicles[v].id, spec.vehicles[x].id);
    }
  }

  /** Heavier stops first, equally heavy ones by id. */
  ghost predicate HeaviestFirst(stops: seq<Stop>) {
    forall i, j :: 0 <= i < j < |stops| ==>
      stops[i].demand > stops[j].demand
      || (stops[i].demand == stops[j].demand && !StringLess(stops[j].id, stops[i].id))
  }

  /** Every repair places the stops that wait after the relief, heaviest first, each where it should go. */
  lemma RepairPlaces(spec: Spec, mx: Matrix, routes: seq<Route>, out: seq<Route>, h: History, n: nat)
    requires spec.Valid() && IsRepair(spec, mx, routes, out, h) && n < |h.waiting|
    ensures HeaviestFirst(h.waiting)
    ensures multiset(h.waiting) == multiset(h.relief[|h.relief| - 1].loose)
    ensures Placed(spec, mx, h.placing[n], h.waiting[n], h.log[n], h.placing[n + 1])
  {
    hide Placed;
    var loose := h.relief[|h.relief| - 1].loose;
    HeavierFirstOrder();
    SortByCorrect(HeavierFirst, loose);
    SortedIsHeaviestFirst(h.waiting);
    assert IsPlacement(spec, mx, h.placing[n], h.waiting[n], h.log[n], h.placing[n + 1]);
    PlacementPlaces(spec, mx, h.placing[n], h.waiting[n], h.log[n], h.placing[n + 1]);
  }

  lemma SortedIsHeaviestFirst(stops: seq<Stop>)
    requires Sorted(HeavierFirst, stops)
    ensures HeaviestFirst(stops)
  {
    forall i, j | 0 <= i < j < |stops|
      ensures stops[i].demand > stops[j].demand
              || (stops[i].demand == stops[j].demand && !StringLess(stops[j].id, stops[i].id))
    {
      assert HeavierFirst(stops[i], stops[j]);
      StringLessTotal(stops[i].id, stops[j].id);
    }
  }

  /** Windows that close earlier come first, of those that close together the ones that open earlier. */
  ghost predicate DueInOrder(route: seq<Stop>) {
    forall i, j :: 0 <= i < j < |route| ==>
      var a, b := route[i], route[j];
      && (b.twClose.At? ==> a.twClose.At? && a.twClose.t <= b.twClose.t)
      && (a.twClose == b.twClose ==> a.twOpen <= b.twOpen)
  }

  /** The stops of a route that have this window, in order. */
  function Windowed(route: seq<Stop>, open: real, close: Limit): seq<Stop> {
    if route == [] then []
    else
      var last := route[|route| - 1];
      Windowed(route[..|route| - 1], open, close) + if last.twOpen == open && last.twClose == close then [last] else []
  }

  lemma {:induction false} WindowedIsAlike(route: seq<Stop>, s: Stop)
    ensures Windowed(route, s.twOpen, s.twClose) == Alike(DueFirst, s, route)
  {
    if route != [] { WindowedIsAlike(route[..|route| - 1], s); }
  }

  lemma SortKeepsWindows(route: seq<Stop>, open: real, close: Limit)
    ensures Windowed(SortBy(DueFirst, route), open, close) == Windowed(route, open, close)
  {
    hide Windowed;
    hide Alike;
    DueFirstOrder();
    SortByCorrect(DueFirst, route);
    var s := Stop("", 0, 0.0, 0.0, open, close);
    WindowedIsAlike(route, s);
    WindowedIsAlike(SortBy(DueFirst, route), s);
    assert Alike(DueFirst, s, SortBy(DueFirst, route)) == Alike(DueFirst, s, route);
  }

  /** What the tidy-up does to one route: with time windows on it ends in due order, stops of the same window in
      the order they had; otherwise nothing moves. */
  ghost predicate IsTidied(spec: Spec, untidy: seq<Stop>, tidy: seq<Stop>) {
    if spec.enforceTw
    then DueInOrder(tidy) && forall open, close :: Windowed(tidy, open, close) == Windowed(untidy, open, close)
    else tidy == untidy
  }

  lemma TidyRouteTidies(spec: Spec, route: seq<Stop>)
    ensures IsTidied(spec, route, TidyRoute(spec, route))
  {
    hide Windowed;
    if spec.enforceTw {
      DueFirstOrder();
      SortByCorrect(DueFirst, route);
      SortedIsDue(SortBy(DueFirst, route));
      forall open, close ensures Windowed(SortBy(DueFirst, route), open, close) == Windowed(route, open, close) {
        SortKeepsWindows(route, open, close);
      }
    }
  }

  /** The last step of every repair. */
  lemma RepairTidies(spec: Spec, mx: Matrix, routes: seq<Route>, out: seq<Route>, h: History, v: nat)
    requires spec.Valid() && IsRepair(spec, mx, routes, out, h) && v < |spec.vehicles|
    ensures |out| == |h.Outcome()| == |spec.vehicles| && out[v].vehicleId == spec.vehicles[v].id
    ensures IsTidied(spec, h.Outcome()[v], KnownStops(spec, out[v].stopIds))
  {
    hide IsTidied;
    hide KnownStops;
    RepairKeepsStops(spec, mx, routes, out, h);
    TidyRouteTidies(spec, h.Outcome()[v]);
  }

  lemma SortedIsDue(route: seq<Stop>)
    requires Sorted(DueFirst, route)
    ensures DueInOrder(route)
  {
    forall i, j | 0 <= i < j < |route|
      ensures route[j].twClose.At? ==> route[i].twClose.At? && route[i].twClose.t <= route[j].twClose.t
      ensures route[i].twClose == route[j].twClose ==> route[i].twOpen <= route[j].twOpen
    {
      assert DueFirst(route[i], route[j]);
    }
  }
}
