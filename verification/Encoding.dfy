/** The random-key encoding: a key vector is sorted into a giant tour, the tour is split, and the
    segments become routes. Rank keys written from routes decode to a plan that is no worse. */
module Encoding {
  import opened Base
  import opened Problem
  import opened Sorting
  import opened Split

  /** A float as the caller may pass it. */
  datatype Key = Number(r: real) | NotFinite

  datatype KeyError = WrongCount | NonFiniteKey

  datatype Decoded = Decoded(routes: seq<Route>, cost: real, feasible: bool)

  ghost predicate GoodKeys(spec: Spec, keys: seq<Key>) {
    |keys| == |spec.stops| && forall i :: 0 <= i < |keys| ==> keys[i].Number?
  }

  ghost function Numbers(keys: seq<Key>): (arr: seq<real>)
    requires forall i :: 0 <= i < |keys| ==> keys[i].Number?
    ensures |arr| == |keys| && forall i :: 0 <= i < |keys| ==> arr[i] == keys[i].r
  {
    seq(|keys|, i requires 0 <= i < |keys| => keys[i].r)
  }

  method ValidateKeys(spec: Spec, keys: seq<Key>) returns (r: Result<seq<real>, KeyError>)
    ensures r.Success? <==> GoodKeys(spec, keys)
    ensures r.Success? ==> r.value == Numbers(keys)
    ensures r.Failure? ==> r.error == if |keys| != |spec.stops| then WrongCount else NonFiniteKey
  {
    if |keys| != |spec.stops| {
      return Failure(WrongCount);
    }
    var arr := [];
    for i := 0 to |keys|
      invariant |arr| == i && forall j :: 0 <= j < i ==> keys[j].Number? && arr[j] == keys[j].r
    {
      if keys[i].NotFinite? {
        return Failure(NonFiniteKey);
      }
      arr := arr + [keys[i].r];
    }
    assert arr == Numbers(keys);
    r := Success(arr);
  }

  /** The stop ordering implied by the keys, stable on ties. */
  function GiantTour(spec: Spec, keys: seq<real>): (order: seq<Stop>)
    requires |keys| == |spec.stops|
    ensures FromSpec(spec, order) && |order| == |spec.stops|
  {
    StopsAt(spec, Argsort(keys))
  }

  /** Every key vector orders every stop exactly once. */
  lemma GiantTourCoversStops(spec: Spec, keys: seq<real>)
    requires |keys| == |spec.stops|
    ensures multiset(GiantTour(spec, keys)) == multiset(spec.stops)
  {
    PermutationKeepsElements(spec.stops, Argsort(keys));
    assert GiantTour(spec, keys) == Gather(spec.stops, Argsort(keys));
  }

  // ---------- the cost of a decode ----------

  /** What the decoder charges vehicle v: nothing if it stays idle. */
  function ChargedCost(spec: Spec, mx: Matrix, v: nat, route: seq<Stop>): real
    requires v < |spec.vehicles|
  {
    if route == [] then 0.0 else DrivenCost(mx, spec.objective, spec.vehicles[v], route)
  }

  /** The cost of a plan under the objective: a sum, or for makespan the dearest route. */
  function PlanCost(spec: Spec, mx: Matrix, plan: seq<seq<Stop>>): real
    requires |plan| <= |spec.vehicles|
  {
    if plan == [] then 0.0
    else
      var v := |plan| - 1;
      var last := ChargedCost(spec, mx, v, plan[v]);
      if v == 0 then last else Combine(spec.objective, PlanCost(spec, mx, plan[..v]), last)
  }

  method RouteCost(spec: Spec, mx: Matrix, v: nat, route: seq<Stop>) returns (total: real)
    requires v < |spec.vehicles|
    ensures total == ChargedCost(spec, mx, v, route)
  {
    if route == [] {
      return 0.0;
    }
    hide Load;
    hide Leaves;
    hide Lateness;
    var veh, leg := spec.vehicles[v], mx.LegCost(spec.objective);
    var prev := veh.startNode;
    total := 0.0;
    for i := 0 to |route|
      invariant total == PathCost(leg, [veh.startNode] + NodesOf(route[..i]))
      invariant prev == LastNode(veh, route[..i])
    {
      assert route[..i + 1] == route[..i] + [route[i]];
      RouteSnoc(false, mx, leg, veh, route[..i], route[i]);
      total := total + leg(prev, route[i].node);
      prev := route[i].node;
    }
    assert route[..|route|] == route;
    RouteClose(leg, veh, route);
    total := total + leg(prev, veh.endNode);
  }

  lemma {:induction false} PlanCostSnoc(spec: Spec, mx: Matrix, plan: seq<seq<Stop>>, v: nat)
    requires v < |plan| <= |spec.vehicles|
    ensures PlanCost(spec, mx, plan[..v + 1])
         == if v == 0 then ChargedCost(spec, mx, v, plan[v])
            else Combine(spec.objective, PlanCost(spec, mx, plan[..v]), ChargedCost(spec, mx, v, plan[v]))
  {
    assert plan[..v + 1][..v] == plan[..v];
  }

  lemma ChargedCostNonNegative(spec: Spec, mx: Matrix, v: nat, route: seq<Stop>)
    requires mx.NonNegative() && v < |spec.vehicles|
    ensures ChargedCost(spec, mx, v, route) >= 0.0
  {
    PathCostNonNegative(mx.LegCost(spec.objective), RouteNodes(spec.vehicles[v], route));
  }

  /** `sum(route_costs)`, or `max(route_costs, default=0.0)`. */
  method TotalCost(spec: Spec, mx: Matrix, plan: seq<seq<Stop>>) returns (total: real)
    requires |plan| == |spec.vehicles|
    ensures total == PlanCost(spec, mx, plan)
  {
    total := 0.0;
    for v := 0 to |plan|
      invariant total == PlanCost(spec, mx, plan[..v])
    {
      PlanCostSnoc(spec, mx, plan, v);
      assert v == 0 ==> total == 0.0;
      var cost := RouteCost(spec, mx, v, plan[v]);
      if !spec.objective.MinMakespan? {
        total := total + cost;
      } else if v == 0 || cost > total {
        total := cost;
      }
    }
    assert plan[..|plan|] == plan;
  }

  /** The split's own valuation of a plan is its cost plus, at most, the charges for lateness. */
  lemma {:induction false} ScoreIsCostPlusLateness(t: Tour, plan: seq<seq<Stop>>)
    requires t.mx.NonNegative() && |plan| <= t.K()
    ensures PlanCost(t.spec, t.mx, plan) <= PlanScore(t, plan)
    ensures !t.spec.enforceTw ==> PlanCost(t.spec, t.mx, plan) == PlanScore(t, plan)
    ensures PlanCost(t.spec, t.mx, plan) >= 0.0
  {
    if plan != [] {
      var v := |plan| - 1;
      ScoreIsCostPlusLateness(t, plan[..v]);
      ChargedCostNonNegative(t.spec, t.mx, v, plan[v]);
      LatenessNonNegative(true, t.mx, t.spec.vehicles[v], plan[v]);
    }
  }

  // ---------- decoding ----------

  lemma TourValid(spec: Spec, mx: Matrix, keys: seq<real>)
    requires spec.Valid() && |keys| == |spec.stops|
    ensures Tour(spec, mx, GiantTour(spec, keys)).Valid()
  {
  }

  /** d is a decode of the keys, and plan is the split behind it. */
  ghost predicate IsDecode(spec: Spec, mx: Matrix, keys: seq<real>, plan: seq<seq<Stop>>, d: Decoded)
    requires spec.Valid() && |keys| == |spec.stops|
  {
    TourValid(spec, mx, keys);
    var t := Tour(spec, mx, GiantTour(spec, keys));
    && |plan| == |d.routes| == |spec.vehicles|
    && plan == SplitOf(t)
    && Flatten(plan) == t.order
    && (forall v :: 0 <= v < |plan| ==> d.routes[v] == Route(spec.vehicles[v].id, IdsOf(plan[v])))
    && d.cost == PlanCost(spec, mx, plan)
    && (d.feasible <==> PlanFits(t, plan))
    && (d.feasible <==> Splittable(t))
    && (d.feasible ==> Optimal(t, plan))
    && (!d.feasible ==> IsGreedy(t, plan))
  }

  method DecodeDetailed(spec: Spec, mx: Matrix, keys: seq<Key>)
    returns (r: Result<Decoded, KeyError>, ghost plan: seq<seq<Stop>>)
    requires spec.Valid()
    ensures r.Success? <==> GoodKeys(spec, keys)
    ensures r.Failure? ==> r.error == if |keys| != |spec.stops| then WrongCount else NonFiniteKey
    ensures r.Success? ==> IsDecode(spec, mx, Numbers(keys), plan, r.value)
  {
    hide SplitOf;
    hide Splittable;
    hide Optimal;
    hide IsGreedy;
    hide PlanFits;
    hide PlanCost;
    plan := [];
    var arr := ValidateKeys(spec, keys);
    if arr.Failure? {
      return Failure(arr.error), plan;
    }
    var t := Tour(spec, mx, GiantTour(spec, arr.value));
    TourValid(spec, mx, arr.value);
    var segments, feasible := Split.Split(t);
    plan := segments;
    var routes := seq(|segments|, v requires 0 <= v < |segments| => Route(spec.vehicles[v].id, IdsOf(segments[v])));
    var total := TotalCost(spec, mx, segments);
    r := Success(Decoded(routes, total, feasible));
  }

  /** Every key vector has a decode ... */
  lemma DecodeExists(spec: Spec, mx: Matrix, keys: seq<real>) returns (plan: seq<seq<Stop>>, d: Decoded)
    requires spec.Valid() && |keys| == |spec.stops|
    ensures IsDecode(spec, mx, keys, plan, d)
  {
    hide Splittable;
    hide Optimal;
    hide IsGreedy;
    hide PlanFits;
    hide PlanCost;
    TourValid(spec, mx, keys);
    var t := Tour(spec, mx, GiantTour(spec, keys));
    plan := SplitOf(t);
    d := Decoded(RoutesOf(spec, plan), PlanCost(spec, mx, plan), Splittable(t));
  }

  /** ... and only one: ties between equally good cuts are always broken the same way. */
  lemma DecodeUnique(spec: Spec, mx: Matrix, keys: seq<real>, plan: seq<seq<Stop>>, d: Decoded,
                     plan': seq<seq<Stop>>, d': Decoded)
    requires spec.Valid() && |keys| == |spec.stops|
    requires IsDecode(spec, mx, keys, plan, d) && IsDecode(spec, mx, keys, plan', d')
    ensures plan == plan' && d == d'
  {
    assert d.routes == d'.routes;
  }

  /** The flag of a decode is true exactly when every produced route is within its capacity; the
      fallback therefore always overloads some vehicle, because no ordering-respecting cut fits. */
  lemma DecodeFlagMeansCapacity(spec: Spec, mx: Matrix, keys: seq<real>, plan: seq<seq<Stop>>, d: Decoded)
    requires spec.Valid() && |keys| == |spec.stops| && IsDecode(spec, mx, keys, plan, d)
    ensures d.feasible <==> forall v :: 0 <= v < |d.routes| ==>
      Fits(spec.vehicles[v], KnownStops(spec, d.routes[v].stopIds))
    ensures !d.feasible ==>
      (forall other :: IsCut(Tour(spec, mx, GiantTour(spec, keys)), other, |spec.vehicles|, |spec.stops|) ==>
        exists v :: 0 <= v < |other| && !Fits(spec.vehicles[v], other[v]))
  {
    PlanFromSpec(spec, keys, plan);
    forall v | 0 <= v < |plan| ensures KnownStops(spec, d.routes[v].stopIds) == plan[v] {
      KnownIds(spec, plan[v]);
    }
    var t := Tour(spec, mx, GiantTour(spec, keys));
    forall other | !d.feasible && IsCut(t, other, t.K(), t.N())
      ensures exists v :: 0 <= v < |other| && !Fits(spec.vehicles[v], other[v])
    {
      assert !PlanFits(t, other);
    }
  }

  lemma {:induction false} SegmentsFromSpec(spec: Spec, plan: seq<seq<Stop>>)
    requires FromSpec(spec, Flatten(plan))
    ensures forall v :: 0 <= v < |plan| ==> FromSpec(spec, plan[v])
  {
    if plan != [] {
      var front, last := Flatten(plan[..|plan| - 1]), plan[|plan| - 1];
      assert Flatten(plan) == front + last;
      forall i | 0 <= i < |front| ensures front[i] in spec.stops {
        assert front[i] == Flatten(plan)[i];
      }
      forall i | 0 <= i < |last| ensures last[i] in spec.stops {
        assert last[i] == Flatten(plan)[|front| + i];
      }
      SegmentsFromSpec(spec, plan[..|plan| - 1]);
    }
  }

  lemma PlanFromSpec(spec: Spec, keys: seq<real>, plan: seq<seq<Stop>>)
    requires |keys| == |spec.stops| && Flatten(plan) == GiantTour(spec, keys)
    ensures forall v :: 0 <= v < |plan| ==> FromSpec(spec, plan[v])
  {
    SegmentsFromSpec(spec, plan);
  }

  // ---------- keys written from routes ----------

  lemma PositionsNext(spec: Spec, before: seq<string>, ids: seq<string>, i: nat)
    requires i < |ids|
    ensures match FindStop(spec.stops, ids[i])
      case None => Positions(spec, before + ids[..i + 1]) == Positions(spec, before + ids[..i])
      case Some(p) => Positions(spec, before + ids[..i + 1]) == Positions(spec, before + ids[..i]) + [p]
  {
    assert (before + ids[..i + 1])[..|before| + i] == before + ids[..i];
  }

  lemma RankKeysNext(n: nat, visits: seq<nat>, p: nat)
    requires n > 0 && p < n && forall i :: 0 <= i < |visits| ==> visits[i] < n
    ensures RankKeys(n, visits + [p]) == RankKeys(n, visits)[p := RankKey(|visits|, n)]
  {
    assert (visits + [p])[..|visits|] == visits;
  }

  /** Writes the ranks of one route's known stops. */
  method WriteRanks(spec: Spec, vec: array<real>, ids: seq<string>, rank: nat, ghost before: seq<string>)
    returns (rank': nat)
    requires spec.Valid() && rank == |Positions(spec, before)|
    requires vec[..] == RankKeys(|spec.stops|, Positions(spec, before))
    modifies vec
    ensures rank' == |Positions(spec, before + ids)|
    ensures vec[..] == RankKeys(|spec.stops|, Positions(spec, before + ids))
  {
    hide RankKeys;
    hide Positions;
    rank' := rank;
    assert before + ids[..0] == before;
    for i := 0 to |ids|
      invariant rank' == |Positions(spec, before + ids[..i])|
      invariant vec[..] == RankKeys(|spec.stops|, Positions(spec, before + ids[..i]))
    {
      PositionsNext(spec, before, ids, i);
      var at := FindStop(spec.stops, ids[i]);
      if at.Some? {
        RankKeysNext(|spec.stops|, Positions(spec, before + ids[..i]), at.value);
        ghost var keys := vec[..];
        vec[at.value] := RankKey(rank', |spec.stops|);
        assert vec[..] == keys[at.value := RankKey(rank', |spec.stops|)];
        rank' := rank' + 1;
      }
    }
    assert ids[..|ids|] == ids;
  }

  /** `_reconstruct_vector`: walk the routes in order and write the rank of each known stop. */
  method ReconstructVector(routes: seq<Route>, spec: Spec) returns (vec: array<real>)
    requires spec.Valid()
    ensures fresh(vec) && vec[..] == RankKeys(|spec.stops|, Positions(spec, AllIds(routes)))
  {
    vec := new real[|spec.stops|](_ => 0.5);
    var rank := 0;
    assert vec[..] == RankKeys(|spec.stops|, Positions(spec, AllIds(routes[..0])));
    hide RankKeys;
    hide Positions;
    for r := 0 to |routes|
      invariant rank == |Positions(spec, AllIds(routes[..r]))|
      invariant vec[..] == RankKeys(|spec.stops|, Positions(spec, AllIds(routes[..r])))
    {
      assert routes[..r + 1][..r] == routes[..r];
      rank := WriteRanks(spec, vec, routes[r].stopIds, rank, AllIds(routes[..r]));
    }
    assert routes[..|routes|] == routes;
  }

  /** The routes of a plan, one per vehicle in vehicle order. */
  ghost function RoutesOf(spec: Spec, plan: seq<seq<Stop>>): seq<Route>
    requires |plan| <= |spec.vehicles|
  {
    seq(|plan|, v requires 0 <= v < |plan| => Route(spec.vehicles[v].id, IdsOf(plan[v])))
  }

  lemma {:induction false} RoutesOfIds(spec: Spec, plan: seq<seq<Stop>>)
    requires |plan| <= |spec.vehicles|
    ensures AllIds(RoutesOf(spec, plan)) == IdsOf(Flatten(plan))
  {
    if plan != [] {
      RoutesOfIds(spec, plan[..|plan| - 1]);
      assert RoutesOf(spec, plan)[..|plan| - 1] == RoutesOf(spec, plan[..|plan| - 1]);
    }
  }

  /** A list naming each stop of the instance once is a permutation of the stop positions. */
  lemma CoverIsPermutation(spec: Spec, order: seq<Stop>)
    requires spec.Valid() && multiset(order) == multiset(spec.stops)
    ensures FromSpec(spec, order)
    ensures IsPermutation(Positions(spec, IdsOf(order)), |spec.stops|)
  {
    forall i | 0 <= i < |order| ensures order[i] in spec.stops {
      assert order[i] in multiset(spec.stops);
    }
    KnownIds(spec, order);
    assert |order| == |multiset(order)| == |spec.stops|;
    var ps := Positions(spec, IdsOf(order));
    assert StopsAt(spec, ps) == order;
    forall i, j | 0 <= i < j < |ps| ensures ps[i] != ps[j] {
      SplitCount(order, i, j);
      assert order[j] in spec.stops;
      DistinctOnce(spec.stops, order[j]);
    }
  }

  /** Re-reading the rank keys of a complete plan gives the concatenation of its routes. */
  lemma ReconstructedTour(spec: Spec, plan: seq<seq<Stop>>, keys: seq<real>)
    requires spec.Valid() && |plan| == |spec.vehicles|
    requires multiset(Flatten(plan)) == multiset(spec.stops)
    requires keys == RankKeys(|spec.stops|, Positions(spec, AllIds(RoutesOf(spec, plan))))
    ensures GiantTour(spec, keys) == Flatten(plan)
  {
    RoutesOfIds(spec, plan);
    var order := Flatten(plan);
    CoverIsPermutation(spec, order);
    KnownIds(spec, order);
    RankKeysRoundTrip(|spec.stops|, Positions(spec, IdsOf(order)));
  }

  /** Re-decoding never loses: the rank keys of routes that cover every stop once, are listed in
      vehicle order and fit, decode to a feasible plan that the split values no higher. Without time
      windows that value is the cost; with them the lateness charge has to be counted too. */
  lemma RedecodingNeverLoses(spec: Spec, mx: Matrix, plan: seq<seq<Stop>>, keys: seq<real>,
                             again: seq<seq<Stop>>, d: Decoded)
    requires spec.Valid() && mx.NonNegative() && |plan| == |spec.vehicles|
    requires multiset(Flatten(plan)) == multiset(spec.stops)
    requires forall v :: 0 <= v < |plan| ==> Fits(spec.vehicles[v], plan[v])
    requires keys == RankKeys(|spec.stops|, Positions(spec, AllIds(RoutesOf(spec, plan))))
    requires IsDecode(spec, mx, keys, again, d)
    ensures d.feasible
    ensures PlanScore(Tour(spec, mx, Flatten(plan)), again) <= PlanScore(Tour(spec, mx, Flatten(plan)), plan)
    ensures !spec.enforceTw ==> d.cost <= PlanCost(spec, mx, plan)
  {
    ReconstructedTour(spec, plan, keys);
    var t := Tour(spec, mx, Flatten(plan));
    TourValid(spec, mx, keys);
    FittingCutSplits(t, plan);
    assert t.order[..t.N()] == t.order;
    assert IsCut(t, plan, t.K(), t.N());
    ScoreIsCostPlusLateness(t, plan);
    ScoreIsCostPlusLateness(t, again);
  }
}
