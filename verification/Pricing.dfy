/** What fitness figures mean: the base cost is driving or the longest route, the penalty prices the three kinds of
    excess, each at its own weight, and both are sums over the vehicles. */
module Pricing {
  import opened Base
  import opened Problem
  import opened Split
  import opened Encoding
  import opened Validator
  import opened Evaluate
  import opened Feasibility

  // ---------- totals over the vehicles of a plan ----------

  /** The legs of all vehicles, idle ones included. */
  function Driven(f: (int, int) -> real, spec: Spec, plan: seq<seq<Stop>>): real
    requires |plan| <= |spec.vehicles|
  {
    if plan == [] then 0.0
    else
      var v := |plan| - 1;
      Driven(f, spec, plan[..v]) + PathCost(f, RouteNodes(spec.vehicles[v], plan[v]))
  }

  /** The demand beyond the capacities. */
  function Overloads(spec: Spec, plan: seq<seq<Stop>>): real
    requires |plan| <= |spec.vehicles|
  {
    if plan == [] then 0.0
    else
      var v := |plan| - 1;
      Overloads(spec, plan[..v]) + Beyond(Load(plan[v]), spec.vehicles[v].capacity)
  }

  /** The seconds by which stops are reached too late. */
  function Delays(spec: Spec, mx: Matrix, plan: seq<seq<Stop>>): real
    requires |plan| <= |spec.vehicles|
  {
    if plan == [] || !spec.enforceTw then 0.0
    else
      var v := |plan| - 1;
      Delays(spec, mx, plan[..v]) + Lateness(true, mx, spec.vehicles[v], plan[v])
  }

  /** The seconds by which the two duration limits are missed. */
  function Overtime(spec: Spec, mx: Matrix, plan: seq<seq<Stop>>): real
    requires |plan| <= |spec.vehicles|
  {
    if plan == [] then 0.0
    else
      var v := |plan| - 1;
      var veh, back := spec.vehicles[v], Returns(spec.enforceTw, mx, spec.vehicles[v], plan[v]);
      Overtime(spec, mx, plan[..v])
      + (if spec.maxRoute.Some? then Beyond(back, veh.shiftStart + spec.maxRoute.value) else 0.0)
      + (if veh.shiftEnd.At? then Beyond(back, veh.shiftEnd.t) else 0.0)
  }

  /** The measured totals of a plan are these sums. */
  lemma {:induction false} TotalsAddUp(spec: Spec, mx: Matrix, plan: seq<seq<Stop>>)
    requires |plan| <= |spec.vehicles|
    ensures var total := Summed(MeasuredPlan(spec, mx, plan));
      && total.travel == Driven(mx.time, spec, plan) && total.dist == Driven(mx.dist, spec, plan)
      && total.overflow == Overloads(spec, plan)
      && total.lateness == Delays(spec, mx, plan)
      && total.overrun == Overtime(spec, mx, plan)
  {
    hide Lateness;
    hide PathCost;
    hide Load;
    if plan != [] {
      var v := |plan| - 1;
      TotalsAddUp(spec, mx, plan[..v]);
      assert MeasuredPlan(spec, mx, plan)[..v] == MeasuredPlan(spec, mx, plan[..v]);
      MeasuredExcess(spec, mx, spec.vehicles[v], plan[v]);
    }
  }

  /** How long the route of vehicle v takes, from the start of its shift until it is back. */
  function Duration(spec: Spec, mx: Matrix, plan: seq<seq<Stop>>, v: nat): real
    requires v < |plan| <= |spec.vehicles|
  {
    Returns(spec.enforceTw, mx, spec.vehicles[v], plan[v]) - spec.vehicles[v].shiftStart
  }

  /** Some route takes that long, and none takes longer. */
  ghost predicate IsLongest(spec: Spec, mx: Matrix, plan: seq<seq<Stop>>, x: real)
    requires |plan| <= |spec.vehicles|
  {
    && (forall v :: 0 <= v < |plan| ==> Duration(spec, mx, plan, v) <= x)
    && exists v: nat :: v < |plan| && Duration(spec, mx, plan, v) == x
  }

  lemma {:induction false} MakespanIsLongest(spec: Spec, mx: Matrix, plan: seq<seq<Stop>>)
    requires 0 < |plan| <= |spec.vehicles|
    ensures IsLongest(spec, mx, plan, Summed(MeasuredPlan(spec, mx, plan)).makespan)
  {
    hide Lateness;
    hide PathCost;
    hide Load;
    hide Returns;
    var v, ms := |plan| - 1, MeasuredPlan(spec, mx, plan);
    assert ms[v].duration == Duration(spec, mx, plan, v);
    if v > 0 {
      var front := plan[..v];
      MakespanIsLongest(spec, mx, front);
      assert ms[..v] == MeasuredPlan(spec, mx, front);
      forall u | 0 <= u < v ensures Duration(spec, mx, plan, u) == Duration(spec, mx, front, u) {
      }
      var x := Summed(ms[..v]).makespan;
      var u: nat :| u < |front| && Duration(spec, mx, front, u) == x;
      assert Duration(spec, mx, plan, u) == x;
    }
  }

  // ---------- the figures of an evaluation ----------

  /** The cost of a plan under the objective: all driving time, all driving distance, or the longest route. */
  ghost predicate Costs(ev: Evaluator, plan: seq<seq<Stop>>, cost: real)
    requires |plan| == |ev.spec.vehicles|
  {
    match ev.spec.objective
    case MinTravelTime => cost == Driven(ev.mx.time, ev.spec, plan)
    case MinDistance => cost == Driven(ev.mx.dist, ev.spec, plan)
    case MinMakespan => IsLongest(ev.spec, ev.mx, plan, cost)
  }

  lemma EvaluationShape(ev: Evaluator, keys: seq<real>, scale: real, f: FitnessResult, plan: seq<seq<Stop>>, o: Origin)
    requires ev.Valid() && |keys| == |ev.spec.stops| && IsEvaluation(ev, keys, scale, f, plan, o)
    ensures |plan| == |ev.spec.vehicles| && IsComplete(ev.spec, plan)
    ensures f.routes == RoutesOf(ev.spec, plan) && IsMeasurement(ev.spec, ev.mx, f.routes, f.metrics)
    ensures f.metrics.routes == MeasuredPlan(ev.spec, ev.mx, plan)
    ensures f.penalty == SoftPenalty(ev.weights.Ramped(scale), f.metrics.total)
    ensures f.fitness == f.baseCost + f.penalty && f.feasible == f.metrics.IsFeasible()
  {
    hide IsMeasurement;
    hide StandsFor;
    hide SoftPenalty;
    CompletePlanBreaches(ev.spec, ev.mx, plan, f.metrics);
    NothingStructural(ev.weights);
  }

  lemma NothingStructural(w: PenaltyWeights)
    ensures w.unassigned * 0.0 == 0.0
  {
  }

  /** The base cost of every evaluation is the cost of its plan. */
  lemma BaseCostMeans(ev: Evaluator, keys: seq<real>, scale: real, f: FitnessResult, plan: seq<seq<Stop>>, o: Origin)
    requires ev.Valid() && |keys| == |ev.spec.stops| && IsEvaluation(ev, keys, scale, f, plan, o)
    ensures |plan| == |ev.spec.vehicles|
    ensures Costs(ev, plan, f.baseCost)
  {
    hide IsComplete;
    hide IsMeasurement;
    hide StandsFor;
    CompleteCount(ev.spec, plan);
    CompletePlanBreaches(ev.spec, ev.mx, plan, f.metrics);
    TotalIsSummed(ev.spec, ev.mx, f.routes, f.metrics);
    TotalsAddUp(ev.spec, ev.mx, plan);
    MakespanIsLongest(ev.spec, ev.mx, plan);
  }

  /** The price of every evaluation: the base cost plus, at the scale asked for, each kind of excess at its own
      weight. */
  lemma PriceMeans(ev: Evaluator, keys: seq<real>, scale: real, f: FitnessResult, plan: seq<seq<Stop>>, o: Origin)
    requires ev.Valid() && |keys| == |ev.spec.stops| && IsEvaluation(ev, keys, scale, f, plan, o)
    ensures |plan| == |ev.spec.vehicles|
    ensures f.fitness == f.baseCost + f.penalty
    ensures f.penalty == scale * Priced(ev.weights, Overloads(ev.spec, plan), Delays(ev.spec, ev.mx, plan),
                                        Overtime(ev.spec, ev.mx, plan))
  {
    hide *;
    EvaluationShape(ev, keys, scale, f, plan, o);
    TotalIsSummed(ev.spec, ev.mx, f.routes, f.metrics);
    TotalsAddUp(ev.spec, ev.mx, plan);
    RampedExcess(ev.weights, scale, f.metrics.total);
  }

  /** It is feasible exactly when every vehicle is within its limits. */
  lemma FeasibleMeans(ev: Evaluator, keys: seq<real>, scale: real, f: FitnessResult, plan: seq<seq<Stop>>, o: Origin)
    requires ev.Valid() && |keys| == |ev.spec.stops| && IsEvaluation(ev, keys, scale, f, plan, o)
    ensures |plan| == |ev.spec.vehicles|
    ensures f.feasible <==>
      forall v :: 0 <= v < |plan| ==> WithinLimits(ev.spec, ev.mx, ev.spec.vehicles[v], plan[v])
  {
    hide IsEvaluation;
    hide WithinLimits;
    EvaluationShape(ev, keys, scale, f, plan, o);
    CompletePlanFeasible(ev.spec, ev.mx, plan, f.metrics);
  }

  /** The three kinds of excess, priced. */
  function Priced(w: PenaltyWeights, demand: real, late: real, long: real): real {
    w.capacity * demand + w.timeWindow * late + w.duration * long
  }

  lemma RampedExcess(w: PenaltyWeights, scale: real, x: Totals)
    ensures SoftPenalty(w.Ramped(scale), x) == scale * Priced(w, x.overflow, x.lateness, x.overrun)
  {
    Distribute(scale, w.capacity, x.overflow, w.timeWindow, x.lateness, w.duration, x.overrun);
  }

  lemma Distribute(scale: real, a: real, x: real, b: real, y: real, c: real, z: real)
    ensures (a * scale) * x + (b * scale) * y + (c * scale) * z == scale * (a * x + b * y + c * z)
  {
    Scaled(scale, a, x);
    Scaled(scale, b, y);
    Scaled(scale, c, z);
    assert scale * (a * x + b * y + c * z) == scale * (a * x) + scale * (b * y) + scale * (c * z);
  }

  lemma Scaled(scale: real, a: real, x: real)
    ensures (a * scale) * x == scale * (a * x)
  {
  }

  /** Without repair the split and the evaluation agree: for the sum objectives the base cost plus 100 per second
      of lateness is the value of the split plus the legs of idle vehicles. */
  lemma SplitIsPriced(ev: Evaluator, keys: seq<real>, scale: real, f: FitnessResult, plan: seq<seq<Stop>>, o: Origin)
    requires ev.Valid() && |keys| == |ev.spec.stops| && IsEvaluation(ev, keys, scale, f, plan, o)
    requires !ev.useRepair && !ev.spec.objective.MinMakespan?
    ensures |plan| == |ev.spec.vehicles|
    ensures var t := Tour(ev.spec, ev.mx, GiantTour(ev.spec, keys));
      && t.Valid() && plan == SplitOf(t)
      && f.baseCost + 100.0 * f.metrics.total.lateness == PlanScore(t, plan) + IdleLegs(ev.spec, ev.mx, plan)
  {
    hide IsComplete;
    hide IsMeasurement;
    hide SplitOf;
    hide Splittable;
    hide Optimal;
    hide IsGreedy;
    CompleteCount(ev.spec, plan);
    CompletePlanBreaches(ev.spec, ev.mx, plan, f.metrics);
    TotalIsSummed(ev.spec, ev.mx, f.routes, f.metrics);
    TourValid(ev.spec, ev.mx, keys);
    PlanScoreIsMeasured(Tour(ev.spec, ev.mx, GiantTour(ev.spec, keys)), plan);
  }

  /** One more stop that is missing, or visited twice, costs the structural weight in full, at every scale. */
  lemma StructuralErrorCosts(objective: Objective, w: PenaltyWeights, vector: seq<real>, routes: seq<Route>,
                             m: SolutionMetrics, scale: real, id: string)
    ensures var missing, twice := m.(unassigned := m.unassigned + [id]), m.(duplicates := m.duplicates + [id]);
      var cost := FitnessOf(objective, w, vector, routes, m, scale).fitness + w.unassigned;
      && FitnessOf(objective, w, vector, routes, missing, scale).fitness == cost
      && FitnessOf(objective, w, vector, routes, twice, scale).fitness == cost
  {
    hide SoftPenalty;
    hide BaseCost;
    var k := (|m.unassigned| + |m.duplicates|) as real;
    assert w.unassigned * (k + 1.0) == w.unassigned * k + w.unassigned;
  }

  // ---------- the figures of a decode ----------

  /** The legs of the vehicles that serve somebody. */
  function Served(f: (int, int) -> real, spec: Spec, plan: seq<seq<Stop>>): real
    requires |plan| <= |spec.vehicles|
  {
    if plan == [] then 0.0
    else
      var v := |plan| - 1;
      Served(f, spec, plan[..v]) + if plan[v] == [] then 0.0 else PathCost(f, RouteNodes(spec.vehicles[v], plan[v]))
  }

  /** The driving time of vehicle v, nothing if it stays idle. */
  function DriveOf(spec: Spec, mx: Matrix, plan: seq<seq<Stop>>, v: nat): real
    requires v < |plan| <= |spec.vehicles|
  {
    if plan[v] == [] then 0.0 else PathCost(mx.time, RouteNodes(spec.vehicles[v], plan[v]))
  }

  ghost predicate IsLongestDrive(spec: Spec, mx: Matrix, plan: seq<seq<Stop>>, x: real)
    requires |plan| <= |spec.vehicles|
  {
    && (forall v :: 0 <= v < |plan| ==> DriveOf(spec, mx, plan, v) <= x)
    && exists v: nat :: v < |plan| && DriveOf(spec, mx, plan, v) == x
  }

  /** What a decoded plan costs: the driving of all vehicles that serve somebody, or the longest of their drives. */
  lemma {:induction false} DecodedCostMeans(spec: Spec, mx: Matrix, plan: seq<seq<Stop>>)
    requires 0 < |plan| <= |spec.vehicles|
    ensures match spec.objective
      case MinTravelTime => PlanCost(spec, mx, plan) == Served(mx.time, spec, plan)
      case MinDistance => PlanCost(spec, mx, plan) == Served(mx.dist, spec, plan)
      case MinMakespan => IsLongestDrive(spec, mx, plan, PlanCost(spec, mx, plan))
  {
    hide PathCost;
    var v := |plan| - 1;
    var front := plan[..v];
    if v == 0 {
      assert front == [];
      assert DriveOf(spec, mx, plan, v) == ChargedCost(spec, mx, v, plan[v]) || !spec.objective.MinMakespan?;
    } else {
      DecodedCostMeans(spec, mx, front);
      if spec.objective.MinMakespan? {
        assert DriveOf(spec, mx, plan, v) == ChargedCost(spec, mx, v, plan[v]);
        forall u | 0 <= u < v ensures DriveOf(spec, mx, plan, u) == DriveOf(spec, mx, front, u) {
        }
        var u: nat :| u < |front| && DriveOf(spec, mx, front, u) == PlanCost(spec, mx, front);
        assert DriveOf(spec, mx, plan, u) == PlanCost(spec, mx, front);
      }
    }
  }

  /** What vehicle v contributes to the value of a split: its driving time and 100 per second of lateness. */
  function ValueOf(t: Tour, plan: seq<seq<Stop>>, v: nat): real
    requires v < |plan| <= t.K()
  {
    PathCost(t.mx.time, RouteNodes(t.spec.vehicles[v], plan[v]))
    + if t.spec.enforceTw then 100.0 * Lateness(true, t.mx, t.spec.vehicles[v], plan[v]) else 0.0
  }

  /** Under the makespan objective the value of a split is the greatest contribution of a vehicle that serves
      somebody, and never below 0. */
  ghost predicate IsGreatestValue(t: Tour, plan: seq<seq<Stop>>, x: real)
    requires |plan| <= t.K()
  {
    && x >= 0.0
    && (forall v :: 0 <= v < |plan| && plan[v] != [] ==> ValueOf(t, plan, v) <= x)
    && (x == 0.0 || exists v: nat :: v < |plan| && plan[v] != [] && ValueOf(t, plan, v) == x)
  }

  lemma {:induction false} MakespanSplitMeans(t: Tour, plan: seq<seq<Stop>>)
    requires t.spec.objective.MinMakespan? && |plan| <= t.K()
    ensures IsGreatestValue(t, plan, PlanScore(t, plan))
  {
    hide PathCost;
    hide Lateness;
    if plan != [] {
      var v := |plan| - 1;
      var front := plan[..v];
      MakespanSplitMeans(t, front);
      forall u | 0 <= u < v ensures front[u] == plan[u] && ValueOf(t, plan, u) == ValueOf(t, front, u) {
      }
      assert plan[v] != [] ==> ValueOf(t, plan, v) == Score(t, v, plan[v]);
      var x := PlanScore(t, front);
      if x != 0.0 {
        var u: nat :| u < |front| && front[u] != [] && ValueOf(t, front, u) == x;
        assert plan[u] != [] && ValueOf(t, plan, u) == x;
      }
    }
  }
}
