/** Fitness: decode, optionally repair, measure, price. */
module Evaluate {
  import opened Base
  import opened Problem
  import opened Sorting
  import opened Split
  import opened Encoding
  import opened Validator
  import opened Repair
  import opened RepairRuns

  datatype PenaltyWeights = PenaltyWeights(capacity: real, timeWindow: real, duration: real, unassigned: real)
  {
    predicate Valid() {
      capacity >= 0.0 && timeWindow >= 0.0 && duration >= 0.0 && unassigned >= 0.0
    }

    predicate Positive() {
      capacity > 0.0 && timeWindow > 0.0 && duration > 0.0 && unassigned > 0.0
    }

    /** Scales the soft terms; the structural one stays. */
    function Ramped(scale: real): PenaltyWeights {
      PenaltyWeights(capacity * scale, timeWindow * scale, duration * scale, unassigned)
    }
  }

  datatype FitnessResult = FitnessResult(vector: seq<real>, fitness: real, baseCost: real, penalty: real,
                                         feasible: bool, routes: seq<Route>, metrics: SolutionMetrics)

  /** What an evaluator is built from. */
  datatype Evaluator = Evaluator(spec: Spec, mx: Matrix, weights: PenaltyWeights, useRepair: bool)
  {
    ghost predicate Valid() {
      spec.Valid() && weights.Valid()
    }
  }

  datatype EvaluateError = BadKeys(error: KeyError) | NegativeScale

  function BaseCost(objective: Objective, total: Totals): real {
    match objective
    case MinTravelTime => total.travel
    case MinDistance => total.dist
    case MinMakespan => total.makespan
  }

  function SoftPenalty(w: PenaltyWeights, total: Totals): real {
    w.capacity * total.overflow + w.timeWindow * total.lateness + w.duration * total.overrun
  }

  /** The fitness of measured routes. */
  function FitnessOf(objective: Objective, w: PenaltyWeights, vector: seq<real>, routes: seq<Route>, m: SolutionMetrics,
                     scale: real): FitnessResult
  {
    var base := BaseCost(objective, m.total);
    var structural := w.unassigned * (|m.unassigned| + |m.duplicates|) as real;
    var penalty := SoftPenalty(w.Ramped(scale), m.total) + structural;
    FitnessResult(vector, base + penalty, base, penalty, m.IsFeasible(), routes, m)
  }

  /** metrics is the validator's answer for the routes. */
  ghost predicate IsMeasurement(spec: Spec, mx: Matrix, routes: seq<Route>, metrics: SolutionMetrics) {
    && metrics.routes == AllMetrics(spec, mx, routes)
    && metrics.total == Summed(metrics.routes)
    && Coverage(spec, routes, metrics.unassigned, metrics.duplicates)
    && metrics.violations == AllBreaches(spec, mx, routes) + Missing(metrics.unassigned)
                             + Repeated(metrics.duplicates, multiset(AllIds(routes)))
  }

  // ---------- measuring a plan that serves every stop once ----------

  /** One route per vehicle that together serve every stop of the instance exactly once. */
  ghost predicate IsComplete(spec: Spec, plan: seq<seq<Stop>>) {
    |plan| == |spec.vehicles| && multiset(Flatten(plan)) == multiset(spec.stops)
  }

  lemma CompleteFromSpec(spec: Spec, plan: seq<seq<Stop>>)
    requires IsComplete(spec, plan)
    ensures forall v :: 0 <= v < |plan| ==> FromSpec(spec, plan[v])
  {
    var order := Flatten(plan);
    forall i | 0 <= i < |order| ensures order[i] in spec.stops {
      assert order[i] in multiset(order);
    }
    SegmentsFromSpec(spec, plan);
  }

  /** Every stop is visited, and none twice. */
  lemma CompleteVisits(spec: Spec, plan: seq<seq<Stop>>)
    requires spec.Valid() && IsComplete(spec, plan)
    ensures var seen := multiset(AllIds(RoutesOf(spec, plan)));
      && (forall i :: 0 <= i < |spec.stops| ==> spec.stops[i].id in seen)
      && (forall id :: seen[id] <= 1)
  {
    var seen := multiset(AllIds(RoutesOf(spec, plan)));
    RoutesOfIds(spec, plan);
    IdsOfPermuted(Flatten(plan), spec.stops);
    assert seen == multiset(IdsOf(spec.stops));
    forall i | 0 <= i < |spec.stops| ensures spec.stops[i].id in seen {
      assert IdsOf(spec.stops)[i] in seen;
    }
    forall id ensures seen[id] <= 1 {
      if id in IdsOf(spec.stops) { DistinctOnce(IdsOf(spec.stops), id); }
    }
  }

  /** Nothing is missing and nothing is served twice. */
  lemma CompleteCoverage(spec: Spec, plan: seq<seq<Stop>>, unassigned: seq<string>, duplicates: seq<string>)
    requires spec.Valid() && IsComplete(spec, plan)
    requires Coverage(spec, RoutesOf(spec, plan), unassigned, duplicates)
    ensures unassigned == [] && duplicates == []
  {
    CompleteVisits(spec, plan);
    forall id ensures id !in unassigned && id !in duplicates {
      assert multiset(AllIds(RoutesOf(spec, plan)))[id] <= 1;
    }
    NoMembers(unassigned);
    NoMembers(duplicates);
  }

  lemma NoMembers(ids: seq<string>)
    requires forall id :: id !in ids
    ensures ids == []
  {
    FirstIn(ids);
  }

  lemma FirstIn<T>(s: seq<T>)
    ensures s != [] ==> s[0] in s
  {
  }

  lemma {:induction false} NoUnknownStops(spec: Spec, idx: int, route: seq<Stop>)
    requires FromSpec(spec, route)
    ensures UnknownStops(spec, idx, IdsOf(route)) == []
  {
    if route != [] {
      var m := |route| - 1;
      NoUnknownStops(spec, idx, route[..m]);
      assert IdsOf(route)[..m] == IdsOf(route[..m]);
      assert route[m] in spec.stops;
    }
  }

  /** The breaches of a plan, vehicle by vehicle. */
  ghost function PlanBreaches(ms: seq<RouteMetrics>): seq<Violation> {
    if ms == [] then [] else PlanBreaches(ms[..|ms| - 1]) + Breaches(ms[|ms| - 1], |ms| - 1)
  }

  lemma {:induction false} FlattenSingletons<T>(lists: seq<seq<T>>, xs: seq<T>)
    requires |lists| == |xs| && forall i :: 0 <= i < |xs| ==> lists[i] == [xs[i]]
    ensures Flatten(lists) == xs
  {
    if xs != [] {
      FlattenSingletons(lists[..|xs| - 1], xs[..|xs| - 1]);
    }
  }

  lemma {:induction false} FlattenBreaches(lists: seq<seq<Violation>>, ms: seq<RouteMetrics>)
    requires |lists| == |ms| && forall i :: 0 <= i < |ms| ==> lists[i] == Breaches(ms[i], i)
    ensures Flatten(lists) == PlanBreaches(ms)
  {
    if ms != [] {
      FlattenBreaches(lists[..|ms| - 1], ms[..|ms| - 1]);
    }
  }

  lemma PlanMeasured(spec: Spec, mx: Matrix, plan: seq<seq<Stop>>)
    requires spec.Valid() && |plan| <= |spec.vehicles|
    requires forall v :: 0 <= v < |plan| ==> FromSpec(spec, plan[v])
    ensures AllMetrics(spec, mx, RoutesOf(spec, plan)) == MeasuredPlan(spec, mx, plan)
    ensures AllBreaches(spec, mx, RoutesOf(spec, plan)) == PlanBreaches(MeasuredPlan(spec, mx, plan))
  {
    var ms, bs := MeasureLists(spec, mx, RoutesOf(spec, plan)), BreachLists(spec, mx, RoutesOf(spec, plan));
    forall v | 0 <= v < |plan|
      ensures ms[v] == [MeasuredPlan(spec, mx, plan)[v]] && bs[v] == Breaches(MeasuredPlan(spec, mx, plan)[v], v)
    {
      RouteOfVehicle(spec, mx, plan[v], v);
    }
    FlattenSingletons(ms, MeasuredPlan(spec, mx, plan));
    FlattenBreaches(bs, MeasuredPlan(spec, mx, plan));
  }

  lemma RouteOfVehicle(spec: Spec, mx: Matrix, route: seq<Stop>, v: nat)
    requires spec.Valid() && v < |spec.vehicles| && FromSpec(spec, route)
    ensures var r := Route(spec.vehicles[v].id, IdsOf(route));
      var m := Measured(spec, mx, spec.vehicles[v], route);
      RouteMeasure(spec, mx, r) == [m] && RouteBreaches(spec, mx, r, v) == Breaches(m, v)
  {
    VehicleAt(spec, v);
    KnownIds(spec, route);
    NoUnknownStops(spec, v, route);
  }

  ghost predicate NonNegativeMetrics(ms: seq<RouteMetrics>) {
    forall i :: 0 <= i < |ms| ==> ms[i].overflow >= 0.0 && ms[i].lateness >= 0.0 && ms[i].overrun >= 0.0
  }

  /** No breach is recorded exactly when the three totals are zero. */
  lemma {:induction false} BreachFreeMeansZeroTotals(ms: seq<RouteMetrics>)
    requires NonNegativeMetrics(ms)
    ensures var t := Summed(ms);
      && BreachesNonNegative(t)
      && (PlanBreaches(ms) == [] <==> t.overflow == 0.0 && t.lateness == 0.0 && t.overrun == 0.0)
  {
    if ms != [] { BreachFreeMeansZeroTotals(ms[..|ms| - 1]); }
  }

  lemma MeasuredPlanNonNegative(spec: Spec, mx: Matrix, plan: seq<seq<Stop>>)
    requires |plan| <= |spec.vehicles|
    ensures NonNegativeMetrics(MeasuredPlan(spec, mx, plan))
  {
    forall v | 0 <= v < |plan|
      ensures var m := Measured(spec, mx, spec.vehicles[v], plan[v]);
        m.overflow >= 0.0 && m.lateness >= 0.0 && m.overrun >= 0.0
    {
      LatenessNonNegative(spec.enforceTw, mx, spec.vehicles[v], plan[v]);
    }
  }

  lemma CompletePlanBreaches(spec: Spec, mx: Matrix, plan: seq<seq<Stop>>, m: SolutionMetrics)
    requires spec.Valid() && IsComplete(spec, plan) && IsMeasurement(spec, mx, RoutesOf(spec, plan), m)
    ensures m.unassigned == [] && m.duplicates == []
    ensures m.routes == MeasuredPlan(spec, mx, plan)
    ensures m.violations == PlanBreaches(m.routes)
  {
    CompleteFromSpec(spec, plan);
    CompleteCoverage(spec, plan, m.unassigned, m.duplicates);
    PlanMeasured(spec, mx, plan);
  }

  /** Measuring a complete plan finds no structural error: only capacities, windows and durations can
      be breached, and none is exactly when the three breach totals are zero. */
  lemma CompletePlanMeasurement(spec: Spec, mx: Matrix, plan: seq<seq<Stop>>, m: SolutionMetrics)
    requires spec.Valid() && IsComplete(spec, plan) && IsMeasurement(spec, mx, RoutesOf(spec, plan), m)
    ensures m.unassigned == [] && m.duplicates == []
    ensures forall i :: 0 <= i < |m.violations| ==> m.violations[i].kind in {Capacity, TimeWindow, Duration}
    ensures BreachesNonNegative(m.total)
    ensures m.IsFeasible() <==> m.total.overflow == 0.0 && m.total.lateness == 0.0 && m.total.overrun == 0.0
  {
    CompletePlanBreaches(spec, mx, plan, m);
    MeasuredPlanNonNegative(spec, mx, plan);
    BreachFreeMeansZeroTotals(m.routes);
    BreachKinds(m.routes);
  }

  /** With nothing missing or repeated the penalty is the soft one, and for positive weights and scale
      it is zero exactly when nothing is breached. */
  lemma SoftPrice(f: FitnessResult, objective: Objective, w: PenaltyWeights, scale: real)
    requires f == FitnessOf(objective, w, f.vector, f.routes, f.metrics, scale)
    requires f.metrics.unassigned == [] && f.metrics.duplicates == [] && BreachesNonNegative(f.metrics.total)
    ensures f.penalty == SoftPenalty(w.Ramped(scale), f.metrics.total)
    ensures var t := f.metrics.total;
      w.Positive() && scale > 0.0 ==>
        (f.penalty == 0.0 <==> t.overflow == 0.0 && t.lateness == 0.0 && t.overrun == 0.0)
  {
    assert w.unassigned * 0.0 == 0.0;
    if w.Positive() && scale > 0.0 {
      PositivePenalty(w, scale, f.metrics.total);
    }
  }

  /** A complete plan therefore pays no structural penalty, and for positive weights and scale it is
      feasible exactly when it pays no penalty at all. */
  lemma CompletePlanPrice(spec: Spec, mx: Matrix, plan: seq<seq<Stop>>, f: FitnessResult, w: PenaltyWeights,
                          scale: real)
    requires spec.Valid() && IsComplete(spec, plan) && IsMeasurement(spec, mx, RoutesOf(spec, plan), f.metrics)
    requires f == FitnessOf(spec.objective, w, f.vector, f.routes, f.metrics, scale)
    ensures f.metrics.unassigned == [] && f.metrics.duplicates == []
    ensures f.penalty == SoftPenalty(w.Ramped(scale), f.metrics.total)
    ensures w.Positive() && scale > 0.0 ==> (f.feasible <==> f.penalty == 0.0)
  {
    CompletePlanMeasurement(spec, mx, plan, f.metrics);
    SoftPrice(f, spec.objective, w, scale);
  }

  ghost predicate BreachesNonNegative(t: Totals) {
    t.overflow >= 0.0 && t.lateness >= 0.0 && t.overrun >= 0.0
  }

  lemma {:induction false} BreachKinds(ms: seq<RouteMetrics>)
    ensures forall i :: 0 <= i < |PlanBreaches(ms)| ==> PlanBreaches(ms)[i].kind in {Capacity, TimeWindow, Duration}
  {
    if ms != [] { BreachKinds(ms[..|ms| - 1]); }
  }

  lemma PositivePenalty(w: PenaltyWeights, scale: real, t: Totals)
    requires w.Positive() && scale > 0.0 && BreachesNonNegative(t)
    ensures SoftPenalty(w.Ramped(scale), t) == 0.0 <==> t.overflow == 0.0 && t.lateness == 0.0 && t.overrun == 0.0
  {
    PositiveProduct(w.capacity * scale, t.overflow);
    PositiveProduct(w.timeWindow * scale, t.lateness);
    PositiveProduct(w.duration * scale, t.overrun);
  }

  lemma PositiveProduct(a: real, b: real)
    requires a > 0.0 && b >= 0.0
    ensures a * b >= 0.0 && (a * b == 0.0 <==> b == 0.0)
  {
  }

  // ---------- evaluating a key vector ----------

  /** The plans a decode and a repair of it produce serve every stop once. */
  lemma DecodeIsComplete(spec: Spec, mx: Matrix, keys: seq<real>, plan: seq<seq<Stop>>, d: Decoded)
    requires spec.Valid() && |keys| == |spec.stops| && IsDecode(spec, mx, keys, plan, d)
    ensures IsComplete(spec, plan) && d.routes == RoutesOf(spec, plan)
  {
    hide SplitOf;
    hide Splittable;
    hide Optimal;
    hide IsGreedy;
    hide PlanFits;
    GiantTourCoversStops(spec, keys);
  }

  lemma RepairIsComplete(spec: Spec, mx: Matrix, plan: seq<seq<Stop>>, out: seq<Route>, h: History)
    requires spec.Valid() && IsComplete(spec, plan) && IsRepair(spec, mx, RoutesOf(spec, plan), out, h)
    ensures IsComplete(spec, Tidied(spec, h.Outcome())) && out == RoutesOf(spec, Tidied(spec, h.Outcome()))
  {
    CompleteFromSpec(spec, plan);
    RoutesOfIds(spec, plan);
    FlatFromSpec(spec, plan);
    KnownIds(spec, Flatten(plan));
    HistoryKeepsStops(spec, mx, RoutesOf(spec, plan), h);
    TidyKeepsStops(spec, h.Outcome());
  }

  lemma RepairHasOutcome(spec: Spec, mx: Matrix, routes: seq<Route>, out: seq<Route>, h: History)
    requires IsRepair(spec, mx, routes, out, h)
    ensures h.placing != []
  {
  }

  lemma FlatFromSpec(spec: Spec, plan: seq<seq<Stop>>)
    requires IsComplete(spec, plan)
    ensures FromSpec(spec, Flatten(plan))
  {
    var order := Flatten(plan);
    forall i | 0 <= i < |order| ensures order[i] in spec.stops {
      assert order[i] in multiset(order);
    }
  }

  /** How a key vector became a plan: the split, its decode, and what the repair did, if there is one. */
  datatype Origin = Origin(split: seq<seq<Stop>>, decoded: Decoded, repaired: seq<Route>, history: History)

  /** plan is what the keys stand for: the split of their giant tour, or the repair of that split. */
  ghost predicate StandsFor(ev: Evaluator, keys: seq<real>, plan: seq<seq<Stop>>, o: Origin)
    requires ev.spec.Valid() && |keys| == |ev.spec.stops| && |plan| == |ev.spec.vehicles|
  {
    && IsDecode(ev.spec, ev.mx, keys, o.split, o.decoded)
    && if ev.useRepair
       then IsRepair(ev.spec, ev.mx, o.decoded.routes, o.repaired, o.history) && RoutesOf(ev.spec, plan) == o.repaired
       else plan == o.split
  }

  /** f is the fitness of the keys: plan is what they stand for, measured and priced. */
  ghost predicate IsEvaluation(ev: Evaluator, keys: seq<real>, scale: real, f: FitnessResult, plan: seq<seq<Stop>>,
                               o: Origin)
    requires ev.spec.Valid() && |keys| == |ev.spec.stops|
  {
    && IsComplete(ev.spec, plan)
    && StandsFor(ev, keys, plan, o)
    && IsMeasurement(ev.spec, ev.mx, f.routes, f.metrics)
    && f == FitnessOf(ev.spec.objective, ev.weights, keys, RoutesOf(ev.spec, plan), f.metrics, scale)
  }

  lemma {:induction false} SortedIdsUnique(a: seq<string>, b: seq<string>)
    requires SortedIds(a) && SortedIds(b) && forall id :: id in a <==> id in b
    ensures a == b
    decreases |a|
  {
    if a == [] || b == [] {
      FirstIn(a);
      FirstIn(b);
    } else {
      assert a[0] in b && b[0] in a;
      StringLessTotal(a[0], b[0]);
      forall id ensures id in a[1..] <==> id in b[1..] {
        SortedTail(a, id);
        SortedTail(b, id);
      }
      SortedIdsUnique(a[1..], b[1..]);
    }
  }

  lemma SortedTail(ids: seq<string>, id: string)
    requires SortedIds(ids) && ids != []
    ensures id in ids[1..] <==> id in ids && id != ids[0]
  {
    StringLessTotal(ids[0], ids[0]);
    assert ids == [ids[0]] + ids[1..];
  }

  /** The same routes always measure the same. */
  lemma MeasurementUnique(spec: Spec, mx: Matrix, routes: seq<Route>, m: SolutionMetrics, m': SolutionMetrics)
    requires IsMeasurement(spec, mx, routes, m) && IsMeasurement(spec, mx, routes, m')
    ensures m == m'
  {
    hide AllMetrics;
    hide AllBreaches;
    hide Summed;
    hide Missing;
    hide Repeated;
    SortedIdsUnique(m.unassigned, m'.unassigned);
    SortedIdsUnique(m.duplicates, m'.duplicates);
  }

  /** The same keys always stand for the same routes. */
  lemma OriginUnique(ev: Evaluator, keys: seq<real>, plan: seq<seq<Stop>>, o: Origin, plan': seq<seq<Stop>>, o': Origin)
    requires ev.spec.Valid() && |keys| == |ev.spec.stops| && |plan| == |plan'| == |ev.spec.vehicles|
    requires StandsFor(ev, keys, plan, o) && StandsFor(ev, keys, plan', o')
    ensures RoutesOf(ev.spec, plan) == RoutesOf(ev.spec, plan')
  {
    hide IsDecode;
    hide IsRepair;
    DecodeUnique(ev.spec, ev.mx, keys, o.split, o.decoded, o'.split, o'.decoded);
    if ev.useRepair {
      RepairUnique(ev.spec, ev.mx, o.decoded.routes, o.repaired, o.history, o'.repaired, o'.history);
    }
  }

  /** Evaluating the same keys at two scales gives the same routes, measurement, base cost and verdict, and
      the fitness values differ by the soft penalty for the difference in scale. */
  lemma ScaleOnlyPenalises(ev: Evaluator, keys: seq<real>, s: real, f: FitnessResult, plan: seq<seq<Stop>>, o: Origin,
                           t: real, g: FitnessResult, plan': seq<seq<Stop>>, o': Origin)
    requires ev.Valid() && |keys| == |ev.spec.stops|
    requires IsEvaluation(ev, keys, s, f, plan, o) && IsEvaluation(ev, keys, t, g, plan', o')
    ensures f.vector == g.vector == keys
    ensures f.routes == g.routes && f.metrics == g.metrics
    ensures f.baseCost == g.baseCost && f.feasible == g.feasible
    ensures f.fitness - g.fitness == (s - t) * SoftPenalty(ev.weights, f.metrics.total)
    ensures s == t ==> f == g
  {
    hide StandsFor;
    hide IsMeasurement;
    hide IsComplete;
    assert |plan| == |plan'| == |ev.spec.vehicles| by { CompleteCount(ev.spec, plan); CompleteCount(ev.spec, plan'); }
    OriginUnique(ev, keys, plan, o, plan', o');
    MeasurementUnique(ev.spec, ev.mx, f.routes, f.metrics, g.metrics);
    RampedLinear(ev.weights, f.metrics.total, s, t);
  }

  lemma CompleteCount(spec: Spec, plan: seq<seq<Stop>>)
    requires IsComplete(spec, plan)
    ensures |plan| == |spec.vehicles|
  {
  }

  lemma RampedLinear(w: PenaltyWeights, x: Totals, s: real, t: real)
    ensures SoftPenalty(w.Ramped(s), x) - SoftPenalty(w.Ramped(t), x) == (s - t) * SoftPenalty(w, x)
  {
    RampedTerm(w.capacity, x.overflow, s, t);
    RampedTerm(w.timeWindow, x.lateness, s, t);
    RampedTerm(w.duration, x.overrun, s, t);
    var a, b, c := w.capacity * x.overflow, w.timeWindow * x.lateness, w.duration * x.overrun;
    assert (s - t) * (a + b + c) == (s - t) * a + (s - t) * b + (s - t) * c;
  }

  lemma RampedTerm(weight: real, amount: real, s: real, t: real)
    ensures (weight * s) * amount - (weight * t) * amount == (s - t) * (weight * amount)
  {
  }

  lemma CompleteIsCovered(spec: Spec, plan: seq<seq<Stop>>)
    requires spec.Valid() && IsComplete(spec, plan)
    ensures Coverage(spec, RoutesOf(spec, plan), [], [])
  {
    CompleteVisits(spec, plan);
  }

  lemma NothingToAdd(vs: seq<Violation>, seen: multiset<string>)
    ensures vs + Missing([]) + Repeated([], seen) == vs
  {
  }

  lemma CompleteMeasurementExists(spec: Spec, mx: Matrix, plan: seq<seq<Stop>>) returns (m: SolutionMetrics)
    requires spec.Valid() && IsComplete(spec, plan)
    ensures IsMeasurement(spec, mx, RoutesOf(spec, plan), m)
  {
    hide AllMetrics;
    hide AllBreaches;
    hide Coverage;
    hide Missing;
    hide Repeated;
    hide Summed;
    var routes := RoutesOf(spec, plan);
    CompleteIsCovered(spec, plan);
    NothingToAdd(AllBreaches(spec, mx, routes), multiset(AllIds(routes)));
    m := SolutionMetrics(AllMetrics(spec, mx, routes), Summed(AllMetrics(spec, mx, routes)), [], [],
                         AllBreaches(spec, mx, routes));
  }

  /** Every key vector has a fitness at every scale. */
  lemma EvaluationExists(ev: Evaluator, keys: seq<real>, scale: real)
    returns (f: FitnessResult, plan: seq<seq<Stop>>, o: Origin)
    requires ev.Valid() && |keys| == |ev.spec.stops|
    ensures IsEvaluation(ev, keys, scale, f, plan, o)
  {
    hide IsDecode;
    hide IsRepair;
    hide IsComplete;
    hide IsMeasurement;
    var d;
    plan, d := DecodeExists(ev.spec, ev.mx, keys);
    DecodeIsComplete(ev.spec, ev.mx, keys, plan, d);
    o := Origin(plan, d, [], History([], [], [], []));
    if ev.useRepair {
      var out, h := RepairExists(ev.spec, ev.mx, d.routes);
      RepairIsComplete(ev.spec, ev.mx, plan, out, h);
      RepairHasOutcome(ev.spec, ev.mx, d.routes, out, h);
      o, plan := o.(repaired := out, history := h), Tidied(ev.spec, h.Outcome());
    }
    CompleteCount(ev.spec, plan);
    var m := CompleteMeasurementExists(ev.spec, ev.mx, plan);
    f := FitnessOf(ev.spec.objective, ev.weights, keys, RoutesOf(ev.spec, plan), m, scale);
  }

  ghost predicate HasFitness(ev: Evaluator, keys: seq<real>, scale: real, f: FitnessResult)
    requires ev.spec.Valid() && |keys| == |ev.spec.stops|
  {
    exists plan, o :: IsEvaluation(ev, keys, scale, f, plan, o)
  }

  /** The fitness of a key vector: a function of the keys and the scale. */
  ghost function Fitness(ev: Evaluator, keys: seq<real>, scale: real): FitnessResult
    requires ev.Valid() && |keys| == |ev.spec.stops|
  {
    assert exists f :: HasFitness(ev, keys, scale, f) by {
      var f, plan, o := EvaluationExists(ev, keys, scale);
      assert HasFitness(ev, keys, scale, f);
    }
    var f :| HasFitness(ev, keys, scale, f);
    f
  }

  /** Whatever evaluates the keys arrives at this fitness. */
  lemma FitnessEvaluates(ev: Evaluator, keys: seq<real>, scale: real) returns (plan: seq<seq<Stop>>, o: Origin)
    requires ev.Valid() && |keys| == |ev.spec.stops|
    ensures IsEvaluation(ev, keys, scale, Fitness(ev, keys, scale), plan, o)
  {
    hide IsEvaluation;
    var f, p, q := EvaluationExists(ev, keys, scale);
    assert HasFitness(ev, keys, scale, f);
    var g := Fitness(ev, keys, scale);
    assert HasFitness(ev, keys, scale, g);
    plan, o :| IsEvaluation(ev, keys, scale, g, plan, o);
  }

  /** The fitness function at two scales. */
  lemma FitnessAtScales(ev: Evaluator, keys: seq<real>, s: real, t: real)
    requires ev.Valid() && |keys| == |ev.spec.stops|
    ensures var f, g := Fitness(ev, keys, s), Fitness(ev, keys, t);
      && f.vector == g.vector == keys
      && f.routes == g.routes && f.metrics == g.metrics
      && f.baseCost == g.baseCost && f.feasible == g.feasible
      && f.fitness - g.fitness == (s - t) * SoftPenalty(ev.weights, f.metrics.total)
  {
    hide IsEvaluation;
    hide Fitness;
    var f, g := Fitness(ev, keys, s), Fitness(ev, keys, t);
    var plan, o := FitnessEvaluates(ev, keys, s);
    var plan', o' := FitnessEvaluates(ev, keys, t);
    ScaleOnlyPenalises(ev, keys, s, f, plan, o, t, g, plan', o');
  }

  lemma EvaluationIsFitness(ev: Evaluator, keys: seq<real>, scale: real, f: FitnessResult, plan: seq<seq<Stop>>,
                            o: Origin)
    requires ev.Valid() && |keys| == |ev.spec.stops| && IsEvaluation(ev, keys, scale, f, plan, o)
    ensures f == Fitness(ev, keys, scale)
  {
    hide IsEvaluation;
    hide Fitness;
    var g := Fitness(ev, keys, scale);
    var plan', o' := FitnessEvaluates(ev, keys, scale);
    ScaleOnlyPenalises(ev, keys, scale, f, plan, o, scale, g, plan', o');
  }

  /** `FitnessEvaluator.evaluate_one`. Whatever the keys, no stop is missing, repeated or unknown. */
  method EvaluateOne(ev: Evaluator, keys: seq<Key>, scale: real)
    returns (r: Result<FitnessResult, EvaluateError>, ghost plan: seq<seq<Stop>>, ghost o: Origin)
    requires ev.Valid()
    ensures r.Success? <==> GoodKeys(ev.spec, keys) && scale >= 0.0
    ensures r.Failure? ==> r.error.BadKeys? == !GoodKeys(ev.spec, keys)
    ensures r.Success? ==>
      && IsEvaluation(ev, Numbers(keys), scale, r.value, plan, o)
      && r.value == Fitness(ev, Numbers(keys), scale)
      && r.value.metrics.unassigned == [] && r.value.metrics.duplicates == []
      && (ev.weights.Positive() && scale > 0.0 ==> (r.value.feasible <==> r.value.penalty == 0.0))
  {
    hide IsDecode;
    hide IsRepair;
    hide IsComplete;
    hide Coverage;
    hide AllMetrics;
    hide AllBreaches;
    hide Fitness;
    var d;
    d, plan := DecodeDetailed(ev.spec, ev.mx, keys);
    o := Origin(plan, Decoded([], 0.0, false), [], History([], [], [], []));
    if d.Failure? {
      return Failure(BadKeys(d.error)), plan, o;
    }
    o := o.(decoded := d.value);
    DecodeIsComplete(ev.spec, ev.mx, Numbers(keys), plan, d.value);
    var routes := d.value.routes;
    if ev.useRepair {
      var repaired;
      ghost var h;
      repaired, h := Repair.Repair(ev.spec, ev.mx, routes);
      RepairHasOutcome(ev.spec, ev.mx, routes, repaired.value, h);
      RepairIsComplete(ev.spec, ev.mx, plan, repaired.value, h);
      routes, plan := repaired.value, Tidied(ev.spec, h.Outcome());
      o := o.(repaired := routes, history := h);
    }
    var metrics := Validator.Evaluate(ev.spec, ev.mx, routes);
    if scale < 0.0 {
      return Failure(NegativeScale), plan, o;
    }
    var vector := KeyNumbers(keys);
    var f := FitnessOf(ev.spec.objective, ev.weights, vector, routes, metrics, scale);
    CompletePlanPrice(ev.spec, ev.mx, plan, f, ev.weights, scale);
    EvaluationIsFitness(ev, Numbers(keys), scale, f, plan, o);
    r := Success(f);
  }

  method KeyNumbers(keys: seq<Key>) returns (vector: seq<real>)
    requires forall i :: 0 <= i < |keys| ==> keys[i].Number?
    ensures vector == Numbers(keys)
  {
    vector := [];
    for i := 0 to |keys|
      invariant |vector| == i && forall j :: 0 <= j < i ==> vector[j] == keys[j].r
    {
      vector := vector + [keys[i].r];
    }
  }

  // ---------- the two verdicts on a decode ----------

  lemma DecodeFlag(spec: Spec, mx: Matrix, keys: seq<real>, plan: seq<seq<Stop>>, d: Decoded)
    requires spec.Valid() && |keys| == |spec.stops| && IsDecode(spec, mx, keys, plan, d)
    ensures |plan| == |spec.vehicles|
    ensures d.feasible <==> forall v :: 0 <= v < |plan| ==> Fits(spec.vehicles[v], plan[v])
  {
    hide SplitOf;
    hide Splittable;
    hide Optimal;
    hide IsGreedy;
    hide Load;
  }

  lemma OverflowWithinTolerance(spec: Spec, mx: Matrix, v: Vehicle, route: seq<Stop>)
    ensures Measured(spec, mx, v, route).overflow <= EPS <==> Fits(v, route)
  {
    hide Load;
  }

  /** The decoder's flag and the validator's verdict differ by the tolerance only: the flag is true exactly
      when no measured overflow exceeds it, while the validator reports any overflow at all. */
  lemma FlagToleratesOverflow(spec: Spec, mx: Matrix, keys: seq<real>, plan: seq<seq<Stop>>, d: Decoded,
                              m: SolutionMetrics)
    requires spec.Valid() && |keys| == |spec.stops| && IsDecode(spec, mx, keys, plan, d)
    requires IsMeasurement(spec, mx, d.routes, m)
    ensures |m.routes| == |spec.vehicles|
    ensures d.feasible <==> forall v :: 0 <= v < |m.routes| ==> m.routes[v].overflow <= EPS
    ensures m.IsFeasible() ==> d.feasible
  {
    hide IsDecode;
    hide IsMeasurement;
    hide IsComplete;
    hide Measured;
    hide Fits;
    DecodeFlag(spec, mx, keys, plan, d);
    DecodeIsComplete(spec, mx, keys, plan, d);
    CompletePlanBreaches(spec, mx, plan, m);
    forall v | 0 <= v < |plan| ensures m.routes[v].overflow <= EPS <==> Fits(spec.vehicles[v], plan[v]) {
      OverflowWithinTolerance(spec, mx, spec.vehicles[v], plan[v]);
      assert m.routes[v] == Measured(spec, mx, spec.vehicles[v], plan[v]);
    }
    if m.IsFeasible() {
      CompletePlanMeasurement(spec, mx, plan, m);
      MeasuredPlanNonNegative(spec, mx, plan);
      forall v | 0 <= v < |m.routes| ensures m.routes[v].overflow <= EPS {
        TotalIsSummed(spec, mx, d.routes, m);
        OverflowWithinTotal(m.routes, v);
      }
    }
  }

  lemma TotalIsSummed(spec: Spec, mx: Matrix, routes: seq<Route>, m: SolutionMetrics)
    requires IsMeasurement(spec, mx, routes, m)
    ensures m.total == Summed(m.routes)
  {
  }

  lemma {:induction false} OverflowWithinTotal(ms: seq<RouteMetrics>, v: nat)
    requires NonNegativeMetrics(ms) && v < |ms|
    ensures ms[v].overflow <= Summed(ms).overflow
  {
    BreachFreeMeansZeroTotals(ms[..|ms| - 1]);
    if v < |ms| - 1 { OverflowWithinTotal(ms[..|ms| - 1], v); }
  }

  /** An instance on which the two verdicts differ on every input: its one stop weighs half the tolerance more
      than its one vehicle can carry. */
  lemma ToleratedOverflow() returns (spec: Spec)
    ensures spec.Valid()
    ensures forall mx, keys, plan, d, m ::
      |keys| == |spec.stops| && IsDecode(spec, mx, keys, plan, d) && IsMeasurement(spec, mx, d.routes, m) ==>
        d.feasible && !m.IsFeasible() && 0.0 < m.total.overflow <= EPS
  {
    hide IsDecode;
    hide IsMeasurement;
    spec := Spec([Stop("s", 0, 1.0 + EPS / 2.0, 0.0, 0.0, Never)], [Vehicle("v", 1.0, 0, 0, 0.0, Never)],
                 MinTravelTime, None, false);
    forall mx, keys, plan, d, m |
      |keys| == |spec.stops| && IsDecode(spec, mx, keys, plan, d) && IsMeasurement(spec, mx, d.routes, m)
      ensures d.feasible && !m.IsFeasible() && 0.0 < m.total.overflow <= EPS
    {
      OneStopVerdicts(spec, mx, keys, plan, d, m);
    }
  }

  /** With one stop and one vehicle the measured overflow is that of the stop alone. */
  lemma OneStopVerdicts(spec: Spec, mx: Matrix, keys: seq<real>, plan: seq<seq<Stop>>, d: Decoded, m: SolutionMetrics)
    requires spec.Valid() && |spec.stops| == |spec.vehicles| == |keys| == 1
    requires IsDecode(spec, mx, keys, plan, d) && IsMeasurement(spec, mx, d.routes, m)
    ensures var over := Max(0.0, spec.stops[0].demand - spec.vehicles[0].capacity);
      && m.total.overflow == over
      && (d.feasible <==> over <= EPS)
      && (m.IsFeasible() ==> over == 0.0)
  {
    hide IsDecode;
    hide IsMeasurement;
    DecodeIsComplete(spec, mx, keys, plan, d);
    OnlyPlan(spec, plan);
    CompletePlanBreaches(spec, mx, plan, m);
    CompletePlanMeasurement(spec, mx, plan, m);
    FlagToleratesOverflow(spec, mx, keys, plan, d, m);
    TotalIsSummed(spec, mx, d.routes, m);
    assert m.routes == [Measured(spec, mx, spec.vehicles[0], plan[0])];
    assert m.routes[0].overflow == Max(0.0, Load(plan[0]) - spec.vehicles[0].capacity);
    assert Load(plan[0]) == spec.stops[0].demand;
  }

  lemma OnlyPlan(spec: Spec, plan: seq<seq<Stop>>)
    requires |spec.stops| == |spec.vehicles| == 1 && IsComplete(spec, plan)
    ensures plan == [[spec.stops[0]]]
  {
    var s, route := spec.stops[0], plan[0];
    assert spec.stops == [s] && plan == [route];
    assert Flatten(plan) == Flatten(plan[..0]) + route == route;
    assert multiset(route) == multiset{s};
    assert |route| == |multiset(route)| == 1;
    assert route[0] in multiset(route);
    assert route == [s];
  }
}
