/** The outer loop shared by the population searches: evaluate, remember the best solution to report,
    record the trace, stop. The moves of a population and the clock are arbitrary inputs. */
module Driver {
  import opened Base
  import opened Problem
  import opened Encoding
  import opened Validator
  import opened Evaluate

  // ---------- when to stop ----------

  datatype StopReason = MaxIterations | TimeBudget | TargetGap | Stagnation

  datatype Termination = Termination(maxIterations: nat, timeBudget: Option<real>, targetGap: Option<real>,
                                     stagnationIterations: Option<nat>, minImprovement: real)
  {
    /** What the constructor checks. */
    predicate Valid() {
      && maxIterations >= 1
      && (timeBudget.Some? ==> timeBudget.value > 0.0)
      && (targetGap.Some? ==> targetGap.value >= 0.0)
      && (stagnationIterations.Some? ==> stagnationIterations.value >= 1)
    }

    /** The first condition that trips wins. */
    function ReasonToStop(iteration: nat, elapsed: real, cost: Cost, bestKnown: Option<real>, stagnation: nat)
      : Option<StopReason>
    {
      if iteration >= maxIterations then Some(MaxIterations)
      else if timeBudget.Some? && elapsed >= timeBudget.value then Some(TimeBudget)
      else if targetGap.Some? && bestKnown.Some? && bestKnown.value > 0.0 && cost.Fin?
              && (cost.v - bestKnown.value) / bestKnown.value <= targetGap.value then Some(TargetGap)
      else if stagnationIterations.Some? && stagnation >= stagnationIterations.value then Some(Stagnation)
      else None
    }
  }

  // ---------- the incumbent ----------

  /** The fields of the incumbent. */
  datatype Best = Best(vector: Option<seq<real>>, cost: Cost, feasibleFound: bool, fallback: Cost)

  const NOTHING: Best := Best(None, Inf, false, Inf)

  function OfferOne(b: Best, r: FitnessResult): Best {
    if r.feasible then
      if !b.feasibleFound || Less(Fin(r.baseCost), b.cost)
      then Best(Some(r.vector), Fin(r.baseCost), true, b.fallback) else b
    else
      if !b.feasibleFound && Less(Fin(r.fitness), b.fallback)
      then Best(Some(r.vector), Fin(r.baseCost), false, Fin(r.fitness)) else b
  }

  function OfferAll(b: Best, rs: seq<FitnessResult>): Best {
    if rs == [] then b else OfferOne(OfferAll(b, rs[..|rs| - 1]), rs[|rs| - 1])
  }

  class Incumbent {
    var vector: Option<seq<real>>
    var cost: Cost
    var feasibleFound: bool
    var fallbackFitness: Cost

    constructor ()
      ensures State() == NOTHING
    {
      vector, cost, feasibleFound, fallbackFitness := None, Inf, false, Inf;
    }

    function State(): Best
      reads this
    {
      Best(vector, cost, feasibleFound, fallbackFitness)
    }

    method Offer(results: seq<FitnessResult>)
      modifies this
      ensures State() == OfferAll(old(State()), results)
    {
      for i := 0 to |results|
        invariant State() == OfferAll(old(State()), results[..i])
      {
        assert results[..i + 1][..i] == results[..i];
        var r := results[i];
        if r.feasible {
          if !feasibleFound || Less(Fin(r.baseCost), cost) {
            feasibleFound := true;
            cost := Fin(r.baseCost);
            vector := Some(r.vector);
          }
        } else if !feasibleFound && Less(Fin(r.fitness), fallbackFitness) {
          fallbackFitness := Fin(r.fitness);
          cost := Fin(r.baseCost);
          vector := Some(r.vector);
        }
      }
      assert results[..|results|] == results;
    }
  }

  // ---------- what the incumbent means ----------

  /** The first of the cheapest feasible candidates. */
  ghost predicate IsBestFeasible(seen: seq<FitnessResult>, i: nat) {
    && i < |seen| && seen[i].feasible
    && (forall j :: 0 <= j < |seen| && seen[j].feasible ==> seen[i].baseCost <= seen[j].baseCost)
    && (forall j :: 0 <= j < i && seen[j].feasible ==> seen[i].baseCost < seen[j].baseCost)
  }

  /** The first of the candidates of least fitness. */
  ghost predicate IsLeastFitness(seen: seq<FitnessResult>, i: nat) {
    && i < |seen|
    && (forall j :: 0 <= j < |seen| ==> seen[i].fitness <= seen[j].fitness)
    && (forall j :: 0 <= j < i ==> seen[i].fitness < seen[j].fitness)
  }

  ghost predicate SomeFeasible(seen: seq<FitnessResult>) {
    exists i :: 0 <= i < |seen| && seen[i].feasible
  }

  /** b reports candidate i. */
  ghost predicate ReportsCandidate(b: Best, seen: seq<FitnessResult>, i: nat) {
    i < |seen| && b.vector == Some(seen[i].vector) && b.cost == Fin(seen[i].baseCost)
  }

  /** The incumbent reports the cheapest feasible candidate ever seen, or, while there is none, the one
      of least fitness. */
  ghost predicate Summarises(b: Best, seen: seq<FitnessResult>) {
    && b.feasibleFound == SomeFeasible(seen)
    && (b.feasibleFound ==> exists i: nat :: IsBestFeasible(seen, i) && ReportsCandidate(b, seen, i))
    && (!b.feasibleFound && seen != [] ==>
         exists i: nat :: IsLeastFitness(seen, i) && ReportsCandidate(b, seen, i) && b.fallback == Fin(seen[i].fitness))
    && (seen == [] ==> b == NOTHING)
  }

  lemma OfferFeasible(b: Best, seen: seq<FitnessResult>, r: FitnessResult)
    requires Summarises(b, seen) && r.feasible
    ensures Summarises(OfferOne(b, r), seen + [r])
  {
    var all := seen + [r];
    assert all[|seen|] == r;
    if b.feasibleFound {
      var i: nat :| IsBestFeasible(seen, i) && ReportsCandidate(b, seen, i);
      var best := if r.baseCost < seen[i].baseCost then |seen| else i;
      assert IsBestFeasible(all, best) && ReportsCandidate(OfferOne(b, r), all, best);
    } else {
      assert IsBestFeasible(all, |seen|) && ReportsCandidate(OfferOne(b, r), all, |seen|);
    }
  }

  lemma OfferInfeasible(b: Best, seen: seq<FitnessResult>, r: FitnessResult)
    requires Summarises(b, seen) && !r.feasible
    ensures Summarises(OfferOne(b, r), seen + [r])
  {
    var all := seen + [r];
    assert all[|seen|] == r;
    assert forall j :: 0 <= j < |seen| ==> all[j] == seen[j];
    if b.feasibleFound {
      var i: nat :| IsBestFeasible(seen, i) && ReportsCandidate(b, seen, i);
      assert all[i].feasible;
      assert IsBestFeasible(all, i) && ReportsCandidate(b, all, i);
    } else if seen != [] {
      var i: nat :| IsLeastFitness(seen, i) && ReportsCandidate(b, seen, i) && b.fallback == Fin(seen[i].fitness);
      var least := if r.fitness < seen[i].fitness then |seen| else i;
      assert IsLeastFitness(all, least) && ReportsCandidate(OfferOne(b, r), all, least);
    } else {
      assert IsLeastFitness(all, 0) && ReportsCandidate(OfferOne(b, r), all, 0);
    }
  }

  lemma {:induction false} OffersSummarise(seen: seq<FitnessResult>)
    ensures Summarises(OfferAll(NOTHING, seen), seen)
  {
    if seen != [] {
      var front, r := seen[..|seen| - 1], seen[|seen| - 1];
      OffersSummarise(front);
      assert seen == front + [r];
      if r.feasible {
        OfferFeasible(OfferAll(NOTHING, front), front, r);
      } else {
        OfferInfeasible(OfferAll(NOTHING, front), front, r);
      }
    }
  }

  lemma {:induction false} OfferAppend(b: Best, a: seq<FitnessResult>, c: seq<FitnessResult>)
    ensures OfferAll(b, a + c) == OfferAll(OfferAll(b, a), c)
    decreases |c|
  {
    if c == [] {
      assert a + c == a;
    } else {
      OfferAppend(b, a, c[..|c| - 1]);
      assert (a + c)[..|a + c| - 1] == a + c[..|c| - 1];
    }
  }

  /** Once something feasible was seen the incumbent stays feasible and never gets dearer. */
  lemma {:induction false} FeasibleNeverWorsens(b: Best, rs: seq<FitnessResult>)
    requires b.feasibleFound
    ensures OfferAll(b, rs).feasibleFound && AtMost(OfferAll(b, rs).cost, b.cost)
  {
    if rs != [] { FeasibleNeverWorsens(b, rs[..|rs| - 1]); }
  }

  // ---------- a run ----------

  datatype Config = Config(maxIterations: nat, scaleStart: real, scaleEnd: real)
  {
    /** What the constructor checks; it does not check the scales. */
    predicate Valid() {
      maxIterations >= 1
    }

    function PenaltyScale(it: nat): real
      requires maxIterations >= 1
    {
      var ratio := if it >= maxIterations then 1.0 else it as real / maxIterations as real;
      scaleStart + (scaleEnd - scaleStart) * ratio
    }
  }

  /** The penalty ramp starts at scaleStart, stays between the two ends, and rests at scaleEnd. */
  lemma PenaltyScaleRamps(c: Config, it: nat)
    requires c.maxIterations >= 1
    ensures it == 0 ==> c.PenaltyScale(it) == c.scaleStart
    ensures it >= c.maxIterations ==> c.PenaltyScale(it) == c.scaleEnd
    ensures c.scaleStart <= c.scaleEnd ==> c.scaleStart <= c.PenaltyScale(it) <= c.scaleEnd
    ensures c.scaleEnd <= c.scaleStart ==> c.scaleEnd <= c.PenaltyScale(it) <= c.scaleStart
  {
    if it < c.maxIterations {
      var ratio := it as real / c.maxIterations as real;
      UnitRatio(it as real, c.maxIterations as real);
      ScaledDown(c.scaleEnd - c.scaleStart, ratio);
      ScaledDown(c.scaleStart - c.scaleEnd, ratio);
    }
  }

  lemma UnitRatio(x: real, y: real)
    requires 0.0 <= x < y
    ensures 0.0 <= x / y < 1.0 && (x == 0.0 ==> x / y == 0.0)
  {
    assert (x / y) * y == x;
    QuotientBounds(x / y, x, y);
  }

  lemma QuotientBounds(q: real, x: real, y: real)
    requires 0.0 <= x < y && q * y == x
    ensures 0.0 <= q < 1.0
  {
    ProductBounds(q, y);
  }

  lemma ProductBounds(q: real, y: real)
    requires y > 0.0
    ensures q >= 1.0 ==> q * y >= y
    ensures q < 0.0 ==> q * y < 0.0
  {
  }

  lemma ScaledDown(d: real, ratio: real)
    requires 0.0 <= ratio <= 1.0
    ensures d >= 0.0 ==> 0.0 <= d * ratio <= d
    ensures (-d) * ratio == -(d * ratio)
  {
  }

  /** Everything a run depends on: positions(i) are the population's vectors at iteration i; the two
      clocks are read at the stop test and at the trace. */
  datatype Run = Run(config: Config, term: Termination, ev: Evaluator, positions: nat -> seq<seq<real>>,
                     stopClock: nat -> real, traceClock: nat -> real, bestKnown: Option<real>)
  {
    ghost predicate Valid() {
      && config.Valid()
      && term.Valid()
      && ev.Valid()
      && (forall it: nat :: positions(it) != [])
      && (forall it: nat, i: nat :: i < |positions(it)| ==> |positions(it)[i]| == |ev.spec.stops|)
    }

    ghost function Batch(it: nat): (rs: seq<FitnessResult>)
      requires Valid()
      ensures |rs| == |positions(it)|
    {
      seq(|positions(it)|, i requires 0 <= i < |positions(it)| =>
        Fitness(ev, positions(it)[i], config.PenaltyScale(it)))
    }

    /** Every candidate evaluated up to and including iteration it. */
    ghost function Seen(it: nat): seq<FitnessResult>
      requires Valid()
    {
      if it == 0 then Batch(0) else Seen(it - 1) + Batch(it)
    }

    /** The incumbent after iteration it. */
    ghost function After(it: nat): Best
      requires Valid()
    {
      if it == 0 then OfferAll(NOTHING, Batch(0)) else OfferAll(After(it - 1), Batch(it))
    }

    /** Step it improved the reported cost by at most the minimum improvement. */
    ghost predicate Stalled(it: nat)
      requires Valid() && it > 0
    {
      After(it - 1).cost.Fin? && After(it).cost.Fin?
      && After(it - 1).cost.v - After(it).cost.v <= term.minImprovement
    }

    ghost function StagnationAfter(it: nat): nat
      requires Valid()
    {
      if it == 0 then 0 else if Stalled(it) then StagnationAfter(it - 1) + 1 else 0
    }

    ghost function StopTest(it: nat): Option<StopReason>
      requires Valid()
    {
      term.ReasonToStop(it, stopClock(it), After(it).cost, bestKnown, StagnationAfter(it))
    }
  }

  datatype Record = Record(iteration: nat, elapsed: real, cost: Cost)

  datatype RunResult = RunResult(bestVector: seq<real>, bestFitness: real, bestCost: real, feasible: bool,
                                 routes: seq<Route>, metrics: SolutionMetrics, convergence: seq<Record>,
                                 iterations: nat, stopReason: StopReason)
  {
    /** The reported figures are those of this evaluation. */
    predicate Quotes(f: FitnessResult) {
      && bestVector == f.vector && bestFitness == f.fitness && bestCost == f.baseCost
      && feasible == f.feasible && routes == f.routes && metrics == f.metrics
    }
  }

  datatype RunError = NoIncumbent | NegativePenaltyScale

  ghost predicate IsTrace(run: Run, trace: seq<Record>, iterations: nat)
    requires run.Valid()
  {
    && |trace| == iterations + 1
    && forall i :: 0 <= i <= iterations ==> trace[i] == Record(i, run.traceClock(i), run.After(i).cost)
  }

  /** A vector as the evaluator takes it. */
  function AsKeys(v: seq<real>): (keys: seq<Key>)
    ensures |keys| == |v| && forall i :: 0 <= i < |v| ==> keys[i] == Number(v[i])
  {
    seq(|v|, i requires 0 <= i < |v| => Number(v[i]))
  }

  lemma AsKeysNumbers(v: seq<real>)
    ensures Numbers(AsKeys(v)) == v
  {
  }

  /** One vector at one scale. */
  method EvaluateVector(ev: Evaluator, v: seq<real>, scale: real) returns (r: Option<FitnessResult>)
    requires ev.Valid() && |v| == |ev.spec.stops|
    ensures r == if scale >= 0.0 then Some(Fitness(ev, v, scale)) else None
  {
    AsKeysNumbers(v);
    var result, _, _ := EvaluateOne(ev, AsKeys(v), scale);
    r := if result.Success? then Some(result.value) else None;
  }

  /** `evaluate_batch` at the scale of iteration it; a negative scale raises. */
  method EvaluateBatch(run: Run, it: nat) returns (results: Option<seq<FitnessResult>>)
    requires run.Valid()
    ensures results == if run.config.PenaltyScale(it) >= 0.0 then Some(run.Batch(it)) else None
  {
    hide Fitness;
    var vectors, scale := run.positions(it), run.config.PenaltyScale(it);
    var fs := [];
    for i := 0 to |vectors|
      invariant fs == run.Batch(it)[..i]
      invariant fs != [] ==> scale >= 0.0
    {
      var f := EvaluateVector(run.ev, vectors[i], scale);
      if f.None? {
        return None;
      }
      fs := fs + [f.value];
    }
    assert run.Batch(it)[..|vectors|] == run.Batch(it);
    results := Some(fs);
  }

  /** No stop test before iteration n tripped. */
  ghost predicate KeepsGoing(run: Run, n: nat)
    requires run.Valid()
  {
    n > 0 ==> KeepsGoing(run, n - 1) && run.StopTest(n - 1).None?
  }

  lemma {:induction false} KeptGoing(run: Run, n: nat, i: nat)
    requires run.Valid() && KeepsGoing(run, n) && i < n
    ensures run.StopTest(i).None?
  {
    hide Fitness;
    if i < n - 1 { KeptGoing(run, n - 1, i); }
  }

  /** Iteration k is reached and evaluates at a negative scale. */
  ghost predicate RaisesAt(run: Run, k: nat)
    requires run.Valid()
  {
    KeepsGoing(run, k) && run.config.PenaltyScale(k) < 0.0
  }

  ghost predicate Raises(run: Run)
    requires run.Valid()
  {
    exists k: nat :: RaisesAt(run, k)
  }

  /** All iterations up to n evaluate at a scale that is not negative. */
  ghost predicate ScalesFine(run: Run, n: nat)
    requires run.Valid()
  {
    forall i: nat :: i <= n ==> run.config.PenaltyScale(i) >= 0.0
  }

  /** Where the loop stands after iteration it. */
  ghost predicate Stands(run: Run, b: Best, trace: seq<Record>, stagnation: nat, it: nat)
    requires run.Valid()
  {
    && it <= run.term.maxIterations
    && b == run.After(it) && stagnation == run.StagnationAfter(it)
    && IsTrace(run, trace, it)
    && KeepsGoing(run, it) && ScalesFine(run, it)
  }

  lemma StandsNext(run: Run, b: Best, trace: seq<Record>, stagnation: nat, it: nat, b': Best, stagnation': nat)
    requires run.Valid() && Stands(run, b, trace, stagnation, it) && run.StopTest(it).None?
    requires b' == run.After(it + 1) && stagnation' == run.StagnationAfter(it + 1)
    requires run.config.PenaltyScale(it + 1) >= 0.0
    ensures Stands(run, b', trace + [Record(it + 1, run.traceClock(it + 1), b'.cost)], stagnation', it + 1)
  {
    hide Fitness;
    hide OfferAll;
  }

  lemma StandsOrRaises(run: Run, b: Best, trace: seq<Record>, stagnation: nat, it: nat)
    requires run.Valid() && Stands(run, b, trace, stagnation, it) && run.StopTest(it).None?
    ensures it < run.term.maxIterations
    ensures run.config.PenaltyScale(it + 1) < 0.0 ==> Raises(run)
  {
    hide Fitness;
    hide OfferAll;
    if run.config.PenaltyScale(it + 1) < 0.0 {
      assert RaisesAt(run, it + 1);
    }
  }

  /** Iteration 0. */
  method Begin(run: Run, incumbent: Incumbent) returns (trace: Option<seq<Record>>)
    requires run.Valid() && incumbent.State() == NOTHING
    modifies incumbent
    ensures trace.Some? ==> Stands(run, incumbent.State(), trace.value, 0, 0)
    ensures trace.None? ==> Raises(run)
  {
    hide Fitness;
    var results := EvaluateBatch(run, 0);
    if results.None? {
      assert RaisesAt(run, 0);
      return None;
    }
    incumbent.Offer(results.value);
    trace := Some([Record(0, run.traceClock(0), incumbent.cost)]);
  }

  /** The stop test at the head of the loop. */
  method AskStop(run: Run, incumbent: Incumbent, trace: seq<Record>, it: nat, stagnation: nat)
    returns (reason: Option<StopReason>)
    requires run.Valid() && Stands(run, incumbent.State(), trace, stagnation, it)
    ensures reason == run.StopTest(it)
  {
    hide Fitness;
    hide OfferAll;
    reason := run.term.ReasonToStop(it, run.stopClock(it), incumbent.cost, run.bestKnown, stagnation);
  }

  /** One turn of the loop after the stop test, unless the penalty scale has become negative. */
  method Advance(run: Run, incumbent: Incumbent, trace: seq<Record>, it: nat, stagnation: nat)
    returns (trace': Option<seq<Record>>, stagnation': nat)
    requires run.Valid() && Stands(run, incumbent.State(), trace, stagnation, it) && run.StopTest(it).None?
    modifies incumbent
    ensures it < run.term.maxIterations
    ensures trace'.Some? ==> Stands(run, incumbent.State(), trace'.value, stagnation', it + 1)
    ensures trace'.None? ==> Raises(run)
  {
    hide Fitness;
    hide Raises;
    StandsOrRaises(run, incumbent.State(), trace, stagnation, it);
    stagnation' := stagnation;
    var results := EvaluateBatch(run, it + 1);
    if results.None? {
      return None, stagnation';
    }
    ghost var b := incumbent.State();
    var before := incumbent.cost;
    incumbent.Offer(results.value);
    stagnation' := if before.Fin? && incumbent.cost.Fin? && before.v - incumbent.cost.v <= run.term.minImprovement
                   then stagnation + 1 else 0;
    StandsNext(run, b, trace, stagnation, it, incumbent.State(), stagnation');
    trace' := Some(trace + [Record(it + 1, run.traceClock(it + 1), incumbent.cost)]);
  }

  /** What a finished run reports. */
  ghost predicate IsOutcome(run: Run, s: RunResult)
    requires run.Valid()
  {
    && IsTrace(run, s.convergence, s.iterations)
    && run.After(s.iterations).vector == Some(s.bestVector)
    && |s.bestVector| == |run.ev.spec.stops|
    && s.Quotes(Fitness(run.ev, s.bestVector, 1.0))
    && run.StopTest(s.iterations) == Some(s.stopReason)
    && KeepsGoing(run, s.iterations)
  }

  /** `PopulationOptimizer.solve`. It fails exactly when an iteration that is reached evaluates at a negative
      penalty scale. */
  method Solve(run: Run) returns (r: Result<RunResult, RunError>)
    requires run.Valid()
    ensures r.Failure? <==> Raises(run)
    ensures r.Failure? ==> r.error == NegativePenaltyScale
    ensures r.Success? ==> IsOutcome(run, r.value)
  {
    hide Fitness;
    hide Stands;
    hide Raises;
    hide IsOutcome;
    var incumbent := new Incumbent();
    var begun := Begin(run, incumbent);
    if begun.None? {
      return Failure(NegativePenaltyScale);
    }
    var trace, stagnation, it, reason := begun.value, 0, 0, None;
    while true
      invariant Stands(run, incumbent.State(), trace, stagnation, it)
      decreases run.term.maxIterations - it
    {
      reason := AskStop(run, incumbent, trace, it, stagnation);
      if reason.Some? {
        break;
      }
      var next;
      next, stagnation := Advance(run, incumbent, trace, it, stagnation);
      if next.None? {
        return Failure(NegativePenaltyScale);
      }
      trace, it := next.value, it + 1;
    }
    r := Finalise(run, incumbent, trace, it, stagnation, reason.value);
  }

  /** A run that stops has not raised. */
  lemma NeverRaises(run: Run, it: nat)
    requires run.Valid() && ScalesFine(run, it) && run.StopTest(it).Some?
    ensures !Raises(run)
  {
    hide Fitness;
    hide OfferAll;
    forall k: nat | KeepsGoing(run, k) ensures k <= it {
      if k > it { KeptGoing(run, k, it); }
    }
  }

  /** `_finalise`: the incumbent is evaluated once more, at scale 1. */
  method Finalise(run: Run, incumbent: Incumbent, trace: seq<Record>, it: nat, ghost stagnation: nat,
                  reason: StopReason)
    returns (r: Result<RunResult, RunError>)
    requires run.Valid() && Stands(run, incumbent.State(), trace, stagnation, it)
    requires run.StopTest(it) == Some(reason)
    ensures r.Success? && !Raises(run) && IsOutcome(run, r.value)
  {
    hide Fitness;
    hide OfferAll;
    hide Raises;
    NeverRaises(run, it);
    IncumbentExists(run, it);
    if incumbent.vector.None? {
      return Failure(NoIncumbent);
    }
    var vector := incumbent.vector.value;
    var final := EvaluateVector(run.ev, vector, 1.0);
    FitnessAtScales(run.ev, vector, 1.0, 1.0);
    var f := final.value;
    r := Success(RunResult(vector, f.fitness, f.baseCost, f.feasible, f.routes, f.metrics, trace, it, reason));
  }

  // ---------- what a whole run guarantees ----------

  lemma {:induction false} AfterIsOffered(run: Run, it: nat)
    requires run.Valid()
    ensures run.After(it) == OfferAll(NOTHING, run.Seen(it))
  {
    hide Fitness;
    hide OfferOne;
    hide Run.Batch;
    if it > 0 {
      AfterIsOffered(run, it - 1);
      OfferAppend(NOTHING, run.Seen(it - 1), run.Batch(it));
    }
  }

  lemma {:induction false} SomethingSeen(run: Run, it: nat)
    requires run.Valid()
    ensures run.Seen(it) != []
  {
    hide Fitness;
    assert |run.Batch(it)| == |run.positions(it)|;
  }

  lemma IncumbentSummarises(run: Run, it: nat)
    requires run.Valid()
    ensures Summarises(run.After(it), run.Seen(it))
  {
    hide Fitness;
    AfterIsOffered(run, it);
    OffersSummarise(run.Seen(it));
  }

  lemma IncumbentExists(run: Run, it: nat)
    requires run.Valid()
    ensures run.After(it).vector.Some? && run.After(it).cost.Fin?
    ensures |run.After(it).vector.value| == |run.ev.spec.stops|
  {
    hide Fitness;
    var i := IncumbentCandidate(run, it);
    SeenAreMeasured(run, it, i);
  }

  /** The candidate the incumbent reports. */
  lemma IncumbentCandidate(run: Run, it: nat) returns (i: nat)
    requires run.Valid()
    ensures var seen, b := run.Seen(it), run.After(it);
      && b.feasibleFound == SomeFeasible(seen)
      && ReportsCandidate(b, seen, i)
      && if b.feasibleFound then IsBestFeasible(seen, i) else IsLeastFitness(seen, i)
  {
    hide Fitness;
    var seen, b := run.Seen(it), run.After(it);
    SomethingSeen(run, it);
    IncumbentSummarises(run, it);
    if b.feasibleFound {
      i :| IsBestFeasible(seen, i) && ReportsCandidate(b, seen, i);
    } else {
      i :| IsLeastFitness(seen, i) && ReportsCandidate(b, seen, i) && b.fallback == Fin(seen[i].fitness);
    }
  }

  /** Every candidate's base cost and feasibility are those of its vector, at whatever scale. */
  lemma {:induction false} SeenAreMeasured(run: Run, it: nat, i: nat)
    requires run.Valid() && i < |run.Seen(it)|
    ensures var c := run.Seen(it)[i];
      && |c.vector| == |run.ev.spec.stops|
      && c.baseCost == Fitness(run.ev, c.vector, 1.0).baseCost
      && c.feasible == Fitness(run.ev, c.vector, 1.0).feasible
  {
    hide Fitness;
    if it > 0 && i < |run.Seen(it - 1)| {
      SeenAreMeasured(run, it - 1, i);
    } else {
      var k: nat := if it == 0 then i else i - |run.Seen(it - 1)|;
      assert run.Seen(it)[i] == run.Batch(it)[k];
      FitnessAtScales(run.ev, run.positions(it)[k], run.config.PenaltyScale(it), 1.0);
    }
  }

  /** The reported best_cost: the minimum base cost over all feasible candidates ever evaluated, or, if
      there was none, the base cost of the candidate of least fitness. The final re-evaluation at scale 1
      reproduces the last trace cost and the feasibility of the incumbent. */
  lemma ReportedBest(run: Run, s: RunResult)
    requires run.Valid() && IsOutcome(run, s)
    ensures var seen, b := run.Seen(s.iterations), run.After(s.iterations);
      && s.feasible == SomeFeasible(seen)
      && (s.feasible ==> exists i: nat :: IsBestFeasible(seen, i) && ReportsCandidate(b, seen, i))
      && (!s.feasible ==> exists i: nat :: IsLeastFitness(seen, i) && ReportsCandidate(b, seen, i))
    ensures run.After(s.iterations).cost == Fin(s.bestCost)
    ensures s.convergence[s.iterations].cost == Fin(s.bestCost)
  {
    hide Fitness;
    var i := IncumbentCandidate(run, s.iterations);
    SeenAreMeasured(run, s.iterations, i);
    var seen := run.Seen(s.iterations);
    assert seen[i].feasible ==> SomeFeasible(seen);
  }

  /** From the first feasible incumbent on, trace costs never rise and never stop being feasible. */
  lemma {:induction false} TraceNeverWorsens(run: Run, i: nat, j: nat)
    requires run.Valid() && i <= j && run.After(i).feasibleFound
    ensures run.After(j).feasibleFound && AtMost(run.After(j).cost, run.After(i).cost)
    decreases j
  {
    hide Fitness;
    if i < j {
      TraceNeverWorsens(run, i, j - 1);
      FeasibleNeverWorsens(run.After(j - 1), run.Batch(j));
    }
  }

  /** The run stops for "max_iterations" exactly when the cap is reached, and never passes it. */
  lemma {:induction false} CapReached(run: Run, iterations: nat, reason: StopReason)
    requires run.Valid() && run.StopTest(iterations) == Some(reason)
    requires KeepsGoing(run, iterations)
    ensures iterations <= run.term.maxIterations
    ensures reason == MaxIterations <==> iterations == run.term.maxIterations
  {
    hide Fitness;
    assert run.StopTest(run.term.maxIterations) == Some(MaxIterations);
    forall i | 0 <= i < iterations ensures run.StopTest(i).None? {
      KeptGoing(run, iterations, i);
    }
  }

  lemma {:induction false} StagnationCounts(run: Run, it: nat, j: nat)
    requires run.Valid() && j <= it && it < run.StagnationAfter(it) + j && j > 0
    ensures run.Stalled(j)
    decreases it
  {
    hide Fitness;
    if j < it { StagnationCounts(run, it - 1, j); }
  }

  lemma {:induction false} StagnationBound(run: Run, it: nat)
    requires run.Valid()
    ensures run.StagnationAfter(it) <= it
  {
    hide Fitness;
    if it > 0 { StagnationBound(run, it - 1); }
  }

  /** A run that stops for "stagnation" made that many last steps, none of which improved the reported
      cost by more than the minimum improvement. */
  lemma StagnationMeansNoProgress(run: Run, iterations: nat)
    requires run.Valid() && run.StopTest(iterations) == Some(Stagnation)
    ensures run.term.stagnationIterations.Some?
    ensures var k := run.term.stagnationIterations.value;
      k <= iterations && forall j :: iterations - k < j <= iterations ==> run.Stalled(j)
  {
    hide Fitness;
    var k := run.term.stagnationIterations.value;
    StagnationBound(run, iterations);
    forall j | iterations - k < j <= iterations ensures run.Stalled(j) {
      StagnationCounts(run, iterations, j);
    }
  }
}
