/** Why a run stops, said of its clock and of the costs in its trace, and what the figures it reports mean. */
module Outcomes {
  import opened Base
  import opened Problem
  import opened Encoding
  import opened Evaluate
  import opened Driver
  import opened Feasibility
  import opened Pricing

  // ---------- why a run stops ----------

  /** At the stop test of iteration `it` the time budget is used up. */
  ghost predicate UsedUp(run: Run, it: nat) {
    run.term.timeBudget.Some? && run.stopClock(it) >= run.term.timeBudget.value
  }

  /** A cost within the target gap of the best known one. */
  ghost predicate WithinGap(run: Run, cost: Cost) {
    && run.term.targetGap.Some? && run.bestKnown.Some? && run.bestKnown.value > 0.0 && cost.Fin?
    && cost.v <= (1.0 + run.term.targetGap.value) * run.bestKnown.value
  }

  /** Between the trace records j - 1 and j the cost fell by at most the minimum improvement. */
  ghost predicate Flat(run: Run, trace: seq<Record>, j: nat) {
    && 0 < j < |trace| && trace[j - 1].cost.Fin? && trace[j].cost.Fin?
    && trace[j - 1].cost.v - trace[j].cost.v <= run.term.minImprovement
  }

  /** The last steps up to `it`, as many as the stagnation limit says, were flat. */
  ghost predicate Stuck(run: Run, trace: seq<Record>, it: nat) {
    && run.term.stagnationIterations.Some?
    && var k := run.term.stagnationIterations.value;
       k <= it && forall j: nat :: it - k < j <= it ==> Flat(run, trace, j)
  }

  lemma GapAsProduct(cost: real, best: real, gap: real)
    requires best > 0.0
    ensures (cost - best) / best <= gap <==> cost <= (1.0 + gap) * best
  {
    var q := (cost - best) / best;
    assert q * best == cost - best;
    assert (1.0 + gap) * best == best + gap * best;
    Compared(q, gap, best);
  }

  lemma Compared(x: real, y: real, b: real)
    requires b > 0.0
    ensures x <= y <==> x * b <= y * b
  {
    if x <= y {
      assert (y - x) * b >= 0.0;
    } else {
      assert (x - y) * b > 0.0;
    }
  }

  lemma {:induction false} FlatStepsCount(run: Run, it: nat, k: nat)
    requires run.Valid() && k <= it && forall j: nat :: it - k < j <= it ==> run.Stalled(j)
    ensures run.StagnationAfter(it) >= k
  {
    hide Fitness;
    if k > 0 {
      FlatStepsCount(run, it - 1, k - 1);
      assert run.Stalled(it);
    }
  }

  /** The stagnation counter reaches k exactly when the last k steps stalled. */
  lemma StagnationExactly(run: Run, it: nat, k: nat)
    requires run.Valid()
    ensures run.StagnationAfter(it) >= k <==> k <= it && forall j: nat :: it - k < j <= it ==> run.Stalled(j)
  {
    hide Fitness;
    hide Run.Stalled;
    StagnationBound(run, it);
    if run.StagnationAfter(it) >= k {
      forall j: nat | it - k < j <= it ensures run.Stalled(j) {
        StagnationCounts(run, it, j);
      }
    } else if k <= it && forall j: nat :: it - k < j <= it ==> run.Stalled(j) {
      FlatStepsCount(run, it, k);
    }
  }

  lemma StuckExactly(run: Run, trace: seq<Record>, n: nat, it: nat)
    requires run.Valid() && IsTrace(run, trace, n) && it <= n && run.term.stagnationIterations.Some?
    ensures Stuck(run, trace, it) <==> run.StagnationAfter(it) >= run.term.stagnationIterations.value
  {
    hide Fitness;
    hide Run.After;
    hide Run.StagnationAfter;
    StagnationExactly(run, it, run.term.stagnationIterations.value);
    forall j: nat | 0 < j <= it ensures Flat(run, trace, j) <==> run.Stalled(j) {
      assert trace[j].cost == run.After(j).cost && trace[j - 1].cost == run.After(j - 1).cost;
    }
  }

  /** The stop test of one iteration, read off the trace: the cap first, then the clock, the gap, and the last
      steps. */
  lemma StopTestMeans(run: Run, trace: seq<Record>, n: nat, it: nat)
    requires run.Valid() && IsTrace(run, trace, n) && it <= n
    ensures run.StopTest(it)
         == if it >= run.term.maxIterations then Some(MaxIterations)
            else if UsedUp(run, it) then Some(TimeBudget)
            else if WithinGap(run, trace[it].cost) then Some(TargetGap)
            else if Stuck(run, trace, it) then Some(Stagnation)
            else None
  {
    hide Fitness;
    hide Run.After;
    hide Run.StagnationAfter;
    hide Stuck;
    var cost := run.After(it).cost;
    assert trace[it].cost == cost;
    if run.term.stagnationIterations.Some? { StuckExactly(run, trace, n, it); } else { NeverStuck(run, trace, it); }
    if run.term.targetGap.Some? && run.bestKnown.Some? && run.bestKnown.value > 0.0 && cost.Fin? {
      GapAsProduct(cost.v, run.bestKnown.value, run.term.targetGap.value);
    }
  }

  lemma NeverStuck(run: Run, trace: seq<Record>, it: nat)
    requires run.term.stagnationIterations.None?
    ensures !Stuck(run, trace, it)
  {
  }

  /** What the reported reason means, the first that applies being reported ... */
  ghost predicate Explains(run: Run, s: RunResult)
    requires s.iterations < |s.convergence|
  {
    var n, trace := s.iterations, s.convergence;
    match s.stopReason
    case MaxIterations => n == run.term.maxIterations
    case TimeBudget => n < run.term.maxIterations && UsedUp(run, n)
    case TargetGap => n < run.term.maxIterations && !UsedUp(run, n) && WithinGap(run, trace[n].cost)
    case Stagnation =>
      n < run.term.maxIterations && !UsedUp(run, n) && !WithinGap(run, trace[n].cost) && Stuck(run, trace, n)
  }

  /** ... and that none applied at an earlier iteration. */
  ghost predicate NoReasonBefore(run: Run, trace: seq<Record>, n: nat)
    requires n < |trace|
  {
    forall it :: 0 <= it < n ==>
      it < run.term.maxIterations && !UsedUp(run, it) && !WithinGap(run, trace[it].cost) && !Stuck(run, trace, it)
  }

  /** A run stops at the first iteration that reaches the cap, finds the time budget used up, comes within the gap,
      or ends enough flat steps; and it says which. */
  lemma StopsForAReason(run: Run, s: RunResult)
    requires run.Valid() && IsOutcome(run, s)
    ensures |s.convergence| == s.iterations + 1
    ensures Explains(run, s) && NoReasonBefore(run, s.convergence, s.iterations)
  {
    hide Fitness;
    hide Run.StopTest;
    hide UsedUp;
    hide WithinGap;
    hide Stuck;
    var n, trace := s.iterations, s.convergence;
    forall it: nat | it < n
      ensures it < run.term.maxIterations && !UsedUp(run, it) && !WithinGap(run, trace[it].cost)
      ensures !Stuck(run, trace, it)
    {
      KeptGoing(run, n, it);
      StopTestMeans(run, trace, n, it);
    }
    StopTestMeans(run, trace, n, n);
    CapReached(run, n, s.stopReason);
  }

  // ---------- what a run reports ----------

  /** The penalty scale goes from its start to its end in equal steps, one per iteration. */
  lemma PenaltyScaleIsLinear(c: Config, it: nat)
    requires c.maxIterations >= 1
    ensures it <= c.maxIterations ==>
      (c.PenaltyScale(it) - c.scaleStart) * c.maxIterations as real == (c.scaleEnd - c.scaleStart) * it as real
    ensures it >= c.maxIterations ==> c.PenaltyScale(it) == c.scaleEnd
  {
    if it < c.maxIterations {
      var d, x, n := c.scaleEnd - c.scaleStart, it as real, c.maxIterations as real;
      assert (x / n) * n == x;
      Regroup(d, x / n, n);
    }
  }

  lemma Regroup(d: real, q: real, n: real)
    ensures (d * q) * n == d * (q * n)
  {
  }

  /** Every candidate of an iteration is evaluated at the scale of that iteration. */
  lemma CandidateIsEvaluated(run: Run, it: nat, i: nat) returns (plan: seq<seq<Stop>>, o: Origin)
    requires run.Valid() && i < |run.positions(it)|
    ensures IsEvaluation(run.ev, run.positions(it)[i], run.config.PenaltyScale(it), run.Batch(it)[i], plan, o)
  {
    hide Fitness;
    hide IsEvaluation;
    plan, o := FitnessEvaluates(run.ev, run.positions(it)[i], run.config.PenaltyScale(it));
  }

  /** The reported figures are those of the reported routes: a plan that serves every stop once, its driving or
      its longest route, every excess at its full price, and feasible exactly when nobody breaks a limit. */
  lemma ReportMeans(run: Run, s: RunResult) returns (plan: seq<seq<Stop>>, o: Origin)
    requires run.Valid() && IsOutcome(run, s)
    ensures IsComplete(run.ev.spec, plan) && |plan| == |run.ev.spec.vehicles|
    ensures s.routes == RoutesOf(run.ev.spec, plan)
    ensures Costs(run.ev, plan, s.bestCost)
    ensures s.bestFitness == s.bestCost + Priced(run.ev.weights, Overloads(run.ev.spec, plan),
                                                 Delays(run.ev.spec, run.ev.mx, plan),
                                                 Overtime(run.ev.spec, run.ev.mx, plan))
    ensures s.feasible <==>
      forall v :: 0 <= v < |plan| ==> WithinLimits(run.ev.spec, run.ev.mx, run.ev.spec.vehicles[v], plan[v])
  {
    hide Fitness;
    hide IsEvaluation;
    hide IsComplete;
    hide WithinLimits;
    hide Priced;
    var f := Fitness(run.ev, s.bestVector, 1.0);
    plan, o := FitnessEvaluates(run.ev, s.bestVector, 1.0);
    EvaluationShape(run.ev, s.bestVector, 1.0, f, plan, o);
    BaseCostMeans(run.ev, s.bestVector, 1.0, f, plan, o);
    PriceMeans(run.ev, s.bestVector, 1.0, f, plan, o);
    FeasibleMeans(run.ev, s.bestVector, 1.0, f, plan, o);
  }
}
