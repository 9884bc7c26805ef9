/** Dynamic edge weights: observations are blended into the current travel times, never below free
    flow, and every snapshot handed out stays what it was. */
module Weights {
  import opened Base
  import opened RoadGraph
  import opened Walks
  import opened RoadMatrix

  /** An immutable per-edge snapshot. */
  datatype Epoch = Epoch(id: nat, travelTime: array<real>, source: string)

  /** A float a caller may pass, possibly nan or inf. */
  datatype Num = Finite(r: real) | NotFinite

  /** The three ways to report an edge: seconds, km/h, or a multiple of free flow. */
  datatype Measure = Time | Speed | Factor

  type Observations = seq<(int, Num)>

  datatype UpdateError = BadEdge(id: int) | BadValue(edge: nat) | BadUnobservedFactor

  // ---------- observations ----------

  function Seconds(measure: Measure, freeFlow: real, len: real, x: real): real
    requires x > 0.0
  {
    match measure
    case Time => x
    case Speed => len / (x / 3.6)
    case Factor => freeFlow * x
  }

  predicate Positive(x: Num) {
    x.Finite? && x.r > 0.0
  }

  predicate GoodReport(e: nat, report: (int, Num)) {
    0 <= report.0 < e && Positive(report.1)
  }

  function ReportError(e: nat, report: (int, Num)): UpdateError
    requires !GoodReport(e, report)
  {
    if !(0 <= report.0 < e) then BadEdge(report.0) else BadValue(report.0)
  }

  predicate AllGood(e: nat, reports: Observations) {
    forall i :: 0 <= i < |reports| ==> GoodReport(e, reports[i])
  }

  predicate FirstBad(e: nat, reports: Observations, i: nat) {
    i < |reports| && AllGood(e, reports[..i]) && !GoodReport(e, reports[i])
  }

  /** What an update complains about: the first bad report, seconds before speeds before factors, and only
      then the blanket factor. */
  ghost predicate Complains(e: nat, times: Observations, speeds: Observations, factors: Observations,
                            err: UpdateError) {
    if !AllGood(e, times) then BlamesFirst(e, times, err)
    else if !AllGood(e, speeds) then BlamesFirst(e, speeds, err)
    else if !AllGood(e, factors) then BlamesFirst(e, factors, err)
    else err == BadUnobservedFactor
  }

  ghost predicate BlamesFirst(e: nat, reports: Observations, err: UpdateError) {
    exists i :: 0 <= i < |reports| && FirstBad(e, reports, i) && err == ReportError(e, reports[i])
  }

  /** What is observed after the reports, later ones overwriting earlier ones. */
  function Overlaid(measure: Measure, freeFlow: seq<real>, len: seq<real>, before: seq<Option<real>>,
                    reports: Observations)
    : (after: seq<Option<real>>)
    requires |freeFlow| == |len| == |before| && AllGood(|before|, reports)
    ensures |after| == |before|
  {
    if reports == [] then before
    else
      var (e, x) := reports[|reports| - 1];
      var front := Overlaid(measure, freeFlow, len, before, reports[..|reports| - 1]);
      front[e := Some(Seconds(measure, freeFlow[e], len[e], x.r))]
  }

  function Unobserved(edges: nat): (obs: seq<Option<real>>)
    ensures |obs| == edges && forall e :: 0 <= e < edges ==> obs[e] == None
  {
    seq(edges, _ => None)
  }

  // ---------- one edge over time ----------

  /** What an update says about one edge. */
  datatype Event = Observed(seconds: real) | Blanket(factor: real) | Untouched

  /** The exponentially weighted average of the current value and an observation. */
  function Mix(a: real, c: real, x: real): real {
    (1.0 - a) * c + a * x
  }

  function Next(a: real, freeFlow: real, c: real, ev: Event): real {
    Max(match ev
        case Observed(x) => Mix(a, c, x)
        case Blanket(f) => freeFlow * f
        case Untouched => c,
        freeFlow)
  }

  function EventOf(observed: Option<real>, unobservedFactor: Option<real>): Event {
    if observed.Some? then Observed(observed.value)
    else if unobservedFactor.Some? then Blanket(unobservedFactor.value)
    else Untouched
  }

  /** The weight of an edge after a run of updates. */
  function Evolve(a: real, freeFlow: real, c: real, evs: seq<Event>): real {
    if evs == [] then c else Next(a, freeFlow, Evolve(a, freeFlow, c, evs[..|evs| - 1]), evs[|evs| - 1])
  }

  /** The travel time an event suggests. */
  function Suggested(freeFlow: real, c: real, ev: Event): real {
    match ev
    case Observed(x) => x
    case Blanket(f) => freeFlow * f
    case Untouched => c
  }

  lemma ProductNonNegative(x: real, y: real)
    requires x >= 0.0 && y >= 0.0
    ensures x * y >= 0.0
  {
  }

  lemma ProductOfDifference(k: real, x: real, y: real)
    ensures k * (x - y) == k * x - k * y
  {
  }

  lemma MixShift(a: real, c: real, x: real, hi: real)
    ensures hi - Mix(a, c, x) == (1.0 - a) * (hi - c) + a * (hi - x)
  {
    ProductOfDifference(1.0 - a, hi, c);
    ProductOfDifference(a, hi, x);
  }

  lemma MixAtMost(a: real, c: real, x: real, hi: real)
    requires 0.0 < a <= 1.0 && c <= hi && x <= hi
    ensures Mix(a, c, x) <= hi
  {
    MixShift(a, c, x, hi);
    ProductNonNegative(1.0 - a, hi - c);
    ProductNonNegative(a, hi - x);
  }

  lemma MixAtLeast(a: real, c: real, x: real, lo: real)
    requires 0.0 < a <= 1.0 && lo <= c && lo <= x
    ensures lo <= Mix(a, c, x)
  {
    MixShift(a, c, x, lo);
    ProductNonNegative(1.0 - a, c - lo);
    ProductNonNegative(a, x - lo);
    ProductOfDifference(1.0 - a, lo, c);
    ProductOfDifference(1.0 - a, c, lo);
    ProductOfDifference(a, lo, x);
    ProductOfDifference(a, x, lo);
  }

  /** Over any run a weight stays between free flow and the largest of free flow, its start, the
      observations and the blanket values. */
  lemma {:induction false} EvolveBounds(a: real, freeFlow: real, c: real, evs: seq<Event>, hi: real)
    requires 0.0 < a <= 1.0 && freeFlow <= c <= hi
    requires forall i :: 0 <= i < |evs| ==> Suggested(freeFlow, c, evs[i]) <= hi
    ensures freeFlow <= Evolve(a, freeFlow, c, evs) <= hi
  {
    hide Mix;
    if evs != [] {
      var front, ev := evs[..|evs| - 1], evs[|evs| - 1];
      EvolveBounds(a, freeFlow, c, front, hi);
      assert Suggested(freeFlow, c, ev) <= hi;
      if ev.Observed? { MixAtMost(a, Evolve(a, freeFlow, c, front), ev.seconds, hi); }
    }
  }

  /** How much of a difference survives an event: an observation keeps the share 1 - a, a blanket value
      keeps nothing. */
  function Survives(a: real, ev: Event): real {
    match ev
    case Observed(_) => 1.0 - a
    case Blanket(_) => 0.0
    case Untouched => 1.0
  }

  function SurvivesAll(a: real, evs: seq<Event>): (share: real)
    requires 0.0 < a <= 1.0
    ensures 0.0 <= share <= 1.0
  {
    if evs == [] then 1.0
    else
      var share := SurvivesAll(a, evs[..|evs| - 1]);
      UnitProduct(Survives(a, evs[|evs| - 1]), share);
      Survives(a, evs[|evs| - 1]) * share
  }

  lemma UnitProduct(x: real, y: real)
    requires 0.0 <= x <= 1.0 && 0.0 <= y <= 1.0
    ensures 0.0 <= x * y <= 1.0
  {
    ProductNonNegative(x, y);
    ProductNonNegative(1.0 - x, y);
    ProductOfDifference(y, 1.0, x);
  }

  function Gap(x: real, y: real): real {
    if x < y then y - x else x - y
  }

  lemma MixGap(a: real, c: real, d: real, x: real)
    requires 0.0 < a <= 1.0
    ensures Gap(Mix(a, c, x), Mix(a, d, x)) == (1.0 - a) * Gap(c, d)
  {
    ProductOfDifference(1.0 - a, c, d);
    ProductOfDifference(1.0 - a, d, c);
    if c < d { ProductNonNegative(1.0 - a, d - c); } else { ProductNonNegative(1.0 - a, c - d); }
  }

  /** One update, floor included, brings two weights of the same edge closer by the surviving share. */
  lemma NextContracts(a: real, freeFlow: real, c: real, d: real, ev: Event)
    requires 0.0 < a <= 1.0
    ensures Gap(Next(a, freeFlow, c, ev), Next(a, freeFlow, d, ev)) <= Survives(a, ev) * Gap(c, d)
  {
    hide Mix;
    if ev.Observed? { MixGap(a, c, d, ev.seconds); }
  }

  lemma ChainShares(k: real, p: real, start: real, before: real, after: real)
    requires k >= 0.0 && before <= p * start && after <= k * before
    ensures after <= (k * p) * start
  {
    ProductNonNegative(k, p * start - before);
    ProductOfDifference(k, p * start, before);
    Associate(k, p, start);
  }

  /** Two models fed the same updates of an edge forget their different starts geometrically. */
  lemma {:induction false} EvolveContracts(a: real, freeFlow: real, c: real, d: real, evs: seq<Event>)
    requires 0.0 < a <= 1.0
    ensures Gap(Evolve(a, freeFlow, c, evs), Evolve(a, freeFlow, d, evs)) <= SurvivesAll(a, evs) * Gap(c, d)
  {
    hide Next;
    hide Gap;
    if evs != [] {
      var front, ev := evs[..|evs| - 1], evs[|evs| - 1];
      EvolveContracts(a, freeFlow, c, d, front);
      var x, y := Evolve(a, freeFlow, c, front), Evolve(a, freeFlow, d, front);
      NextContracts(a, freeFlow, x, y, ev);
      ChainShares(Survives(a, ev), SurvivesAll(a, front), Gap(c, d), Gap(x, y),
                  Gap(Next(a, freeFlow, x, ev), Next(a, freeFlow, y, ev)));
    }
  }

  lemma Associate(x: real, y: real, z: real)
    ensures x * (y * z) == (x * y) * z
  {
  }

  function Pow(x: real, k: nat): real {
    if k == 0 then 1.0 else x * Pow(x, k - 1)
  }

  function Repeat(ev: Event, k: nat): (evs: seq<Event>)
    ensures |evs| == k && forall i :: 0 <= i < k ==> evs[i] == ev
  {
    seq(k, _ => ev)
  }

  /** A point that lies a share of a distance away from a target. */
  function Towards(target: real, share: real, distance: real): real {
    target + share * distance
  }

  lemma WholeDistance(x: real, target: real, distance: real)
    ensures Towards(target, Pow(x, 0), distance) == target + distance
  {
  }

  lemma MixPower(a: real, target: real, k: nat, d: real)
    requires k > 0
    ensures Mix(a, Towards(target, Pow(1.0 - a, k - 1), d), target) == Towards(target, Pow(1.0 - a, k), d)
  {
    MixStep(a, target, Pow(1.0 - a, k - 1), d);
  }

  /** The same observation k times: the weight approaches it, leaving (1-a)^k of the initial distance. */
  lemma {:induction false} ConstantObservation(a: real, freeFlow: real, c: real, target: real, k: nat)
    requires 0.0 < a <= 1.0 && freeFlow <= c && freeFlow <= target
    ensures Evolve(a, freeFlow, c, Repeat(Observed(target), k)) == Towards(target, Pow(1.0 - a, k), c - target)
    ensures freeFlow <= Evolve(a, freeFlow, c, Repeat(Observed(target), k))
  {
    hide Mix;
    hide Towards;
    hide Pow;
    if k == 0 {
      WholeDistance(1.0 - a, target, c - target);
    } else {
      var front := Repeat(Observed(target), k - 1);
      ConstantObservation(a, freeFlow, c, target, k - 1);
      assert Repeat(Observed(target), k)[..k - 1] == front;
      MixPower(a, target, k, c - target);
      MixAtLeast(a, Evolve(a, freeFlow, c, front), target, freeFlow);
    }
  }

  /** The same below free flow as well: the weight approaches the observation until the floor holds it. */
  lemma {:induction false} ConstantObservationFloored(a: real, freeFlow: real, c: real, target: real, k: nat)
    requires 0.0 < a <= 1.0 && freeFlow <= c
    ensures Evolve(a, freeFlow, c, Repeat(Observed(target), k))
         == Max(Towards(target, Pow(1.0 - a, k), c - target), freeFlow)
  {
    hide Mix;
    hide Towards;
    hide Pow;
    if target >= freeFlow {
      ConstantObservation(a, freeFlow, c, target, k);
    } else if k == 0 {
      WholeDistance(1.0 - a, target, c - target);
    } else {
      var front := Repeat(Observed(target), k - 1);
      var before := Towards(target, Pow(1.0 - a, k - 1), c - target);
      ConstantObservationFloored(a, freeFlow, c, target, k - 1);
      assert Repeat(Observed(target), k)[..k - 1] == front;
      MixPower(a, target, k, c - target);
      MixAtMost(a, freeFlow, target, freeFlow);
      if before < freeFlow { MixAtMost(a, before, target, freeFlow); }
    }
  }

  /** The same congestion factor f >= 1 k times: exactly f times free flow plus (1-a)^k of the initial
      distance from it. */
  lemma ConstantFactorClosedForm(a: real, freeFlow: real, c: real, f: real, k: nat)
    requires 0.0 < a <= 1.0 && 0.0 < freeFlow <= c && f >= 1.0
    ensures Evolve(a, freeFlow, c, Repeat(Observed(Seconds(Factor, freeFlow, 0.0, f)), k))
         == Towards(freeFlow * f, Pow(1.0 - a, k), c - freeFlow * f)
  {
    hide Evolve;
    hide Pow;
    hide Towards;
    FactorAboveFreeFlow(freeFlow, f);
    ConstantObservation(a, freeFlow, c, freeFlow * f, k);
  }

  lemma FactorAboveFreeFlow(freeFlow: real, f: real)
    requires freeFlow > 0.0 && f >= 1.0
    ensures freeFlow * f >= freeFlow
  {
    ProductNonNegative(freeFlow, f - 1.0);
    ProductOfDifference(freeFlow, f, 1.0);
  }

  lemma MixStep(a: real, target: real, p: real, d: real)
    ensures Mix(a, Towards(target, p, d), target) == Towards(target, (1.0 - a) * p, d)
  {
    ProductOfDifference(1.0 - a, Towards(target, p, d), target);
    Associate(1.0 - a, p, d);
  }

  // ---------- what reports mean ----------

  /** The last report about edge e is x. */
  ghost predicate LastSaid(reports: Observations, e: nat, x: real) {
    exists i :: 0 <= i < |reports| && reports[i] == (e, Finite(x)) && SilentAfter(reports, e, i)
  }

  ghost predicate SilentAfter(reports: Observations, e: nat, i: int) {
    forall k :: i < k < |reports| ==> 0 <= k && reports[k].0 != e
  }

  /** Nothing is reported about edge e. */
  ghost predicate Silent(reports: Observations, e: nat) {
    forall i :: 0 <= i < |reports| ==> reports[i].0 != e
  }

  /** At x kilometres per hour len metres take t seconds. */
  ghost predicate TakesAt(len: real, x: real, t: real) {
    t * x == 3.6 * len
  }

  /** Where an accepted update moves edge e. A factor report counts before a speed report and that before a
      reported time; of several reports of one kind the last counts; the blanket factor is for edges nobody
      reported, and without one these stay where they are. Nothing falls below free flow. */
  ghost predicate Moved(a: real, freeFlow: real, len: real, c: real, c': real, times: Observations,
                        speeds: Observations, factors: Observations, unobservedFactor: Option<Num>, e: nat)
  {
    && (forall f :: LastSaid(factors, e, f) ==> c' == Max(Mix(a, c, freeFlow * f), freeFlow))
    && (Silent(factors, e) ==>
         forall x, t :: LastSaid(speeds, e, x) && TakesAt(len, x, t) ==> c' == Max(Mix(a, c, t), freeFlow))
    && (Silent(factors, e) && Silent(speeds, e) ==>
         forall t :: LastSaid(times, e, t) ==> c' == Max(Mix(a, c, t), freeFlow))
    && (Silent(factors, e) && Silent(speeds, e) && Silent(times, e) ==>
         match unobservedFactor
         case Some(Finite(f)) => c' == Max(freeFlow * f, freeFlow)
         case _ => c' == Max(c, freeFlow))
  }

  lemma SecondsMean(measure: Measure, freeFlow: real, len: real, x: real, t: real)
    requires x > 0.0
    ensures measure == Time ==> Seconds(measure, freeFlow, len, x) == x
    ensures measure == Speed && TakesAt(len, x, t) ==> Seconds(measure, freeFlow, len, x) == t
    ensures measure == Factor ==> Seconds(measure, freeFlow, len, x) == freeFlow * x
  {
    if measure == Speed && TakesAt(len, x, t) {
      var u := x / 3.6;
      assert t * u == len;
      assert (len / u) * u == len;
      Cancel(t, len / u, u);
    }
  }

  lemma Cancel(x: real, y: real, u: real)
    requires u > 0.0 && x * u == y * u
    ensures x == y
  {
    assert (x * u) / u == x && (y * u) / u == y;
  }

  /** Reports of one kind leave the last one about each edge, and edges without one as they were. */
  lemma {:induction false} OverlaidMeans(measure: Measure, freeFlow: seq<real>, len: seq<real>,
                                         before: seq<Option<real>>, reports: Observations, e: nat, x: real)
    requires |freeFlow| == |len| == |before| && AllGood(|before|, reports) && e < |before|
    ensures Silent(reports, e) ==> Overlaid(measure, freeFlow, len, before, reports)[e] == before[e]
    ensures LastSaid(reports, e, x) ==>
      x > 0.0 && Overlaid(measure, freeFlow, len, before, reports)[e] == Some(Seconds(measure, freeFlow[e], len[e], x))
  {
    hide Seconds;
    if reports != [] {
      var n := |reports| - 1;
      var front, last := reports[..n], reports[n];
      assert GoodReport(|before|, last);
      OverlaidMeans(measure, freeFlow, len, before, front, e, x);
      if LastSaid(reports, e, x) {
        var i :| 0 <= i < |reports| && reports[i] == (e, Finite(x)) && SilentAfter(reports, e, i);
        if last.0 != e {
          assert front[i] == reports[i] && SilentAfter(front, e, i);
        }
      }
    }
  }

  // ---------- a run of updates ----------

  /** The weights after each update of a run: update k says evs[k][e] about edge e. */
  ghost predicate IsRun(a: real, freeFlow: seq<real>, history: seq<seq<real>>, evs: seq<seq<Event>>) {
    && |history| == |evs| + 1
    && (forall k :: 0 <= k < |history| ==> |history[k]| == |freeFlow|)
    && (forall k :: 0 <= k < |evs| ==> |evs[k]| == |freeFlow|)
    && (forall k, e :: 0 <= k < |evs| && 0 <= e < |freeFlow| ==>
          history[k + 1][e] == Next(a, freeFlow[e], history[k][e], evs[k][e]))
  }

  /** One more update, as `WeightModel.Update` performs it, continues the run. */
  lemma RunSnoc(a: real, freeFlow: seq<real>, history: seq<seq<real>>, evs: seq<seq<Event>>, next: seq<real>,
                said: seq<Event>)
    requires IsRun(a, freeFlow, history, evs) && |next| == |said| == |freeFlow|
    requires forall e :: 0 <= e < |freeFlow| ==> next[e] == Next(a, freeFlow[e], history[|evs|][e], said[e])
    ensures IsRun(a, freeFlow, history + [next], evs + [said])
  {
    hide Next;
  }

  /** What the first k updates of a run say about one edge. */
  ghost function EdgeEvents(evs: seq<seq<Event>>, e: nat, k: nat): (es: seq<Event>)
    requires k <= |evs| && forall i :: 0 <= i < |evs| ==> e < |evs[i]|
    ensures |es| == k && forall i :: 0 <= i < k ==> es[i] == evs[i][e]
  {
    seq(k, i requires 0 <= i < k => evs[i][e])
  }

  lemma {:induction false} RunEvolves(a: real, freeFlow: seq<real>, history: seq<seq<real>>, evs: seq<seq<Event>>,
                                      e: nat, k: nat)
    requires IsRun(a, freeFlow, history, evs) && e < |freeFlow| && k <= |evs|
    ensures history[k][e] == Evolve(a, freeFlow[e], history[0][e], EdgeEvents(evs, e, k))
  {
    hide Next;
    if k > 0 {
      RunEvolves(a, freeFlow, history, evs, e, k - 1);
      assert EdgeEvents(evs, e, k)[..k - 1] == EdgeEvents(evs, e, k - 1);
    }
  }

  /** Over a whole run every weight stays at or above free flow and at or below the largest of its start
      and what was ever said about that edge; so every snapshot may be queried. */
  lemma RunStaysInBounds(a: real, freeFlow: seq<real>, history: seq<seq<real>>, evs: seq<seq<Event>>,
                         e: nat, k: nat, hi: real)
    requires 0.0 < a <= 1.0 && IsRun(a, freeFlow, history, evs)
    requires e < |freeFlow| && k <= |evs| && freeFlow[e] <= history[0][e] <= hi
    requires SuggestedAtMost(freeFlow, evs, e, k, hi)
    ensures freeFlow[e] <= history[k][e] <= hi
  {
    RunEvolves(a, freeFlow, history, evs, e, k);
    var es := EdgeEvents(evs, e, k);
    forall i | 0 <= i < |es| ensures Suggested(freeFlow[e], history[0][e], es[i]) <= hi {
      assert es[i] == evs[i][e];
    }
    EvolveBounds(a, freeFlow[e], history[0][e], es, hi);
  }

  /** Nothing the first k updates said about edge e exceeds hi. */
  ghost predicate SuggestedAtMost(freeFlow: seq<real>, evs: seq<seq<Event>>, e: nat, k: nat, hi: real)
    requires k <= |evs| && e < |freeFlow| && forall i :: 0 <= i < |evs| ==> e < |evs[i]|
  {
    forall i :: 0 <= i < k && !evs[i][e].Untouched? ==> Suggested(freeFlow[e], hi, evs[i][e]) <= hi
  }

  /** Two models that saw the same updates of an edge forget their different starts geometrically, whatever
      else they saw elsewhere. */
  lemma RunsForgetTheirStarts(a: real, freeFlow: seq<real>, h: seq<seq<real>>, h': seq<seq<real>>,
                              evs: seq<seq<Event>>, evs': seq<seq<Event>>, e: nat, k: nat)
    requires 0.0 < a <= 1.0 && IsRun(a, freeFlow, h, evs) && IsRun(a, freeFlow, h', evs')
    requires e < |freeFlow| && k <= |evs| && k <= |evs'| && forall i :: 0 <= i < k ==> evs[i][e] == evs'[i][e]
    ensures Gap(h[k][e], h'[k][e]) <= SurvivesAll(a, EdgeEvents(evs, e, k)) * Gap(h[0][e], h'[0][e])
  {
    hide Next;
    hide Evolve;
    hide Gap;
    hide SurvivesAll;
    RunEvolves(a, freeFlow, h, evs, e, k);
    RunEvolves(a, freeFlow, h', evs', e, k);
    assert EdgeEvents(evs, e, k) == EdgeEvents(evs', e, k);
    EvolveContracts(a, freeFlow[e], h[0][e], h'[0][e], EdgeEvents(evs, e, k));
  }

  // ---------- the model ----------

  class WeightModel {
    const freeFlow: seq<real>
    const len: seq<real>
    const smoothing: real
    var current: array<real>
    var epochId: nat

    ghost predicate Valid()
      reads this, current
    {
      && 0.0 < smoothing <= 1.0
      && current.Length == |freeFlow| == |len|
      && (forall e :: 0 <= e < |freeFlow| ==> 0.0 < freeFlow[e] <= current[e])
    }

    constructor (g: Graph, smoothing: real)
      requires g.WellFormed() && 0.0 < smoothing <= 1.0
      ensures Valid() && fresh(current)
      ensures freeFlow == g.freeFlow && len == g.len && this.smoothing == smoothing
      ensures current[..] == g.freeFlow && epochId == 0
    {
      freeFlow, len, this.smoothing := g.freeFlow, g.len, smoothing;
      current := new real[|g.freeFlow|](e requires 0 <= e < |g.freeFlow| => g.freeFlow[e]);
      epochId := 0;
      new;
      assert current[..] == g.freeFlow;
    }

    /** A snapshot owns its copy of the values. */
    method MakeEpoch(values: seq<real>, id: nat, source: string) returns (epoch: Epoch)
      ensures fresh(epoch.travelTime) && epoch.travelTime[..] == values && epoch.id == id && epoch.source == source
    {
      var arr := new real[|values|](e requires 0 <= e < |values| => values[e]);
      assert arr[..] == values;
      epoch := Epoch(id, arr, source);
    }

    method FreeFlowEpoch() returns (epoch: Epoch)
      ensures fresh(epoch.travelTime) && epoch.travelTime[..] == freeFlow && epoch.id == 0
    {
      epoch := MakeEpoch(freeFlow, 0, "free_flow");
    }

    method CurrentEpoch() returns (epoch: Epoch)
      ensures fresh(epoch.travelTime) && epoch.travelTime[..] == current[..] && epoch.id == epochId
    {
      epoch := MakeEpoch(current[..], epochId, "current");
    }

    /** The three sources of observations together. */
    ghost function ObservedBy(times: Observations, speeds: Observations,
                              factors: Observations): (obs: seq<Option<real>>)
      requires |freeFlow| == |len|
      requires AllGood(|freeFlow|, times) && AllGood(|freeFlow|, speeds) && AllGood(|freeFlow|, factors)
      ensures |obs| == |freeFlow|
    {
      Overlaid(Factor, freeFlow, len,
        Overlaid(Speed, freeFlow, len, Overlaid(Time, freeFlow, len, Unobserved(|freeFlow|), times), speeds), factors)
    }

    /** What the three sources together say about edge e. */
    lemma ObservedMeans(times: Observations, speeds: Observations, factors: Observations, e: nat, x: real, t: real)
      requires |freeFlow| == |len| && e < |freeFlow|
      requires AllGood(|freeFlow|, times) && AllGood(|freeFlow|, speeds) && AllGood(|freeFlow|, factors)
      ensures var seen := ObservedBy(times, speeds, factors)[e];
        && (LastSaid(factors, e, x) ==> seen == Some(freeFlow[e] * x))
        && (Silent(factors, e) && LastSaid(speeds, e, x) && TakesAt(len[e], x, t) ==> seen == Some(t))
        && (Silent(factors, e) && Silent(speeds, e) && LastSaid(times, e, x) ==> seen == Some(x))
        && (Silent(factors, e) && Silent(speeds, e) && Silent(times, e) ==> seen == None)
    {
      hide Seconds;
      hide LastSaid;
      hide Silent;
      hide Overlaid;
      hide AllGood;
      var none := Unobserved(|freeFlow|);
      var timed := Overlaid(Time, freeFlow, len, none, times);
      var sped := Overlaid(Speed, freeFlow, len, timed, speeds);
      OverlaidMeans(Time, freeFlow, len, none, times, e, x);
      OverlaidMeans(Speed, freeFlow, len, timed, speeds, e, x);
      OverlaidMeans(Factor, freeFlow, len, sped, factors, e, x);
      assert ObservedBy(times, speeds, factors) == Overlaid(Factor, freeFlow, len, sped, factors);
      if x > 0.0 {
        SecondsMean(Time, freeFlow[e], len[e], x, t);
        SecondsMean(Speed, freeFlow[e], len[e], x, t);
        SecondsMean(Factor, freeFlow[e], len[e], x, t);
        assert Seconds(Factor, freeFlow[e], len[e], x) == freeFlow[e] * x;
        assert LastSaid(factors, e, x) ==> ObservedBy(times, speeds, factors)[e] == Some(freeFlow[e] * x);
      }
    }

    /** The blend of what the three sources report is where the edge should move. */
    lemma BlendMoves(times: Observations, speeds: Observations, factors: Observations, unobservedFactor: Option<Num>,
                     c: real, e: nat)
      requires |freeFlow| == |len| && e < |freeFlow|
      requires AllGood(|freeFlow|, times) && AllGood(|freeFlow|, speeds) && AllGood(|freeFlow|, factors)
      ensures Moved(smoothing, freeFlow[e], len[e], c,
                    Next(smoothing, freeFlow[e], c,
                         EventOf(ObservedBy(times, speeds, factors)[e], BlanketFactor(unobservedFactor))),
                    times, speeds, factors, unobservedFactor, e)
    {
      hide ObservedBy;
      hide AllGood;
      hide LastSaid;
      hide Silent;
      hide TakesAt;
      hide Mix;
      forall f | LastSaid(factors, e, f) ensures ObservedBy(times, speeds, factors)[e] == Some(freeFlow[e] * f) {
        ObservedMeans(times, speeds, factors, e, f, 0.0);
      }
      forall x, t | Silent(factors, e) && LastSaid(speeds, e, x) && TakesAt(len[e], x, t)
        ensures ObservedBy(times, speeds, factors)[e] == Some(t)
      {
        ObservedMeans(times, speeds, factors, e, x, t);
      }
      forall t | Silent(factors, e) && Silent(speeds, e) && LastSaid(times, e, t)
        ensures ObservedBy(times, speeds, factors)[e] == Some(t)
      {
        ObservedMeans(times, speeds, factors, e, t, 0.0);
      }
      ObservedMeans(times, speeds, factors, e, 0.0, 0.0);
    }

    method Fold(observed: array<Option<real>>, measure: Measure, reports: Observations)
      returns (problem: Option<UpdateError>)
      requires |freeFlow| == |len| == observed.Length
      modifies observed
      ensures problem.None? <==> AllGood(|freeFlow|, reports)
      ensures problem.None? ==> observed[..] == Overlaid(measure, freeFlow, len, old(observed[..]), reports)
      ensures problem.Some? ==> BlamesFirst(|freeFlow|, reports, problem.value)
    {
      for i := 0 to |reports|
        invariant AllGood(|freeFlow|, reports[..i])
        invariant observed[..] == Overlaid(measure, freeFlow, len, old(observed[..]), reports[..i])
      {
        assert reports[..i + 1][..i] == reports[..i];
        var (e, x) := reports[i];
        if !GoodReport(|freeFlow|, reports[i]) {
          assert FirstBad(|freeFlow|, reports, i);
          return Some(ReportError(|freeFlow|, reports[i]));
        }
        assert AllGood(|freeFlow|, reports[..i + 1]);
        observed[e] := Some(Seconds(measure, freeFlow[e], len[e], x.r));
      }
      assert reports[..|reports|] == reports;
      problem := None;
    }

    /** `update`. A rejected update changes nothing. An accepted one moves every edge by the blend rule,
        in fresh arrays: no snapshot handed out before is written to. */
    method Update(times: Observations, speeds: Observations, factors: Observations, unobservedFactor: Option<Num>,
                  source: string)
      returns (r: Result<Epoch, UpdateError>)
      requires Valid()
      modifies this
      ensures Valid()
      ensures r.Success? <==>
        && AllGood(|freeFlow|, times) && AllGood(|freeFlow|, speeds) && AllGood(|freeFlow|, factors)
        && (unobservedFactor.Some? ==> Positive(unobservedFactor.value))
      ensures r.Failure? ==> current == old(current) && epochId == old(epochId)
      ensures r.Failure? ==> Complains(|freeFlow|, times, speeds, factors, r.error)
      ensures r.Success? ==>
        && fresh(current) && fresh(r.value.travelTime) && current != r.value.travelTime
        && epochId == old(epochId) + 1 && r.value.id == epochId && r.value.source == source
        && r.value.travelTime[..] == current[..]
        && (forall e :: 0 <= e < |freeFlow| ==>
              current[e] == Next(smoothing, freeFlow[e], old(current[e]),
                                 EventOf(ObservedBy(times, speeds, factors)[e], BlanketFactor(unobservedFactor))))
      ensures r.Success? ==> forall e: nat :: e < |freeFlow| ==>
        Moved(smoothing, freeFlow[e], len[e], old(current[e]), current[e], times, speeds, factors, unobservedFactor, e)
    {
      var observed := new Option<real>[|freeFlow|](_ => None);
      assert observed[..] == Unobserved(|freeFlow|);
      var problem := Fold(observed, Time, times);
      if problem.Some? { return Failure(problem.value); }
      problem := Fold(observed, Speed, speeds);
      if problem.Some? { return Failure(problem.value); }
      problem := Fold(observed, Factor, factors);
      if problem.Some? { return Failure(problem.value); }
      if unobservedFactor.Some? && !Positive(unobservedFactor.value) {
        return Failure(BadUnobservedFactor);
      }
      var new_ := Blend(observed, BlanketFactor(unobservedFactor));
      forall e: nat | e < |freeFlow|
        ensures Moved(smoothing, freeFlow[e], len[e], current[e], new_[e], times, speeds, factors, unobservedFactor, e)
      {
        BlendMoves(times, speeds, factors, unobservedFactor, current[e], e);
      }
      current := new_;
      epochId := epochId + 1;
      var epoch := MakeEpoch(new_[..], epochId, source);
      r := Success(epoch);
    }

    /** The vectorised body: blend what was observed, fill what was not, floor everything. */
    method Blend(observed: array<Option<real>>, unobservedFactor: Option<real>) returns (new_: array<real>)
      requires Valid() && observed.Length == |freeFlow|
      ensures fresh(new_) && new_.Length == |freeFlow|
      ensures (forall e :: 0 <= e < |freeFlow| ==>
                new_[e] == Next(smoothing, freeFlow[e], current[e], EventOf(observed[e], unobservedFactor)))
    {
      new_ := new real[|freeFlow|];
      for e := 0 to |freeFlow|
        invariant (forall x :: 0 <= x < e ==>
                    new_[x] == Next(smoothing, freeFlow[x], current[x], EventOf(observed[x], unobservedFactor)))
      {
        var value := current[e];
        if observed[e].Some? {
          value := Mix(smoothing, current[e], observed[e].value);
        } else if unobservedFactor.Some? {
          value := freeFlow[e] * unobservedFactor.value;
        }
        new_[e] := Max(value, freeFlow[e]);
      }
    }
  }

  // ---------- a model in use ----------

  /** The arguments of one update. */
  datatype Batch = Batch(times: Observations, speeds: Observations, factors: Observations,
                         unobservedFactor: Option<Num>, source: string)
  {
    predicate Accepted(edges: nat) {
      && AllGood(edges, times) && AllGood(edges, speeds) && AllGood(edges, factors)
      && (unobservedFactor.Some? ==> Positive(unobservedFactor.value))
    }
  }

  /** What an accepted batch says about each edge. */
  ghost function BatchEvents(m: WeightModel, b: Batch): (said: seq<Event>)
    requires |m.freeFlow| == |m.len| && b.Accepted(|m.freeFlow|)
    ensures |said| == |m.freeFlow|
    ensures forall e :: 0 <= e < |said| ==>
      said[e] == EventOf(m.ObservedBy(b.times, b.speeds, b.factors)[e], BlanketFactor(b.unobservedFactor))
  {
    seq(|m.freeFlow|, e requires 0 <= e < |m.freeFlow| =>
      EventOf(m.ObservedBy(b.times, b.speeds, b.factors)[e], BlanketFactor(b.unobservedFactor)))
  }

  /** What the accepted ones among the batches say, in order. */
  ghost function AllEvents(m: WeightModel, batches: seq<Batch>): (evs: seq<seq<Event>>)
    requires |m.freeFlow| == |m.len|
    ensures forall k :: 0 <= k < |evs| ==> |evs[k]| == |m.freeFlow|
  {
    if batches == [] then []
    else
      var b := batches[|batches| - 1];
      AllEvents(m, batches[..|batches| - 1]) + if b.Accepted(|m.freeFlow|) then [BatchEvents(m, b)] else []
  }

  /** The epochs hold the states of the history after its start, numbered consecutively. */
  ghost predicate Snapshots(epochs: seq<Epoch>, history: seq<seq<real>>, firstId: nat)
    reads set ep | ep in epochs :: ep.travelTime
  {
    && |epochs| + 1 == |history|
    && forall k :: 0 <= k < |epochs| ==>
         epochs[k].travelTime[..] == history[k + 1] && epochs[k].id == firstId + k + 1
  }

  /** A model fed one batch after the other. The accepted ones make a run, and at the end every epoch handed
      out on the way still holds the weights of its moment. */
  method Replay(m: WeightModel, batches: seq<Batch>) returns (epochs: seq<Epoch>, ghost history: seq<seq<real>>)
    requires m.Valid()
    modifies m
    ensures m.Valid() && fresh(set ep | ep in epochs :: ep.travelTime)
    ensures IsRun(m.smoothing, m.freeFlow, history, AllEvents(m, batches))
    ensures history[0] == old(m.current[..]) && history[|history| - 1] == m.current[..]
    ensures Snapshots(epochs, history, old(m.epochId))
  {
    hide Moved;
    epochs, history := [], [m.current[..]];
    for i := 0 to |batches|
      invariant m.Valid() && m.epochId == old(m.epochId) + |epochs|
      invariant fresh(set ep | ep in epochs :: ep.travelTime)
      invariant forall ep :: ep in epochs ==> ep.travelTime != m.current
      invariant IsRun(m.smoothing, m.freeFlow, history, AllEvents(m, batches[..i]))
      invariant history[0] == old(m.current[..]) && history[|history| - 1] == m.current[..]
      invariant Snapshots(epochs, history, old(m.epochId))
    {
      var b := batches[i];
      ghost var evs := AllEvents(m, batches[..i]);
      assert batches[..i + 1][..i] == batches[..i];
      ghost var before := m.current[..];
      var r := m.Update(b.times, b.speeds, b.factors, b.unobservedFactor, b.source);
      if r.Success? {
        ghost var next, said := m.current[..], BatchEvents(m, b);
        RunSnoc(m.smoothing, m.freeFlow, history, evs, next, said);
        epochs, history := epochs + [r.value], history + [next];
      }
    }
    assert batches[..|batches|] == batches;
  }

  /** Every epoch of a replay therefore lies between free flow and what was ever said about each edge. */
  lemma ReplayInBounds(m: WeightModel, batches: seq<Batch>, epochs: seq<Epoch>, history: seq<seq<real>>, firstId: nat,
                       k: nat, e: nat, hi: real)
    requires m.Valid() && IsRun(m.smoothing, m.freeFlow, history, AllEvents(m, batches))
    requires Snapshots(epochs, history, firstId) && k < |epochs| && e < |m.freeFlow|
    requires m.freeFlow[e] <= history[0][e] <= hi
    requires SuggestedAtMost(m.freeFlow, AllEvents(m, batches), e, k + 1, hi)
    ensures epochs[k].travelTime.Length == |m.freeFlow|
    ensures m.freeFlow[e] <= epochs[k].travelTime[e] <= hi
  {
    RunStaysInBounds(m.smoothing, m.freeFlow, history, AllEvents(m, batches), e, k + 1, hi);
    assert epochs[k].travelTime[..][e] == history[k + 1][e];
  }

  lemma BatchObserves(m: WeightModel, b: Batch, e: nat, x: real, t: real)
    requires |m.freeFlow| == |m.len| && b.Accepted(|m.freeFlow|) && e < |m.freeFlow|
    requires Silent(b.factors, e) && LastSaid(b.speeds, e, x) && TakesAt(m.len[e], x, t)
    ensures BatchEvents(m, b)[e] == Observed(t)
  {
    m.ObservedMeans(b.times, b.speeds, b.factors, e, x, t);
  }

  /** Every batch is accepted and its last word on edge e is the speed x. */
  ghost predicate AllReportSpeed(m: WeightModel, batches: seq<Batch>, e: nat, x: real) {
    forall b :: b in batches ==>
      b.Accepted(|m.freeFlow|) && Silent(b.factors, e) && LastSaid(b.speeds, e, x)
  }

  lemma {:induction false} SpeedEvents(m: WeightModel, batches: seq<Batch>, e: nat, x: real, t: real)
    requires |m.freeFlow| == |m.len| && e < |m.freeFlow| && TakesAt(m.len[e], x, t)
    requires AllReportSpeed(m, batches, e, x)
    ensures |AllEvents(m, batches)| == |batches|
    ensures forall k :: 0 <= k < |batches| ==> AllEvents(m, batches)[k][e] == Observed(t)
  {
    hide TakesAt;
    hide LastSaid;
    hide Silent;
    if batches != [] {
      var b := batches[|batches| - 1];
      assert b in batches;
      SpeedEvents(m, batches[..|batches| - 1], e, x, t);
      BatchObserves(m, b, e, x, t);
    }
  }

  /** An edge that is reported at the same speed x in every one of k batches: its weight is t + (1-a)^k times the
      initial distance from t, for the t seconds the edge takes at that speed, but never below free flow. */
  lemma ConstantSpeedClosedForm(m: WeightModel, batches: seq<Batch>, history: seq<seq<real>>, e: nat, x: real, t: real)
    requires m.Valid() && IsRun(m.smoothing, m.freeFlow, history, AllEvents(m, batches))
    requires e < |m.freeFlow| && m.freeFlow[e] <= history[0][e]
    requires AllReportSpeed(m, batches, e, x) && TakesAt(m.len[e], x, t)
    ensures |history| == |batches| + 1
    ensures var k := |batches|;
      history[k][e] == Max(Towards(t, Pow(1.0 - m.smoothing, k), history[0][e] - t), m.freeFlow[e])
  {
    hide Evolve;
    hide Towards;
    hide Pow;
    hide AllReportSpeed;
    var evs := AllEvents(m, batches);
    SpeedEvents(m, batches, e, x, t);
    RunEvolves(m.smoothing, m.freeFlow, history, evs, e, |batches|);
    assert EdgeEvents(evs, e, |batches|) == Repeat(Observed(t), |batches|);
    ConstantObservationFloored(m.smoothing, m.freeFlow[e], history[0][e], t, |batches|);
  }

  /** What batches say depends on the road graph alone. */
  lemma {:induction false} EventsAgree(m: WeightModel, m': WeightModel, batches: seq<Batch>)
    requires m.freeFlow == m'.freeFlow && m.len == m'.len && |m.freeFlow| == |m.len|
    ensures AllEvents(m, batches) == AllEvents(m', batches)
  {
    if batches != [] {
      var b := batches[|batches| - 1];
      EventsAgree(m, m', batches[..|batches| - 1]);
      if b.Accepted(|m.freeFlow|) { assert BatchEvents(m, b) == BatchEvents(m', b); }
    }
  }

  /** Two models of the same roads, replaying the same batches from different starts, end the closer together
      the more they were told. */
  lemma ReplaysForgetTheirStarts(m: WeightModel, m': WeightModel, batches: seq<Batch>, h: seq<seq<real>>,
                                 h': seq<seq<real>>, e: nat)
    requires m.Valid() && m'.Valid()
    requires m.freeFlow == m'.freeFlow && m.len == m'.len && m.smoothing == m'.smoothing && e < |m.freeFlow|
    requires IsRun(m.smoothing, m.freeFlow, h, AllEvents(m, batches))
    requires IsRun(m'.smoothing, m'.freeFlow, h', AllEvents(m', batches))
    ensures |h| == |h'| == |AllEvents(m, batches)| + 1
    ensures var n := |h| - 1;
      Gap(h[n][e], h'[n][e])
        <= SurvivesAll(m.smoothing, EdgeEvents(AllEvents(m, batches), e, n)) * Gap(h[0][e], h'[0][e])
  {
    hide Next;
    hide Gap;
    hide SurvivesAll;
    hide AllEvents;
    EventsAgree(m, m', batches);
    var evs := AllEvents(m, batches);
    RunsForgetTheirStarts(m.smoothing, m.freeFlow, h, h', evs, evs, e, |evs|);
  }

  function BlanketFactor(f: Option<Num>): Option<real> {
    if f.Some? && f.value.Finite? then Some(f.value.r) else None
  }

  /** Travel times at or above free flow, which is what every snapshot holds, may be queried. */
  lemma EpochIsWeighting(g: Graph, w: seq<real>)
    requires g.WellFormed() && Pointwise(g.freeFlow, w)
    ensures IsWeighting(g, g.freeFlow) && IsWeighting(g, w)
  {
    forall e | 0 <= e < |w| ensures w[e] >= 0.0 {
      assert g.freeFlow[e] <= w[e];
    }
  }

  /** No trip is faster in any snapshot than at free flow. */
  lemma NoEpochBeatsFreeFlow(g: Graph, w: seq<real>, free: RoadMatrix, m: RoadMatrix, i: nat, j: nat)
    requires g.Valid() && Pointwise(g.freeFlow, w) && IsWeighting(g, g.freeFlow) && IsWeighting(g, w)
    requires IsMatrix(g, g.freeFlow, free) && IsMatrix(g, w, m)
    requires free.nodes == m.nodes && i < |m.nodes| && j < |m.nodes|
    ensures free.time[i][j] <= m.time[i][j]
  {
    MatrixMonotoneInTraffic(g, g.freeFlow, w, free, m, i, j);
  }
}
