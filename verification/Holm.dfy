/** Holm's step-down adjustment of p-values. */
module Holm {
  import opened Base
  import opened Sorting

  /** A sort of the p-values; ties may come in any order. */
  ghost predicate IsRanking(p: seq<real>, order: seq<nat>) {
    && IsPermutation(order, |p|)
    && forall r, q :: 0 <= r < q < |order| ==> p[order[r]] <= p[order[q]]
  }

  ghost predicate IsPValues(p: seq<real>) {
    forall i :: 0 <= i < |p| ==> 0.0 <= p[i] <= 1.0
  }

  /** The term of rank r in a sorted list: the p-value times the number of hypotheses still open. */
  function Term(sorted: seq<real>, r: nat): real
    requires r < |sorted|
  {
    (|sorted| - r) as real * sorted[r]
  }

  lemma TermOf(p: seq<real>, order: seq<nat>, r: nat)
    requires IsPermutation(order, |p|) && r < |p|
    ensures Term(Gather(p, order), r) == (|p| - r) as real * p[order[r]]
  {
  }

  /** The largest term up to and including rank r. */
  function Running(sorted: seq<real>, r: nat): real
    requires r < |sorted|
  {
    Max(if r == 0 then 0.0 else Running(sorted, r - 1), Term(sorted, r))
  }

  function Capped(x: real): real {
    if x < 1.0 then x else 1.0
  }

  /** The adjusted value of each p-value, at its own place. */
  ghost predicate IsAdjustment(p: seq<real>, order: seq<nat>, adjusted: seq<real>)
    requires IsPermutation(order, |p|)
  {
    FilledUpTo(p, order, adjusted, |p|)
  }

  /** The first n ranks have been written. */
  ghost predicate FilledUpTo(p: seq<real>, order: seq<nat>, adjusted: seq<real>, n: nat)
    requires IsPermutation(order, |p|) && n <= |p|
  {
    && |adjusted| == |p|
    && forall r: nat :: r < n ==> adjusted[order[r]] == Capped(Running(Gather(p, order), r))
  }

  lemma NothingFilled(p: seq<real>, order: seq<nat>, adjusted: seq<real>)
    requires IsPermutation(order, |p|) && |adjusted| == |p|
    ensures FilledUpTo(p, order, adjusted, 0)
  {
  }

  lemma FillNext(p: seq<real>, order: seq<nat>, adjusted: seq<real>, n: nat)
    requires IsPermutation(order, |p|) && n < |p| && FilledUpTo(p, order, adjusted, n)
    ensures FilledUpTo(p, order, adjusted[order[n] := Capped(Running(Gather(p, order), n))], n + 1)
  {
    hide Running;
    forall r: nat | r < n ensures order[r] != order[n] {
    }
  }

  /** `holm_bonferroni`, for whatever order the sort produced. */
  method HolmBonferroni(p: seq<real>, order: seq<nat>) returns (adjusted: array<real>)
    requires IsRanking(p, order)
    ensures fresh(adjusted) && IsAdjustment(p, order, adjusted[..])
  {
    hide Term;
    hide FilledUpTo;
    var m := |p|;
    adjusted := new real[m](_ => 0.0);
    var running := 0.0;
    ghost var sorted := Gather(p, order);
    NothingFilled(p, order, adjusted[..]);
    for rank := 0 to m
      invariant running == if rank == 0 then 0.0 else Running(sorted, rank - 1)
      invariant FilledUpTo(p, order, adjusted[..], rank)
    {
      var idx := order[rank];
      TermOf(p, order, rank);
      FillNext(p, order, adjusted[..], rank);
      running := Max(running, (m - rank) as real * p[idx]);
      ghost var before := adjusted[..];
      adjusted[idx] := Capped(running);
      assert adjusted[..] == before[idx := Capped(running)];
    }
  }

  // ---------- the running maximum ----------

  lemma {:induction false} RunningCovers(sorted: seq<real>, r: nat, q: nat)
    requires q <= r < |sorted|
    ensures Term(sorted, q) <= Running(sorted, r) && Running(sorted, q) <= Running(sorted, r)
    decreases r
  {
    hide Term;
    if q < r { RunningCovers(sorted, r - 1, q); }
  }

  lemma {:induction false} RunningBelow(sorted: seq<real>, r: nat, alpha: real)
    requires r < |sorted|
    ensures Running(sorted, r) < alpha <==> alpha > 0.0 && forall q: nat :: q <= r ==> Term(sorted, q) < alpha
    decreases r
  {
    hide Term;
    if r > 0 { RunningBelow(sorted, r - 1, alpha); }
  }

  lemma TermAtLeast(sorted: seq<real>, r: nat)
    requires r < |sorted| && sorted[r] >= 0.0
    ensures Term(sorted, r) >= sorted[r]
  {
    Grows((|sorted| - r) as real, 1.0, sorted[r]);
  }

  lemma Grows(k: real, l: real, x: real)
    requires k >= l && x >= 0.0
    ensures k * x >= l * x
  {
  }

  /** Inside a block of equal p-values the first term is the largest, so the running maximum stays. */
  lemma {:induction false} RunningConstantOnTies(sorted: seq<real>, r: nat, q: nat)
    requires r <= q < |sorted| && sorted[r] == sorted[q] && sorted[r] >= 0.0
    requires forall i, j :: 0 <= i < j < |sorted| ==> sorted[i] <= sorted[j]
    ensures Running(sorted, r) == Running(sorted, q)
    decreases q
  {
    hide Term;
    if r < q {
      assert sorted[r] <= sorted[q - 1] <= sorted[q];
      RunningConstantOnTies(sorted, r, q - 1);
      TermShrinks(sorted, r, q);
      RunningCovers(sorted, q - 1, r);
    }
  }

  lemma TermShrinks(sorted: seq<real>, r: nat, q: nat)
    requires r <= q < |sorted| && sorted[r] == sorted[q] && sorted[r] >= 0.0
    ensures Term(sorted, q) <= Term(sorted, r)
  {
    Grows((|sorted| - r) as real, (|sorted| - q) as real, sorted[r]);
  }

  lemma HeadsAgree(a: seq<real>, b: seq<real>)
    requires multiset(a) == multiset(b) && a != []
    requires forall i, j :: 0 <= i < j < |a| ==> a[i] <= a[j]
    requires forall i, j :: 0 <= i < j < |b| ==> b[i] <= b[j]
    ensures b != [] && a[0] == b[0]
  {
    assert a[0] in multiset(b);
    assert b[0] in multiset(a);
  }

  /** Two sorted lists with the same elements are the same list. */
  lemma {:induction false} SortedAgree(a: seq<real>, b: seq<real>)
    requires multiset(a) == multiset(b)
    requires forall i, j :: 0 <= i < j < |a| ==> a[i] <= a[j]
    requires forall i, j :: 0 <= i < j < |b| ==> b[i] <= b[j]
    ensures a == b
    decreases |a|
  {
    if |a| == 0 {
      assert |multiset(a)| == |multiset(b)|;
    } else {
      HeadsAgree(a, b);
      TailElements(a);
      TailElements(b);
      SortedAgree(a[1..], b[1..]);
    }
  }

  /** The sorted p-values do not depend on how the sort broke ties. */
  lemma SortedValuesUnique(p: seq<real>, a: seq<nat>, b: seq<nat>)
    requires IsRanking(p, a) && IsRanking(p, b)
    ensures Gather(p, a) == Gather(p, b)
  {
    PermutationKeepsElements(p, a);
    PermutationKeepsElements(p, b);
    SortedAgree(Gather(p, a), Gather(p, b));
  }

  lemma RankOf(order: seq<nat>, n: nat, i: nat) returns (r: nat)
    requires IsPermutation(order, n) && i < n
    ensures r < n && order[r] == i
  {
    PermutationReaches(order, n);
    assert i in order;
    r :| r < n && order[r] == i;
  }

  // ---------- what the adjustment guarantees ----------

  /** Adjusted values lie between the p-value and 1. */
  lemma AdjustedBounds(p: seq<real>, order: seq<nat>, adjusted: seq<real>, i: nat)
    requires IsPValues(p) && IsRanking(p, order) && IsAdjustment(p, order, adjusted) && i < |p|
    ensures p[i] <= adjusted[i] <= 1.0
  {
    var r := RankOf(order, |p|, i);
    TermAtLeast(Gather(p, order), r);
    RunningCovers(Gather(p, order), r, r);
  }

  /** The adjustment keeps the order of the p-values, equal ones staying equal, even between the results
      of two sorts that broke ties differently. */
  lemma AdjustedMonotone(p: seq<real>, a: seq<nat>, b: seq<nat>, x: seq<real>, y: seq<real>, i: nat, j: nat)
    requires IsPValues(p) && IsRanking(p, a) && IsRanking(p, b)
    requires IsAdjustment(p, a, x) && IsAdjustment(p, b, y)
    requires i < |p| && j < |p| && p[i] <= p[j]
    ensures x[i] <= y[j]
  {
    SortedValuesUnique(p, a, b);
    var sorted := Gather(p, a);
    var r := RankOf(a, |p|, i);
    var q := RankOf(b, |p|, j);
    if r <= q {
      RunningCovers(sorted, q, r);
    } else {
      assert sorted[q] <= sorted[r];
      RunningConstantOnTies(sorted, q, r);
    }
  }

  /** The result does not depend on how the sort broke ties. */
  lemma TiesDoNotMatter(p: seq<real>, a: seq<nat>, b: seq<nat>, x: seq<real>, y: seq<real>)
    requires IsPValues(p) && IsRanking(p, a) && IsRanking(p, b)
    requires IsAdjustment(p, a, x) && IsAdjustment(p, b, y)
    ensures x == y
  {
    forall i | 0 <= i < |p| ensures x[i] == y[i] {
      AdjustedMonotone(p, a, b, x, y, i, i);
      AdjustedMonotone(p, b, a, y, x, i, i);
    }
  }

  /** The significance flag is the step-down test: the hypothesis of rank r is rejected exactly when
      every hypothesis up to rank r passes its own threshold. */
  lemma SignificantMeansStepDown(p: seq<real>, order: seq<nat>, adjusted: seq<real>, r: nat, alpha: real)
    requires IsPValues(p) && IsRanking(p, order) && IsAdjustment(p, order, adjusted) && r < |p| && alpha <= 1.0
    ensures adjusted[order[r]] < alpha <==> forall q: nat :: q <= r ==> (|p| - q) as real * p[order[q]] < alpha
  {
    hide Term;
    hide Running;
    var sorted := Gather(p, order);
    RunningBelow(sorted, r, alpha);
    TermAtLeast(sorted, 0);
    forall q: nat | q <= r ensures Term(sorted, q) == (|p| - q) as real * p[order[q]] {
      TermOf(p, order, q);
    }
  }
}
