/** Directed walks, their weight, and shortest-path costs as a quasi-metric. */
module Walks {
  import opened Base
  import opened RoadGraph

  /** p is a connected directed walk from s to t, given by its edges. */
  ghost predicate IsWalk(g: Graph, s: nat, t: nat, p: seq<nat>)
    requires g.WellFormed()
    decreases |p|
  {
    if p == [] then s == t
    else
      var e := p[|p| - 1];
      e < g.E() && g.dst[e] == t && IsWalk(g, s, g.src[e], p[..|p| - 1])
  }

  function At(w: seq<real>, e: nat): real {
    if e < |w| then w[e] else 0.0
  }

  /** The sum of a per-edge quantity along a walk: seconds for weights, metres for lengths. */
  function Sum(w: seq<real>, p: seq<nat>): real {
    if p == [] then 0.0 else Sum(w, p[..|p| - 1]) + At(w, p[|p| - 1])
  }

  ghost predicate NonNegative(w: seq<real>) {
    forall e :: 0 <= e < |w| ==> w[e] >= 0.0
  }

  /** Weights a query may use: one non-negative number per edge. */
  ghost predicate IsWeighting(g: Graph, w: seq<real>) {
    |w| == g.E() && NonNegative(w)
  }

  lemma {:induction false} SumNonNegative(w: seq<real>, p: seq<nat>)
    requires NonNegative(w)
    ensures Sum(w, p) >= 0.0
  {
    if p != [] { SumNonNegative(w, p[..|p| - 1]); }
  }

  lemma {:induction false} WalkAppend(g: Graph, w: seq<real>, s: nat, u: nat, t: nat, p: seq<nat>, q: seq<nat>)
    requires g.WellFormed() && IsWalk(g, s, u, p) && IsWalk(g, u, t, q)
    ensures IsWalk(g, s, t, p + q)
    ensures Sum(w, p + q) == Sum(w, p) + Sum(w, q)
    decreases |q|
  {
    if q == [] {
      assert p + q == p;
    } else {
      var e := q[|q| - 1];
      WalkAppend(g, w, s, u, g.src[e], p, q[..|q| - 1]);
      assert (p + q)[..|p + q| - 1] == p + q[..|q| - 1];
    }
  }

  lemma WalkSnoc(g: Graph, w: seq<real>, s: nat, p: seq<nat>, e: nat)
    requires g.WellFormed() && e < g.E() && IsWalk(g, s, g.src[e], p)
    ensures IsWalk(g, s, g.dst[e], p + [e])
    ensures Sum(w, p + [e]) == Sum(w, p) + At(w, e)
  {
    assert (p + [e])[..|p|] == p;
  }

  /** No walk from s to t weighs less than d. */
  ghost predicate NoneLighter(g: Graph, w: seq<real>, s: nat, t: nat, d: real)
    requires g.WellFormed()
  {
    forall p :: IsWalk(g, s, t, p) ==> d <= Sum(w, p)
  }

  ghost predicate Reachable(g: Graph, s: nat, t: nat)
    requires g.WellFormed()
  {
    exists p :: IsWalk(g, s, t, p)
  }

  /** c is the least weight of all walks from s to t, `inf` if there is none. */
  ghost predicate IsShortest(g: Graph, w: seq<real>, s: nat, t: nat, c: Cost)
    requires g.WellFormed()
  {
    match c
    case Inf => !Reachable(g, s, t)
    case Fin(d) => (exists p :: IsWalk(g, s, t, p) && Sum(w, p) == d) && NoneLighter(g, w, s, t, d)
  }

  lemma ShortestUnique(g: Graph, w: seq<real>, s: nat, t: nat, a: Cost, b: Cost)
    requires g.WellFormed() && IsShortest(g, w, s, t, a) && IsShortest(g, w, s, t, b)
    ensures a == b
  {
    if a.Fin? {
      var p :| IsWalk(g, s, t, p) && Sum(w, p) == a.v;
      assert b.Fin? && b.v <= Sum(w, p);
      var q :| IsWalk(g, s, t, q) && Sum(w, q) == b.v;
    }
  }

  /** Going nowhere is free. */
  lemma ShortestToSelf(g: Graph, w: seq<real>, s: nat, c: Cost)
    requires g.WellFormed() && IsWeighting(g, w) && IsShortest(g, w, s, s, c)
    ensures c == Fin(0.0)
  {
    assert IsWalk(g, s, s, []);
    assert c.Fin? && c.v <= Sum(w, []);
    var p :| IsWalk(g, s, s, p) && Sum(w, p) == c.v;
    SumNonNegative(w, p);
  }

  /** A detour never helps. */
  lemma ShortestTriangle(g: Graph, w: seq<real>, s: nat, u: nat, t: nat, su: Cost, ut: Cost, st: Cost)
    requires g.WellFormed() && su.Fin? && ut.Fin?
    requires IsShortest(g, w, s, u, su) && IsShortest(g, w, u, t, ut) && IsShortest(g, w, s, t, st)
    ensures st.Fin? && st.v <= su.v + ut.v
  {
    var p :| IsWalk(g, s, u, p) && Sum(w, p) == su.v;
    var q :| IsWalk(g, u, t, q) && Sum(w, q) == ut.v;
    WalkAppend(g, w, s, u, t, p, q);
    assert IsWalk(g, s, t, p + q);
    assert st.Fin? && st.v <= Sum(w, p + q);
  }

  lemma ShortestNonNegative(g: Graph, w: seq<real>, s: nat, t: nat, c: Cost)
    requires g.WellFormed() && IsWeighting(g, w) && IsShortest(g, w, s, t, c)
    ensures c.Fin? ==> c.v >= 0.0
  {
    if c.Fin? {
      var p :| IsWalk(g, s, t, p) && Sum(w, p) == c.v;
      SumNonNegative(w, p);
    }
  }

  ghost predicate Pointwise(a: seq<real>, b: seq<real>) {
    |a| == |b| && forall e :: 0 <= e < |a| ==> a[e] <= b[e]
  }

  lemma {:induction false} SumMonotone(a: seq<real>, b: seq<real>, p: seq<nat>)
    requires Pointwise(a, b)
    ensures Sum(a, p) <= Sum(b, p)
  {
    if p != [] { SumMonotone(a, b, p[..|p| - 1]); }
  }

  /** More traffic never shortens a trip, and never changes what is reachable. */
  lemma ShortestMonotone(g: Graph, a: seq<real>, b: seq<real>, s: nat, t: nat, ca: Cost, cb: Cost)
    requires g.WellFormed() && Pointwise(a, b)
    requires IsShortest(g, a, s, t, ca) && IsShortest(g, b, s, t, cb)
    ensures ca.Fin? <==> cb.Fin?
    ensures ca.Fin? ==> ca.v <= cb.v
  {
    if cb.Fin? {
      var p :| IsWalk(g, s, t, p) && Sum(b, p) == cb.v;
      SumMonotone(a, b, p);
      assert ca.Fin? && ca.v <= Sum(a, p);
    }
  }
}
