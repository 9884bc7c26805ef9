/** Feasibility repair: overloaded routes eject stops until none is left, stops without a place are put
    where they hurt least, and no stop is ever lost. */
module Repair {
  import opened Base
  import opened Problem
  import opened Sorting
  import opened Validator
  import opened Encoding
  import opened Split

  /** The working state: one list per vehicle of the spec, and the stops waiting for a place. */
  datatype State = State(plan: seq<seq<Stop>>, loose: seq<Stop>)
  {
    /** The stops in the state, with multiplicity. */
    function Stops(): multiset<Stop> {
      multiset(Flatten(plan)) + multiset(loose)
    }

    ghost predicate Valid(spec: Spec) {
      && |plan| == |spec.vehicles|
      && (forall v :: 0 <= v < |plan| ==> FromSpec(spec, plan[v]))
      && FromSpec(spec, loose)
    }
  }

  predicate Overloaded(spec: Spec, plan: seq<seq<Stop>>, v: nat)
    requires v < |plan| == |spec.vehicles|
  {
    !Fits(spec.vehicles[v], plan[v])
  }

  ghost predicate AllFit(spec: Spec, plan: seq<seq<Stop>>) {
    |plan| == |spec.vehicles| && forall v :: 0 <= v < |plan| ==> Fits(spec.vehicles[v], plan[v])
  }

  function Excess(spec: Spec, plan: seq<seq<Stop>>, v: nat): real
    requires v < |plan| == |spec.vehicles|
  {
    Load(plan[v]) - spec.vehicles[v].capacity
  }

  // ---------- choosing a vehicle, a victim and a place ----------

  /** The first vehicle with the largest excess above the tolerance, if any is overloaded. */
  ghost predicate IsMostOverloaded(spec: Spec, plan: seq<seq<Stop>>, worst: Option<nat>)
    requires |plan| == |spec.vehicles|
  {
    match worst
    case None => AllFit(spec, plan)
    case Some(v) =>
      && v < |plan|
      && Overloaded(spec, plan, v)
      && (forall u :: 0 <= u < |plan| ==> Excess(spec, plan, u) <= Excess(spec, plan, v))
      && (forall u :: 0 <= u < v ==> Excess(spec, plan, u) < Excess(spec, plan, v))
  }

  method MostOverloaded(spec: Spec, plan: seq<seq<Stop>>) returns (worst: Option<nat>)
    requires |plan| == |spec.vehicles|
    ensures IsMostOverloaded(spec, plan, worst)
  {
    worst := None;
    var worstOver := EPS;
    for v := 0 to |plan|
      invariant worstOver == if worst.Some? && worst.value < v then Excess(spec, plan, worst.value) else EPS
      invariant worst.Some? ==> worst.value < v && Overloaded(spec, plan, worst.value)
      invariant forall u :: 0 <= u < v ==> Excess(spec, plan, u) <= worstOver
      invariant worst.Some? ==> forall u :: 0 <= u < worst.value ==> Excess(spec, plan, u) < worstOver
    {
      var over := Excess(spec, plan, v);
      if over > worstOver {
        worst, worstOver := Some(v), over;
      }
    }
    if worst.None? {
      forall v | 0 <= v < |plan| ensures Fits(spec.vehicles[v], plan[v]) {
        assert Excess(spec, plan, v) <= EPS;
      }
    }
  }

  /** The order of `max(..., key=lambda s: (demand, id))`. */
  predicate LighterOrSame(a: Stop, b: Stop) {
    a.demand < b.demand || (a.demand == b.demand && StringAtMost(a.id, b.id))
  }

  /** The heaviest stop of a route, at its first occurrence. */
  ghost predicate IsHeaviest(route: seq<Stop>, i: nat) {
    && i < |route|
    && (forall j :: 0 <= j < |route| ==> LighterOrSame(route[j], route[i]))
    && (forall j :: 0 <= j < i ==> route[j] != route[i])
  }

  method Heaviest(route: seq<Stop>) returns (i: nat)
    requires route != []
    ensures IsHeaviest(route, i)
  {
    i := 0;
    StringOrder();
    for k := 1 to |route|
      invariant i < k
      invariant forall j :: 0 <= j < k ==> LighterOrSame(route[j], route[i])
      invariant forall j :: 0 <= j < i ==> route[j] != route[i]
    {
      StringLessTotal(route[k].id, route[i].id);
      if !LighterOrSame(route[k], route[i]) {
        i := k;
      }
    }
  }

  /** A candidate insertion: what it adds to the travel time, and where. */
  datatype Insertion = Insertion(delta: real, vehicle: nat, pos: nat)

  /** Seconds added by visiting node between the two neighbours at pos. */
  function Delta(mx: Matrix, v: Vehicle, route: seq<Stop>, pos: nat, node: int): real
    requires pos <= |route|
  {
    var nodes := RouteNodes(v, route);
    mx.time(nodes[pos], node) + mx.time(node, nodes[pos + 1]) - mx.time(nodes[pos], nodes[pos + 1])
  }

  /** Where an insertion comes in the path of the route. */
  lemma InsertionNodes(v: Vehicle, route: seq<Stop>, pos: nat, s: Stop)
    requires pos <= |route|
    ensures var nodes := RouteNodes(v, route);
      var head, a, b, tail := nodes[..pos], nodes[pos], nodes[pos + 1], nodes[pos + 2..];
      && nodes == head + [a] + ([b] + tail)
      && RouteNodes(v, InsertAt(route, pos, s)) == head + [a] + ([s.node] + ([b] + tail))
  {
  }

  /** Inserting a stop changes the measured travel time of its route by exactly the delta. */
  lemma InsertionChangesTravelByDelta(spec: Spec, mx: Matrix, v: Vehicle, route: seq<Stop>, pos: nat, s: Stop)
    requires pos <= |route|
    ensures Measured(spec, mx, v, InsertAt(route, pos, s)).travel
         == Measured(spec, mx, v, route).travel + Delta(mx, v, route, pos, s.node)
  {
    hide Load;
    hide Lateness;
    hide Overrun;
    hide Returns;
    hide PathCost;
    var nodes := RouteNodes(v, route);
    var a, b := nodes[pos], nodes[pos + 1];
    var head, tail := nodes[..pos], nodes[pos + 2..];
    InsertionNodes(v, route, pos, s);
    PathCostJoin(mx.time, head, a, [b] + tail);
    PathCostJoin(mx.time, head, a, [s.node] + ([b] + tail));
    PathCostCons(mx.time, a, b, tail);
    PathCostCons(mx.time, s.node, b, tail);
    PathCostCons(mx.time, a, s.node, [b] + tail);
  }

  lemma PathCostCons(f: (int, int) -> real, a: int, b: int, tail: seq<int>)
    ensures PathCost(f, [a] + ([b] + tail)) == f(a, b) + PathCost(f, [b] + tail)
  {
    PathCostJoin(f, [a], b, tail);
    assert [a] + ([b] + tail) == [a] + [b] + tail;
    assert ([a] + [b])[..1] == [a];
  }

  predicate HasRoom(spec: Spec, plan: seq<seq<Stop>>, v: nat, s: Stop)
    requires v < |plan| == |spec.vehicles|
  {
    Load(plan[v]) + s.demand <= spec.vehicles[v].capacity + EPS
  }

  /** c names a vehicle with room, other than the excluded one, and a position in its route. */
  ghost predicate IsInsertion(spec: Spec, mx: Matrix, plan: seq<seq<Stop>>, s: Stop, exclude: Option<nat>, c: Insertion)
    requires |plan| == |spec.vehicles|
  {
    && c.vehicle < |plan|
    && exclude != Some(c.vehicle)
    && HasRoom(spec, plan, c.vehicle, s)
    && c.pos <= |plan[c.vehicle]|
    && c.delta == Delta(mx, spec.vehicles[c.vehicle], plan[c.vehicle], c.pos, s.node)
  }

  /** Python's order on the tuples (delta, vehicle id, position). */
  predicate Cheaper(spec: Spec, a: Insertion, b: Insertion)
    requires a.vehicle < |spec.vehicles| && b.vehicle < |spec.vehicles|
  {
    var x, y := spec.vehicles[a.vehicle].id, spec.vehicles[b.vehicle].id;
    a.delta < b.delta || (a.delta == b.delta && (StringLess(x, y) || (x == y && a.pos < b.pos)))
  }

  lemma CheaperTransitive(spec: Spec, a: Insertion, b: Insertion, c: Insertion)
    requires a.vehicle < |spec.vehicles| && b.vehicle < |spec.vehicles| && c.vehicle < |spec.vehicles|
    requires Cheaper(spec, a, b) && Cheaper(spec, b, c)
    ensures Cheaper(spec, a, c)
  {
    var x, y, z := spec.vehicles[a.vehicle].id, spec.vehicles[b.vehicle].id, spec.vehicles[c.vehicle].id;
    if StringLess(x, y) && StringLess(y, z) { StringLessTransitive(x, y, z); }
  }

  /** The lexicographically least insertion over all vehicles with room and all positions. */
  ghost predicate IsCheapest(spec: Spec, mx: Matrix, plan: seq<seq<Stop>>, s: Stop, exclude: Option<nat>,
                             best: Option<Insertion>)
    requires |plan| == |spec.vehicles|
  {
    match best
    case None => forall v :: 0 <= v < |plan| && exclude != Some(v) ==> !HasRoom(spec, plan, v, s)
    case Some(b) =>
      && IsInsertion(spec, mx, plan, s, exclude, b)
      && forall c :: IsInsertion(spec, mx, plan, s, exclude, c) ==> !Cheaper(spec, c, b)
  }

  /** best is the least of the insertions before position p of vehicle v. */
  ghost predicate BestSoFar(spec: Spec, mx: Matrix, plan: seq<seq<Stop>>, s: Stop, exclude: Option<nat>,
                            best: Option<Insertion>, v: nat, p: nat)
    requires |plan| == |spec.vehicles|
  {
    && (best.Some? ==> IsInsertion(spec, mx, plan, s, exclude, best.value))
    && (forall c :: IsInsertion(spec, mx, plan, s, exclude, c)
          && (c.vehicle < v || (c.vehicle == v && c.pos < p))
          ==> best.Some? && !Cheaper(spec, c, best.value))
  }

  method Consider(spec: Spec, ghost mx: Matrix, ghost plan: seq<seq<Stop>>, ghost s: Stop, ghost exclude: Option<nat>,
                  best: Option<Insertion>, cand: Insertion) returns (best': Option<Insertion>)
    requires |plan| == |spec.vehicles|
    requires IsInsertion(spec, mx, plan, s, exclude, cand)
    requires BestSoFar(spec, mx, plan, s, exclude, best, cand.vehicle, cand.pos)
    ensures BestSoFar(spec, mx, plan, s, exclude, best', cand.vehicle, cand.pos + 1)
  {
    if best.None? || Cheaper(spec, cand, best.value) {
      best' := Some(cand);
      StringLessTotal(spec.vehicles[cand.vehicle].id, spec.vehicles[cand.vehicle].id);
      forall c | IsInsertion(spec, mx, plan, s, exclude, c)
                 && (c.vehicle < cand.vehicle || (c.vehicle == cand.vehicle && c.pos < cand.pos + 1))
        ensures !Cheaper(spec, c, cand)
      {
        if best.Some? && Cheaper(spec, c, cand) { CheaperTransitive(spec, c, cand, best.value); }
      }
    } else {
      best' := best;
      forall c | IsInsertion(spec, mx, plan, s, exclude, c)
                 && (c.vehicle < cand.vehicle || (c.vehicle == cand.vehicle && c.pos < cand.pos + 1))
        ensures !Cheaper(spec, c, best.value)
      {
        assert c.vehicle == cand.vehicle && c.pos == cand.pos ==> c == cand;
      }
    }
  }

  method CheapestFeasibleInsertion(spec: Spec, mx: Matrix, plan: seq<seq<Stop>>, s: Stop, exclude: Option<nat>)
    returns (best: Option<Insertion>)
    requires |plan| == |spec.vehicles|
    ensures IsCheapest(spec, mx, plan, s, exclude, best)
  {
    best := None;
    for v := 0 to |plan|
      invariant BestSoFar(spec, mx, plan, s, exclude, best, v, 0)
      invariant best.None? ==> forall u :: 0 <= u < v && exclude != Some(u) ==> !HasRoom(spec, plan, u, s)
    {
      if exclude == Some(v) || !HasRoom(spec, plan, v, s) {
        continue;
      }
      for pos := 0 to |plan[v]| + 1
        invariant BestSoFar(spec, mx, plan, s, exclude, best, v, pos)
        invariant pos > 0 ==> best.Some?
      {
        var cand := Insertion(Delta(mx, spec.vehicles[v], plan[v], pos, s.node), v, pos);
        assert IsInsertion(spec, mx, plan, s, exclude, cand);
        best := Consider(spec, mx, plan, s, exclude, best, cand);
        assert best.Some? by {
          assert BestSoFar(spec, mx, plan, s, exclude, best, v, pos + 1);
        }
      }
    }
  }

  // ---------- bookkeeping ----------

  lemma FlattenElements<T>(xss: seq<seq<T>>, m: nat)
    requires |xss| == m + 1
    ensures multiset(Flatten(xss)) == multiset(Flatten(xss[..m])) + multiset(xss[m])
  {
  }

  lemma MultisetShift<T>(a: multiset<T>, b: multiset<T>, c: multiset<T>, d: multiset<T>, more: multiset<T>)
    requires a + b == c + d
    ensures (a + more) + b == (c + more) + d
  {
    assert (a + more) + b == (a + b) + more;
    assert (c + more) + d == (c + d) + more;
  }

  lemma {:induction false} FlattenUpdate<T>(xss: seq<seq<T>>, v: nat, xs: seq<T>)
    requires v < |xss|
    ensures multiset(Flatten(xss[v := xs])) + multiset(xss[v]) == multiset(Flatten(xss)) + multiset(xs)
  {
    var m := |xss| - 1;
    var after := xss[v := xs];
    FlattenElements(xss, m);
    FlattenElements(after, m);
    if v == m {
      assert after[..m] == xss[..m];
    } else {
      FlattenUpdate(xss[..m], v, xs);
      assert after[..m] == xss[..m][v := xs];
      MultisetShift(multiset(Flatten(after[..m])), multiset(xss[v]), multiset(Flatten(xss[..m])), multiset(xs),
                    multiset(xss[m]));
    }
  }

  lemma MultisetCancel<T>(a: multiset<T>, b: multiset<T>, c: multiset<T>, d: multiset<T>)
    requires a + b == c + (b + d)
    ensures a == c + d
  {
    forall x ensures a[x] == (c + d)[x] {
      assert (a + b)[x] == (c + (b + d))[x];
    }
  }

  lemma FlattenGrow<T>(plan: seq<seq<T>>, v: nat, r: seq<T>, more: multiset<T>)
    requires v < |plan| && multiset(r) == multiset(plan[v]) + more
    ensures multiset(Flatten(plan[v := r])) == multiset(Flatten(plan)) + more
  {
    FlattenUpdate(plan, v, r);
    MultisetCancel(multiset(Flatten(plan[v := r])), multiset(plan[v]), multiset(Flatten(plan)), more);
  }

  /** Taking a stop out of a list, or putting one in, changes the stops by exactly that one. */
  lemma FlattenRemove(plan: seq<seq<Stop>>, v: nat, i: nat)
    requires v < |plan| && i < |plan[v]|
    ensures multiset(Flatten(plan[v := RemoveAt(plan[v], i)])) + multiset{plan[v][i]} == multiset(Flatten(plan))
  {
    RemoveAtElements(plan[v], i);
    var rest := plan[v := RemoveAt(plan[v], i)];
    FlattenGrow(rest, v, plan[v], multiset{plan[v][i]});
    assert rest[v := plan[v]] == plan;
  }

  lemma FlattenInsert(plan: seq<seq<Stop>>, v: nat, i: nat, s: Stop)
    requires v < |plan| && i <= |plan[v]|
    ensures multiset(Flatten(plan[v := InsertAt(plan[v], i, s)])) == multiset(Flatten(plan)) + multiset{s}
  {
    InsertAtElements(plan[v], i, s);
    FlattenGrow(plan, v, InsertAt(plan[v], i, s), multiset{s});
  }

  // ---------- relieving overloads ----------

  predicate CanTake(plan: seq<seq<Stop>>, v: nat, b: Insertion) {
    b.vehicle < |plan| && b.vehicle != v && b.pos <= |plan[b.vehicle]|
  }

  /** The state after vehicle v gave up the stop at position i, which went to best or became loose. */
  function Ejected(s: State, v: nat, i: nat, best: Option<Insertion>): State
    requires v < |s.plan| && i < |s.plan[v]|
    requires best.Some? ==> CanTake(s.plan, v, best.value)
  {
    var victim := s.plan[v][i];
    var rest := s.plan[v := RemoveAt(s.plan[v], i)];
    match best
    case None => State(rest, s.loose + [victim])
    case Some(b) => State(rest[b.vehicle := InsertAt(rest[b.vehicle], b.pos, victim)], s.loose)
  }

  /** One turn of the relief loop: the heaviest stop of the worst vehicle moves to its cheapest place. */
  ghost predicate IsEjection(spec: Spec, mx: Matrix, s: State, s': State) {
    exists v: nat, i: nat, best: Option<Insertion> ::
      IsChoice(spec, mx, s.plan, v, i, best) && s' == Ejected(s, v, i, best)
  }

  /** The worst vehicle, its heaviest stop, and the cheapest place for it elsewhere. */
  ghost predicate IsChoice(spec: Spec, mx: Matrix, plan: seq<seq<Stop>>, v: nat, i: nat, best: Option<Insertion>) {
    && |plan| == |spec.vehicles|
    && IsMostOverloaded(spec, plan, Some(v))
    && IsHeaviest(plan[v], i)
    && IsCheapest(spec, mx, plan[v := RemoveAt(plan[v], i)], plan[v][i], Some(v), best)
    && (best.Some? ==> CanTake(plan, v, best.value))
  }

  /** Stops held by overloaded vehicles. */
  function Burden(spec: Spec, plan: seq<seq<Stop>>, v: nat): nat
    requires v < |plan| == |spec.vehicles|
  {
    if Overloaded(spec, plan, v) then |plan[v]| else 0
  }

  function TotalBurden(spec: Spec, plan: seq<seq<Stop>>, k: nat): nat
    requires k <= |plan| == |spec.vehicles|
  {
    if k == 0 then 0 else TotalBurden(spec, plan, k - 1) + Burden(spec, plan, k - 1)
  }

  lemma {:induction false} TotalBurdenBound(spec: Spec, plan: seq<seq<Stop>>, k: nat)
    requires k <= |plan| == |spec.vehicles|
    ensures TotalBurden(spec, plan, k) <= |Flatten(plan[..k])|
  {
    if k > 0 {
      TotalBurdenBound(spec, plan, k - 1);
      assert plan[..k][..k - 1] == plan[..k - 1];
    }
  }

  lemma {:induction false} TotalBurdenDrops(spec: Spec, p: seq<seq<Stop>>, q: seq<seq<Stop>>, v: nat, k: nat)
    requires k <= |p| == |q| == |spec.vehicles| && v < |p|
    requires forall u :: 0 <= u < |p| ==> Burden(spec, q, u) <= Burden(spec, p, u)
    requires Burden(spec, q, v) < Burden(spec, p, v)
    ensures TotalBurden(spec, q, k) <= TotalBurden(spec, p, k)
    ensures v < k ==> TotalBurden(spec, q, k) < TotalBurden(spec, p, k)
  {
    if k > 0 { TotalBurdenDrops(spec, p, q, v, k - 1); }
  }

  /** An overloaded vehicle has something to eject. */
  lemma OverloadedIsNotEmpty(spec: Spec, plan: seq<seq<Stop>>, v: nat)
    requires spec.Valid() && v < |plan| == |spec.vehicles| && Overloaded(spec, plan, v)
    ensures plan[v] != []
  {
  }

  lemma DemandsFromSpec(spec: Spec, route: seq<Stop>)
    requires spec.Valid() && FromSpec(spec, route)
    ensures NonNegativeDemand(route)
  {
    forall i | 0 <= i < |route| ensures route[i].demand >= 0.0 {
      assert route[i] in spec.stops;
    }
  }

  /** Per vehicle, an ejection can only lighten the burden, and it does lighten the ejecting one's. */
  lemma EjectionLightens(spec: Spec, mx: Matrix, s: State, v: nat, i: nat, best: Option<Insertion>)
    requires spec.Valid() && s.Valid(spec)
    requires IsChoice(spec, mx, s.plan, v, i, best)
    ensures var q := Ejected(s, v, i, best).plan;
      && (forall u :: 0 <= u < |q| ==> Burden(spec, q, u) <= Burden(spec, s.plan, u))
      && Burden(spec, q, v) < Burden(spec, s.plan, v)
  {
    var rest := s.plan[v := RemoveAt(s.plan[v], i)];
    var victim := s.plan[v][i];
    DemandsFromSpec(spec, s.plan[v]);
    if best.Some? {
      var b := best.value;
      assert rest[b.vehicle] == s.plan[b.vehicle];
      LoadInsert(rest[b.vehicle], b.pos, victim);
    }
  }

  lemma {:induction false} RemoveAtFromSpec(spec: Spec, route: seq<Stop>, i: nat)
    requires i < |route| && FromSpec(spec, route)
    ensures FromSpec(spec, RemoveAt(route, i)) && route[i] in spec.stops
  {
  }

  lemma InsertAtFromSpec(spec: Spec, route: seq<Stop>, i: nat, s: Stop)
    requires i <= |route| && FromSpec(spec, route) && s in spec.stops
    ensures FromSpec(spec, InsertAt(route, i, s))
  {
  }

  lemma EjectionKeepsStops(s: State, v: nat, i: nat, best: Option<Insertion>)
    requires v < |s.plan| && i < |s.plan[v]|
    requires best.Some? ==> CanTake(s.plan, v, best.value)
    ensures Ejected(s, v, i, best).Stops() == s.Stops()
  {
    var victim := s.plan[v][i];
    var rest := s.plan[v := RemoveAt(s.plan[v], i)];
    FlattenRemove(s.plan, v, i);
    match best
    case None =>
      assert multiset(s.loose + [victim]) == multiset(s.loose) + multiset{victim};
    case Some(b) =>
      FlattenInsert(rest, b.vehicle, b.pos, victim);
  }

  lemma EjectionStaysValid(spec: Spec, s: State, v: nat, i: nat, best: Option<Insertion>)
    requires s.Valid(spec) && v < |s.plan| && i < |s.plan[v]|
    requires best.Some? ==> CanTake(s.plan, v, best.value)
    ensures Ejected(s, v, i, best).Valid(spec)
  {
    RemoveAtFromSpec(spec, s.plan[v], i);
    if best.Some? {
      var b := best.value;
      InsertAtFromSpec(spec, s.plan[b.vehicle], b.pos, s.plan[v][i]);
    }
  }

  lemma EjectionOverloadsNobody(spec: Spec, mx: Matrix, s: State, v: nat, i: nat, best: Option<Insertion>)
    requires spec.Valid() && s.Valid(spec)
    requires IsChoice(spec, mx, s.plan, v, i, best)
    ensures var q := Ejected(s, v, i, best).plan;
      forall u :: 0 <= u < |q| && !Overloaded(spec, s.plan, u) ==> !Overloaded(spec, q, u)
  {
    var q := Ejected(s, v, i, best).plan;
    forall u | 0 <= u < |s.plan| && !Overloaded(spec, s.plan, u) ensures !Overloaded(spec, q, u) {
      if best.Some? && best.value.vehicle == u {
        LoadInsert(s.plan[u], best.value.pos, s.plan[v][i]);
      } else {
        assert q[u] == s.plan[u];
      }
    }
  }

  /** Every ejection keeps the stops, strictly shrinks what overloaded vehicles hold, and overloads
      nobody who was not overloaded before. */
  lemma EjectionMakesProgress(spec: Spec, mx: Matrix, s: State, s': State)
    requires spec.Valid() && s.Valid(spec) && IsEjection(spec, mx, s, s')
    ensures s'.Valid(spec) && s'.Stops() == s.Stops()
    ensures TotalBurden(spec, s'.plan, |s'.plan|) < TotalBurden(spec, s.plan, |s.plan|)
    ensures forall u :: 0 <= u < |s.plan| && !Overloaded(spec, s.plan, u) ==> !Overloaded(spec, s'.plan, u)
  {
    hide IsCheapest;
    var v: nat, i: nat, best: Option<Insertion> :|
      IsChoice(spec, mx, s.plan, v, i, best) && s' == Ejected(s, v, i, best);
    EjectionKeepsStops(s, v, i, best);
    EjectionStaysValid(spec, s, v, i, best);
    EjectionLightens(spec, mx, s, v, i, best);
    TotalBurdenDrops(spec, s.plan, s'.plan, v, |s.plan|);
    EjectionOverloadsNobody(spec, mx, s, v, i, best);
  }

  /** A run of the relief loop: consecutive states are ejections. */
  ghost predicate IsRelief(spec: Spec, mx: Matrix, run: seq<State>) {
    run != [] && forall i :: 0 <= i < |run| - 1 ==> IsEjection(spec, mx, run[i], run[i + 1])
  }

  lemma ReliefSnoc(spec: Spec, mx: Matrix, run: seq<State>, s: State)
    requires IsRelief(spec, mx, run) && IsEjection(spec, mx, run[|run| - 1], s)
    ensures IsRelief(spec, mx, run + [s])
  {
    var longer := run + [s];
    forall i | 0 <= i < |longer| - 1 ensures IsEjection(spec, mx, longer[i], longer[i + 1]) {
      assert i < |run| - 1 ==> longer[i] == run[i] && longer[i + 1] == run[i + 1];
    }
  }

  /** `_relieve_overloads`: the loop always ends through its return, with every vehicle within its
      capacity, before the guard is used up. */
  method RelieveOverloads(spec: Spec, mx: Matrix, plan: array<seq<Stop>>, loose: seq<Stop>)
    returns (loose': seq<Stop>, ghost run: seq<State>)
    requires spec.Valid() && State(plan[..], loose).Valid(spec)
    modifies plan
    ensures IsRelief(spec, mx, run) && run[0] == State(old(plan[..]), loose)
    ensures run[|run| - 1] == State(plan[..], loose')
    ensures State(plan[..], loose').Valid(spec)
    ensures State(plan[..], loose').Stops() == old(State(plan[..], loose).Stops())
    ensures AllFit(spec, plan[..])
    ensures old(AllFit(spec, plan[..])) ==> plan[..] == old(plan[..]) && loose' == loose
  {
    loose' := loose;
    ghost var s := State(plan[..], loose);
    run := [s];
    var guard := |Flatten(plan[..])| + |loose| + 1;
    TotalBurdenBound(spec, plan[..], plan.Length);
    assert plan[..][..plan.Length] == plan[..];
    for turn := 0 to guard
      invariant s == State(plan[..], loose') && s.Valid(spec)
      invariant s.Stops() == old(State(plan[..], loose).Stops())
      invariant IsRelief(spec, mx, run) && run[0] == State(old(plan[..]), loose) && run[|run| - 1] == s
      invariant TotalBurden(spec, s.plan, |s.plan|) + turn < guard
      invariant old(AllFit(spec, plan[..])) ==> s == run[0]
    {
      var worst := MostOverloaded(spec, plan[..]);
      if worst.None? {
        return;
      }
      ghost var before := s;
      loose' := EjectFrom(spec, mx, plan, loose', worst.value);
      s := State(plan[..], loose');
      EjectionMakesProgress(spec, mx, before, s);
      ReliefSnoc(spec, mx, run, s);
      run := run + [s];
    }
    assert false;
  }

  /** The body of the relief loop. */
  method EjectFrom(spec: Spec, mx: Matrix, plan: array<seq<Stop>>, loose: seq<Stop>, v: nat)
    returns (loose': seq<Stop>)
    requires spec.Valid() && plan.Length == |spec.vehicles| && IsMostOverloaded(spec, plan[..], Some(v))
    modifies plan
    ensures IsEjection(spec, mx, State(old(plan[..]), loose), State(plan[..], loose'))
  {
    ghost var s := State(plan[..], loose);
    OverloadedIsNotEmpty(spec, plan[..], v);
    var i := Heaviest(plan[v]);
    var victim := plan[v][i];
    plan[v] := RemoveAt(plan[v], i);
    assert plan[..] == s.plan[v := RemoveAt(s.plan[v], i)];
    var best := CheapestFeasibleInsertion(spec, mx, plan[..], victim, Some(v));
    if best.None? {
      loose' := loose + [victim];
    } else {
      var b := best.value;
      plan[b.vehicle] := InsertAt(plan[b.vehicle], b.pos, victim);
      loose' := loose;
    }
    assert IsChoice(spec, mx, s.plan, v, i, best);
    assert State(plan[..], loose') == Ejected(s, v, i, best);
  }

  // ---------- placing the stops that wait ----------

  /** The order of `sorted(loose, key=lambda s: (-demand, id))`. */
  predicate HeavierFirst(a: Stop, b: Stop) {
    a.demand > b.demand || (a.demand == b.demand && StringAtMost(a.id, b.id))
  }

  lemma HeavierFirstOrder()
    ensures TotalPreorder(HeavierFirst)
  {
    StringOrder();
  }

  /** Where a waiting stop went, and whether it was forced there. */
  datatype Placement = Placement(vehicle: nat, pos: nat, forced: bool)

  /** The target of `min(plan, key=lambda vid: (load, vid))`. */
  ghost predicate IsLeastLoaded(spec: Spec, plan: seq<seq<Stop>>, v: nat)
    requires |plan| == |spec.vehicles|
  {
    v < |plan| && forall u :: 0 <= u < |plan| ==> LoadOrIdAtMost(spec, plan, v, u)
  }

  predicate LoadOrIdAtMost(spec: Spec, plan: seq<seq<Stop>>, v: nat, u: nat)
    requires v < |plan| == |spec.vehicles| && u < |plan|
  {
    || Load(plan[v]) < Load(plan[u])
    || (Load(plan[v]) == Load(plan[u]) && StringAtMost(spec.vehicles[v].id, spec.vehicles[u].id))
  }

  /** One stop is placed: at its cheapest place with room, or, only if nobody has room, at the end of
      the least loaded route. */
  ghost predicate IsPlacement(spec: Spec, mx: Matrix, plan: seq<seq<Stop>>, s: Stop, p: Placement,
                              plan': seq<seq<Stop>>)
  {
    && |plan| == |spec.vehicles|
    && p.vehicle < |plan|
    && p.pos <= |plan[p.vehicle]|
    && plan' == plan[p.vehicle := InsertAt(plan[p.vehicle], p.pos, s)]
    && if p.forced
       then IsCheapest(spec, mx, plan, s, None, None)
            && IsLeastLoaded(spec, plan, p.vehicle) && p.pos == |plan[p.vehicle]|
       else exists delta :: IsCheapest(spec, mx, plan, s, None, Some(Insertion(delta, p.vehicle, p.pos)))
  }

  /** The stops are placed one after the other. */
  ghost predicate IsPlacing(spec: Spec, mx: Matrix, stops: seq<Stop>, log: seq<Placement>, run: seq<seq<seq<Stop>>>) {
    && |log| == |stops|
    && |run| == |stops| + 1
    && forall i :: 0 <= i < |stops| ==> IsPlacement(spec, mx, run[i], stops[i], log[i], run[i + 1])
  }

  lemma LoadOrIdStep(spec: Spec, plan: seq<seq<Stop>>, v: nat, u: nat, w: nat)
    requires v < |plan| == |spec.vehicles| && u < |plan| && w < |plan|
    requires !LoadOrIdAtMost(spec, plan, v, u) && LoadOrIdAtMost(spec, plan, v, w)
    ensures LoadOrIdAtMost(spec, plan, u, w)
  {
    var x, y, z := spec.vehicles[v].id, spec.vehicles[u].id, spec.vehicles[w].id;
    StringLessTotal(x, y);
    if StringLess(y, x) && StringLess(x, z) { StringLessTransitive(y, x, z); }
  }

  method LeastLoaded(spec: Spec, plan: seq<seq<Stop>>) returns (v: nat)
    requires spec.Valid() && |plan| == |spec.vehicles|
    ensures IsLeastLoaded(spec, plan, v)
  {
    v := 0;
    for u := 1 to |plan|
      invariant v < u
      invariant forall w :: 0 <= w < u ==> LoadOrIdAtMost(spec, plan, v, w)
    {
      if !LoadOrIdAtMost(spec, plan, v, u) {
        forall w | 0 <= w <= u ensures LoadOrIdAtMost(spec, plan, u, w) {
          if w < u { LoadOrIdStep(spec, plan, v, u, w); }
        }
        v := u;
      }
    }
  }

  method PlaceOne(spec: Spec, mx: Matrix, plan: array<seq<Stop>>, s: Stop) returns (p: Placement)
    requires spec.Valid() && plan.Length == |spec.vehicles|
    modifies plan
    ensures IsPlacement(spec, mx, old(plan[..]), s, p, plan[..])
  {
    ghost var before := plan[..];
    var best := CheapestFeasibleInsertion(spec, mx, plan[..], s, None);
    if best.None? {
      var v := LeastLoaded(spec, plan[..]);
      p := Placement(v, |plan[v]|, true);
    } else {
      p := Placement(best.value.vehicle, best.value.pos, false);
    }
    plan[p.vehicle] := InsertAt(plan[p.vehicle], p.pos, s);
    assert plan[..] == before[p.vehicle := InsertAt(before[p.vehicle], p.pos, s)];
  }

  lemma PlacingSnoc(spec: Spec, mx: Matrix, stops: seq<Stop>, i: nat, log: seq<Placement>, run: seq<seq<seq<Stop>>>,
                    p: Placement, next: seq<seq<Stop>>)
    requires i < |stops| && IsPlacing(spec, mx, stops[..i], log, run)
    requires IsPlacement(spec, mx, run[i], stops[i], p, next)
    ensures IsPlacing(spec, mx, stops[..i + 1], log + [p], run + [next])
  {
  }

  /** `_place_loose`, heaviest first. */
  method PlaceLoose(spec: Spec, mx: Matrix, plan: array<seq<Stop>>, loose: seq<Stop>)
    returns (ghost log: seq<Placement>, ghost run: seq<seq<seq<Stop>>>)
    requires spec.Valid() && plan.Length == |spec.vehicles|
    modifies plan
    ensures IsPlacing(spec, mx, SortBy(HeavierFirst, loose), log, run)
    ensures run[0] == old(plan[..]) && run[|run| - 1] == plan[..]
  {
    var waiting := SortBy(HeavierFirst, loose);
    log, run := [], [plan[..]];
    for i := 0 to |waiting|
      invariant IsPlacing(spec, mx, waiting[..i], log, run)
      invariant run[0] == old(plan[..]) && run[i] == plan[..]
    {
      var p := PlaceOne(spec, mx, plan, waiting[i]);
      PlacingSnoc(spec, mx, waiting, i, log, run, p, plan[..]);
      log, run := log + [p], run + [plan[..]];
    }
    assert waiting[..|waiting|] == waiting;
  }

  /** Total demand forced on vehicle v by the first n placements. */
  function Forced(stops: seq<Stop>, log: seq<Placement>, v: nat, n: nat): real
    requires n <= |stops| == |log|
  {
    if n == 0 then 0.0
    else Forced(stops, log, v, n - 1)
         + if log[n - 1].forced && log[n - 1].vehicle == v then stops[n - 1].demand else 0.0
  }

  /** While stops are placed, a vehicle exceeds its capacity by no more than what was forced on it. */
  lemma {:induction false} PlacingOverflowBound(spec: Spec, mx: Matrix, stops: seq<Stop>, log: seq<Placement>,
                                                run: seq<seq<seq<Stop>>>, n: nat, v: nat)
    requires spec.Valid() && IsPlacing(spec, mx, stops, log, run) && n <= |stops| && v < |spec.vehicles|
    requires NonNegativeDemand(stops) && AllFit(spec, run[0])
    ensures |run[n]| == |spec.vehicles|
    ensures Load(run[n][v]) <= spec.vehicles[v].capacity + EPS + Forced(stops, log, v, n)
    ensures Forced(stops, log, v, n) >= 0.0
  {
    hide IsPlacement;
    if n > 0 {
      PlacingOverflowBound(spec, mx, stops, log, run, n - 1, v);
      PlacementLoad(spec, mx, run[n - 1], stops[n - 1], log[n - 1], run[n], v);
    }
  }

  /** A placement adds the demand to one vehicle, and only a forced one may overload it. */
  lemma PlacementLoad(spec: Spec, mx: Matrix, plan: seq<seq<Stop>>, s: Stop, p: Placement, plan': seq<seq<Stop>>,
                      v: nat)
    requires IsPlacement(spec, mx, plan, s, p, plan') && v < |spec.vehicles|
    ensures |plan'| == |plan| == |spec.vehicles|
    ensures Load(plan'[v]) == Load(plan[v]) + if p.vehicle == v then s.demand else 0.0
    ensures p.vehicle == v && !p.forced ==> Load(plan'[v]) <= spec.vehicles[v].capacity + EPS
  {
    if p.vehicle == v {
      LoadInsert(plan[v], p.pos, s);
      assert !p.forced ==> HasRoom(spec, plan, v, s);
    }
  }

  lemma {:induction false} PlacingKeepsStops(spec: Spec, mx: Matrix, stops: seq<Stop>, log: seq<Placement>,
                                             run: seq<seq<seq<Stop>>>, n: nat)
    requires IsPlacing(spec, mx, stops, log, run) && n <= |stops|
    ensures multiset(Flatten(run[n])) == multiset(Flatten(run[0])) + multiset(stops[..n])
  {
    if n > 0 {
      PlacingKeepsStops(spec, mx, stops, log, run, n - 1);
      PlacementAddsStop(spec, mx, run[n - 1], stops[n - 1], log[n - 1], run[n]);
      PrefixSnoc(stops, n - 1);
    } else {
      assert stops[..n] == [];
    }
  }

  lemma PlacingKeepsAllStops(spec: Spec, mx: Matrix, stops: seq<Stop>, log: seq<Placement>, run: seq<seq<seq<Stop>>>)
    requires IsPlacing(spec, mx, stops, log, run)
    ensures multiset(Flatten(run[|run| - 1])) == multiset(Flatten(run[0])) + multiset(stops)
  {
    PlacingKeepsStops(spec, mx, stops, log, run, |stops|);
    assert stops[..|stops|] == stops;
  }

  lemma PlacementAddsStop(spec: Spec, mx: Matrix, plan: seq<seq<Stop>>, s: Stop, p: Placement, plan': seq<seq<Stop>>)
    requires IsPlacement(spec, mx, plan, s, p, plan')
    ensures multiset(Flatten(plan')) == multiset(Flatten(plan)) + multiset{s}
  {
    FlattenInsert(plan, p.vehicle, p.pos, s);
  }

  lemma {:induction false} ReliefKeepsStops(spec: Spec, mx: Matrix, run: seq<State>, n: nat)
    requires spec.Valid() && IsRelief(spec, mx, run) && run[0].Valid(spec) && n < |run|
    ensures run[n].Valid(spec) && run[n].Stops() == run[0].Stops()
  {
    if n > 0 {
      ReliefKeepsStops(spec, mx, run, n - 1);
      assert IsEjection(spec, mx, run[n - 1], run[n]);
      EjectionMakesProgress(spec, mx, run[n - 1], run[n]);
    }
  }

  // ---------- the whole repair ----------

  /** The stops of each known vehicle's routes in order; stops of unknown vehicles wait. */
  function LoadRoutes(spec: Spec, routes: seq<Route>): State {
    if routes == [] then State(Idle(|spec.vehicles|), [])
    else AddRoute(spec, LoadRoutes(spec, routes[..|routes| - 1]), routes[|routes| - 1])
  }

  function AddRoute(spec: Spec, s: State, route: Route): State {
    var known := KnownStops(spec, route.stopIds);
    match FindVehicle(spec.vehicles, route.vehicleId)
    case None => s.(loose := s.loose + known)
    case Some(v) => if v < |s.plan| then s.(plan := s.plan[v := s.plan[v] + known]) else s
  }

  lemma KnownFromSpec(spec: Spec, ids: seq<string>)
    ensures FromSpec(spec, KnownStops(spec, ids))
  {
  }

  lemma {:induction false} LoadRoutesKeepsStops(spec: Spec, routes: seq<Route>)
    ensures LoadRoutes(spec, routes).Valid(spec)
    ensures LoadRoutes(spec, routes).Stops() == multiset(KnownStops(spec, AllIds(routes)))
  {
    if routes == [] {
      FlattenNothing(|spec.vehicles|);
    } else {
      var s, last := LoadRoutes(spec, routes[..|routes| - 1]), routes[|routes| - 1];
      LoadRoutesKeepsStops(spec, routes[..|routes| - 1]);
      AddRouteKeepsStops(spec, s, last);
      KnownAppend(spec, AllIds(routes[..|routes| - 1]), last.stopIds);
    }
  }

  lemma AddRouteKeepsStops(spec: Spec, s: State, route: Route)
    requires s.Valid(spec)
    ensures AddRoute(spec, s, route).Valid(spec)
    ensures AddRoute(spec, s, route).Stops() == s.Stops() + multiset(KnownStops(spec, route.stopIds))
  {
    var known := KnownStops(spec, route.stopIds);
    KnownFromSpec(spec, route.stopIds);
    match FindVehicle(spec.vehicles, route.vehicleId)
    case None =>
    case Some(v) => FlattenGrow(s.plan, v, s.plan[v] + known, multiset(known));
  }

  lemma FlattenNothing(k: nat)
    ensures multiset(Flatten(Idle(k))) == multiset{}
  {
    FlattenEmpties(Idle(k), 0);
  }

  /** The order of `sort(key=lambda s: (tw_close, tw_open))`. */
  predicate DueFirst(a: Stop, b: Stop) {
    if a.twClose == b.twClose then a.twOpen <= b.twOpen
    else a.twClose.At? && (b.twClose.Never? || a.twClose.t < b.twClose.t)
  }

  lemma DueFirstOrder()
    ensures TotalPreorder(DueFirst)
  {
  }

  function TidyRoute(spec: Spec, route: seq<Stop>): seq<Stop> {
    if spec.enforceTw then SortBy(DueFirst, route) else route
  }

  function Tidied(spec: Spec, plan: seq<seq<Stop>>): (tidy: seq<seq<Stop>>)
    ensures |tidy| == |plan| && forall v :: 0 <= v < |plan| ==> tidy[v] == TidyRoute(spec, plan[v])
  {
    seq(|plan|, v requires 0 <= v < |plan| => TidyRoute(spec, plan[v]))
  }

  /** Everything a repair did, from the routes as loaded to the plan before tidying. */
  datatype History = History(relief: seq<State>, waiting: seq<Stop>, log: seq<Placement>, placing: seq<seq<seq<Stop>>>)
  {
    ghost predicate Records(spec: Spec, mx: Matrix, routes: seq<Route>) {
      && IsRelief(spec, mx, relief)
      && relief[0] == LoadRoutes(spec, routes)
      && AllFit(spec, relief[|relief| - 1].plan)
      && waiting == SortBy(HeavierFirst, relief[|relief| - 1].loose)
      && IsPlacing(spec, mx, waiting, log, placing)
      && placing[0] == relief[|relief| - 1].plan
    }

    ghost function Outcome(): seq<seq<Stop>>
      requires placing != []
    {
      placing[|placing| - 1]
    }
  }

  /** out is what repairing the routes yields, and h tells how. */
  ghost predicate IsRepair(spec: Spec, mx: Matrix, routes: seq<Route>, out: seq<Route>, h: History) {
    && h.Records(spec, mx, routes)
    && |h.Outcome()| == |spec.vehicles|
    && out == RoutesOf(spec, Tidied(spec, h.Outcome()))
  }

  lemma WaitingFromSpec(spec: Spec, loose: seq<Stop>)
    requires FromSpec(spec, loose)
    ensures FromSpec(spec, SortBy(HeavierFirst, loose))
    ensures multiset(SortBy(HeavierFirst, loose)) == multiset(loose)
  {
    HeavierFirstOrder();
    SortByCorrect(HeavierFirst, loose);
    var waiting := SortBy(HeavierFirst, loose);
    forall i | 0 <= i < |waiting| ensures waiting[i] in spec.stops {
      assert waiting[i] in multiset(loose);
    }
  }

  lemma WaitingStops(spec: Spec, mx: Matrix, routes: seq<Route>, h: History)
    requires spec.Valid() && h.Records(spec, mx, routes)
    ensures FromSpec(spec, h.waiting) && NonNegativeDemand(h.waiting)
    ensures multiset(Flatten(h.placing[0])) + multiset(h.waiting) == LoadRoutes(spec, routes).Stops()
  {
    LoadRoutesKeepsStops(spec, routes);
    ReliefKeepsStops(spec, mx, h.relief, |h.relief| - 1);
    WaitingFromSpec(spec, h.relief[|h.relief| - 1].loose);
    DemandsFromSpec(spec, h.waiting);
  }

  /** From the routes as loaded to the plan before tidying the stops stay the same. */
  lemma HistoryKeepsStops(spec: Spec, mx: Matrix, routes: seq<Route>, h: History)
    requires spec.Valid() && h.Records(spec, mx, routes)
    ensures |h.Outcome()| == |spec.vehicles|
    ensures multiset(Flatten(h.Outcome())) == multiset(KnownStops(spec, AllIds(routes)))
    ensures FromSpec(spec, h.waiting)
  {
    WaitingStops(spec, mx, routes, h);
    LoadRoutesKeepsStops(spec, routes);
    PlacingKeepsAllStops(spec, mx, h.waiting, h.log, h.placing);
    PlacingOverflowBound(spec, mx, h.waiting, h.log, h.placing, |h.waiting|, 0);
  }

  lemma {:induction false} TidyKeepsStops(spec: Spec, plan: seq<seq<Stop>>)
    ensures multiset(Flatten(Tidied(spec, plan))) == multiset(Flatten(plan))
    ensures forall v :: 0 <= v < |plan| ==> multiset(TidyRoute(spec, plan[v])) == multiset(plan[v])
  {
    DueFirstOrder();
    forall v | 0 <= v < |plan| ensures multiset(TidyRoute(spec, plan[v])) == multiset(plan[v]) {
      SortByCorrect(DueFirst, plan[v]);
    }
    if plan != [] {
      var m := |plan| - 1;
      TidyKeepsStops(spec, plan[..m]);
      assert Tidied(spec, plan)[..m] == Tidied(spec, plan[..m]);
      FlattenElements(plan, m);
      FlattenElements(Tidied(spec, plan), m);
    }
  }

  /** Repair never loses, duplicates or invents a stop. */
  lemma RepairKeepsStops(spec: Spec, mx: Matrix, routes: seq<Route>, out: seq<Route>, h: History)
    requires spec.Valid() && IsRepair(spec, mx, routes, out, h)
    ensures multiset(KnownStops(spec, AllIds(out))) == multiset(KnownStops(spec, AllIds(routes)))
    ensures AllIds(out) == IdsOf(KnownStops(spec, AllIds(out)))
    ensures forall v :: 0 <= v < |out| ==> KnownStops(spec, out[v].stopIds) == TidyRoute(spec, h.Outcome()[v])
  {
    var plan := Tidied(spec, h.Outcome());
    HistoryKeepsStops(spec, mx, routes, h);
    TidyKeepsStops(spec, h.Outcome());
    var order := Flatten(plan);
    KnownFromSpec(spec, AllIds(routes));
    forall i | 0 <= i < |order| ensures order[i] in spec.stops {
      assert order[i] in multiset(order);
      assert order[i] in multiset(KnownStops(spec, AllIds(routes)));
    }
    RoutesOfIds(spec, plan);
    KnownIds(spec, order);
    SegmentsFromSpec(spec, plan);
    forall v | 0 <= v < |out| ensures KnownStops(spec, out[v].stopIds) == plan[v] {
      KnownIds(spec, plan[v]);
    }
  }

  lemma OutcomeLoad(spec: Spec, mx: Matrix, routes: seq<Route>, h: History, v: nat)
    requires spec.Valid() && h.Records(spec, mx, routes) && v < |spec.vehicles|
    ensures |h.Outcome()| == |spec.vehicles|
    ensures Load(TidyRoute(spec, h.Outcome()[v]))
         <= spec.vehicles[v].capacity + EPS + Forced(h.waiting, h.log, v, |h.waiting|)
  {
    HistoryKeepsStops(spec, mx, routes, h);
    TidyKeepsStops(spec, h.Outcome());
    DemandsFromSpec(spec, h.waiting);
    PlacingOverflowBound(spec, mx, h.waiting, h.log, h.placing, |h.waiting|, v);
    LoadPermute(TidyRoute(spec, h.Outcome()[v]), h.Outcome()[v]);
  }

  /** After a repair a vehicle exceeds its capacity by at most what had to be forced on it ... */
  lemma RepairOverflowBound(spec: Spec, mx: Matrix, routes: seq<Route>, out: seq<Route>, h: History)
    requires spec.Valid() && IsRepair(spec, mx, routes, out, h)
    ensures (forall v :: 0 <= v < |out| ==>
              Load(KnownStops(spec, out[v].stopIds))
              <= spec.vehicles[v].capacity + EPS + Forced(h.waiting, h.log, v, |h.waiting|))
  {
    RepairKeepsStops(spec, mx, routes, out, h);
    forall v | 0 <= v < |out|
      ensures Load(KnownStops(spec, out[v].stopIds))
           <= spec.vehicles[v].capacity + EPS + Forced(h.waiting, h.log, v, |h.waiting|)
    {
      OutcomeLoad(spec, mx, routes, h, v);
    }
  }

  /** ... a stop is forced exactly when no vehicle has room for it ... */
  lemma ForcedExactlyWithoutRoom(spec: Spec, mx: Matrix, routes: seq<Route>, out: seq<Route>, h: History, i: nat)
    requires IsRepair(spec, mx, routes, out, h) && i < |h.waiting|
    ensures |h.placing[i]| == |spec.vehicles|
    ensures h.log[i].forced <==> forall v :: 0 <= v < |spec.vehicles| ==> !HasRoom(spec, h.placing[i], v, h.waiting[i])
  {
    assert IsPlacement(spec, mx, h.placing[i], h.waiting[i], h.log[i], h.placing[i + 1]);
  }

  /** ... and without forced stops every vehicle is within its capacity. */
  lemma UnforcedRepairFits(spec: Spec, mx: Matrix, routes: seq<Route>, out: seq<Route>, h: History)
    requires spec.Valid() && IsRepair(spec, mx, routes, out, h)
    requires forall i :: 0 <= i < |h.log| ==> !h.log[i].forced
    ensures forall v :: 0 <= v < |out| ==> Fits(spec.vehicles[v], KnownStops(spec, out[v].stopIds))
    ensures AllFit(spec, Tidied(spec, h.Outcome()))
  {
    RepairKeepsStops(spec, mx, routes, out, h);
    forall v | 0 <= v < |out| ensures Fits(spec.vehicles[v], TidyRoute(spec, h.Outcome()[v])) {
      OutcomeLoad(spec, mx, routes, h, v);
      NothingForced(h.waiting, h.log, v, |h.waiting|);
    }
  }

  lemma {:induction false} NothingForced(stops: seq<Stop>, log: seq<Placement>, v: nat, n: nat)
    requires n <= |stops| == |log| && forall i :: 0 <= i < |log| ==> !log[i].forced
    ensures Forced(stops, log, v, n) == 0.0
  {
    if n > 0 { NothingForced(stops, log, v, n - 1); }
  }

  // ---------- repair leaves good routes alone ----------

  lemma FittingRoutesStay(spec: Spec, mx: Matrix, routes: seq<Route>, h: History)
    requires h.Records(spec, mx, routes)
    requires AllFit(spec, LoadRoutes(spec, routes).plan) && LoadRoutes(spec, routes).loose == []
    ensures h.Outcome() == LoadRoutes(spec, routes).plan
  {
    assert |h.relief| > 1 ==> IsEjection(spec, mx, h.relief[0], h.relief[1]);
    NoEjectionFrom(spec, mx, h.relief[0]);
  }

  lemma NoEjectionFrom(spec: Spec, mx: Matrix, s: State)
    requires AllFit(spec, s.plan)
    ensures forall s' :: !IsEjection(spec, mx, s, s')
  {
  }

  lemma VehicleAt(spec: Spec, v: nat)
    requires spec.Valid() && v < |spec.vehicles|
    ensures FindVehicle(spec.vehicles, spec.vehicles[v].id) == Some(v)
  {
  }

  /** The lists of k idle vehicles. */
  function Idle(k: nat): (plan: seq<seq<Stop>>)
    ensures |plan| == k && forall v :: 0 <= v < k ==> plan[v] == []
  {
    seq(k, _ => [])
  }

  lemma PadStep(front: seq<seq<Stop>>, r: seq<Stop>, k: nat)
    ensures (front + Idle(k + 1))[|front| := r] == (front + [r]) + Idle(k)
  {
  }

  lemma {:induction false} LoadRoutesOf(spec: Spec, plan: seq<seq<Stop>>)
    requires spec.Valid() && |plan| <= |spec.vehicles|
    requires forall v :: 0 <= v < |plan| ==> FromSpec(spec, plan[v])
    ensures LoadRoutes(spec, RoutesOf(spec, plan)) == State(plan + Idle(|spec.vehicles| - |plan|), [])
  {
    hide AddRoute;
    if plan == [] {
      assert plan + Idle(|spec.vehicles|) == Idle(|spec.vehicles|);
    } else {
      var m := |plan| - 1;
      var front, last := plan[..m], plan[m];
      LoadRoutesOf(spec, front);
      assert plan == front + [last];
      assert RoutesOf(spec, plan)[..m] == RoutesOf(spec, front);
      LoadOne(spec, front, last);
    }
  }

  lemma LoadOne(spec: Spec, front: seq<seq<Stop>>, last: seq<Stop>)
    requires spec.Valid() && |front| < |spec.vehicles| && FromSpec(spec, last)
    ensures AddRoute(spec, State(front + Idle(|spec.vehicles| - |front|), []),
                     Route(spec.vehicles[|front|].id, IdsOf(last)))
         == State(front + [last] + Idle(|spec.vehicles| - |front| - 1), [])
  {
    var m := |front|;
    VehicleAt(spec, m);
    KnownIds(spec, last);
    var before := front + Idle(|spec.vehicles| - m);
    assert before[m] + last == last;
    PadStep(front, last, |spec.vehicles| - m - 1);
  }

  /** Routes that already fit, one per vehicle, come back with at most their stops put in due order. */
  lemma RepairLeavesFittingRoutesAlone(spec: Spec, mx: Matrix, plan: seq<seq<Stop>>, out: seq<Route>, h: History)
    requires spec.Valid() && AllFit(spec, plan)
    requires forall v :: 0 <= v < |plan| ==> FromSpec(spec, plan[v])
    requires IsRepair(spec, mx, RoutesOf(spec, plan), out, h)
    ensures out == RoutesOf(spec, Tidied(spec, plan))
    ensures !spec.enforceTw ==> out == RoutesOf(spec, plan)
  {
    LoadRoutesOf(spec, plan);
    assert plan + [] == plan;
    FittingRoutesStay(spec, mx, RoutesOf(spec, plan), h);
    if !spec.enforceTw {
      assert Tidied(spec, plan) == plan;
    }
  }

  /** When nothing had to be forced, repairing again changes nothing. */
  lemma RepairIsIdempotent(spec: Spec, mx: Matrix, routes: seq<Route>, out: seq<Route>, h: History,
                           again: seq<Route>, h': History)
    requires spec.Valid() && IsRepair(spec, mx, routes, out, h) && IsRepair(spec, mx, out, again, h')
    requires forall i :: 0 <= i < |h.log| ==> !h.log[i].forced
    ensures again == out
  {
    var plan := Tidied(spec, h.Outcome());
    UnforcedRepairFits(spec, mx, routes, out, h);
    RepairKeepsStops(spec, mx, routes, out, h);
    forall v | 0 <= v < |plan| ensures FromSpec(spec, plan[v]) {
      KnownFromSpec(spec, out[v].stopIds);
    }
    RepairLeavesFittingRoutesAlone(spec, mx, plan, again, h');
    TidyTwice(spec, h.Outcome());
  }

  lemma TidyTwice(spec: Spec, plan: seq<seq<Stop>>)
    ensures Tidied(spec, Tidied(spec, plan)) == Tidied(spec, plan)
  {
    DueFirstOrder();
    forall v | 0 <= v < |plan| ensures TidyRoute(spec, TidyRoute(spec, plan[v])) == TidyRoute(spec, plan[v]) {
      if spec.enforceTw {
        SortByCorrect(DueFirst, plan[v]);
        SortByFixpoint(DueFirst, SortBy(DueFirst, plan[v]));
      }
    }
  }

  // ---------- the operation ----------

  datatype RepairError = LostStops

  method LoadPlan(spec: Spec, routes: seq<Route>) returns (plan: array<seq<Stop>>, loose: seq<Stop>)
    ensures fresh(plan) && State(plan[..], loose) == LoadRoutes(spec, routes)
  {
    plan := new seq<Stop>[|spec.vehicles|](_ => []);
    loose := [];
    for r := 0 to |routes|
      invariant State(plan[..], loose) == LoadRoutes(spec, routes[..r])
    {
      ghost var before := State(plan[..], loose);
      assert routes[..r + 1][..r] == routes[..r];
      var known := KnownStops(spec, routes[r].stopIds);
      var at := FindVehicle(spec.vehicles, routes[r].vehicleId);
      if at.Some? {
        plan[at.value] := plan[at.value] + known;
      } else {
        loose := loose + known;
      }
      assert State(plan[..], loose) == AddRoute(spec, before, routes[r]);
    }
    assert routes[..|routes|] == routes;
  }

  /** Counts the stops of several lists by id. */
  method CountBuckets(buckets: seq<seq<Stop>>) returns (count: map<string, nat>)
    ensures Counts(count, IdsOf(Flatten(buckets)))
  {
    count := map[];
    for b := 0 to |buckets|
      invariant Counts(count, IdsOf(Flatten(buckets[..b])))
    {
      FlattenUpTo(buckets, b);
      assert IdsOf(Flatten(buckets[..b + 1])) == IdsOf(Flatten(buckets[..b])) + IdsOf(buckets[b]);
      count := CountAll(count, IdsOf(Flatten(buckets[..b])), IdsOf(buckets[b]));
    }
    assert buckets[..|buckets|] == buckets;
  }

  lemma IdsOfRemove(a: seq<Stop>, i: nat)
    requires i < |a|
    ensures multiset(IdsOf(a)) == multiset(IdsOf(RemoveAt(a, i))) + multiset{a[i].id}
  {
    RemoveAtElements(IdsOf(a), i);
    assert IdsOf(RemoveAt(a, i)) == RemoveAt(IdsOf(a), i);
  }

  lemma {:induction false} IdsOfPermuted(a: seq<Stop>, b: seq<Stop>)
    requires multiset(a) == multiset(b)
    ensures multiset(IdsOf(a)) == multiset(IdsOf(b))
    decreases |a|
  {
    if |a| == 0 {
      assert |multiset(a)| == |multiset(b)|;
    } else {
      assert a[0] in multiset(b);
      var i :| 0 <= i < |b| && b[i] == a[0];
      RemoveAtElements(a, 0);
      RemoveAtElements(b, i);
      IdsOfPermuted(RemoveAt(a, 0), RemoveAt(b, i));
      IdsOfRemove(a, 0);
      IdsOfRemove(b, i);
    }
  }

  lemma CountsAgree(c: map<string, nat>, d: map<string, nat>, p: seq<seq<Stop>>, a: seq<Stop>,
                    q: seq<seq<Stop>>, b: seq<Stop>)
    requires Counts(c, IdsOf(Flatten(p) + a)) && Counts(d, IdsOf(Flatten(q) + b))
    requires multiset(Flatten(p)) + multiset(a) == multiset(Flatten(q)) + multiset(b)
    ensures c == d
  {
    var x, y := Flatten(p) + a, Flatten(q) + b;
    assert multiset(x) == multiset(y);
    IdsOfPermuted(x, y);
    forall id ensures id in c <==> id in d {
      assert id in IdsOf(x) <==> id in multiset(IdsOf(x));
      assert id in IdsOf(y) <==> id in multiset(IdsOf(y));
    }
  }

  method TidyPlan(spec: Spec, plan: array<seq<Stop>>)
    modifies plan
    ensures plan[..] == Tidied(spec, old(plan[..]))
    ensures forall v :: 0 <= v < plan.Length ==>
      if spec.enforceTw then IsStableSort(DueFirst, old(plan[v]), plan[v]) else plan[v] == old(plan[v])
  {
    hide IsStableSort;
    hide SortBy;
    DueFirstOrder();
    if spec.enforceTw {
      for v := 0 to plan.Length
        invariant forall u :: 0 <= u < v ==> plan[u] == TidyRoute(spec, old(plan[u]))
        invariant forall u :: 0 <= u < v ==> IsStableSort(DueFirst, old(plan[u]), plan[u])
        invariant forall u :: v <= u < plan.Length ==> plan[u] == old(plan[u])
      {
        SortByCorrect(DueFirst, plan[v]);
        plan[v] := SortBy(DueFirst, plan[v]);
      }
    }
  }

  /** `GreedyRepair.repair`: total, and its own conservation check never fails. */
  method Repair(spec: Spec, mx: Matrix, routes: seq<Route>)
    returns (r: Result<seq<Route>, RepairError>, ghost h: History)
    requires spec.Valid()
    ensures r.Success? && IsRepair(spec, mx, routes, r.value, h)
  {
    var plan, loose := LoadPlan(spec, routes);
    LoadRoutesKeepsStops(spec, routes);
    var original := CountState(plan[..], loose);
    ghost var relief, log, placing;
    loose, relief := RelieveOverloads(spec, mx, plan, loose);
    log, placing := PlaceLoose(spec, mx, plan, loose);
    h := History(relief, SortBy(HeavierFirst, loose), log, placing);
    HistoryKeepsStops(spec, mx, routes, h);
    TidyKeepsStops(spec, h.Outcome());
    TidyPlan(spec, plan);
    var repaired := RoutesOut(spec, plan[..]);
    var final := CountState(plan[..], []);
    if final != original {
      CountsAgree(final, original, plan[..], [], LoadRoutes(spec, routes).plan, LoadRoutes(spec, routes).loose);
      return Failure(LostStops), h;
    }
    r := Success(repaired);
  }

  method CountState(plan: seq<seq<Stop>>, loose: seq<Stop>) returns (count: map<string, nat>)
    ensures Counts(count, IdsOf(Flatten(plan) + loose))
  {
    assert (plan + [loose])[..|plan|] == plan;
    count := CountBuckets(plan + [loose]);
  }

  method RoutesOut(spec: Spec, plan: seq<seq<Stop>>) returns (routes: seq<Route>)
    requires |plan| == |spec.vehicles|
    ensures routes == RoutesOf(spec, plan)
  {
    routes := [];
    for v := 0 to |plan|
      invariant routes == RoutesOf(spec, plan[..v])
    {
      routes := routes + [Route(spec.vehicles[v].id, IdsOf(plan[v]))];
    }
    assert plan[..|plan|] == plan;
  }
}
