/** Every input has exactly one repair: each choice the repair makes has an answer, and only one. */
module RepairRuns {
  import opened Base
  import opened Problem
  import opened Sorting
  import opened Validator
  import opened Encoding
  import opened Repair

  // ---------- every choice has one answer ----------

  lemma WorstUnique(spec: Spec, plan: seq<seq<Stop>>, a: Option<nat>, b: Option<nat>)
    requires |plan| == |spec.vehicles| && IsMostOverloaded(spec, plan, a) && IsMostOverloaded(spec, plan, b)
    ensures a == b
  {
    hide Load;
    if a.Some? && b.Some? {
      assert Excess(spec, plan, a.value) <= Excess(spec, plan, b.value);
    }
  }

  /** Stops of the instance that neither outweighs are the same stop. */
  lemma SameWeightSameStop(spec: Spec, a: Stop, b: Stop)
    requires spec.Valid() && a in spec.stops && b in spec.stops
    requires LighterOrSame(a, b) && LighterOrSame(b, a)
    ensures a == b
  {
    StringLessTotal(a.id, b.id);
    FoundByItsId(spec, a);
    FoundByItsId(spec, b);
  }

  lemma HeaviestUnique(spec: Spec, route: seq<Stop>, i: nat, j: nat)
    requires spec.Valid() && FromSpec(spec, route) && IsHeaviest(route, i) && IsHeaviest(route, j)
    ensures i == j
  {
    SameWeightSameStop(spec, route[i], route[j]);
  }

  lemma VehicleIdsDiffer(spec: Spec, v: nat, u: nat)
    requires spec.Valid() && v < |spec.vehicles| && u < |spec.vehicles| && spec.vehicles[v].id == spec.vehicles[u].id
    ensures v == u
  {
  }

  lemma CheapestUnique(spec: Spec, mx: Matrix, plan: seq<seq<Stop>>, s: Stop, exclude: Option<nat>,
                       a: Option<Insertion>, b: Option<Insertion>)
    requires spec.Valid() && |plan| == |spec.vehicles|
    requires IsCheapest(spec, mx, plan, s, exclude, a) && IsCheapest(spec, mx, plan, s, exclude, b)
    ensures a == b
  {
    hide HasRoom;
    hide Delta;
    if a.Some? && b.Some? {
      var x, y := a.value, b.value;
      assert !Cheaper(spec, x, y) && !Cheaper(spec, y, x);
      StringLessTotal(spec.vehicles[x.vehicle].id, spec.vehicles[y.vehicle].id);
      VehicleIdsDiffer(spec, x.vehicle, y.vehicle);
    }
  }

  lemma ChoiceUnique(spec: Spec, mx: Matrix, plan: seq<seq<Stop>>, v: nat, i: nat, best: Option<Insertion>,
                     v': nat, i': nat, best': Option<Insertion>)
    requires spec.Valid() && forall u :: 0 <= u < |plan| ==> FromSpec(spec, plan[u])
    requires IsChoice(spec, mx, plan, v, i, best) && IsChoice(spec, mx, plan, v', i', best')
    ensures v == v' && i == i' && best == best'
  {
    hide IsCheapest;
    hide Load;
    WorstUnique(spec, plan, Some(v), Some(v'));
    HeaviestUnique(spec, plan[v], i, i');
    CheapestUnique(spec, mx, plan[v := RemoveAt(plan[v], i)], plan[v][i], Some(v), best, best');
  }

  lemma EjectionUnique(spec: Spec, mx: Matrix, s: State, a: State, b: State)
    requires spec.Valid() && s.Valid(spec) && IsEjection(spec, mx, s, a) && IsEjection(spec, mx, s, b)
    ensures a == b
  {
    hide IsCheapest;
    var v: nat, i: nat, best: Option<Insertion> :|
      IsChoice(spec, mx, s.plan, v, i, best) && a == Ejected(s, v, i, best);
    var v': nat, i': nat, best': Option<Insertion> :|
      IsChoice(spec, mx, s.plan, v', i', best') && b == Ejected(s, v', i', best');
    ChoiceUnique(spec, mx, s.plan, v, i, best, v', i', best');
  }

  lemma LeastLoadedUnique(spec: Spec, plan: seq<seq<Stop>>, v: nat, u: nat)
    requires spec.Valid() && |plan| == |spec.vehicles| && IsLeastLoaded(spec, plan, v) && IsLeastLoaded(spec, plan, u)
    ensures v == u
  {
    assert LoadOrIdAtMost(spec, plan, v, u) && LoadOrIdAtMost(spec, plan, u, v);
    StringLessTotal(spec.vehicles[v].id, spec.vehicles[u].id);
    VehicleIdsDiffer(spec, v, u);
  }

  lemma PlacementUnique(spec: Spec, mx: Matrix, plan: seq<seq<Stop>>, s: Stop, p: Placement, plan': seq<seq<Stop>>,
                        q: Placement, plan'': seq<seq<Stop>>)
    requires spec.Valid() && IsPlacement(spec, mx, plan, s, p, plan') && IsPlacement(spec, mx, plan, s, q, plan'')
    ensures p == q && plan' == plan''
  {
    hide IsCheapest;
    hide IsLeastLoaded;
    var a := PlacementChoice(spec, mx, plan, s, p, plan');
    var b := PlacementChoice(spec, mx, plan, s, q, plan'');
    CheapestUnique(spec, mx, plan, s, None, a, b);
    if p.forced { LeastLoadedUnique(spec, plan, p.vehicle, q.vehicle); }
  }

  /** The insertion behind a placement: none if it was forced. */
  lemma PlacementChoice(spec: Spec, mx: Matrix, plan: seq<seq<Stop>>, s: Stop, p: Placement, plan': seq<seq<Stop>>)
    returns (best: Option<Insertion>)
    requires IsPlacement(spec, mx, plan, s, p, plan')
    ensures |plan| == |spec.vehicles| && IsCheapest(spec, mx, plan, s, None, best)
    ensures p.forced <==> best.None?
    ensures best.Some? ==> best.value.vehicle == p.vehicle && best.value.pos == p.pos
  {
    hide IsCheapest;
    if p.forced {
      best := None;
    } else {
      var delta :| IsCheapest(spec, mx, plan, s, None, Some(Insertion(delta, p.vehicle, p.pos)));
      best := Some(Insertion(delta, p.vehicle, p.pos));
    }
  }

  // ---------- so has every run ----------

  lemma {:induction false} ReliefAgrees(spec: Spec, mx: Matrix, a: seq<State>, b: seq<State>, n: nat)
    requires spec.Valid() && IsRelief(spec, mx, a) && IsRelief(spec, mx, b) && a[0] == b[0] && a[0].Valid(spec)
    requires n < |a| && n < |b|
    ensures a[n] == b[n]
  {
    if n > 0 {
      ReliefAgrees(spec, mx, a, b, n - 1);
      ReliefKeepsStops(spec, mx, a, n - 1);
      assert IsEjection(spec, mx, a[n - 1], a[n]) && IsEjection(spec, mx, b[n - 1], b[n]);
      EjectionUnique(spec, mx, a[n - 1], a[n], b[n]);
    }
  }

  /** A run that has relieved everybody cannot go on. */
  lemma ReliefNotLonger(spec: Spec, mx: Matrix, a: seq<State>, b: seq<State>)
    requires spec.Valid() && IsRelief(spec, mx, a) && IsRelief(spec, mx, b) && a[0] == b[0] && a[0].Valid(spec)
    requires AllFit(spec, a[|a| - 1].plan)
    ensures |b| <= |a|
  {
    if |b| > |a| {
      ReliefAgrees(spec, mx, a, b, |a| - 1);
      assert IsEjection(spec, mx, b[|a| - 1], b[|a|]);
      NoEjectionFrom(spec, mx, a[|a| - 1]);
    }
  }

  lemma ReliefUnique(spec: Spec, mx: Matrix, a: seq<State>, b: seq<State>)
    requires spec.Valid() && IsRelief(spec, mx, a) && IsRelief(spec, mx, b) && a[0] == b[0] && a[0].Valid(spec)
    requires AllFit(spec, a[|a| - 1].plan) && AllFit(spec, b[|b| - 1].plan)
    ensures a == b
  {
    ReliefNotLonger(spec, mx, a, b);
    ReliefNotLonger(spec, mx, b, a);
    forall n | 0 <= n < |a| ensures a[n] == b[n] {
      ReliefAgrees(spec, mx, a, b, n);
    }
  }

  lemma {:induction false} PlacingUnique(spec: Spec, mx: Matrix, stops: seq<Stop>, log: seq<Placement>,
                                         run: seq<seq<seq<Stop>>>, log': seq<Placement>,
                                         run': seq<seq<seq<Stop>>>, n: nat)
    requires spec.Valid() && IsPlacing(spec, mx, stops, log, run) && IsPlacing(spec, mx, stops, log', run')
    requires run[0] == run'[0] && n <= |stops|
    ensures log[..n] == log'[..n] && run[n] == run'[n]
    ensures run[..n + 1] == run'[..n + 1]
  {
    hide IsPlacement;
    if n > 0 {
      PlacingUnique(spec, mx, stops, log, run, log', run', n - 1);
      PlacementUnique(spec, mx, run[n - 1], stops[n - 1], log[n - 1], run[n], log'[n - 1], run'[n]);
    }
  }

  /** Repairing is a function: the same routes are always repaired in the same way. */
  lemma RepairUnique(spec: Spec, mx: Matrix, routes: seq<Route>, out: seq<Route>, h: History, out': seq<Route>,
                     h': History)
    requires spec.Valid() && IsRepair(spec, mx, routes, out, h) && IsRepair(spec, mx, routes, out', h')
    ensures out == out' && h == h'
  {
    LoadRoutesKeepsStops(spec, routes);
    ReliefUnique(spec, mx, h.relief, h'.relief);
    PlacingUnique(spec, mx, h.waiting, h.log, h.placing, h'.log, h'.placing, |h.waiting|);
    assert h.log == h.log[..|h.waiting|] && h'.log == h'.log[..|h.waiting|];
    assert h.placing == h.placing[..|h.waiting| + 1] && h'.placing == h'.placing[..|h.waiting| + 1];
  }

  // ---------- every choice has an answer ----------

  /** `better` compares by a key: what is not beaten by something unbeaten is not beaten. */
  ghost predicate IsPreference(n: nat, better: (nat, nat) -> bool) {
    && (forall a, b :: 0 <= a < n && 0 <= b < n && better(a, b) ==> !better(b, a))
    && (forall a, b, c :: 0 <= a < n && 0 <= b < n && 0 <= c < n && !better(b, a) && !better(c, b) ==> !better(c, a))
  }

  /** i is the first of the best indices below n. */
  ghost predicate IsFirstBest(n: nat, better: (nat, nat) -> bool, i: nat) {
    i < n && forall j :: 0 <= j < n ==> !better(j, i) && (j < i ==> better(i, j))
  }

  lemma {:induction false} FirstBestExists(n: nat, better: (nat, nat) -> bool) returns (i: nat)
    requires n > 0 && IsPreference(n, better)
    ensures IsFirstBest(n, better, i)
  {
    if n == 1 {
      i := 0;
    } else {
      i := FirstBestExists(n - 1, better);
      if better(n - 1, i) {
        var last := n - 1;
        forall j | 0 <= j < last ensures better(last, j) {
          assert !better(j, i);
        }
        i := last;
      }
    }
  }

  lemma WorstExists(spec: Spec, plan: seq<seq<Stop>>) returns (worst: Option<nat>)
    requires spec.Valid() && |plan| == |spec.vehicles|
    ensures IsMostOverloaded(spec, plan, worst)
  {
    hide Load;
    var better := (a: nat, b: nat) => a < |plan| && b < |plan| && Excess(spec, plan, a) > Excess(spec, plan, b);
    var v := FirstBestExists(|plan|, better);
    forall u | 0 <= u < |plan|
      ensures Excess(spec, plan, u) <= Excess(spec, plan, v)
      ensures u < v ==> Excess(spec, plan, u) < Excess(spec, plan, v)
    {
      assert !better(u, v) && (u < v ==> better(v, u));
    }
    if Excess(spec, plan, v) > EPS {
      worst := Some(v);
    } else {
      worst := None;
      forall u | 0 <= u < |plan| ensures Fits(spec.vehicles[u], plan[u]) {
        assert Excess(spec, plan, u) <= EPS;
      }
    }
  }

  lemma HeaviestExists(route: seq<Stop>) returns (i: nat)
    requires route != []
    ensures IsHeaviest(route, i)
  {
    var better := (a: nat, b: nat) => a < |route| && b < |route| && !LighterOrSame(route[a], route[b]);
    StringOrder();
    i := FirstBestExists(|route|, better);
    forall j | 0 <= j < |route| ensures LighterOrSame(route[j], route[i]) && (j < i ==> route[j] != route[i]) {
      assert !better(j, i) && (j < i ==> better(i, j));
    }
  }

  lemma LeastLoadedExists(spec: Spec, plan: seq<seq<Stop>>) returns (v: nat)
    requires spec.Valid() && |plan| == |spec.vehicles|
    ensures IsLeastLoaded(spec, plan, v)
  {
    hide Load;
    var better := (a: nat, b: nat) => a < |plan| && b < |plan| && !LoadOrIdAtMost(spec, plan, b, a);
    StringOrder();
    v := FirstBestExists(|plan|, better);
    forall u | 0 <= u < |plan| ensures LoadOrIdAtMost(spec, plan, v, u) {
      assert !better(u, v);
    }
  }

  /** All insertions of s into the first n vehicles with room. */
  ghost function Insertions(spec: Spec, mx: Matrix, plan: seq<seq<Stop>>, s: Stop, exclude: Option<nat>,
                            n: nat): seq<Insertion>
    requires n <= |plan| == |spec.vehicles|
  {
    if n == 0 then []
    else
      var v := n - 1;
      Insertions(spec, mx, plan, s, exclude, v)
      + if exclude == Some(v) || !HasRoom(spec, plan, v, s) then []
        else InsertionsInto(spec, mx, plan, s, v)
  }

  ghost function InsertionsInto(spec: Spec, mx: Matrix, plan: seq<seq<Stop>>, s: Stop, v: nat): (row: seq<Insertion>)
    requires v < |plan| == |spec.vehicles|
    ensures |row| == |plan[v]| + 1
    ensures forall pos :: 0 <= pos < |row| ==>
      row[pos] == Insertion(Delta(mx, spec.vehicles[v], plan[v], pos, s.node), v, pos)
  {
    seq(|plan[v]| + 1, pos requires 0 <= pos <= |plan[v]| =>
      Insertion(Delta(mx, spec.vehicles[v], plan[v], pos, s.node), v, pos))
  }

  lemma InsertionIn(spec: Spec, mx: Matrix, plan: seq<seq<Stop>>, s: Stop, exclude: Option<nat>, v: nat, c: Insertion)
    requires v < |plan| == |spec.vehicles| && exclude != Some(v) && HasRoom(spec, plan, v, s)
    ensures c in InsertionsInto(spec, mx, plan, s, v) <==> IsInsertion(spec, mx, plan, s, exclude, c) && c.vehicle == v
  {
    hide HasRoom;
    hide Delta;
    var row := InsertionsInto(spec, mx, plan, s, v);
    if IsInsertion(spec, mx, plan, s, exclude, c) && c.vehicle == v {
      assert row[c.pos] == c;
    }
  }

  lemma {:induction false} InsertionsComplete(spec: Spec, mx: Matrix, plan: seq<seq<Stop>>, s: Stop,
                                              exclude: Option<nat>,
                                              n: nat, c: Insertion)
    requires n <= |plan| == |spec.vehicles|
    ensures c in Insertions(spec, mx, plan, s, exclude, n)
         <==> IsInsertion(spec, mx, plan, s, exclude, c) && c.vehicle < n
  {
    hide HasRoom;
    hide Delta;
    if n > 0 {
      InsertionsComplete(spec, mx, plan, s, exclude, n - 1, c);
      if exclude != Some(n - 1) && HasRoom(spec, plan, n - 1, s) {
        InsertionIn(spec, mx, plan, s, exclude, n - 1, c);
      }
    }
  }

  lemma CheapestExists(spec: Spec, mx: Matrix, plan: seq<seq<Stop>>, s: Stop, exclude: Option<nat>)
    returns (best: Option<Insertion>)
    requires spec.Valid() && |plan| == |spec.vehicles|
    ensures IsCheapest(spec, mx, plan, s, exclude, best)
  {
    var all := Insertions(spec, mx, plan, s, exclude, |plan|);
    forall c ensures c in all <==> IsInsertion(spec, mx, plan, s, exclude, c) {
      InsertionsComplete(spec, mx, plan, s, exclude, |plan|, c);
    }
    if all == [] {
      best := None;
      forall v | 0 <= v < |plan| && exclude != Some(v) ensures !HasRoom(spec, plan, v, s) {
        var c := Insertion(Delta(mx, spec.vehicles[v], plan[v], 0, s.node), v, 0);
        assert c !in all;
      }
    } else {
      assert forall i :: 0 <= i < |all| ==> all[i] in all;
      var c := CheapestOf(spec, all);
      best := Some(c);
    }
  }

  lemma CheapestOf(spec: Spec, all: seq<Insertion>) returns (c: Insertion)
    requires spec.Valid() && all != [] && forall i :: 0 <= i < |all| ==> all[i].vehicle < |spec.vehicles|
    ensures c in all && forall d :: d in all ==> !Cheaper(spec, d, c)
  {
    var better := (i: nat, j: nat) =>
      i < |all| && j < |all| && all[i].vehicle < |spec.vehicles| && all[j].vehicle < |spec.vehicles|
      && Cheaper(spec, all[i], all[j]);
    forall i, j, k | 0 <= i < |all| && 0 <= j < |all| && 0 <= k < |all| && !better(j, i) && !better(k, j)
      ensures !better(k, i)
    {
      NotCheaperTransitive(spec, all[i], all[j], all[k]);
    }
    forall i, j | 0 <= i < |all| && 0 <= j < |all| && better(i, j) ensures !better(j, i) {
      StringLessTotal(spec.vehicles[all[i].vehicle].id, spec.vehicles[all[j].vehicle].id);
    }
    var i := FirstBestExists(|all|, better);
    c := all[i];
    forall j | 0 <= j < |all| ensures !Cheaper(spec, all[j], c) {
      assert !better(j, i);
    }
  }

  lemma NotCheaperTransitive(spec: Spec, a: Insertion, b: Insertion, c: Insertion)
    requires a.vehicle < |spec.vehicles| && b.vehicle < |spec.vehicles| && c.vehicle < |spec.vehicles|
    requires !Cheaper(spec, b, a) && !Cheaper(spec, c, b)
    ensures !Cheaper(spec, c, a)
  {
    var x, y, z := spec.vehicles[a.vehicle].id, spec.vehicles[b.vehicle].id, spec.vehicles[c.vehicle].id;
    StringLessTotal(x, y);
    StringLessTotal(y, z);
    StringLessTotal(x, z);
    if StringLess(x, y) && StringLess(y, z) { StringLessTransitive(x, y, z); }
  }

  // ---------- so every input has a repair ----------

  lemma {:induction false} ReliefExists(spec: Spec, mx: Matrix, s: State) returns (run: seq<State>)
    requires spec.Valid() && s.Valid(spec)
    ensures IsRelief(spec, mx, run) && run[0] == s && AllFit(spec, run[|run| - 1].plan)
    decreases TotalBurden(spec, s.plan, |s.plan|)
  {
    hide IsCheapest;
    hide IsEjection;
    hide Load;
    var worst := WorstExists(spec, s.plan);
    if worst.None? {
      run := [s];
    } else {
      var s' := EjectionExists(spec, mx, s, worst.value);
      EjectionMakesProgress(spec, mx, s, s');
      var rest := ReliefExists(spec, mx, s');
      run := [s] + rest;
      forall i | 0 <= i < |run| - 1 ensures IsEjection(spec, mx, run[i], run[i + 1]) {
        if i > 0 { assert run[i] == rest[i - 1] && run[i + 1] == rest[i]; }
      }
    }
  }

  lemma EjectionExists(spec: Spec, mx: Matrix, s: State, v: nat) returns (s': State)
    requires spec.Valid() && s.Valid(spec) && IsMostOverloaded(spec, s.plan, Some(v))
    ensures IsEjection(spec, mx, s, s')
  {
    OverloadedIsNotEmpty(spec, s.plan, v);
    var i := HeaviestExists(s.plan[v]);
    var best := CheapestExists(spec, mx, s.plan[v := RemoveAt(s.plan[v], i)], s.plan[v][i], Some(v));
    assert IsChoice(spec, mx, s.plan, v, i, best);
    s' := Ejected(s, v, i, best);
  }

  lemma PlacementExists(spec: Spec, mx: Matrix, plan: seq<seq<Stop>>, s: Stop)
    returns (p: Placement, plan': seq<seq<Stop>>)
    requires spec.Valid() && |plan| == |spec.vehicles|
    ensures IsPlacement(spec, mx, plan, s, p, plan')
  {
    var best := CheapestExists(spec, mx, plan, s, None);
    if best.None? {
      var v := LeastLoadedExists(spec, plan);
      p := Placement(v, |plan[v]|, true);
    } else {
      p := Placement(best.value.vehicle, best.value.pos, false);
      assert best == Some(Insertion(best.value.delta, p.vehicle, p.pos));
    }
    plan' := plan[p.vehicle := InsertAt(plan[p.vehicle], p.pos, s)];
  }

  lemma {:induction false} PlacingExists(spec: Spec, mx: Matrix, plan: seq<seq<Stop>>, stops: seq<Stop>, n: nat)
    returns (log: seq<Placement>, run: seq<seq<seq<Stop>>>)
    requires spec.Valid() && |plan| == |spec.vehicles| && n <= |stops|
    ensures IsPlacing(spec, mx, stops[..n], log, run) && run[0] == plan && |run[n]| == |spec.vehicles|
  {
    hide IsCheapest;
    hide IsLeastLoaded;
    if n == 0 {
      log, run := [], [plan];
    } else {
      log, run := PlacingExists(spec, mx, plan, stops, n - 1);
      var p, next := PlacementExists(spec, mx, run[n - 1], stops[n - 1]);
      PlacingSnoc(spec, mx, stops, n - 1, log, run, p, next);
      log, run := log + [p], run + [next];
    }
  }

  /** Every input has a repair. */
  lemma RepairExists(spec: Spec, mx: Matrix, routes: seq<Route>) returns (out: seq<Route>, h: History)
    requires spec.Valid()
    ensures IsRepair(spec, mx, routes, out, h)
  {
    LoadRoutesKeepsStops(spec, routes);
    var relief := ReliefExists(spec, mx, LoadRoutes(spec, routes));
    var last := relief[|relief| - 1];
    var waiting := SortBy(HeavierFirst, last.loose);
    var log, placing := PlacingExists(spec, mx, last.plan, waiting, |waiting|);
    assert waiting[..|waiting|] == waiting;
    h := History(relief, waiting, log, placing);
    out := RoutesOf(spec, Tidied(spec, h.Outcome()));
  }

  // ---------- where a waiting stop goes ----------

  /** The place of a stop is the lexicographically least among all places with room. */
  ghost predicate LeastWithRoom(spec: Spec, mx: Matrix, plan: seq<seq<Stop>>, s: Stop, p: Placement)
    requires |plan| == |spec.vehicles|
  {
    exists delta :: IsCheapest(spec, mx, plan, s, None, Some(Insertion(delta, p.vehicle, p.pos)))
  }

  /** A waiting stop goes to the least place with room exactly when some vehicle has room for it. */
  lemma CheapestExactlyWithRoom(spec: Spec, mx: Matrix, plan: seq<seq<Stop>>, s: Stop, p: Placement,
                                plan': seq<seq<Stop>>)
    requires IsPlacement(spec, mx, plan, s, p, plan')
    ensures |plan| == |spec.vehicles|
    ensures LeastWithRoom(spec, mx, plan, s, p) <==> exists v: nat :: v < |plan| && HasRoom(spec, plan, v, s)
  {
    hide HasRoom;
    hide IsLeastLoaded;
    if LeastWithRoom(spec, mx, plan, s, p) {
      var delta :| IsCheapest(spec, mx, plan, s, None, Some(Insertion(delta, p.vehicle, p.pos)));
      assert HasRoom(spec, plan, p.vehicle, s);
    }
  }

  /** c names any vehicle, with room or without, and a position in its route. */
  ghost predicate IsPlace(spec: Spec, mx: Matrix, plan: seq<seq<Stop>>, s: Stop, c: Insertion)
    requires |plan| == |spec.vehicles|
  {
    && c.vehicle < |plan|
    && c.pos <= |plan[c.vehicle]|
    && c.delta == Delta(mx, spec.vehicles[c.vehicle], plan[c.vehicle], c.pos, s.node)
  }

  /** The cheapest position overall: the lexicographically least of all places. */
  ghost predicate IsLeastOverall(spec: Spec, mx: Matrix, plan: seq<seq<Stop>>, s: Stop, best: Insertion)
    requires |plan| == |spec.vehicles|
  {
    IsPlace(spec, mx, plan, s, best) && forall c :: IsPlace(spec, mx, plan, s, c) ==> !Cheaper(spec, c, best)
  }

  /** There is one: for a stop light enough every place is a place with room. */
  lemma LeastOverallExists(spec: Spec, mx: Matrix, plan: seq<seq<Stop>>, s: Stop) returns (best: Insertion)
    requires spec.Valid() && |plan| == |spec.vehicles|
    ensures IsLeastOverall(spec, mx, plan, s, best)
  {
    hide Load;
    hide Delta;
    var worst := WorstExists(spec, plan);
    var light := s.(demand := if worst.Some? then EPS - Excess(spec, plan, worst.value) else 0.0);
    forall v | 0 <= v < |plan| ensures HasRoom(spec, plan, v, light) {
      if worst.Some? { assert Excess(spec, plan, v) <= Excess(spec, plan, worst.value); }
    }
    var least := CheapestExists(spec, mx, plan, light, None);
    assert HasRoom(spec, plan, 0, light);
    best := least.value;
    forall c ensures IsPlace(spec, mx, plan, s, c) <==> IsInsertion(spec, mx, plan, light, None, c) {
    }
  }

  /** As long as some vehicle has room, a waiting stop goes to the cheapest position overall exactly when the
      vehicle of that position has room. */
  lemma CheapestOverallExactly(spec: Spec, mx: Matrix, plan: seq<seq<Stop>>, s: Stop, p: Placement,
                               plan': seq<seq<Stop>>, best: Insertion)
    requires spec.Valid() && IsPlacement(spec, mx, plan, s, p, plan') && IsLeastOverall(spec, mx, plan, s, best)
    requires exists v: nat :: v < |plan| && HasRoom(spec, plan, v, s)
    ensures p.vehicle == best.vehicle && p.pos == best.pos <==> HasRoom(spec, plan, best.vehicle, s)
  {
    hide HasRoom;
    hide Delta;
    assert !p.forced;
    var delta :| IsCheapest(spec, mx, plan, s, None, Some(Insertion(delta, p.vehicle, p.pos)));
    var b := Insertion(delta, p.vehicle, p.pos);
    if HasRoom(spec, plan, best.vehicle, s) {
      assert IsInsertion(spec, mx, plan, s, None, best) && IsPlace(spec, mx, plan, s, b);
      assert !Cheaper(spec, best, b) && !Cheaper(spec, b, best);
      StringLessTotal(spec.vehicles[b.vehicle].id, spec.vehicles[best.vehicle].id);
      VehicleIdsDiffer(spec, b.vehicle, best.vehicle);
    }
  }

  /** So with room everywhere it always does. */
  lemma RoomEverywhereIsCheapest(spec: Spec, mx: Matrix, plan: seq<seq<Stop>>, s: Stop, p: Placement,
                                 plan': seq<seq<Stop>>)
    requires spec.Valid() && IsPlacement(spec, mx, plan, s, p, plan')
    requires forall v: nat :: v < |plan| ==> HasRoom(spec, plan, v, s)
    ensures |plan| == |spec.vehicles|
    ensures exists best :: IsLeastOverall(spec, mx, plan, s, best) && p.vehicle == best.vehicle && p.pos == best.pos
  {
    hide IsPlacement;
    hide IsLeastOverall;
    hide HasRoom;
    PlacementShape(spec, mx, plan, s, p, plan');
    var best := LeastOverallExists(spec, mx, plan, s);
    LeastIsPlace(spec, mx, plan, s, best);
    assert HasRoom(spec, plan, best.vehicle, s);
    CheapestOverallExactly(spec, mx, plan, s, p, plan', best);
  }

  lemma PlacementShape(spec: Spec, mx: Matrix, plan: seq<seq<Stop>>, s: Stop, p: Placement, plan': seq<seq<Stop>>)
    requires IsPlacement(spec, mx, plan, s, p, plan')
    ensures |plan| == |spec.vehicles|
  {
  }

  lemma LeastIsPlace(spec: Spec, mx: Matrix, plan: seq<seq<Stop>>, s: Stop, best: Insertion)
    requires |plan| == |spec.vehicles| && IsLeastOverall(spec, mx, plan, s, best)
    ensures best.vehicle < |plan|
  {
  }

  /** Without room the documentation promises the cheapest position of all. Two empty vehicles, neither of
      which can carry the stop: every repair sends the one whose name comes first, from its depot 100 seconds
      away, although the other one is parked at the stop. */
  lemma ForcedIsNotCheapest() returns (spec: Spec, mx: Matrix, s: Stop)
    ensures spec.Valid() && |spec.vehicles| == 2 && spec.stops == [s] && mx.NonNegative()
    ensures forall out, h :: IsRepair(spec, mx, [Route("", [s.id])], out, h) ==>
      out == RoutesOf(spec, [[s], []])
    ensures Delta(mx, spec.vehicles[0], [], 0, s.node) == 200.0
    ensures Delta(mx, spec.vehicles[1], [], 0, s.node) == 0.0
  {
    s := Stop("s", 0, 2.0, 0.0, 0.0, Never);
    var far, here := Vehicle("a", 1.0, 100, 100, 0.0, Never), Vehicle("b", 1.0, 0, 0, 0.0, Never);
    mx := Matrix((a, b) => if a < b then (b - a) as real else (a - b) as real, (a, b) => 0.0);
    spec := Spec([s], [far, here], MinTravelTime, None, false);
    assert far.id != here.id by { assert far.id[0] != here.id[0]; }
    forall out, h | IsRepair(spec, mx, [Route("", [s.id])], out, h) ensures out == RoutesOf(spec, [[s], []]) {
      OnlyStopIsForced(spec, mx, s, out, h);
    }
  }

  lemma WaitsAlone(spec: Spec, s: Stop)
    requires spec.Valid() && |spec.vehicles| == 2 && spec.stops == [s]
    requires forall v :: 0 <= v < 2 ==> spec.vehicles[v].id != ""
    ensures LoadRoutes(spec, [Route("", [s.id])]) == State([[], []], [s])
  {
    var route := Route("", [s.id]);
    assert [route][..0] == [];
    assert IdsOf([s]) == [s.id];
    KnownIds(spec, [s]);
    assert Idle(2) == [[], []];
  }

  lemma OnlyStopIsForced(spec: Spec, mx: Matrix, s: Stop, out: seq<Route>, h: History)
    requires spec.Valid() && |spec.vehicles| == 2 && spec.stops == [s] && !spec.enforceTw
    requires forall v :: 0 <= v < 2 ==> spec.vehicles[v].id != "" && s.demand > spec.vehicles[v].capacity + EPS
    requires StringLess(spec.vehicles[0].id, spec.vehicles[1].id)
    requires IsRepair(spec, mx, [Route("", [s.id])], out, h)
    ensures out == RoutesOf(spec, [[s], []])
  {
    hide *;
    OnlyStopWaits(spec, mx, s, out, h);
    OnlyPlacement(spec, mx, s, h.log[0], h.placing[1]);
    RepairedPlan(spec, mx, [Route("", [s.id])], out, h);
    assert Tidied(spec, [[s], []]) == [[s], []] by { NothingToTidy(spec, [[s], []]); }
  }

  lemma RepairedPlan(spec: Spec, mx: Matrix, routes: seq<Route>, out: seq<Route>, h: History)
    requires IsRepair(spec, mx, routes, out, h)
    ensures h.placing != [] && |h.placing[|h.placing| - 1]| == |spec.vehicles|
    ensures out == RoutesOf(spec, Tidied(spec, h.placing[|h.placing| - 1]))
  {
  }

  lemma NothingToTidy(spec: Spec, plan: seq<seq<Stop>>)
    requires !spec.enforceTw
    ensures Tidied(spec, plan) == plan
  {
  }

  lemma OnlyStopWaits(spec: Spec, mx: Matrix, s: Stop, out: seq<Route>, h: History)
    requires spec.Valid() && |spec.vehicles| == 2 && spec.stops == [s]
    requires forall v :: 0 <= v < 2 ==> spec.vehicles[v].id != ""
    requires IsRepair(spec, mx, [Route("", [s.id])], out, h)
    ensures |h.log| == 1 && |h.placing| == 2 && IsPlacement(spec, mx, [[], []], s, h.log[0], h.placing[1])
  {
    hide IsPlacement;
    hide IsEjection;
    hide LoadRoutes;
    hide Tidied;
    WaitsAlone(spec, s);
    IdleFits(spec);
    NothingToRelieve(spec, mx, State([[], []], [s]), h.relief);
    SortOne(s);
    assert IsPlacement(spec, mx, h.placing[0], h.waiting[0], h.log[0], h.placing[1]);
  }

  lemma IdleFits(spec: Spec)
    requires spec.Valid() && |spec.vehicles| == 2
    ensures AllFit(spec, [[], []])
  {
  }

  lemma SortOne(s: Stop)
    ensures SortBy(HeavierFirst, [s]) == [s]
  {
    SortByFixpoint(HeavierFirst, [s]);
  }

  lemma NothingToRelieve(spec: Spec, mx: Matrix, s: State, run: seq<State>)
    requires AllFit(spec, s.plan) && IsRelief(spec, mx, run) && run[0] == s
    ensures run == [s]
  {
    assert |run| > 1 ==> IsEjection(spec, mx, run[0], run[1]);
    NoEjectionFrom(spec, mx, s);
  }

  lemma OnlyPlacement(spec: Spec, mx: Matrix, s: Stop, p: Placement, plan': seq<seq<Stop>>)
    requires spec.Valid() && |spec.vehicles| == 2
    requires forall v :: 0 <= v < 2 ==> s.demand > spec.vehicles[v].capacity + EPS
    requires StringLess(spec.vehicles[0].id, spec.vehicles[1].id)
    requires IsPlacement(spec, mx, [[], []], s, p, plan')
    ensures plan' == [[s], []]
  {
    var plan: seq<seq<Stop>> := [[], []];
    CheapestExactlyWithRoom(spec, mx, plan, s, p, plan');
    assert forall v: nat :: v < 2 ==> !HasRoom(spec, plan, v, s);
    assert p.forced;
    StringLessTotal(spec.vehicles[0].id, spec.vehicles[1].id);
    assert LoadOrIdAtMost(spec, plan, p.vehicle, 0);
    assert p.vehicle == 0;
    assert InsertAt([], 0, s) == [s];
  }

  // ---------- a forced repair need not be a fixed point ----------

  /** One vehicle, which can carry either of two stops but not both; the first one is heavier. */
  ghost predicate CarriesEither(spec: Spec, a: Stop, s: Stop) {
    && spec.Valid() && !spec.enforceTw && spec.stops == [a, s]
    && |spec.vehicles| == 1 && spec.vehicles[0].id != ""
    && s.demand < a.demand <= spec.vehicles[0].capacity < a.demand + s.demand - EPS
  }

  lemma LoadOfOne(x: Stop)
    ensures Load([x]) == x.demand
  {
    assert [x][..0] == [];
  }

  lemma LoadOfTwo(x: Stop, y: Stop)
    ensures Load([x, y]) == x.demand + y.demand
  {
    assert [x, y][..1] == [x];
    LoadOfOne(x);
  }

  lemma OneFits(spec: Spec, a: Stop, s: Stop)
    requires CarriesEither(spec, a, s)
    ensures AllFit(spec, [[a]]) && AllFit(spec, [[s]])
  {
    LoadOfOne(a);
    LoadOfOne(s);
  }

  lemma OneCarriedOneWaits(spec: Spec, a: Stop, s: Stop)
    requires CarriesEither(spec, a, s)
    ensures LoadRoutes(spec, [Route(spec.vehicles[0].id, [a.id]), Route("", [s.id])]) == State([[a]], [s])
  {
    hide LoadRoutes;
    var first, second := Route(spec.vehicles[0].id, [a.id]), Route("", [s.id]);
    assert IdsOf([a]) == [a.id] && IdsOf([s]) == [s.id];
    KnownIds(spec, [a]);
    KnownIds(spec, [s]);
    LoadRoutesOf(spec, [[a]]);
    assert RoutesOf(spec, [[a]]) == [first] && [[a]] + Idle(0) == [[a]];
    LoadRoutesSnoc(spec, [first], second);
    assert [first] + [second] == [first, second];
  }

  lemma LoadRoutesSnoc(spec: Spec, routes: seq<Route>, route: Route)
    ensures LoadRoutes(spec, routes + [route]) == AddRoute(spec, LoadRoutes(spec, routes), route)
  {
    assert (routes + [route])[..|routes|] == routes;
  }

  /** Whichever of the two is carried, the other one is forced in behind it. */
  lemma ForcedBehind(spec: Spec, mx: Matrix, x: Stop, y: Stop, p: Placement, plan': seq<seq<Stop>>)
    requires CarriesEither(spec, x, y) || CarriesEither(spec, y, x)
    requires IsPlacement(spec, mx, [[x]], y, p, plan')
    ensures plan' == [[x, y]]
  {
    hide IsCheapest;
    LoadOfOne(x);
    CheapestExactlyWithRoom(spec, mx, [[x]], y, p, plan');
    assert InsertAt([x], 1, y) == [x, y];
  }

  lemma RepairedBehind(spec: Spec, mx: Matrix, routes: seq<Route>, x: Stop, y: Stop, out: seq<Route>, h: History)
    requires CarriesEither(spec, x, y) || CarriesEither(spec, y, x)
    requires IsRepair(spec, mx, routes, out, h) && h.relief[|h.relief| - 1] == State([[x]], [y])
    ensures out == RoutesOf(spec, [[x, y]])
  {
    hide IsPlacement;
    hide IsEjection;
    hide LoadRoutes;
    hide AllFit;
    SortOne(y);
    assert IsPlacement(spec, mx, h.placing[0], h.waiting[0], h.log[0], h.placing[1]);
    ForcedBehind(spec, mx, x, y, h.log[0], h.placing[1]);
    NothingToTidy(spec, [[x, y]]);
  }

  /** From the longer route the heavier stop is ejected, and waits. */
  lemma FirstIsEjected(spec: Spec, mx: Matrix, a: Stop, s: Stop)
    requires CarriesEither(spec, a, s)
    ensures IsRelief(spec, mx, [State([[a, s]], []), State([[s]], [a])])
  {
    var plan := [[a, s]];
    LoadOfTwo(a, s);
    assert RemoveAt([a, s], 0) == [s];
    assert IsMostOverloaded(spec, plan, Some(0));
    assert IsHeaviest(plan[0], 0);
    assert plan[0 := [s]] == [[s]];
    assert IsCheapest(spec, mx, [[s]], a, Some(0), None);
    assert IsChoice(spec, mx, plan, 0, 0, None);
    assert [] + [a] == [a];
    assert Ejected(State(plan, []), 0, 0, None) == State([[s]], [a]);
  }

  lemma RepairSwaps(spec: Spec, mx: Matrix, a: Stop, s: Stop, out: seq<Route>, h: History)
    requires CarriesEither(spec, a, s) && IsRepair(spec, mx, RoutesOf(spec, [[a, s]]), out, h)
    ensures out == RoutesOf(spec, [[s, a]])
  {
    hide IsRelief;
    hide IsPlacing;
    hide AllFit;
    hide LoadRoutes;
    LoadRoutesOf(spec, [[a, s]]);
    assert [[a, s]] + Idle(0) == [[a, s]];
    FirstIsEjected(spec, mx, a, s);
    OneFits(spec, a, s);
    ReliefUnique(spec, mx, h.relief, [State([[a, s]], []), State([[s]], [a])]);
    RepairedBehind(spec, mx, RoutesOf(spec, [[a, s]]), s, a, out, h);
  }

  lemma RepairAppends(spec: Spec, mx: Matrix, a: Stop, s: Stop, out: seq<Route>, h: History)
    requires CarriesEither(spec, a, s)
    requires IsRepair(spec, mx, [Route(spec.vehicles[0].id, [a.id]), Route("", [s.id])], out, h)
    ensures out == RoutesOf(spec, [[a, s]])
  {
    hide IsRelief;
    hide IsPlacing;
    hide AllFit;
    hide LoadRoutes;
    OneCarriedOneWaits(spec, a, s);
    OneFits(spec, a, s);
    NothingToRelieve(spec, mx, State([[a]], [s]), h.relief);
    RepairedBehind(spec, mx, [Route(spec.vehicles[0].id, [a.id]), Route("", [s.id])], a, s, out, h);
  }

  /** A forced repair need not be a fixed point: with one stop on board and the other one waiting, every repair
      appends the waiting one, and every repair of that puts the first one last. */
  lemma ForcedRepairIsNotFixed() returns (spec: Spec, a: Stop, s: Stop)
    ensures spec.Valid() && spec.stops == [a, s] && |spec.vehicles| == 1 && a.id != s.id
    ensures forall mx, out, h :: IsRepair(spec, mx, [Route(spec.vehicles[0].id, [a.id]), Route("", [s.id])], out, h)
                             ==> out == RoutesOf(spec, [[a, s]])
    ensures forall mx, out, h :: IsRepair(spec, mx, RoutesOf(spec, [[a, s]]), out, h)
                             ==> out == RoutesOf(spec, [[s, a]])
  {
    hide IsRepair;
    hide RoutesOf;
    a, s := Stop("a", 0, 9.0, 0.0, 0.0, Never), Stop("s", 0, 5.0, 0.0, 0.0, Never);
    assert a.id[0] != s.id[0];
    spec := Spec([a, s], [Vehicle("v", 10.0, 0, 0, 0.0, Never)], MinTravelTime, None, false);
    forall mx, out, h | IsRepair(spec, mx, [Route(spec.vehicles[0].id, [a.id]), Route("", [s.id])], out, h)
      ensures out == RoutesOf(spec, [[a, s]])
    {
      RepairAppends(spec, mx, a, s, out, h);
    }
    forall mx, out, h | IsRepair(spec, mx, RoutesOf(spec, [[a, s]]), out, h) ensures out == RoutesOf(spec, [[s, a]]) {
      RepairSwaps(spec, mx, a, s, out, h);
    }
  }
}
