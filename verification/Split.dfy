/** The Prins-style split: cutting a giant tour into one consecutive segment per vehicle by a
    k-bounded Bellman recurrence, and what that recurrence is worth. */
module Split {
  import opened Base
  import opened Problem

  /** A splitting problem: the instance and the stops in giant-tour order. */
  datatype Tour = Tour(spec: Spec, mx: Matrix, order: seq<Stop>)
  {
    ghost predicate Valid() {
      spec.Valid() && forall i :: 0 <= i < |order| ==> order[i].Valid()
    }

    function N(): nat { |order| }

    function K(): nat { |spec.vehicles| }
  }

  // ---------- what a plan is worth, by definition ----------

  /** The price of one non-empty route: its driven cost plus a charge for lateness. */
  function Score(t: Tour, v: nat, route: seq<Stop>): real
    requires v < t.K()
  {
    DrivenCost(t.mx, t.spec.objective, t.spec.vehicles[v], route)
    + if t.spec.enforceTw then Lateness(true, t.mx, t.spec.vehicles[v], route) * 100.0 else 0.0
  }

  function Combine(objective: Objective, c: real, s: real): real {
    if objective.MinMakespan? then Max(c, s) else c + s
  }

  /** The value of giving routes[v] to vehicle v, for the first |routes| vehicles; idle ones are free. */
  function PlanScore(t: Tour, routes: seq<seq<Stop>>): real
    requires |routes| <= t.K()
  {
    if routes == [] then 0.0
    else
      var m := |routes| - 1;
      var rest := PlanScore(t, routes[..m]);
      if routes[m] == [] then rest else Combine(t.spec.objective, rest, Score(t, m, routes[m]))
  }

  ghost predicate PlanFits(t: Tour, routes: seq<seq<Stop>>)
    requires |routes| <= t.K()
  {
    forall v :: 0 <= v < |routes| ==> Fits(t.spec.vehicles[v], routes[v])
  }

  /** A way to cut the first j stops into consecutive, possibly empty, segments for m vehicles. */
  ghost predicate IsCut(t: Tour, routes: seq<seq<Stop>>, m: nat, j: nat)
    requires j <= t.N()
  {
    |routes| == m && Flatten(routes) == t.order[..j]
  }

  // ---------- the table ----------

  /** What the table-filling needs to know: how many stops and vehicles there are, how values combine,
      and what vehicle v charges for stops i..j of the tour (`inf` if they do not fit). */
  datatype Stages = Stages(n: nat, k: nat, objective: Objective, price: (nat, nat, nat) -> Cost)

  function Price(t: Tour, v: nat, i: nat, j: nat): Cost {
    if v < t.K() && i <= j <= t.N() && Fits(t.spec.vehicles[v], t.order[i..j])
    then Fin(Score(t, v, t.order[i..j])) else Inf
  }

  ghost function StagesOf(t: Tour): Stages {
    Stages(t.N(), t.K(), t.spec.objective, (v: nat, i: nat, j: nat) => Price(t, v, i, j))
  }

  /** Marks the segments whose price a proof asks for. */
  ghost predicate Asked(v: nat, i: nat, j: nat) {
    true
  }

  ghost predicate Models(s: Stages, t: Tour) {
    && s.n == t.N()
    && s.k == t.K()
    && s.objective == t.spec.objective
    && forall v, i, j {:trigger Asked(v, i, j)} :: Asked(v, i, j) ==> s.price(v, i, j) == Price(t, v, i, j)
  }

  lemma ModelsShape(s: Stages, t: Tour)
    requires Models(s, t)
    ensures s.n == t.N() && s.k == t.K() && s.objective == t.spec.objective
  {
  }

  lemma StagesOfModels(t: Tour)
    ensures Models(StagesOf(t), t)
  {
  }

  /** One cell of `cost_to` and `pred_i`. */
  datatype Cell = Cell(cost: Cost, pred: int)

  /** The cell for j stops and m vehicles after vehicle m has tried all starts below i. */
  ghost function Entry(s: Stages, j: nat, m: nat, i: nat): Cell
    requires j <= s.n && m <= s.k && i <= s.n
    decreases m, i
  {
    if m == 0 then Cell(if j == 0 then Fin(0.0) else Inf, -1)
    else if i == 0 then Cell(Entry(s, j, m - 1, s.n).cost, j)
    else
      var e := Entry(s, j, m, i - 1);
      var c := Candidate(s, i - 1, j, m);
      if Less(c, e.cost) then Cell(c, i - 1) else e
  }

  /** What vehicle m makes of stops i..j on top of the best value for the stops before i. */
  ghost function Candidate(s: Stages, i: nat, j: nat, m: nat): Cost
    requires i <= s.n && j <= s.n && 0 < m <= s.k
    decreases m, i
  {
    var before := Entry(s, i, m - 1, s.n).cost;
    var price := s.price(m - 1, i, j);
    if i < j && before.Fin? && price.Fin? then Fin(Combine(s.objective, before.v, price.v)) else Inf
  }

  ghost function Final(s: Stages, j: nat, m: nat): Cell
    requires j <= s.n && m <= s.k
  {
    Entry(s, j, m, s.n)
  }

  // ---------- optimality of the table ----------

  lemma {:induction false} EntryBounds(s: Stages, j: nat, m: nat, i: nat)
    requires j <= s.n && 0 < m <= s.k && i <= s.n
    ensures AtMost(Entry(s, j, m, i).cost, Final(s, j, m - 1).cost)
    ensures forall i': nat :: i' < i ==> AtMost(Entry(s, j, m, i).cost, Candidate(s, i', j, m))
  {
    if i > 0 { EntryBounds(s, j, m, i - 1); }
  }

  /** Where a cell's value comes from: an idle vehicle, or a fitting segment that starts at pred. */
  lemma {:induction false} EntryOrigin(s: Stages, j: nat, m: nat, i: nat)
    requires j <= s.n && 0 < m <= s.k && i <= s.n
    ensures var e := Entry(s, j, m, i);
      || (e.pred == j && e.cost == Final(s, j, m - 1).cost)
      || (0 <= e.pred < j && e.cost.Fin? && e.cost == Candidate(s, e.pred, j, m))
  {
    if i > 0 { EntryOrigin(s, j, m, i - 1); }
  }

  /** How ties are broken: a vehicle stays idle unless a segment is strictly cheaper, and of several equally
      cheap segments the one with the earliest start is kept. */
  lemma {:induction false} EntryFirst(s: Stages, j: nat, m: nat, i: nat)
    requires j <= s.n && 0 < m <= s.k && i <= s.n
    ensures var e := Entry(s, j, m, i);
      e.pred < j ==> Less(e.cost, Final(s, j, m - 1).cost) && BeatsEarlier(s, j, m, e.pred, e.cost)
  {
    EntryOrigin(s, j, m, i);
    if i > 0 {
      EntryFirst(s, j, m, i - 1);
      EntryBounds(s, j, m, i - 1);
    }
  }

  ghost predicate BeatsEarlier(s: Stages, j: nat, m: nat, start: int, cost: Cost)
    requires j <= s.n && 0 < m <= s.k
  {
    forall i: nat :: i < start && i < s.n ==> Less(cost, Candidate(s, i, j, m))
  }

  /** No cut of the first j stops among the first m vehicles that fits is cheaper than the cell. */
  lemma {:induction false} CellIsLowerBound(t: Tour, s: Stages, routes: seq<seq<Stop>>, m: nat, j: nat)
    requires Models(s, t) && j <= t.N() && m <= t.K() && IsCut(t, routes, m, j) && PlanFits(t, routes)
    ensures AtMost(Final(s, j, m).cost, Fin(PlanScore(t, routes)))
    decreases m
  {
    if m > 0 {
      var front, last := routes[..m - 1], routes[m - 1];
      var i := |Flatten(front)|;
      assert t.order[..j] == Flatten(front) + last;
      assert Flatten(front) == t.order[..j][..i] == t.order[..i];
      assert last == t.order[..j][i..] == t.order[i..j];
      CellIsLowerBound(t, s, front, m - 1, i);
      EntryBounds(s, j, m, s.n);
      assert Asked(m - 1, i, j);
      if last == [] {
        assert i == j;
      } else {
        assert AtMost(Final(s, j, m).cost, Candidate(s, i, j, m));
      }
    } else {
      assert routes == [];
      assert |t.order[..j]| == j;
    }
  }

  lemma PlanSnoc(t: Tour, routes: seq<seq<Stop>>, route: seq<Stop>)
    requires |routes| < t.K()
    ensures Flatten(routes + [route]) == Flatten(routes) + route
    ensures PlanFits(t, routes + [route]) <==> PlanFits(t, routes) && Fits(t.spec.vehicles[|routes|], route)
    ensures PlanScore(t, routes + [route])
         == if route == [] then PlanScore(t, routes)
            else Combine(t.spec.objective, PlanScore(t, routes), Score(t, |routes|, route))
  {
    var plan := routes + [route];
    assert plan[..|routes|] == routes;
    if PlanFits(t, plan) {
      assert Fits(t.spec.vehicles[|routes|], plan[|routes|]);
      forall v | 0 <= v < |routes| ensures Fits(t.spec.vehicles[v], routes[v]) {
        assert plan[v] == routes[v];
      }
    }
  }

  /** The cut that following `pred_i` back from (j, m) spells out. */
  ghost function Backtracked(t: Tour, s: Stages, j: nat, m: nat): seq<seq<Stop>>
    requires s.n == t.N() && s.k == t.K() && j <= s.n && m <= s.k && Final(s, j, m).cost.Fin?
  {
    if m == 0 then []
    else
      EntryOrigin(s, j, m, s.n);
      var i := Final(s, j, m).pred;
      Backtracked(t, s, i, m - 1) + [t.order[i..j]]
  }

  /** The last segment of that cut fits, and adds to the value before it what the cell says. */
  lemma LastSegment(t: Tour, s: Stages, j: nat, m: nat)
    requires t.Valid() && Models(s, t) && j <= t.N() && 0 < m <= t.K() && Final(s, j, m).cost.Fin?
    ensures 0 <= Final(s, j, m).pred <= j && Final(s, Final(s, j, m).pred, m - 1).cost.Fin?
    ensures var i := Final(s, j, m).pred;
      var before, last := Final(s, i, m - 1).cost.v, t.order[i..j];
      && Fits(t.spec.vehicles[m - 1], last)
      && Final(s, j, m).cost.v
         == if last == [] then before else Combine(t.spec.objective, before, Score(t, m - 1, last))
  {
    hide Score;
    EntryOrigin(s, j, m, s.n);
    assert Asked(m - 1, Final(s, j, m).pred, j);
  }

  /** Without vehicles only the empty prefix is served, for nothing. */
  lemma FirstColumn(t: Tour, s: Stages, j: nat)
    requires j <= s.n && Final(s, j, 0).cost.Fin?
    ensures j == 0 && Final(s, j, 0).cost.v == PlanScore(t, [])
  {
  }

  /** ... is a cut, fits, and is worth exactly the value of the cell. */
  lemma {:induction false} CellIsAttained(t: Tour, s: Stages, j: nat, m: nat)
    requires t.Valid() && Models(s, t) && j <= t.N() && m <= t.K() && Final(s, j, m).cost.Fin?
    ensures IsCut(t, Backtracked(t, s, j, m), m, j)
    ensures PlanFits(t, Backtracked(t, s, j, m))
    ensures PlanScore(t, Backtracked(t, s, j, m)) == Final(s, j, m).cost.v
    decreases m
  {
    hide Entry;
    hide Fits;
    hide PlanScore;
    hide Score;
    if m == 0 {
      FirstColumn(t, s, j);
    } else {
      LastSegment(t, s, j, m);
      var i := Final(s, j, m).pred;
      var front, last := Backtracked(t, s, i, m - 1), t.order[i..j];
      CellIsAttained(t, s, i, m - 1);
      PlanSnoc(t, front, last);
      SliceJoin(t.order, i, j);
      assert Backtracked(t, s, j, m) == front + [last];
    }
  }

  /** `cost_to[j][m]` is the minimum over all fitting cuts, and `inf` exactly when there is none. */
  lemma CellIsMinimum(t: Tour, s: Stages, j: nat, m: nat)
    requires t.Valid() && Models(s, t) && j <= t.N() && m <= t.K()
    ensures Final(s, j, m).cost.Fin? <==> exists routes :: IsCut(t, routes, m, j) && PlanFits(t, routes)
    ensures (forall routes ::
              IsCut(t, routes, m, j) && PlanFits(t, routes) ==> AtMost(Final(s, j, m).cost, Fin(PlanScore(t, routes))))
    ensures Final(s, j, m).cost.Fin?
      ==> exists routes :: IsCut(t, routes, m, j) && PlanFits(t, routes)
                        && PlanScore(t, routes) == Final(s, j, m).cost.v
  {
    if Final(s, j, m).cost.Fin? { CellIsAttained(t, s, j, m); }
    forall routes | IsCut(t, routes, m, j) && PlanFits(t, routes)
      ensures AtMost(Final(s, j, m).cost, Fin(PlanScore(t, routes)))
    {
      CellIsLowerBound(t, s, routes, m, j);
    }
  }

  // ---------- filling the table ----------

  ghost predicate Shaped(s: Stages, costTo: array2<Cost>, predI: array2<int>) {
    && costTo.Length0 == predI.Length0 == s.n + 1
    && costTo.Length1 == predI.Length1 == s.k + 1
  }

  /** Column m of both arrays stands where the scan is after all starts below i. */
  ghost predicate HoldsColumn(s: Stages, costTo: array2<Cost>, predI: array2<int>, m: nat, i: nat)
    requires Shaped(s, costTo, predI) && m <= s.k && i <= s.n
    reads costTo, predI
  {
    forall j :: 0 <= j <= s.n ==> Cell(costTo[j, m], predI[j, m]) == Entry(s, j, m, i)
  }

  twostate predicate OtherColumnsUnchanged(s: Stages, costTo: array2<Cost>, predI: array2<int>, m: nat)
    requires Shaped(s, costTo, predI)
    reads costTo, predI
  {
    forall j, m' :: 0 <= j <= s.n && 0 <= m' <= s.k && m' != m ==>
      costTo[j, m'] == old(costTo[j, m']) && predI[j, m'] == old(predI[j, m'])
  }

  /** Demands are not negative, so once a segment is too heavy every longer one is too. */
  lemma TooHeavyStays(t: Tour, s: Stages, i: nat, j: nat, m: nat)
    requires t.Valid() && Models(s, t) && i < j <= t.N() && 0 < m <= t.K()
    requires !Fits(t.spec.vehicles[m - 1], t.order[i..j])
    ensures forall j' :: j <= j' <= s.n ==> Entry(s, j', m, i + 1) == Entry(s, j', m, i)
  {
    forall j' | j <= j' <= s.n ensures Candidate(s, i, j', m) == Inf {
      var longer := t.order[i..j'];
      assert longer[..j - i] == t.order[i..j];
      assert NonNegativeDemand(longer) by {
        forall x | 0 <= x < |longer| ensures longer[x].demand >= 0.0 {
          assert longer[x] == t.order[i + x];
        }
      }
      LoadPrefix(longer, j - i);
      assert Asked(m - 1, i, j');
    }
  }

  lemma NothingFrom(s: Stages, i: nat, m: nat)
    requires i < s.n && 0 < m <= s.k && Final(s, i, m - 1).cost.Inf?
    ensures forall j :: 0 <= j <= s.n ==> Entry(s, j, m, i + 1) == Entry(s, j, m, i)
  {
    forall j | 0 <= j <= s.n ensures Candidate(s, i, j, m) == Inf {
    }
  }

  /** Arriving after `travel` more seconds: wait for the window, or be charged for missing it. */
  method ServeInWindow(clock: real, lateness: real, travel: real, stop: Stop)
    returns (clock': real, lateness': real)
    requires stop.Valid()
    ensures clock' == Max(clock + travel, stop.twOpen) + stop.service
    ensures lateness' == lateness + LateBy(clock + travel, stop.twClose)
  {
    clock', lateness' := clock + travel, lateness;
    if clock' < stop.twOpen {
      clock' := stop.twOpen;
    } else if stop.twClose.At? && clock' > stop.twClose.t {
      lateness' := lateness' + (clock' - stop.twClose.t);
    }
    clock' := clock' + stop.service;
  }

  /** What the scan has accumulated for the segment so far. */
  datatype Partial = Partial(load: real, cost: real, clock: real, lateness: real, prevNode: int)

  /** Without time windows the scan leaves clock and lateness alone. */
  function Accumulated(t: Tour, v: nat, route: seq<Stop>): Partial
    requires v < t.K()
  {
    var veh, tw := t.spec.vehicles[v], t.spec.enforceTw;
    Partial(Load(route),
            PathCost(t.mx.LegCost(t.spec.objective), [veh.startNode] + NodesOf(route)),
            if tw then Leaves(true, t.mx, veh, route) else veh.shiftStart,
            Lateness(tw, t.mx, veh, route),
            LastNode(veh, route))
  }

  lemma NothingAccumulated(t: Tour, v: nat, i: nat)
    requires v < t.K() && i <= t.N()
    ensures var veh := t.spec.vehicles[v];
      Accumulated(t, v, t.order[i..i]) == Partial(0.0, 0.0, veh.shiftStart, 0.0, veh.startNode)
  {
    assert t.order[i..i] == [];
    assert [t.spec.vehicles[v].startNode] + NodesOf([]) == [t.spec.vehicles[v].startNode];
  }

  /** Vehicle v also serves the next stop; the load has been added already. */
  method Extend(t: Tour, v: nat, ghost route: seq<Stop>, acc: Partial, stop: Stop, ghost longer: seq<Stop>)
    returns (acc': Partial, score: real)
    requires v < t.K() && stop.Valid() && longer == route + [stop]
    requires acc == Accumulated(t, v, route).(load := Load(route) + stop.demand)
    ensures acc' == Accumulated(t, v, longer)
    ensures score == Score(t, v, longer)
  {
    var veh, leg := t.spec.vehicles[v], t.mx.LegCost(t.spec.objective);
    RouteSnoc(t.spec.enforceTw, t.mx, leg, veh, route, stop);
    RouteClose(leg, veh, route + [stop]);
    assert (route + [stop])[..|route|] == route;
    var currCost := acc.cost + leg(acc.prevNode, stop.node);
    var clock, lateness := acc.clock, acc.lateness;
    if t.spec.enforceTw {
      clock, lateness := ServeInWindow(clock, lateness, t.mx.time(acc.prevNode, stop.node), stop);
    }
    acc' := Partial(acc.load, currCost, clock, lateness, stop.node);
    var fullRouteCost := currCost + leg(stop.node, veh.endNode);
    score := fullRouteCost + if t.spec.enforceTw then lateness * 100.0 else 0.0;
  }

  lemma LoadGrows(t: Tour, i: nat, j: nat)
    requires i <= j < t.N()
    ensures t.order[i..j + 1] == t.order[i..j] + [t.order[j]]
    ensures Load(t.order[i..j + 1]) == Load(t.order[i..j]) + t.order[j].demand
  {
    assert t.order[i..j + 1] == t.order[i..j] + [t.order[j]];
    LoadAppend(t.order[i..j], [t.order[j]]);
    LoadSingle(t.order[j]);
  }

  /** Stop j joins the segment that starts at i, unless the segment gets too heavy for v. */
  method TryStop(t: Tour, ghost s: Stages, m: nat, i: nat, j: nat, acc: Partial)
    returns (acc': Partial, fits: bool, score: real)
    requires t.Valid() && Models(s, t) && 0 < m <= t.K() && i <= j < t.N()
    requires acc == Accumulated(t, m - 1, t.order[i..j])
    ensures fits ==> acc' == Accumulated(t, m - 1, t.order[i..j + 1])
    ensures fits ==> s.price(m - 1, i, j + 1) == Fin(score)
    ensures !fits ==> forall j' :: j < j' <= s.n ==> Entry(s, j', m, i + 1) == Entry(s, j', m, i)
  {
    var v := m - 1;
    LoadGrows(t, i, j);
    acc' := acc.(load := acc.load + t.order[j].demand);
    fits, score := acc'.load <= t.spec.vehicles[v].capacity + EPS, 0.0;
    if fits {
      acc', score := Extend(t, v, t.order[i..j], acc', t.order[j], t.order[i..j + 1]);
      assert Asked(v, i, j + 1);
    } else {
      TooHeavyStays(t, s, i, j + 1, m);
    }
  }

  /** Keep a candidate for cell (j, m) only if it is strictly cheaper. */
  method Improve(ghost s: Stages, costTo: array2<Cost>, predI: array2<int>, m: nat, i: nat, j: nat, cand: real)
    requires Shaped(s, costTo, predI) && 0 < m <= s.k && i < j <= s.n
    requires Fin(cand) == Candidate(s, i, j, m)
    requires Cell(costTo[j, m], predI[j, m]) == Entry(s, j, m, i)
    modifies costTo, predI
    ensures Cell(costTo[j, m], predI[j, m]) == Entry(s, j, m, i + 1)
    ensures (forall j', m' :: 0 <= j' <= s.n && 0 <= m' <= s.k && (j' != j || m' != m) ==>
              costTo[j', m'] == old(costTo[j', m']) && predI[j', m'] == old(predI[j', m']))
  {
    if Less(Fin(cand), costTo[j, m]) {
      costTo[j, m] := Fin(cand);
      predI[j, m] := i;
    }
  }

  /** Vehicle m tries every segment that starts at i. */
  method ScanFrom(t: Tour, ghost s: Stages, costTo: array2<Cost>, predI: array2<int>, m: nat, i: nat)
    requires t.Valid() && Models(s, t) && 0 < m <= s.k && i < s.n
    requires Shaped(s, costTo, predI)
    requires HoldsColumn(s, costTo, predI, m - 1, s.n)
    requires HoldsColumn(s, costTo, predI, m, i)
    modifies costTo, predI
    ensures HoldsColumn(s, costTo, predI, m, i + 1)
    ensures OtherColumnsUnchanged(s, costTo, predI, m)
  {
    hide Accumulated;
    hide Models;
    ModelsShape(s, t);
    var veh := t.spec.vehicles[m - 1];
    var cPrev := costTo[i, m - 1];
    assert cPrev == Final(s, i, m - 1).cost;
    if cPrev.Inf? {
      NothingFrom(s, i, m);
      return;
    }
    var acc := Partial(0.0, 0.0, veh.shiftStart, 0.0, veh.startNode);
    NothingAccumulated(t, m - 1, i);
    var j := i;
    while j < t.N()
      invariant i <= j <= t.N()
      invariant acc == Accumulated(t, m - 1, t.order[i..j])
      invariant (forall j' :: 0 <= j' <= s.n ==>
                  Cell(costTo[j', m], predI[j', m]) == Entry(s, j', m, if j' <= j then i + 1 else i))
      invariant OtherColumnsUnchanged(s, costTo, predI, m)
    {
      var acc', fits, score := TryStop(t, s, m, i, j, acc);
      if !fits {
        break;
      }
      var cand := if t.spec.objective.MinMakespan? then Max(cPrev.v, score) else cPrev.v + score;
      Improve(s, costTo, predI, m, i, j + 1, cand);
      acc, j := acc', j + 1;
    }
  }

  /** Leaving vehicle m idle: copy the column before. */
  method StartColumn(ghost s: Stages, costTo: array2<Cost>, predI: array2<int>, m: nat)
    requires Shaped(s, costTo, predI) && 0 < m <= s.k
    requires HoldsColumn(s, costTo, predI, m - 1, s.n)
    modifies costTo, predI
    ensures HoldsColumn(s, costTo, predI, m, 0)
    ensures OtherColumnsUnchanged(s, costTo, predI, m)
  {
    for j := 0 to costTo.Length0
      invariant forall j' :: 0 <= j' < j ==> Cell(costTo[j', m], predI[j', m]) == Entry(s, j', m, 0)
      invariant OtherColumnsUnchanged(s, costTo, predI, m)
    {
      assert Cell(costTo[j, m - 1], predI[j, m - 1]) == Entry(s, j, m - 1, s.n);
      costTo[j, m] := costTo[j, m - 1];
      predI[j, m] := j;
    }
  }

  /** One column: started from "idle", then improved start by start. */
  method FillColumn(t: Tour, ghost s: Stages, costTo: array2<Cost>, predI: array2<int>, m: nat)
    requires t.Valid() && Models(s, t) && 0 < m <= s.k
    requires Shaped(s, costTo, predI) && HoldsColumn(s, costTo, predI, m - 1, s.n)
    modifies costTo, predI
    ensures HoldsColumn(s, costTo, predI, m, s.n)
    ensures OtherColumnsUnchanged(s, costTo, predI, m)
  {
    hide Models;
    hide Entry;
    ModelsShape(s, t);
    StartColumn(s, costTo, predI, m);
    for i := 0 to t.N()
      invariant HoldsColumn(s, costTo, predI, m - 1, s.n) && HoldsColumn(s, costTo, predI, m, i)
      invariant OtherColumnsUnchanged(s, costTo, predI, m)
    {
      ScanFrom(t, s, costTo, predI, m, i);
    }
  }

  /** The whole table, one column per vehicle. */
  method FillTable(t: Tour, ghost s: Stages) returns (costTo: array2<Cost>, predI: array2<int>)
    requires t.Valid() && Models(s, t)
    ensures fresh(costTo) && fresh(predI) && Shaped(s, costTo, predI)
    ensures forall m :: 0 <= m <= s.k ==> HoldsColumn(s, costTo, predI, m, s.n)
  {
    hide Models;
    ModelsShape(s, t);
    costTo := new Cost[t.N() + 1, t.K() + 1]((_, _) => Inf);
    predI := new int[t.N() + 1, t.K() + 1]((_, _) => -1);
    costTo[0, 0] := Fin(0.0);
    for m := 1 to t.K() + 1
      invariant forall j, m' :: 0 <= j <= s.n && 0 <= m' < m ==> Cell(costTo[j, m'], predI[j, m']) == Final(s, j, m')
    {
      FillColumn(t, s, costTo, predI, m);
    }
  }

  // ---------- the greedy fallback ----------

  /** What the greedy fallback promises: it moves on only when the next stop does not fit, a vehicle
      other than the last exceeds its capacity only with the single stop that opened it, and a later
      vehicle stays idle only when no stop is left. */
  ghost predicate IsGreedy(t: Tour, routes: seq<seq<Stop>>)
    requires |routes| == t.K()
  {
    && (forall v :: 0 <= v < t.K() - 1 ==> OpenedWell(t, v, routes[v]) && Blocked(t, routes, v))
    && (forall v :: 0 < v < t.K() ==> OpenedLate(t, routes, v))
  }

  /** A vehicle after the first is opened only by a stop, so it is idle only when all stops are served. */
  ghost predicate OpenedLate(t: Tour, routes: seq<seq<Stop>>, v: nat)
    requires v < |routes|
  {
    routes[v] == [] ==> |Flatten(routes[..v])| >= t.N()
  }

  ghost predicate OpenedWell(t: Tour, v: nat, route: seq<Stop>)
    requires v < t.K()
  {
    Fits(t.spec.vehicles[v], route) || (v > 0 && |route| == 1)
  }

  /** If stops remain after vehicle v, the first of them does not fit into v. */
  ghost predicate Blocked(t: Tour, routes: seq<seq<Stop>>, v: nat)
    requires v < |routes| == t.K()
  {
    var next := |Flatten(routes[..v + 1])|;
    next < t.N() ==> Load(routes[v]) + t.order[next].demand > t.spec.vehicles[v].capacity + EPS
  }

  lemma FlattenUpTo<T>(xss: seq<seq<T>>, v: nat)
    requires v < |xss|
    ensures Flatten(xss[..v + 1]) == Flatten(xss[..v]) + xss[v]
  {
    assert xss[..v + 1][..v] == xss[..v];
  }

  lemma {:induction false} FlattenEmpties<T>(xss: seq<seq<T>>, v: nat)
    requires v <= |xss| && forall u :: v <= u < |xss| ==> xss[u] == []
    ensures Flatten(xss) == Flatten(xss[..v])
    decreases |xss|
  {
    if v == |xss| {
      assert xss[..v] == xss;
    } else {
      FlattenEmpties(xss[..|xss| - 1], v);
      assert xss[..|xss| - 1][..v] == xss[..v];
    }
  }

  /** The state of the greedy loop before stop i: vehicles after v are untouched. */
  ghost predicate GreedySoFar(t: Tour, routes: seq<seq<Stop>>, v: nat, i: nat)
    requires i <= t.N()
  {
    && v < t.K() == |routes|
    && (forall u :: v < u < t.K() ==> routes[u] == [])
    && Flatten(routes[..v]) + routes[v] == t.order[..i]
    && (forall u :: 0 <= u < v ==> OpenedWell(t, u, routes[u]) && Blocked(t, routes, u))
    && (forall u :: 0 < u <= v ==> routes[u] != [])
    && (v < t.K() - 1 ==> OpenedWell(t, v, routes[v]))
  }

  lemma GreedyStarts(t: Tour, routes: seq<seq<Stop>>)
    requires t.Valid() && |routes| == t.K() && forall v :: 0 <= v < t.K() ==> routes[v] == []
    ensures GreedySoFar(t, routes, 0, 0) && Load(routes[0]) == 0.0
  {
    assert routes[..0] == [];
  }

  lemma GreedyOpens(t: Tour, routes: seq<seq<Stop>>, v: nat, i: nat)
    requires i < t.N() && GreedySoFar(t, routes, v, i) && v < t.K() - 1
    requires Load(routes[v]) + t.order[i].demand > t.spec.vehicles[v].capacity + EPS
    ensures Flatten(routes[..v + 1]) == t.order[..i] && routes[v + 1] == []
    ensures forall u :: 0 <= u < v + 1 ==> OpenedWell(t, u, routes[u]) && Blocked(t, routes, u)
  {
    FlattenUpTo(routes, v);
    assert Blocked(t, routes, v);
  }

  lemma GreedyServes(t: Tour, routes: seq<seq<Stop>>, v: nat, i: nat)
    requires i < t.N() && v < t.K() == |routes|
    requires forall u :: v < u < t.K() ==> routes[u] == []
    requires Flatten(routes[..v]) + routes[v] == t.order[..i]
    requires forall u :: 0 <= u < v ==> OpenedWell(t, u, routes[u]) && Blocked(t, routes, u)
    requires forall u :: 0 < u < v ==> routes[u] != []
    requires v < t.K() - 1 ==> OpenedWell(t, v, routes[v] + [t.order[i]])
    ensures GreedySoFar(t, routes[v := routes[v] + [t.order[i]]], v, i + 1)
  {
    var after := routes[v := routes[v] + [t.order[i]]];
    assert after[..v] == routes[..v];
    assert t.order[..i + 1] == t.order[..i] + [t.order[i]];
    forall u | 0 <= u < v ensures OpenedWell(t, u, after[u]) && Blocked(t, after, u) {
      assert after[..u + 1] == routes[..u + 1];
      assert OpenedWell(t, u, routes[u]) && Blocked(t, routes, u);
    }
  }

  lemma IdleOpensWell(t: Tour, v: nat)
    requires t.Valid() && v < t.K()
    ensures OpenedWell(t, v, [])
  {
  }

  lemma GreedyEnds(t: Tour, routes: seq<seq<Stop>>, v: nat)
    requires t.Valid() && GreedySoFar(t, routes, v, t.N())
    ensures Flatten(routes) == t.order && IsGreedy(t, routes)
  {
    hide Load;
    FlattenUpTo(routes, v);
    FlattenEmpties(routes, v + 1);
    assert t.order[..t.N()] == t.order;
    forall u | v <= u < t.K() - 1 ensures OpenedWell(t, u, routes[u]) && Blocked(t, routes, u) {
      FlattenEmpties(routes, u + 1);
      IdleOpensWell(t, u);
    }
    forall u | v < u < t.K() ensures OpenedLate(t, routes, u) {
      FlattenEmpties(routes, u);
    }
  }

  /** The promise leaves no choice: the fallback is the only plan that keeps it. */
  lemma GreedyUnique(t: Tour, a: seq<seq<Stop>>, b: seq<seq<Stop>>)
    requires t.Valid() && |a| == |b| == t.K() && Flatten(a) == Flatten(b) == t.order
    requires IsGreedy(t, a) && IsGreedy(t, b)
    ensures a == b
  {
    GreedyPrefix(t, a, b, t.K());
    assert a[..t.K()] == a && b[..t.K()] == b;
  }

  lemma {:induction false} GreedyPrefix(t: Tour, a: seq<seq<Stop>>, b: seq<seq<Stop>>, v: nat)
    requires t.Valid() && |a| == |b| == t.K() && Flatten(a) == Flatten(b) == t.order
    requires IsGreedy(t, a) && IsGreedy(t, b) && v <= t.K()
    ensures a[..v] == b[..v]
  {
    hide IsGreedy;
    hide Flatten;
    if v > 0 {
      GreedyPrefix(t, a, b, v - 1);
      GreedyTakesAsMany(t, a, b, v - 1);
      GreedyTakesAsMany(t, b, a, v - 1);
      SegmentOf(t, a, v - 1, |Flatten(a[..v - 1])|);
      SegmentOf(t, b, v - 1, |Flatten(a[..v - 1])|);
      assert a[..v] == a[..v - 1] + [a[v - 1]] && b[..v] == b[..v - 1] + [b[v - 1]];
    }
  }

  /** The segment of vehicle v starts where the ones before it end. */
  lemma SegmentOf(t: Tour, routes: seq<seq<Stop>>, v: nat, i: nat)
    requires v < |routes| && Flatten(routes) == t.order && i == |Flatten(routes[..v])|
    ensures i + |routes[v]| == |Flatten(routes[..v + 1])| <= t.N()
    ensures routes[v] == t.order[i..i + |routes[v]|]
    ensures v == |routes| - 1 ==> i + |routes[v]| == t.N()
  {
    FlattenUpTo(routes, v);
    FlattenLength(routes, v + 1);
    assert v == |routes| - 1 ==> routes[..v + 1] == routes;
    assert routes[v] == Flatten(routes[..v + 1])[i..];
  }

  /** A longer segment from the same start is at least as heavy as the shorter one plus its next stop. */
  lemma LongerIsHeavier(t: Tour, i: nat, short: seq<Stop>, long: seq<Stop>)
    requires t.Valid() && i + |long| <= t.N() && |short| < |long|
    requires short == t.order[i..i + |short|] && long == t.order[i..i + |long|]
    ensures Load(long) >= Load(short) + t.order[i + |short|].demand
  {
    hide Load;
    LoadGrows(t, i, i + |short|);
    assert long[..|short| + 1] == t.order[i..i + |short| + 1];
    LoadPrefix(long, |short| + 1);
  }

  /** Where vehicle v stopped with stops left, the next one would not have fitted, and a later vehicle
      had taken one. */
  ghost predicate Refuses(t: Tour, v: nat, i: nat, route: seq<Stop>)
    requires v < t.K()
  {
    i + |route| < t.N() ==>
      && Load(route) + t.order[i + |route|].demand > t.spec.vehicles[v].capacity + EPS
      && (v > 0 ==> route != [])
  }

  lemma GreedyRefuses(t: Tour, a: seq<seq<Stop>>, v: nat)
    requires |a| == t.K() && Flatten(a) == t.order && IsGreedy(t, a) && v < t.K() - 1
    ensures OpenedWell(t, v, a[v]) && Refuses(t, v, |Flatten(a[..v])|, a[v])
  {
    hide Load;
    hide Flatten;
    SegmentOf(t, a, v, |Flatten(a[..v])|);
    assert Blocked(t, a, v);
    assert v > 0 ==> OpenedLate(t, a, v);
  }

  /** What a vehicle refused cannot be in another segment of its own that starts at the same stop. */
  lemma RefusedStaysOut(t: Tour, v: nat, i: nat, short: seq<Stop>, long: seq<Stop>)
    requires t.Valid() && v < t.K() && i + |long| <= t.N() && |short| < |long|
    requires short == t.order[i..i + |short|] && long == t.order[i..i + |long|]
    requires OpenedWell(t, v, long)
    ensures !Refuses(t, v, i, short)
  {
    LongerIsHeavier(t, i, short, long);
  }

  lemma GreedyTakesAsMany(t: Tour, a: seq<seq<Stop>>, b: seq<seq<Stop>>, v: nat)
    requires t.Valid() && |a| == |b| == t.K() && Flatten(a) == Flatten(b) == t.order
    requires IsGreedy(t, a) && IsGreedy(t, b) && v < t.K() && a[..v] == b[..v]
    ensures |a[v]| >= |b[v]|
  {
    hide *;
    var i := |Flatten(a[..v])|;
    SegmentOf(t, a, v, i);
    SegmentOf(t, b, v, i);
    if v < t.K() - 1 && |a[v]| < |b[v]| {
      GreedyRefuses(t, a, v);
      GreedyRefuses(t, b, v);
      RefusedStaysOut(t, v, i, a[v], b[v]);
    }
  }

  /** The vehicle that takes stop i: the next one if the stop does not fit the current one. */
  function Taker(t: Tour, routes: seq<seq<Stop>>, v: nat, i: nat): nat
    requires v < t.K() == |routes| && i < t.N()
  {
    if v < t.K() - 1 && Load(routes[v]) + t.order[i].demand > t.spec.vehicles[v].capacity + EPS then v + 1 else v
  }

  lemma GreedyStep(t: Tour, routes: seq<seq<Stop>>, v: nat, i: nat)
    requires t.Valid() && i < t.N() && GreedySoFar(t, routes, v, i)
    ensures var u := Taker(t, routes, v, i);
      && u < t.K() && (u > v ==> routes[u] == [])
      && Load(routes[u] + [t.order[i]]) == (if u == v then Load(routes[v]) else 0.0) + t.order[i].demand
      && GreedySoFar(t, routes[u := routes[u] + [t.order[i]]], u, i + 1)
  {
    var u := Taker(t, routes, v, i);
    if u > v { GreedyOpens(t, routes, v, i); }
    hide Blocked;
    hide Flatten;
    LoadAppend(routes[u], [t.order[i]]);
    LoadSingle(t.order[i]);
    GreedyServes(t, routes, u, i);
  }

  ghost function GreedyStart(t: Tour): (r: (seq<seq<Stop>>, nat))
    requires t.Valid()
    ensures GreedySoFar(t, r.0, r.1, 0)
  {
    var idle: seq<seq<Stop>> := seq(t.K(), _ => []);
    GreedyStarts(t, idle);
    (idle, 0)
  }

  ghost function GreedyMove(t: Tour, routes: seq<seq<Stop>>, v: nat, i: nat): (r: (seq<seq<Stop>>, nat))
    requires t.Valid() && i < t.N() && GreedySoFar(t, routes, v, i)
    ensures GreedySoFar(t, r.0, r.1, i + 1)
  {
    GreedyStep(t, routes, v, i);
    var u := Taker(t, routes, v, i);
    (routes[u := routes[u] + [t.order[i]]], u)
  }

  /** The plan and its last opened vehicle after the first i stops. */
  ghost function GreedyRun(t: Tour, i: nat): (r: (seq<seq<Stop>>, nat))
    requires t.Valid() && i <= t.N()
    ensures GreedySoFar(t, r.0, r.1, i)
  {
    if i == 0 then GreedyStart(t)
    else
      var before := GreedyRun(t, i - 1);
      GreedyMove(t, before.0, before.1, i - 1)
  }

  /** The plan of the fallback. */
  ghost function GreedyPlan(t: Tour): (routes: seq<seq<Stop>>)
    requires t.Valid()
    ensures |routes| == t.K() && Flatten(routes) == t.order && IsGreedy(t, routes)
  {
    var (routes, v) := GreedyRun(t, t.N());
    GreedyEnds(t, routes, v);
    routes
  }

  method GreedyAssignment(t: Tour) returns (routes: seq<seq<Stop>>)
    requires t.Valid()
    ensures |routes| == t.K() && Flatten(routes) == t.order
    ensures IsGreedy(t, routes) && routes == GreedyPlan(t)
  {
    hide Load;
    hide Flatten;
    hide IsGreedy;
    hide GreedySoFar;
    routes := seq(t.K(), _ => []);
    var v, currLoad := 0, 0.0;
    GreedyStarts(t, routes);
    for i := 0 to t.N()
      invariant v < t.K() == |routes| && GreedySoFar(t, routes, v, i)
      invariant currLoad == Load(routes[v])
    {
      GreedyStep(t, routes, v, i);
      var stop := t.order[i];
      if v < t.K() - 1 && currLoad + stop.demand > t.spec.vehicles[v].capacity + EPS {
        v := v + 1;
        currLoad := 0.0;
      }
      routes := routes[v := routes[v] + [stop]];
      currLoad := currLoad + stop.demand;
    }
    GreedyEnds(t, routes, v);
    GreedyUnique(t, routes, GreedyPlan(t));
  }

  // ---------- the split ----------

  /** With nothing to serve every cut is all idle and worth nothing. */
  lemma {:induction false} EmptyTour(t: Tour, routes: seq<seq<Stop>>)
    requires t.Valid() && |routes| <= t.K() && Flatten(routes) == []
    ensures PlanFits(t, routes)
    ensures PlanScore(t, routes) == 0.0
  {
    if routes != [] {
      EmptyTour(t, routes[..|routes| - 1]);
      PlanSnoc(t, routes[..|routes| - 1], []);
      assert routes == routes[..|routes| - 1] + [[]];
    }
  }

  /** Following the predecessors from the bottom right cell. */
  method Backtrack(t: Tour, ghost s: Stages, ghost costTo: array2<Cost>, predI: array2<int>)
    returns (routes: seq<seq<Stop>>)
    requires s.n == t.N() && s.k == t.K() && Shaped(s, costTo, predI)
    requires forall m :: 0 <= m <= s.k ==> HoldsColumn(s, costTo, predI, m, s.n)
    requires Final(s, s.n, s.k).cost.Fin?
    ensures routes == Backtracked(t, s, s.n, s.k)
  {
    routes := seq(t.K(), _ => []);
    var j: nat, m: nat := t.N(), t.K();
    while m > 0
      invariant m <= t.K() == |routes| && j <= t.N()
      invariant Final(s, j, m).cost.Fin?
      invariant forall v :: 0 <= v < m ==> routes[v] == []
      invariant Backtracked(t, s, s.n, s.k) == Backtracked(t, s, j, m) + routes[m..]
    {
      EntryOrigin(s, j, m, s.n);
      assert HoldsColumn(s, costTo, predI, m, s.n);
      assert Cell(costTo[j, m], predI[j, m]) == Final(s, j, m);
      var i := predI[j, m];
      ghost var tail, seg := routes[m..], t.order[i..j];
      assert Backtracked(t, s, j, m) == Backtracked(t, s, i, m - 1) + [seg];
      if i < j {
        routes := routes[m - 1 := t.order[i..j]];
        j := i;
      }
      assert routes[m - 1] == seg && routes[m..] == tail;
      assert routes[m - 1..] == [routes[m - 1]] + routes[m..];
      m := m - 1;
    }
    assert routes[0..] == routes;
  }

  /** Some cut of the whole tour lets every vehicle carry its segment. */
  ghost predicate Splittable(t: Tour) {
    exists routes :: IsCut(t, routes, t.K(), t.N()) && PlanFits(t, routes)
  }

  /** No fitting cut of the whole tour is worth less. */
  ghost predicate Optimal(t: Tour, routes: seq<seq<Stop>>)
    requires |routes| == t.K()
  {
    forall other :: IsCut(t, other, t.K(), t.N()) && PlanFits(t, other) ==> PlanScore(t, routes) <= PlanScore(t, other)
  }

  /** The bottom right cell knows whether the tour can be split, and at what price. */
  lemma LastCell(t: Tour, s: Stages)
    requires t.Valid() && Models(s, t)
    ensures Splittable(t) <==> Final(s, s.n, s.k).cost.Fin?
    ensures Splittable(t) ==>
      var best := Backtracked(t, s, s.n, s.k);
      |best| == t.K() && Flatten(best) == t.order && PlanFits(t, best) && Optimal(t, best)
      && PlanScore(t, best) == Final(s, s.n, s.k).cost.v
  {
    CellIsMinimum(t, s, t.N(), t.K());
    if Splittable(t) {
      CellIsAttained(t, s, t.N(), t.K());
      assert t.order[..t.N()] == t.order;
    }
  }

  lemma FittingCutSplits(t: Tour, routes: seq<seq<Stop>>)
    requires t.Valid() && |routes| == t.K() && Flatten(routes) == t.order
    ensures PlanFits(t, routes) ==> Splittable(t)
  {
    assert t.order[..t.N()] == t.order;
    assert IsCut(t, routes, t.K(), t.N());
  }

  lemma EqualPlansAreOptimal(t: Tour, idle: seq<seq<Stop>>)
    requires t.Valid() && t.N() == 0
    requires |idle| == t.K() && forall v :: 0 <= v < t.K() ==> idle[v] == []
    ensures Flatten(idle) == t.order && PlanFits(t, idle) && Optimal(t, idle)
  {
    FlattenEmpties(idle, 0);
    EmptyTour(t, idle);
    forall other | IsCut(t, other, t.K(), 0) ensures PlanScore(t, other) == 0.0 {
      EmptyTour(t, other);
    }
  }

  /** The plan of a split: the cut the predecessors spell out, or the fallback when no cut fits. */
  ghost function SplitOf(t: Tour): (routes: seq<seq<Stop>>)
    requires t.Valid()
    ensures |routes| == t.K() && Flatten(routes) == t.order
    ensures PlanFits(t, routes) <==> Splittable(t)
    ensures if Splittable(t) then Optimal(t, routes) else IsGreedy(t, routes)
  {
    StagesOfModels(t);
    LastCell(t, StagesOf(t));
    var routes := if Splittable(t) then Backtracked(t, StagesOf(t), t.N(), t.K()) else GreedyPlan(t);
    FittingCutSplits(t, routes);
    routes
  }

  lemma {:induction false} NothingToSplit(xss: seq<seq<Stop>>)
    requires Flatten(xss) == []
    ensures forall v :: 0 <= v < |xss| ==> xss[v] == []
  {
    if xss != [] { NothingToSplit(xss[..|xss| - 1]); }
  }

  method SplitByTable(t: Tour) returns (routes: seq<seq<Stop>>, feasible: bool)
    requires t.Valid()
    ensures |routes| == t.K() && Flatten(routes) == t.order
    ensures feasible <==> Splittable(t)
    ensures feasible ==> PlanFits(t, routes) && Optimal(t, routes)
    ensures !feasible ==> IsGreedy(t, routes)
    ensures routes == SplitOf(t)
  {
    ghost var s := StagesOf(t);
    StagesOfModels(t);
    LastCell(t, s);
    var costTo, predI := FillTable(t, s);
    assert HoldsColumn(s, costTo, predI, t.K(), s.n);
    assert Cell(costTo[t.N(), t.K()], predI[t.N(), t.K()]) == Final(s, s.n, s.k);
    feasible := costTo[t.N(), t.K()].Fin?;
    if feasible {
      routes := Backtrack(t, s, costTo, predI);
    } else {
      routes := GreedyAssignment(t);
    }
  }

  /** With nothing to serve the split leaves every vehicle idle. */
  lemma IdleSplit(t: Tour, idle: seq<seq<Stop>>)
    requires t.Valid() && t.N() == 0
    requires |idle| == t.K() && forall v :: 0 <= v < t.K() ==> idle[v] == []
    ensures idle == SplitOf(t) && Splittable(t)
  {
    hide Splittable;
    hide Optimal;
    hide PlanFits;
    hide IsGreedy;
    EqualPlansAreOptimal(t, idle);
    FittingCutSplits(t, idle);
    NothingToSplit(SplitOf(t));
  }

  /** The split of a giant tour. Its flag is true exactly when every vehicle can carry its segment,
      no fitting cut is then cheaper, and when it is false no fitting cut exists at all. */
  method Split(t: Tour) returns (routes: seq<seq<Stop>>, feasible: bool)
    requires t.Valid()
    ensures |routes| == t.K() && Flatten(routes) == t.order
    ensures feasible <==> PlanFits(t, routes)
    ensures feasible <==> Splittable(t)
    ensures feasible ==> Optimal(t, routes)
    ensures !feasible ==> IsGreedy(t, routes)
    ensures routes == SplitOf(t)
  {
    hide Splittable;
    hide Optimal;
    hide PlanFits;
    hide IsGreedy;
    if t.N() == 0 {
      routes := seq(t.K(), _ => []);
      IdleSplit(t, routes);
      return routes, true;
    }
    routes, feasible := SplitByTable(t);
  }
}
