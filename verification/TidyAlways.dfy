/** When the due-date sort never adds lateness to any order of given stops. While nobody waits for a window to
    open: exactly when the time of the k-th arrival does not depend on who is visited. Whatever the windows:
    exactly when moreover nothing takes any time after the first leg. */
module TidyAlways {
  import opened Base
  import opened Problem
  import opened Sorting
  import opened Repair
  import opened Tidy

  // ---------- the promise and the condition ----------

  /** r visits the stops in some order, with any windows. */
  ghost predicate Visits(stops: seq<Stop>, order: seq<nat>, r: seq<Stop>) {
    && IsPermutation(order, |stops|)
    && |r| == |stops|
    && forall k :: 0 <= k < |r| ==> Rewindowed(stops[order[k]], r[k])
  }

  ghost predicate Rewindowed(s: Stop, s': Stop) {
    s' == s.(twOpen := s'.twOpen, twClose := s'.twClose) && s'.Valid()
  }

  /** All windows are open from the start of the shift, so nobody waits. */
  ghost predicate OpenFromStart(v: Vehicle, r: seq<Stop>) {
    forall k :: 0 <= k < |r| ==> r[k].twOpen <= v.shiftStart
  }

  /** Whatever the windows, and in whatever order the stops are served, the sort adds no lateness. */
  ghost predicate TidyNeverHurts(mx: Matrix, v: Vehicle, stops: seq<Stop>) {
    forall order, r :: Visits(stops, order, r) ==>
      Lateness(true, mx, v, SortBy(DueFirst, r)) <= Lateness(true, mx, v, r)
  }

  /** The same, for windows that make nobody wait. */
  ghost predicate PromptTidyNeverHurts(mx: Matrix, v: Vehicle, stops: seq<Stop>) {
    forall order, r :: Visits(stops, order, r) && OpenFromStart(v, r) ==>
      Lateness(true, mx, v, SortBy(DueFirst, r)) <= Lateness(true, mx, v, r)
  }

  /** From being reached at a to being reached at b. */
  function Hop(mx: Matrix, a: Stop, b: Stop): real {
    a.service + mx.time(a.node, b.node)
  }

  /** All first legs are equal, and so are all hops. */
  ghost predicate EqualHops(mx: Matrix, v: Vehicle, stops: seq<Stop>) {
    && (forall s, r :: s in stops && r in stops ==> mx.time(v.startNode, s.node) == mx.time(v.startNode, r.node))
    && (forall s, r, x, y :: s in stops && r in stops && x in stops && y in stops && s.id != r.id && x.id != y.id ==>
          Hop(mx, s, r) == Hop(mx, x, y))
  }

  /** All first legs are equal, and no hop takes any time. */
  ghost predicate FreeHops(mx: Matrix, v: Vehicle, stops: seq<Stop>) {
    && (forall s, r :: s in stops && r in stops ==> mx.time(v.startNode, s.node) == mx.time(v.startNode, r.node))
    && (forall s, r :: s in stops && r in stops && s.id != r.id ==> Hop(mx, s, r) == 0.0)
  }

  ghost predicate DistinctIds(route: seq<Stop>) {
    forall i, j :: 0 <= i < j < |route| ==> route[i].id != route[j].id
  }

  // ---------- equal hops are enough ----------

  /** Every first leg of the route takes leg seconds, every hop takes hop seconds, and nobody waits. */
  ghost predicate Slotted(mx: Matrix, v: Vehicle, route: seq<Stop>, leg: real, hop: real) {
    && leg >= 0.0 && hop >= 0.0
    && DistinctIds(route)
    && (forall s :: s in route ==> mx.time(v.startNode, s.node) == leg && s.twOpen <= v.shiftStart + leg)
    && (forall s, r :: s in route && r in route && s.id != r.id ==> Hop(mx, s, r) == hop)
  }

  /** When the stop at position k is then reached, whichever stop it is. */
  function Slot(v: Vehicle, leg: real, hop: real, k: nat): real {
    if k == 0 then v.shiftStart + leg else Slot(v, leg, hop, k - 1) + hop
  }

  lemma {:induction false} SlotsIncrease(v: Vehicle, leg: real, hop: real, k: nat)
    requires leg >= 0.0 && hop >= 0.0
    ensures v.shiftStart + leg <= Slot(v, leg, hop, k) <= Slot(v, leg, hop, k + 1)
  {
    if k > 0 { SlotsIncrease(v, leg, hop, k - 1); }
  }

  /** Lateness position by position. */
  function SlotLateness(v: Vehicle, leg: real, hop: real, route: seq<Stop>): real {
    if route == [] then 0.0
    else SlotLateness(v, leg, hop, route[..|route| - 1])
         + LateBy(Slot(v, leg, hop, |route| - 1), route[|route| - 1].twClose)
  }

  lemma SlottedPrefix(mx: Matrix, v: Vehicle, route: seq<Stop>, leg: real, hop: real)
    requires Slotted(mx, v, route, leg, hop) && route != []
    ensures Slotted(mx, v, route[..|route| - 1], leg, hop)
  {
    var front := route[..|route| - 1];
    assert forall s :: s in front ==> s in route;
  }

  lemma {:induction false} SlottedLateness(mx: Matrix, v: Vehicle, route: seq<Stop>, leg: real, hop: real)
    requires Slotted(mx, v, route, leg, hop)
    ensures Lateness(true, mx, v, route) == SlotLateness(v, leg, hop, route)
    ensures route != [] ==> Arrival(mx, v, route, |route| - 1) == Slot(v, leg, hop, |route| - 1)
  {
    if route != [] {
      var m := |route| - 1;
      var front, last := route[..m], route[m];
      SlottedPrefix(mx, v, route, leg, hop);
      SlottedLateness(mx, v, front, leg, hop);
      assert route == front + [last];
      LatenessSnoc(mx, v, front, last);
      SlottedArrival(mx, v, front, last, leg, hop);
    }
  }

  lemma SlottedArrival(mx: Matrix, v: Vehicle, front: seq<Stop>, last: Stop, leg: real, hop: real)
    requires Slotted(mx, v, front + [last], leg, hop)
    requires front != [] ==> Arrival(mx, v, front, |front| - 1) == Slot(v, leg, hop, |front| - 1)
    ensures Arrival(mx, v, front + [last], |front|) == Slot(v, leg, hop, |front|)
  {
    hide Arrival;
    var route := front + [last];
    assert last == route[|front|];
    if front == [] {
      assert route == [last];
      FirstArrival(mx, v, last);
    } else {
      var m := |front| - 1;
      assert route[m] == front[m];
      SlotsIncrease(v, leg, hop, m);
      NextArrival(mx, v, front, last);
      assert Hop(mx, front[m], last) == hop;
    }
  }

  lemma SlotSnoc(v: Vehicle, leg: real, hop: real, route: seq<Stop>, s: Stop)
    ensures SlotLateness(v, leg, hop, route + [s])
         == SlotLateness(v, leg, hop, route) + LateBy(Slot(v, leg, hop, |route|), s.twClose)
  {
    assert (route + [s])[..|route|] == route;
  }

  /** Of two stops the one due first should be served first. */
  lemma EarlierDueFirst(early: real, late: real, x: Stop, y: Stop)
    requires early <= late && !DueFirst(y, x)
    ensures LateBy(early, x.twClose) + LateBy(late, y.twClose) <= LateBy(early, y.twClose) + LateBy(late, x.twClose)
  {
  }

  lemma {:induction false} InsertIntoSlots(v: Vehicle, leg: real, hop: real, x: Stop, s: seq<Stop>)
    requires leg >= 0.0 && hop >= 0.0
    ensures SlotLateness(v, leg, hop, Insert(DueFirst, x, s)) <= SlotLateness(v, leg, hop, s + [x])
    ensures |Insert(DueFirst, x, s)| == |s| + 1
  {
    if s != [] && !DueFirst(s[|s| - 1], x) {
      var front, last := s[..|s| - 1], s[|s| - 1];
      InsertIntoSlots(v, leg, hop, x, front);
      SlotsIncrease(v, leg, hop, |front|);
      EarlierDueFirst(Slot(v, leg, hop, |front|), Slot(v, leg, hop, |s|), x, last);
      SlotSnoc(v, leg, hop, Insert(DueFirst, x, front), last);
      SlotSnoc(v, leg, hop, front, x);
      SlotSnoc(v, leg, hop, s, x);
    }
  }

  lemma {:induction false} SortIntoSlots(v: Vehicle, leg: real, hop: real, route: seq<Stop>)
    requires leg >= 0.0 && hop >= 0.0
    ensures SlotLateness(v, leg, hop, SortBy(DueFirst, route)) <= SlotLateness(v, leg, hop, route)
    ensures |SortBy(DueFirst, route)| == |route|
  {
    if route != [] {
      var front, last := route[..|route| - 1], route[|route| - 1];
      SortIntoSlots(v, leg, hop, front);
      InsertIntoSlots(v, leg, hop, last, SortBy(DueFirst, front));
      SlotSnoc(v, leg, hop, SortBy(DueFirst, front), last);
    }
  }

  lemma PermutedSlotted(mx: Matrix, v: Vehicle, a: seq<Stop>, b: seq<Stop>, leg: real, hop: real)
    requires Slotted(mx, v, a, leg, hop) && multiset(a) == multiset(b)
    ensures Slotted(mx, v, b, leg, hop)
  {
    forall s ensures s in b <==> s in a {
      assert s in b <==> s in multiset(b);
      assert s in a <==> s in multiset(a);
    }
    forall i, j | 0 <= i < j < |b| ensures b[i].id != b[j].id {
      assert b[i] in a && b[j] in a;
      SplitCount(b, i, j);
      DistinctOnce(a, b[j]);
    }
  }

  /** When all first legs and all hops of a route are equal and nobody waits, the sort never adds lateness. */
  lemma SlottedTidyNeverHurts(mx: Matrix, v: Vehicle, route: seq<Stop>, leg: real, hop: real)
    requires Slotted(mx, v, route, leg, hop)
    ensures Lateness(true, mx, v, SortBy(DueFirst, route)) <= Lateness(true, mx, v, route)
  {
    DueFirstOrder();
    SortByCorrect(DueFirst, route);
    PermutedSlotted(mx, v, route, SortBy(DueFirst, route), leg, hop);
    SlottedLateness(mx, v, route, leg, hop);
    SlottedLateness(mx, v, SortBy(DueFirst, route), leg, hop);
    SortIntoSlots(v, leg, hop, route);
  }

  ghost predicate Serviceable(mx: Matrix, stops: seq<Stop>) {
    mx.NonNegative() && DistinctIds(stops) && forall s :: s in stops ==> s.service >= 0.0
  }

  lemma VisitedStop(stops: seq<Stop>, order: seq<nat>, r: seq<Stop>, k: nat)
    requires Visits(stops, order, r) && k < |r|
    ensures order[k] < |stops| && stops[order[k]] in stops && r[k].Valid()
    ensures var s := stops[order[k]]; r[k].id == s.id && r[k].node == s.node && r[k].service == s.service
  {
    assert Rewindowed(stops[order[k]], r[k]);
  }

  lemma VisitsSlotted(mx: Matrix, v: Vehicle, stops: seq<Stop>, order: seq<nat>, r: seq<Stop>, leg: real, hop: real)
    requires Serviceable(mx, stops) && Visits(stops, order, r) && OpenFromStart(v, r) && leg >= 0.0 && hop >= 0.0
    requires forall s :: s in stops ==> mx.time(v.startNode, s.node) == leg
    requires forall s, q :: s in stops && q in stops && s.id != q.id ==> Hop(mx, s, q) == hop
    ensures Slotted(mx, v, r, leg, hop)
  {
    forall k | 0 <= k < |r| ensures mx.time(v.startNode, r[k].node) == leg && r[k].twOpen <= v.shiftStart + leg {
      VisitedStop(stops, order, r, k);
    }
    forall k, l | 0 <= k < |r| && 0 <= l < |r| && r[k].id != r[l].id ensures Hop(mx, r[k], r[l]) == hop {
      VisitedStop(stops, order, r, k);
      VisitedStop(stops, order, r, l);
      assert Hop(mx, stops[order[k]], stops[order[l]]) == hop;
    }
    forall k, l | 0 <= k < l < |r| ensures r[k].id != r[l].id {
      VisitedStop(stops, order, r, k);
      VisitedStop(stops, order, r, l);
      assert order[k] != order[l];
    }
  }

  lemma EqualHopsSuffice(mx: Matrix, v: Vehicle, stops: seq<Stop>)
    requires Serviceable(mx, stops) && EqualHops(mx, v, stops)
    ensures PromptTidyNeverHurts(mx, v, stops)
  {
    hide Lateness;
    var leg := if stops == [] then 0.0 else mx.time(v.startNode, stops[0].node);
    var hop := if |stops| < 2 then 0.0 else Hop(mx, stops[0], stops[1]);
    forall s, q | s in stops && q in stops && s.id != q.id ensures Hop(mx, s, q) == hop {
      TwoIds(stops, s, q);
      assert stops[0] in stops && stops[1] in stops && stops[0].id != stops[1].id;
    }
    forall order, r | Visits(stops, order, r) && OpenFromStart(v, r)
      ensures Lateness(true, mx, v, SortBy(DueFirst, r)) <= Lateness(true, mx, v, r)
    {
      VisitsSlotted(mx, v, stops, order, r, leg, hop);
      SlottedTidyNeverHurts(mx, v, r, leg, hop);
    }
  }

  lemma TwoIds(stops: seq<Stop>, s: Stop, q: Stop)
    requires s in stops && q in stops && s.id != q.id
    ensures |stops| >= 2
  {
    var i :| 0 <= i < |stops| && stops[i] == s;
    var j :| 0 <= j < |stops| && stops[j] == q;
    assert i != j;
  }

  // ---------- equal hops are necessary ----------

  /** Some order of n stops begins with these. */
  lemma {:induction false} OrderFrom(n: nat, front: seq<nat>) returns (order: seq<nat>)
    requires |front| <= n && forall i :: 0 <= i < |front| ==> front[i] < n
    requires forall i, j :: 0 <= i < j < |front| ==> front[i] != front[j]
    ensures IsPermutation(order, n) && front <= order
  {
    if front == [] {
      order := Iota(n);
    } else {
      var m := |front| - 1;
      var x := front[m];
      var before := OrderFrom(n, front[..m]);
      PermutationReaches(before, n);
      assert x in before;
      var p :| 0 <= p < n && before[p] == x;
      assert p >= m by { assert forall i :: 0 <= i < m ==> before[i] == front[i]; }
      order := before[p := before[m]][m := x];
      assert forall i :: 0 <= i < m ==> order[i] == front[i];
    }
  }

  function OpenAlways(v: Vehicle, s: Stop, close: Limit): Stop {
    s.(twOpen := v.shiftStart, twClose := close)
  }

  /** The first stops as given, all others open from the start of the shift and never closing. */
  function Arranged(v: Vehicle, stops: seq<Stop>, order: seq<nat>, front: seq<Stop>): (r: seq<Stop>)
    requires |front| <= |order| && forall k :: 0 <= k < |order| ==> order[k] < |stops|
    ensures |r| == |order|
    ensures forall k :: 0 <= k < |r| ==>
      r[k] == if k < |front| then front[k] else OpenAlways(v, stops[order[k]], Never)
  {
    seq(|order|, k requires 0 <= k < |order| =>
      if k < |front| then front[k] else OpenAlways(v, stops[order[k]], Never))
  }

  /** front serves the first stops of the order, each with a closing time. */
  ghost predicate IsFront(stops: seq<Stop>, order: seq<nat>, front: seq<Stop>) {
    && IsPermutation(order, |stops|)
    && |front| <= |stops|
    && forall k :: 0 <= k < |front| ==> Rewindowed(stops[order[k]], front[k]) && front[k].twClose.At?
  }

  lemma ArrangedVisits(v: Vehicle, stops: seq<Stop>, order: seq<nat>, front: seq<Stop>)
    requires StopsValid(stops) && IsFront(stops, order, front)
    ensures Visits(stops, order, Arranged(v, stops, order, front))
    ensures OpenFromStart(v, front) ==> OpenFromStart(v, Arranged(v, stops, order, front))
  {
    var r := Arranged(v, stops, order, front);
    forall k | 0 <= k < |r| ensures Rewindowed(stops[order[k]], r[k]) {
      assert stops[order[k]] in stops;
    }
  }

  /** Only the stops that close can be late, and only they are rearranged by the sort. */
  lemma ArrangedLateness(mx: Matrix, v: Vehicle, stops: seq<Stop>, order: seq<nat>, front: seq<Stop>)
    requires StopsValid(stops) && IsFront(stops, order, front)
    ensures var r := Arranged(v, stops, order, front);
      && Lateness(true, mx, v, r) == Lateness(true, mx, v, front)
      && Lateness(true, mx, v, SortBy(DueFirst, r)) == Lateness(true, mx, v, SortBy(DueFirst, front))
  {
    hide Lateness;
    hide Insert;
    hide SortBy;
    var r := Arranged(v, stops, order, front);
    var rest := r[|front|..];
    assert r == front + rest;
    SortAppends(front, rest);
    OnlyOneCloses(mx, v, front, rest, |rest|);
    OnlyOneCloses(mx, v, SortBy(DueFirst, front), rest, |rest|);
  }

  /** Using the promises on one arrangement. */
  lemma PromptPromise(mx: Matrix, v: Vehicle, stops: seq<Stop>, order: seq<nat>, front: seq<Stop>)
    requires StopsValid(stops) && PromptTidyNeverHurts(mx, v, stops)
    requires IsFront(stops, order, front) && OpenFromStart(v, front)
    ensures Lateness(true, mx, v, SortBy(DueFirst, front)) <= Lateness(true, mx, v, front)
  {
    hide Lateness;
    ArrangedVisits(v, stops, order, front);
    ArrangedLateness(mx, v, stops, order, front);
  }

  lemma Promise(mx: Matrix, v: Vehicle, stops: seq<Stop>, order: seq<nat>, front: seq<Stop>)
    requires StopsValid(stops) && TidyNeverHurts(mx, v, stops) && IsFront(stops, order, front)
    ensures Lateness(true, mx, v, SortBy(DueFirst, front)) <= Lateness(true, mx, v, front)
  {
    hide Lateness;
    ArrangedVisits(v, stops, order, front);
    ArrangedLateness(mx, v, stops, order, front);
  }

  ghost predicate StopsValid(stops: seq<Stop>) {
    forall s :: s in stops ==> s.Valid()
  }

  lemma DueAfterSorted(p: seq<Stop>, s: Stop)
    requires p != [] && forall q :: q in p ==> DueFirst(q, s)
    ensures SortBy(DueFirst, p) != []
    ensures DueFirst(SortBy(DueFirst, p)[|SortBy(DueFirst, p)| - 1], s)
  {
    hide DueFirst;
    DueFirstOrder();
    SortByCorrect(DueFirst, p);
    var sorted := SortBy(DueFirst, p);
    assert sorted[|sorted| - 1] in multiset(p);
  }

  /** What is due after everything else stays at the end. */
  lemma {:induction false} SortAppends(p: seq<Stop>, rest: seq<Stop>)
    requires forall q, i :: q in p && 0 <= i < |rest| ==> DueFirst(q, rest[i])
    requires forall i, j :: 0 <= i < j < |rest| ==> DueFirst(rest[i], rest[j])
    ensures SortBy(DueFirst, p + rest) == SortBy(DueFirst, p) + rest
  {
    hide DueFirst;
    hide Insert;
    if rest == [] {
      assert p + rest == p && SortBy(DueFirst, p) + rest == SortBy(DueFirst, p);
    } else {
      var m := |rest| - 1;
      var front, last := rest[..m], rest[m];
      SortAppends(p, front);
      if front == [] && p != [] { DueAfterSorted(p, last); }
      var sorted := SortBy(DueFirst, p) + front;
      InsertLast(sorted, last);
      assert (p + rest)[..|p + rest| - 1] == p + front;
      assert sorted + [last] == SortBy(DueFirst, p) + rest;
    }
  }

  lemma InsertLast(sorted: seq<Stop>, last: Stop)
    requires sorted != [] ==> DueFirst(sorted[|sorted| - 1], last)
    ensures Insert(DueFirst, last, sorted) == sorted + [last]
  {
  }

  lemma PairClosed(mx: Matrix, v: Vehicle, stops: seq<Stop>, i: nat, j: nat, ca: real, cb: real)
    requires Serviceable(mx, stops) && StopsValid(stops) && PromptTidyNeverHurts(mx, v, stops)
    requires i < |stops| && j < |stops| && i != j && v.shiftStart <= cb < ca
    ensures var a, b, s := stops[i], stops[j], v.shiftStart;
      var la, lb := mx.time(v.startNode, a.node), mx.time(v.startNode, b.node);
      Over(s + lb, cb) + Over(s + lb + Hop(mx, b, a), ca) <= Over(s + la, ca) + Over(s + la + Hop(mx, a, b), cb)
  {
    hide Lateness;
    var order := OrderFrom(|stops|, [i, j]);
    assert order[0] == [i, j][0] && order[1] == [i, j][1];
    var a', b' := OpenAlways(v, stops[i], At(ca)), OpenAlways(v, stops[j], At(cb));
    assert stops[i] in stops && stops[j] in stops;
    PromptPromise(mx, v, stops, order, [a', b']);
    SortsTwo(a', b');
    TwoStops(mx, v, a', b');
    TwoStops(mx, v, b', a');
  }

  /** First legs are equal, and a hop takes as long as the hop back. */
  lemma PairLaw(mx: Matrix, v: Vehicle, stops: seq<Stop>, i: nat, j: nat)
    requires Serviceable(mx, stops) && StopsValid(stops) && PromptTidyNeverHurts(mx, v, stops)
    requires i < |stops| && j < |stops| && i != j
    ensures mx.time(v.startNode, stops[i].node) == mx.time(v.startNode, stops[j].node)
    ensures Hop(mx, stops[i], stops[j]) == Hop(mx, stops[j], stops[i])
  {
    PairHalf(mx, v, stops, i, j);
    PairHalf(mx, v, stops, j, i);
  }

  lemma PairHalf(mx: Matrix, v: Vehicle, stops: seq<Stop>, i: nat, j: nat)
    requires Serviceable(mx, stops) && StopsValid(stops) && PromptTidyNeverHurts(mx, v, stops)
    requires i < |stops| && j < |stops| && i != j
    ensures var a, b := stops[i], stops[j];
      var la, lb := mx.time(v.startNode, a.node), mx.time(v.startNode, b.node);
      lb + Hop(mx, b, a) <= la + Hop(mx, a, b) && 2.0 * lb + Hop(mx, b, a) <= 2.0 * la + Hop(mx, a, b)
  {
    hide PromptTidyNeverHurts;
    var a, b, s := stops[i], stops[j], v.shiftStart;
    var la, lb := mx.time(v.startNode, a.node), mx.time(v.startNode, b.node);
    var a1, a2, b1, b2 := s + la, s + la + Hop(mx, a, b), s + lb, s + lb + Hop(mx, b, a);
    assert a in stops && b in stops;
    var p := Pair(a1, a2, b1, b2, s, s);
    forall ca, cb | s <= cb < ca ensures p.NotLater(ca, cb) {
      PairClosed(mx, v, stops, i, j, ca, cb);
    }
    PairExact(p);
  }

  /** The lateness of three stops without waiting. */
  lemma ThreeStops(mx: Matrix, v: Vehicle, a: Stop, b: Stop, c: Stop)
    requires mx.NonNegative() && a.service >= 0.0
    requires a.twOpen <= v.shiftStart && b.twOpen <= v.shiftStart
    ensures var t1 := v.shiftStart + mx.time(v.startNode, a.node);
      Lateness(true, mx, v, [a, b, c]) == LateBy(t1, a.twClose) + LateBy(t1 + Hop(mx, a, b), b.twClose)
        + LateBy(t1 + Hop(mx, a, b) + Hop(mx, b, c), c.twClose)
  {
    hide Lateness;
    hide Arrival;
    TwoStops(mx, v, a, b);
    FirstArrival(mx, v, a);
    assert [a] + [b] == [a, b] && [a, b] + [c] == [a, b, c];
    NextArrival(mx, v, [a], b);
    NextArrival(mx, v, [a, b], c);
    LatenessSnoc(mx, v, [a, b], c);
  }

  /** Two hops to the same third stop take equally long. */
  lemma TripleHalf(mx: Matrix, v: Vehicle, stops: seq<Stop>, i: nat, j: nat, k: nat)
    requires Serviceable(mx, stops) && StopsValid(stops) && PromptTidyNeverHurts(mx, v, stops)
    requires i < |stops| && j < |stops| && k < |stops| && i != j && j != k && i != k
    ensures Hop(mx, stops[i], stops[k]) <= Hop(mx, stops[j], stops[k])
  {
    hide Lateness;
    var x, y, z := stops[i], stops[j], stops[k];
    assert x in stops && y in stops && z in stops;
    PairLaw(mx, v, stops, i, j);
    var gap := Hop(mx, x, z) - Hop(mx, y, z);
    if gap > 0.0 {
      var t1 := v.shiftStart + mx.time(v.startNode, x.node);
      var t3 := t1 + Hop(mx, x, y) + Hop(mx, y, z);
      var cx, cy, cz := t3 + gap / 4.0, t3, t3 + gap / 2.0;
      var order := OrderFrom(|stops|, [i, j, k]);
      assert order[0] == [i, j, k][0] && order[1] == [i, j, k][1] && order[2] == [i, j, k][2];
      var x', y', z' := OpenAlways(v, x, At(cx)), OpenAlways(v, y, At(cy)), OpenAlways(v, z, At(cz));
      PromptPromise(mx, v, stops, order, [x', y', z']);
      SortsFirstTwo(x', y', z');
      ThreeStops(mx, v, x', y', z');
      ThreeStops(mx, v, y', x', z');
    }
  }

  lemma SortsFirstTwo(x: Stop, y: Stop, z: Stop)
    requires !DueFirst(x, y) && DueFirst(x, z) && DueFirst(y, z)
    ensures SortBy(DueFirst, [x, y, z]) == [y, x, z]
  {
    SortsTwo(x, y);
    SortAppends([x, y], [z]);
    assert [x, y] + [z] == [x, y, z] && [y, x] + [z] == [y, x, z];
  }

  /** All hops out of, or into, different stops are therefore equal. */
  lemma HopsEqual(mx: Matrix, v: Vehicle, stops: seq<Stop>, i: nat, j: nat, k: nat, l: nat)
    requires Serviceable(mx, stops) && StopsValid(stops) && PromptTidyNeverHurts(mx, v, stops)
    requires i < |stops| && j < |stops| && k < |stops| && l < |stops| && i != j && k != l
    ensures Hop(mx, stops[i], stops[j]) == Hop(mx, stops[k], stops[l])
  {
    hide PromptTidyNeverHurts;
    hide Hop;
    if k == j {
      PairLaw(mx, v, stops, i, j);
      SameStart(mx, v, stops, j, i, l);
    } else {
      SameEnd(mx, v, stops, i, k, j);
      SameStart(mx, v, stops, k, j, l);
    }
  }

  lemma SameEnd(mx: Matrix, v: Vehicle, stops: seq<Stop>, i: nat, j: nat, k: nat)
    requires Serviceable(mx, stops) && StopsValid(stops) && PromptTidyNeverHurts(mx, v, stops)
    requires i < |stops| && j < |stops| && k < |stops| && i != k && j != k
    ensures Hop(mx, stops[i], stops[k]) == Hop(mx, stops[j], stops[k])
  {
    hide PromptTidyNeverHurts;
    hide Hop;
    if i != j {
      TripleHalf(mx, v, stops, i, j, k);
      TripleHalf(mx, v, stops, j, i, k);
    }
  }

  lemma SameStart(mx: Matrix, v: Vehicle, stops: seq<Stop>, i: nat, j: nat, k: nat)
    requires Serviceable(mx, stops) && StopsValid(stops) && PromptTidyNeverHurts(mx, v, stops)
    requires i < |stops| && j < |stops| && k < |stops| && i != j && i != k
    ensures Hop(mx, stops[i], stops[j]) == Hop(mx, stops[i], stops[k])
  {
    hide PromptTidyNeverHurts;
    hide Hop;
    PairLaw(mx, v, stops, i, j);
    PairLaw(mx, v, stops, i, k);
    SameEnd(mx, v, stops, j, k, i);
  }

  /** While nobody waits the tidy-up never adds lateness to these stops, in whatever order they are served and
      whenever they close, exactly when all first legs are equal and all hops are equal. */
  lemma PromptTidyExact(mx: Matrix, v: Vehicle, stops: seq<Stop>)
    requires Serviceable(mx, stops) && StopsValid(stops)
    ensures PromptTidyNeverHurts(mx, v, stops) <==> EqualHops(mx, v, stops)
  {
    hide PromptTidyNeverHurts;
    hide Hop;
    if PromptTidyNeverHurts(mx, v, stops) {
      forall s, r | s in stops && r in stops ensures mx.time(v.startNode, s.node) == mx.time(v.startNode, r.node) {
        var i: nat :| i < |stops| && stops[i] == s;
        var j: nat :| j < |stops| && stops[j] == r;
        if i != j { PairLaw(mx, v, stops, i, j); }
      }
      forall s, r, x, y | s in stops && r in stops && x in stops && y in stops && s.id != r.id && x.id != y.id
        ensures Hop(mx, s, r) == Hop(mx, x, y)
      {
        var i: nat :| i < |stops| && stops[i] == s;
        var j: nat :| j < |stops| && stops[j] == r;
        var k: nat :| k < |stops| && stops[k] == x;
        var l: nat :| l < |stops| && stops[l] == y;
        HopsEqual(mx, v, stops, i, j, k, l);
      }
    } else if EqualHops(mx, v, stops) {
      EqualHopsSuffice(mx, v, stops);
    }
  }

  // ---------- when vehicles may have to wait ----------

  /** Lateness if every stop were the first one of its route. */
  function FirstLateness(at: real, route: seq<Stop>): real {
    if route == [] then 0.0 else FirstLateness(at, route[..|route| - 1]) + LateBy(at, route[|route| - 1].twClose)
  }

  lemma FirstLatenessSnoc(at: real, route: seq<Stop>, s: Stop)
    ensures FirstLateness(at, route + [s]) == FirstLateness(at, route) + LateBy(at, s.twClose)
  {
    assert (route + [s])[..|route|] == route;
  }

  lemma {:induction false} FirstLatenessInsert(at: real, x: Stop, s: seq<Stop>)
    ensures FirstLateness(at, Insert(DueFirst, x, s)) == FirstLateness(at, s + [x])
  {
    FirstLatenessSnoc(at, s, x);
    if s != [] && !DueFirst(s[|s| - 1], x) {
      var front, last := s[..|s| - 1], s[|s| - 1];
      FirstLatenessInsert(at, x, front);
      FirstLatenessSnoc(at, Insert(DueFirst, x, front), last);
      FirstLatenessSnoc(at, front, x);
    }
  }

  lemma {:induction false} FirstLatenessSort(at: real, route: seq<Stop>)
    ensures FirstLateness(at, SortBy(DueFirst, route)) == FirstLateness(at, route)
  {
    if route != [] {
      var front, last := route[..|route| - 1], route[|route| - 1];
      FirstLatenessSort(at, front);
      FirstLatenessInsert(at, last, SortBy(DueFirst, front));
      FirstLatenessSnoc(at, SortBy(DueFirst, front), last);
    }
  }

  /** All first legs of the route take leg seconds and no hop takes any time. */
  ghost predicate Instant(mx: Matrix, v: Vehicle, route: seq<Stop>, leg: real) {
    && DistinctIds(route)
    && AllValid(route)
    && (forall s :: s in route ==> mx.time(v.startNode, s.node) == leg)
    && (forall s, r :: s in route && r in route && s.id != r.id ==> Hop(mx, s, r) == 0.0)
  }

  lemma InstantPrefix(mx: Matrix, v: Vehicle, route: seq<Stop>, leg: real)
    requires Instant(mx, v, route, leg) && route != []
    ensures Instant(mx, v, route[..|route| - 1], leg)
  {
    var front := route[..|route| - 1];
    assert forall s :: s in front ==> s in route;
  }

  lemma InstantPermuted(mx: Matrix, v: Vehicle, a: seq<Stop>, b: seq<Stop>, leg: real)
    requires Instant(mx, v, a, leg) && multiset(a) == multiset(b)
    ensures Instant(mx, v, b, leg)
  {
    ValidPermuted(a, b);
    forall s ensures s in b <==> s in a {
      assert s in b <==> s in multiset(b);
      assert s in a <==> s in multiset(a);
    }
    forall i, j | 0 <= i < j < |b| ensures b[i].id != b[j].id {
      assert b[i] in a && b[j] in a;
      SplitCount(b, i, j);
      DistinctOnce(a, b[j]);
    }
  }

  /** When the last stop of an instant route is reached: at once, or when the stop before it has opened. */
  lemma InstantArrival(mx: Matrix, v: Vehicle, front: seq<Stop>, last: Stop, leg: real)
    requires Instant(mx, v, front + [last], leg)
    ensures Arrival(mx, v, front + [last], |front|)
      == if front == [] then v.shiftStart + leg
         else Max(Arrival(mx, v, front, |front| - 1), front[|front| - 1].twOpen)
  {
    var route := front + [last];
    assert last == route[|front|];
    if front == [] {
      assert route == [last];
      FirstArrival(mx, v, last);
    } else {
      var m := |front| - 1;
      assert route[m] == front[m] && front[m] in route && last in route;
      assert Hop(mx, front[m], last) == 0.0;
      RouteSnoc(true, mx, mx.time, v, front, last);
      assert route[..|front| + 1] == route && front[..m + 1] == front;
    }
  }

  /** Nobody is late less than as the first stop. */
  lemma {:induction false} InstantAtLeast(mx: Matrix, v: Vehicle, route: seq<Stop>, leg: real)
    requires Instant(mx, v, route, leg)
    ensures FirstLateness(v.shiftStart + leg, route) <= Lateness(true, mx, v, route)
    ensures route != [] ==> v.shiftStart + leg <= Arrival(mx, v, route, |route| - 1)
  {
    hide Arrival;
    if route != [] {
      var m := |route| - 1;
      var front, last := route[..m], route[m];
      InstantPrefix(mx, v, route, leg);
      InstantAtLeast(mx, v, front, leg);
      assert route == front + [last];
      InstantArrival(mx, v, front, last, leg);
      LatenessSnoc(mx, v, front, last);
    }
  }

  /** The last stop of a route in due order is reached at once, or no later than its own closing time. */
  ghost predicate InTime(at: real, arrive: real, s: Stop) {
    arrive <= at || s.twClose.Never? || arrive <= s.twClose.t
  }

  /** In due order nobody is late more than that: whoever waited before closed before. */
  lemma {:induction false} InstantAtMost(mx: Matrix, v: Vehicle, route: seq<Stop>, leg: real)
    requires Instant(mx, v, route, leg) && Sorted(DueFirst, route)
    ensures Lateness(true, mx, v, route) <= FirstLateness(v.shiftStart + leg, route)
    ensures route != [] ==> InTime(v.shiftStart + leg, Arrival(mx, v, route, |route| - 1), route[|route| - 1])
  {
    hide Arrival;
    if route != [] {
      var m := |route| - 1;
      var front, last := route[..m], route[m];
      InstantPrefix(mx, v, route, leg);
      InstantAtMost(mx, v, front, leg);
      assert route == front + [last];
      InstantArrival(mx, v, front, last, leg);
      LatenessSnoc(mx, v, front, last);
      if front != [] {
        assert DueFirst(route[m - 1], route[m]) && route[m - 1].Valid();
      }
    }
  }

  lemma InstantTidyNeverHurts(mx: Matrix, v: Vehicle, route: seq<Stop>, leg: real)
    requires Instant(mx, v, route, leg)
    ensures Lateness(true, mx, v, SortBy(DueFirst, route)) <= Lateness(true, mx, v, route)
  {
    hide Lateness;
    hide FirstLateness;
    DueFirstOrder();
    SortByCorrect(DueFirst, route);
    InstantPermuted(mx, v, route, SortBy(DueFirst, route), leg);
    InstantAtMost(mx, v, SortBy(DueFirst, route), leg);
    FirstLatenessSort(v.shiftStart + leg, route);
    InstantAtLeast(mx, v, route, leg);
  }

  lemma VisitsInstant(mx: Matrix, v: Vehicle, stops: seq<Stop>, order: seq<nat>, r: seq<Stop>, leg: real)
    requires Serviceable(mx, stops) && FreeHops(mx, v, stops) && Visits(stops, order, r)
    requires forall s :: s in stops ==> mx.time(v.startNode, s.node) == leg
    ensures Instant(mx, v, r, leg)
  {
    forall k | 0 <= k < |r| ensures mx.time(v.startNode, r[k].node) == leg && r[k].Valid() {
      VisitedStop(stops, order, r, k);
    }
    forall k, l | 0 <= k < |r| && 0 <= l < |r| && r[k].id != r[l].id ensures Hop(mx, r[k], r[l]) == 0.0 {
      VisitedStop(stops, order, r, k);
      VisitedStop(stops, order, r, l);
      assert Hop(mx, stops[order[k]], stops[order[l]]) == 0.0;
    }
    forall k, l | 0 <= k < l < |r| ensures r[k].id != r[l].id {
      VisitedStop(stops, order, r, k);
      VisitedStop(stops, order, r, l);
      assert order[k] != order[l];
    }
  }

  lemma FreeHopsSuffice(mx: Matrix, v: Vehicle, stops: seq<Stop>)
    requires Serviceable(mx, stops) && FreeHops(mx, v, stops)
    ensures TidyNeverHurts(mx, v, stops)
  {
    hide Lateness;
    var leg := if stops == [] then 0.0 else mx.time(v.startNode, stops[0].node);
    forall order, r | Visits(stops, order, r)
      ensures Lateness(true, mx, v, SortBy(DueFirst, r)) <= Lateness(true, mx, v, r)
    {
      VisitsInstant(mx, v, stops, order, r, leg);
      InstantTidyNeverHurts(mx, v, r, leg);
    }
  }

  /** A stop served on its way to another one that opens late: the sort makes the vehicle wait there first. */
  lemma WaitingHurts(mx: Matrix, v: Vehicle, stops: seq<Stop>, i: nat, j: nat)
    requires Serviceable(mx, stops) && StopsValid(stops) && TidyNeverHurts(mx, v, stops)
    requires i < |stops| && j < |stops| && i != j
    requires Hop(mx, stops[i], stops[j]) == Hop(mx, stops[j], stops[i])
    requires mx.time(v.startNode, stops[i].node) == mx.time(v.startNode, stops[j].node)
    ensures Hop(mx, stops[i], stops[j]) == 0.0
  {
    hide Lateness;
    var hop, first := Hop(mx, stops[i], stops[j]), v.shiftStart + mx.time(v.startNode, stops[i].node);
    assert stops[i] in stops && stops[j] in stops;
    if hop > 0.0 {
      var w := first + hop;
      var b := OpenAlways(v, stops[i], At(w + hop / 2.0));
      var a := stops[j].(twOpen := w, twClose := At(w));
      var order := OrderFrom(|stops|, [i, j]);
      assert order[0] == [i, j][0] && order[1] == [i, j][1];
      Promise(mx, v, stops, order, [b, a]);
      SortsTwo(b, a);
      TwoStops(mx, v, b, a);
      AfterWaiting(mx, v, a, b);
    }
  }

  /** The second of two stops when the first one has to open first. */
  lemma AfterWaiting(mx: Matrix, v: Vehicle, a: Stop, b: Stop)
    requires v.shiftStart + mx.time(v.startNode, a.node) <= a.twOpen
    ensures Lateness(true, mx, v, [a, b])
         == LateBy(v.shiftStart + mx.time(v.startNode, a.node), a.twClose) + LateBy(a.twOpen + Hop(mx, a, b), b.twClose)
  {
    LatenessSnoc(mx, v, [], a);
    LatenessSnoc(mx, v, [a], b);
    FirstArrival(mx, v, a);
    RouteSnoc(true, mx, mx.time, v, [a], b);
    assert [] + [a] == [a] && [a] + [b] == [a, b] && [a][..1] == [a] && [a, b][..2] == [a, b];
  }

  /** For given stops the tidy-up never adds lateness, in whatever order they are served and whatever windows
      they have, exactly when all first legs are equal and no hop takes any time. */
  lemma TidyExact(mx: Matrix, v: Vehicle, stops: seq<Stop>)
    requires Serviceable(mx, stops) && StopsValid(stops)
    ensures TidyNeverHurts(mx, v, stops) <==> FreeHops(mx, v, stops)
  {
    hide Lateness;
    hide Hop;
    if TidyNeverHurts(mx, v, stops) {
      PromptTidyExact(mx, v, stops);
      assert EqualHops(mx, v, stops);
      hide TidyNeverHurts;
      forall s, r | s in stops && r in stops && s.id != r.id ensures Hop(mx, s, r) == 0.0 {
        var i: nat :| i < |stops| && stops[i] == s;
        var j: nat :| j < |stops| && stops[j] == r;
        WaitingHurts(mx, v, stops, i, j);
      }
    } else if FreeHops(mx, v, stops) {
      FreeHopsSuffice(mx, v, stops);
    }
  }
}
