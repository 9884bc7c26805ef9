/** What putting a route in due order does to its lateness: it can make a punctual route late, and exactly
    when it cannot. */
module Tidy {
  import opened Base
  import opened Problem
  import opened Sorting
  import opened Encoding
  import opened Validator
  import opened Repair

  // ---------- it can hurt ----------

  function Span(a: int, b: int): real {
    if a < b then (b - a) as real else (a - b) as real
  }

  /** Two stops on a straight road, the nearer one due later: serving them in passing is punctual, but every
      repair of this route serves them in due order, which is not. */
  lemma TidyCanCauseLateness() returns (spec: Spec, mx: Matrix, v: Vehicle, route: seq<Stop>)
    ensures spec.Valid() && spec.enforceTw && spec.vehicles == [v] && spec.stops == route
    ensures mx.NonNegative()
    ensures forall a, b, c :: mx.time(a, a) == 0.0 && mx.time(a, c) <= mx.time(a, b) + mx.time(b, c)
    ensures Measured(spec, mx, v, route).lateness == 0.0
    ensures forall out: seq<Route>, h :: IsRepair(spec, mx, RoutesOf(spec, [route]), out, h) ==>
      |out| == 1 && Measured(spec, mx, v, KnownStops(spec, out[0].stopIds)).lateness > 0.0
  {
    var far := Stop("far", 10, 0.0, 0.0, 0.0, At(10.0));
    var near := Stop("near", 5, 0.0, 0.0, 0.0, At(12.0));
    v := Vehicle("van", 1.0, 0, 0, 0.0, Never);
    mx := Matrix(Span, Span);
    route := [near, far];
    spec := Spec(route, [v], MinTravelTime, None, true);
    assert "near" != "far" by { assert |"near"| == 4 && |"far"| == 3; }
    TwoStops(mx, v, near, far);
    TwoStops(mx, v, far, near);
    SortsTwo(near, far);
    LoadCons(near, [far]);
    LoadSingle(far);
    assert route == [near] + [far];
    assert Lateness(true, mx, v, TidyRoute(spec, route)) > 0.0;
    forall out: seq<Route>, h | IsRepair(spec, mx, RoutesOf(spec, [route]), out, h)
      ensures |out| == 1 && KnownStops(spec, out[0].stopIds) == TidyRoute(spec, route)
    {
      RepairTidiesOnly(spec, mx, route, out, h);
    }
  }

  /** Repairing the only vehicle's route, if it fits, is putting it in due order. */
  lemma RepairTidiesOnly(spec: Spec, mx: Matrix, route: seq<Stop>, out: seq<Route>, h: History)
    requires spec.Valid() && |spec.vehicles| == 1 && FromSpec(spec, route) && Fits(spec.vehicles[0], route)
    requires IsRepair(spec, mx, RoutesOf(spec, [route]), out, h)
    ensures |out| == 1 && KnownStops(spec, out[0].stopIds) == TidyRoute(spec, route)
  {
    RepairLeavesFittingRoutesAlone(spec, mx, [route], out, h);
    var tidy := TidyRoute(spec, route);
    DueFirstOrder();
    SortByCorrect(DueFirst, route);
    forall i | 0 <= i < |tidy| ensures tidy[i] in spec.stops {
      assert tidy[i] in multiset(tidy) && multiset(tidy) == multiset(route);
    }
    KnownIds(spec, tidy);
  }

  lemma SortsTwo(a: Stop, b: Stop)
    requires !DueFirst(a, b)
    ensures SortBy(DueFirst, [a, b]) == [b, a]
  {
    assert [a][..0] == [] && [a, b][..1] == [a];
    assert SortBy(DueFirst, [a]) == Insert(DueFirst, a, []);
    assert Insert(DueFirst, b, [a]) == Insert(DueFirst, b, []) + [a];
  }

  // ---------- arrivals ----------

  /** When the vehicle reaches the k-th stop. */
  function Arrival(mx: Matrix, v: Vehicle, route: seq<Stop>, k: nat): real
    requires k < |route|
  {
    Reaches(true, mx, v, route[..k + 1])
  }

  lemma LatenessSnoc(mx: Matrix, v: Vehicle, route: seq<Stop>, s: Stop)
    ensures Lateness(true, mx, v, route + [s])
         == Lateness(true, mx, v, route) + LateBy(Arrival(mx, v, route + [s], |route|), s.twClose)
  {
    RouteSnoc(true, mx, mx.time, v, route, s);
    assert (route + [s])[..|route| + 1] == route + [s];
  }

  /** The first stop is reached after the first leg ... */
  lemma FirstArrival(mx: Matrix, v: Vehicle, a: Stop)
    ensures Arrival(mx, v, [a], 0) == v.shiftStart + mx.time(v.startNode, a.node)
  {
    RouteSnoc(true, mx, mx.time, v, [], a);
    assert [] + [a] == [a] && [a][..1] == [a];
  }

  /** ... and, without waiting, every later one after the service before it and the leg to it. */
  lemma NextArrival(mx: Matrix, v: Vehicle, route: seq<Stop>, s: Stop)
    requires route != [] && route[|route| - 1].twOpen <= Arrival(mx, v, route, |route| - 1)
    ensures var last := route[|route| - 1];
      Arrival(mx, v, route + [s], |route|)
      == Arrival(mx, v, route, |route| - 1) + last.service + mx.time(last.node, s.node)
  {
    RouteSnoc(true, mx, mx.time, v, route, s);
    assert (route + [s])[..|route| + 1] == route + [s] && route[..|route|] == route;
  }

  /** Nobody is served before being reached, so the next stop is not reached earlier. */
  lemma ArrivalsIncrease(mx: Matrix, v: Vehicle, route: seq<Stop>, s: Stop)
    requires mx.NonNegative() && route != [] && route[|route| - 1].service >= 0.0
    ensures Arrival(mx, v, route, |route| - 1) <= Arrival(mx, v, route + [s], |route|)
  {
    RouteSnoc(true, mx, mx.time, v, route, s);
    assert (route + [s])[..|route| + 1] == route + [s] && route[..|route|] == route;
  }

  /** The lateness of two stops served on arrival at no cost of time. */
  lemma TwoStops(mx: Matrix, v: Vehicle, a: Stop, b: Stop)
    requires a.twOpen <= v.shiftStart + mx.time(v.startNode, a.node)
    ensures Lateness(true, mx, v, [a, b])
         == LateBy(v.shiftStart + mx.time(v.startNode, a.node), a.twClose)
            + LateBy(v.shiftStart + mx.time(v.startNode, a.node) + a.service + mx.time(a.node, b.node), b.twClose)
  {
    LatenessSnoc(mx, v, [], a);
    LatenessSnoc(mx, v, [a], b);
    FirstArrival(mx, v, a);
    NextArrival(mx, v, [a], b);
    assert [] + [a] == [a] && [a] + [b] == [a, b];
  }

  // ---------- windows ----------

  /** The same stops in the same order, with other closing times. */
  ghost predicate Reclosed(route: seq<Stop>, other: seq<Stop>) {
    && |other| == |route|
    && forall i :: 0 <= i < |route| ==> other[i] == route[i].(twClose := other[i].twClose)
  }

  ghost predicate AllValid(route: seq<Stop>) {
    forall i :: 0 <= i < |route| ==> route[i].Valid()
  }

  /** Closing times decide who is late, not when anybody is reached. */
  lemma {:induction false} ClosesDoNotDelay(mx: Matrix, v: Vehicle, route: seq<Stop>, other: seq<Stop>)
    requires Reclosed(route, other)
    ensures Leaves(true, mx, v, route) == Leaves(true, mx, v, other)
    ensures route != [] ==> Reaches(true, mx, v, route) == Reaches(true, mx, v, other)
  {
    if route != [] {
      var m := |route| - 1;
      ClosesDoNotDelay(mx, v, route[..m], other[..m]);
      if m > 0 { assert other[m - 1].node == route[m - 1].node; }
    }
  }

  lemma ArrivalIgnoresCloses(mx: Matrix, v: Vehicle, route: seq<Stop>, other: seq<Stop>, k: nat)
    requires Reclosed(route, other) && k < |route|
    ensures Arrival(mx, v, route, k) == Arrival(mx, v, other, k)
  {
    ClosesDoNotDelay(mx, v, route[..k + 1], other[..k + 1]);
  }

  /** If only stop k of a tail has a closing time, it alone can add lateness. */
  lemma {:induction false} OnlyOneCloses(mx: Matrix, v: Vehicle, pre: seq<Stop>, tail: seq<Stop>, k: nat)
    requires forall i :: 0 <= i < |tail| && i != k ==> tail[i].twClose == Never
    ensures Lateness(true, mx, v, pre + tail) == Lateness(true, mx, v, pre)
      + if k < |tail| then LateBy(Arrival(mx, v, pre + tail, |pre| + k), tail[k].twClose) else 0.0
  {
    hide Lateness;
    hide Reaches;
    if tail == [] {
      assert pre + tail == pre;
    } else {
      var m := |tail| - 1;
      OnlyOneCloses(mx, v, pre, tail[..m], k);
      assert pre + tail == (pre + tail[..m]) + [tail[m]];
      LatenessSnoc(mx, v, pre + tail[..m], tail[m]);
      if k < m {
        assert (pre + tail)[..|pre| + k + 1] == (pre + tail[..m])[..|pre| + k + 1];
      }
    }
  }

  // ---------- two stops, in numbers ----------

  function Over(x: real, close: real): real {
    Max(0.0, x - close)
  }

  /** Two stops a and b: reached at a1 and a2 if a goes first, at b1 and b2 if b does; their windows open at
      la and lb. */
  datatype Pair = Pair(a1: real, a2: real, b1: real, b2: real, la: real, lb: real)
  {
    ghost predicate Ordered() {
      a1 <= a2 && b1 <= b2
    }

    /** Whatever the closing times, b being due first: serving b first is not later in total. */
    ghost predicate NeverHurts() {
      forall ca, cb :: lb <= cb < ca && la <= ca ==> NotLater(ca, cb)
    }

    predicate NotLater(ca: real, cb: real) {
      Over(b1, cb) + Over(b2, ca) <= Over(a1, ca) + Over(a2, cb)
    }

    /** The first moment at which both windows are open. */
    function BothOpen(): real {
      Max(la, lb)
    }

    /** A condition without closing times: the last arrival is no later than before or than the moment both
        windows are open, and serving b first is not later in total for the two tightest pairs of closing times. */
    predicate Helps() {
      && b2 <= Max(a2, BothOpen())
      && NotLater(BothOpen(), BothOpen())
      && NotLater(BothOpen(), lb)
    }
  }

  /** The condition decides it. */
  lemma PairExact(p: Pair)
    requires p.Ordered()
    ensures p.NeverHurts() <==> p.Helps()
  {
    var lo := p.BothOpen();
    if p.Helps() {
      forall ca, cb | p.lb <= cb < ca && p.la <= ca ensures p.NotLater(ca, cb) {
        PairHelps(p, ca, cb);
      }
    } else if p.b2 > Max(p.a2, lo) {
      var m := Max(p.a2, lo);
      assert !p.NotLater((m + p.b2) / 2.0, m);
    } else if !p.NotLater(lo, lo) {
      var gap := Over(p.b1, lo) + Over(p.b2, lo) - Over(p.a1, lo) - Over(p.a2, lo);
      assert !p.NotLater(lo + gap / 2.0, lo);
    } else {
      assert !p.NotLater(lo, p.lb);
      assert p.lb < lo;
    }
  }

  lemma PairHelps(p: Pair, ca: real, cb: real)
    requires p.Ordered() && p.Helps() && p.lb <= cb <= ca && p.la <= ca
    ensures p.NotLater(ca, cb)
  {
  }

  /** A stop that never closes is like one that closes after everything. */
  lemma PairHelpsOpenEnd(p: Pair, cb: real)
    requires p.Ordered() && p.Helps() && p.lb <= cb
    ensures Over(p.b1, cb) <= Over(p.a2, cb)
  {
    PairHelps(p, Max(Max(p.a1, p.b2), Max(p.la, cb)), cb);
  }

  // ---------- exchanging two neighbours ----------

  /** The pair as it is reached behind the stops before it. */
  function PairOf(mx: Matrix, v: Vehicle, pre: seq<Stop>, a: Stop, b: Stop): Pair {
    Pair(Arrival(mx, v, pre + [a], |pre|), Arrival(mx, v, pre + [a, b], |pre| + 1),
         Arrival(mx, v, pre + [b], |pre|), Arrival(mx, v, pre + [b, a], |pre| + 1), a.twOpen, b.twOpen)
  }

  /** After the exchange nobody behind the pair is reached later than before, except inside a wait. */
  ghost predicate TailNotDelayed(mx: Matrix, v: Vehicle, pre: seq<Stop>, a: Stop, b: Stop, suf: seq<Stop>) {
    forall k :: 0 <= k < |suf| ==> StopNotDelayed(mx, v, pre, a, b, suf, k)
  }

  ghost predicate StopNotDelayed(mx: Matrix, v: Vehicle, pre: seq<Stop>, a: Stop, b: Stop, suf: seq<Stop>, k: nat)
    requires k < |suf|
  {
    var at := |pre| + 2 + k;
    Arrival(mx, v, pre + [b, a] + suf, at) <= Max(Arrival(mx, v, pre + [a, b] + suf, at), suf[k].twOpen)
  }

  /** A condition on legs, services and openings: the exchange helps the pair and delays nobody behind it. */
  ghost predicate ExchangeHelps(mx: Matrix, v: Vehicle, pre: seq<Stop>, a: Stop, b: Stop, suf: seq<Stop>) {
    PairOf(mx, v, pre, a, b).Helps() && TailNotDelayed(mx, v, pre, a, b, suf)
  }

  /** Whatever the closing times: if the sort would exchange the two, doing so adds no lateness. */
  ghost predicate ExchangeNeverHurts(mx: Matrix, v: Vehicle, pre: seq<Stop>, a: Stop, b: Stop, suf: seq<Stop>) {
    forall a', b', suf' :: Reclosed([a, b] + suf, [a', b'] + suf') && AllValid([a', b'] + suf') && !DueFirst(a', b') ==>
      Lateness(true, mx, v, pre + [b', a'] + suf') <= Lateness(true, mx, v, pre + [a', b'] + suf')
  }

  lemma PairLateness(mx: Matrix, v: Vehicle, pre: seq<Stop>, a: Stop, b: Stop)
    ensures Lateness(true, mx, v, pre + [a, b]) == Lateness(true, mx, v, pre)
      + LateBy(Arrival(mx, v, pre + [a], |pre|), a.twClose) + LateBy(Arrival(mx, v, pre + [a, b], |pre| + 1), b.twClose)
  {
    LatenessSnoc(mx, v, pre, a);
    LatenessSnoc(mx, v, pre + [a], b);
    assert (pre + [a]) + [b] == pre + [a, b];
  }

  lemma PairOrdered(mx: Matrix, v: Vehicle, pre: seq<Stop>, a: Stop, b: Stop)
    requires mx.NonNegative() && a.service >= 0.0
    ensures Arrival(mx, v, pre + [a], |pre|) <= Arrival(mx, v, pre + [a, b], |pre| + 1)
  {
    ArrivalsIncrease(mx, v, pre + [a], b);
    assert (pre + [a]) + [b] == pre + [a, b];
  }

  lemma PairIgnoresCloses(mx: Matrix, v: Vehicle, pre: seq<Stop>, a: Stop, b: Stop, a': Stop, b': Stop)
    requires Reclosed([a, b], [a', b'])
    ensures PairOf(mx, v, pre, a, b) == PairOf(mx, v, pre, a', b')
  {
    hide Arrival;
    assert [a', b'][0] == a' && [a', b'][1] == b';
    ArrivalIgnoresCloses(mx, v, pre + [a], pre + [a'], |pre|);
    ArrivalIgnoresCloses(mx, v, pre + [b], pre + [b'], |pre|);
    ArrivalIgnoresCloses(mx, v, pre + [a, b], pre + [a', b'], |pre| + 1);
    ArrivalIgnoresCloses(mx, v, pre + [b, a], pre + [b', a'], |pre| + 1);
  }

  lemma PairOfOrdered(mx: Matrix, v: Vehicle, pre: seq<Stop>, a: Stop, b: Stop)
    requires mx.NonNegative() && a.service >= 0.0 && b.service >= 0.0
    ensures PairOf(mx, v, pre, a, b).Ordered()
  {
    hide Arrival;
    PairOrdered(mx, v, pre, a, b);
    PairOrdered(mx, v, pre, b, a);
  }

  /** The pair itself, with its own closing times. */
  lemma PairNotWorse(mx: Matrix, v: Vehicle, pre: seq<Stop>, a: Stop, b: Stop)
    requires mx.NonNegative() && a.Valid() && b.Valid() && !DueFirst(a, b)
    requires PairOf(mx, v, pre, a, b).Helps()
    ensures Lateness(true, mx, v, pre + [b, a]) <= Lateness(true, mx, v, pre + [a, b])
  {
    hide Lateness;
    hide Arrival;
    var p := PairOf(mx, v, pre, a, b);
    PairLateness(mx, v, pre, a, b);
    PairLateness(mx, v, pre, b, a);
    PairOfOrdered(mx, v, pre, a, b);
    if a.twClose.At? && b.twClose.At? {
      PairHelps(p, a.twClose.t, b.twClose.t);
    } else if b.twClose.At? {
      PairHelpsOpenEnd(p, b.twClose.t);
    }
  }

  lemma NotDelayedNotLater(before: real, after: real, s: Stop)
    requires s.Valid() && after <= Max(before, s.twOpen)
    ensures LateBy(after, s.twClose) <= LateBy(before, s.twClose)
  {
  }

  /** A tail of which nobody is delayed gets no later. */
  lemma {:induction false} TailNotWorse(mx: Matrix, v: Vehicle, x: seq<Stop>, y: seq<Stop>, suf: seq<Stop>)
    requires |x| == |y| && AllValid(suf)
    requires forall k :: 0 <= k < |suf| ==>
      Arrival(mx, v, y + suf, |y| + k) <= Max(Arrival(mx, v, x + suf, |x| + k), suf[k].twOpen)
    ensures Lateness(true, mx, v, y + suf) - Lateness(true, mx, v, y)
         <= Lateness(true, mx, v, x + suf) - Lateness(true, mx, v, x)
  {
    hide Lateness;
    hide Reaches;
    if suf == [] {
      assert x + suf == x && y + suf == y;
    } else {
      var m := |suf| - 1;
      var front, last := suf[..m], suf[m];
      assert x + suf == (x + front) + [last] && y + suf == (y + front) + [last];
      forall k | 0 <= k < m
        ensures Arrival(mx, v, y + front, |y| + k) <= Max(Arrival(mx, v, x + front, |x| + k), front[k].twOpen)
      {
        assert (x + front)[..|x| + k + 1] == (x + suf)[..|x| + k + 1];
        assert (y + front)[..|y| + k + 1] == (y + suf)[..|y| + k + 1];
      }
      TailNotWorse(mx, v, x, y, front);
      LatenessSnoc(mx, v, x + front, last);
      LatenessSnoc(mx, v, y + front, last);
      NotDelayedNotLater(Arrival(mx, v, x + suf, |x| + m), Arrival(mx, v, y + suf, |y| + m), last);
    }
  }

  /** Under the condition an exchange of two stops that are due the other way round adds no lateness. */
  lemma ExchangeNotWorse(mx: Matrix, v: Vehicle, pre: seq<Stop>, a: Stop, b: Stop, suf: seq<Stop>)
    requires mx.NonNegative() && a.Valid() && b.Valid() && AllValid(suf) && !DueFirst(a, b)
    requires ExchangeHelps(mx, v, pre, a, b, suf)
    ensures Lateness(true, mx, v, pre + [b, a] + suf) <= Lateness(true, mx, v, pre + [a, b] + suf)
  {
    hide Lateness;
    hide Arrival;
    PairNotWorse(mx, v, pre, a, b);
    forall k | 0 <= k < |suf|
      ensures Arrival(mx, v, pre + [b, a] + suf, |pre + [b, a]| + k)
           <= Max(Arrival(mx, v, pre + [a, b] + suf, |pre + [a, b]| + k), suf[k].twOpen)
    {
      assert StopNotDelayed(mx, v, pre, a, b, suf, k);
    }
    TailNotWorse(mx, v, pre + [a, b], pre + [b, a], suf);
  }

  lemma HelpsIgnoresCloses(mx: Matrix, v: Vehicle, pre: seq<Stop>, a: Stop, b: Stop, suf: seq<Stop>,
                           a': Stop, b': Stop, suf': seq<Stop>)
    requires Reclosed([a, b], [a', b']) && Reclosed(suf, suf')
    ensures forall k :: 0 <= k < |suf| ==>
      (StopNotDelayed(mx, v, pre, a, b, suf, k) <==> StopNotDelayed(mx, v, pre, a', b', suf', k))
    ensures ExchangeHelps(mx, v, pre, a, b, suf) <==> ExchangeHelps(mx, v, pre, a', b', suf')
  {
    hide Arrival;
    assert [a', b'][0] == a' && [a', b'][1] == b';
    PairIgnoresCloses(mx, v, pre, a, b, a', b');
    forall k | 0 <= k < |suf|
      ensures StopNotDelayed(mx, v, pre, a, b, suf, k) <==> StopNotDelayed(mx, v, pre, a', b', suf', k)
    {
      ArrivalIgnoresCloses(mx, v, pre + [a, b] + suf, pre + [a', b'] + suf', |pre| + 2 + k);
      ArrivalIgnoresCloses(mx, v, pre + [b, a] + suf, pre + [b', a'] + suf', |pre| + 2 + k);
      assert suf'[k].twOpen == suf[k].twOpen;
    }
  }

  /** The tail without closing times, except that stop k closes at c. */
  function ClosingOnly(suf: seq<Stop>, k: nat, c: Limit): (other: seq<Stop>)
    ensures Reclosed(suf, other)
    ensures forall i :: 0 <= i < |suf| ==> other[i].twClose == if i == k then c else Never
  {
    seq(|suf|, i requires 0 <= i < |suf| => suf[i].(twClose := if i == k then c else Never))
  }

  /** The pair with closing times of its own, in front of a tail in which only stop k closes. */
  lemma ClosedPairLateness(mx: Matrix, v: Vehicle, pre: seq<Stop>, a: Stop, b: Stop, suf: seq<Stop>,
                           ca: real, cb: real, k: nat, c: Limit)
    ensures var a', b', suf' := a.(twClose := At(ca)), b.(twClose := At(cb)), ClosingOnly(suf, k, c);
      Lateness(true, mx, v, pre + [a', b'] + suf') == Lateness(true, mx, v, pre)
        + Over(Arrival(mx, v, pre + [a], |pre|), ca) + Over(Arrival(mx, v, pre + [a, b], |pre| + 1), cb)
        + if k < |suf| then LateBy(Arrival(mx, v, pre + [a, b] + suf, |pre| + 2 + k), c) else 0.0
  {
    hide Lateness;
    hide Arrival;
    var a', b', suf' := a.(twClose := At(ca)), b.(twClose := At(cb)), ClosingOnly(suf, k, c);
    PairLateness(mx, v, pre, a', b');
    OnlyOneCloses(mx, v, pre + [a', b'], suf', k);
    ArrivalIgnoresCloses(mx, v, pre + [a], pre + [a'], |pre|);
    ArrivalIgnoresCloses(mx, v, pre + [a, b], pre + [a', b'], |pre| + 1);
    if k < |suf| {
      ArrivalIgnoresCloses(mx, v, pre + [a, b] + suf, pre + [a', b'] + suf', |pre| + 2 + k);
    }
  }

  /** Using the promise for one choice of closing times. */
  lemma PromiseFor(mx: Matrix, v: Vehicle, pre: seq<Stop>, a: Stop, b: Stop, suf: seq<Stop>,
                   ca: real, cb: real, k: nat, c: Limit)
    requires ExchangeNeverHurts(mx, v, pre, a, b, suf) && AllValid([a, b] + suf)
    requires a.twOpen <= ca && b.twOpen <= cb < ca && (k < |suf| && c.At? ==> suf[k].twOpen <= c.t)
    ensures var p := PairOf(mx, v, pre, a, b);
      Over(p.b1, cb) + Over(p.b2, ca)
      + (if k < |suf| then LateBy(Arrival(mx, v, pre + [b, a] + suf, |pre| + 2 + k), c) else 0.0)
      <= Over(p.a1, ca) + Over(p.a2, cb)
      + (if k < |suf| then LateBy(Arrival(mx, v, pre + [a, b] + suf, |pre| + 2 + k), c) else 0.0)
  {
    hide Lateness;
    hide Arrival;
    var a', b', suf' := a.(twClose := At(ca)), b.(twClose := At(cb)), ClosingOnly(suf, k, c);
    ClosedPairLateness(mx, v, pre, a, b, suf, ca, cb, k, c);
    ClosedPairLateness(mx, v, pre, b, a, suf, cb, ca, k, c);
    assert Reclosed([a, b] + suf, [a', b'] + suf');
    ClosedStaysValid(a, b, suf, ca, cb, k, c);
  }

  lemma ClosedStaysValid(a: Stop, b: Stop, suf: seq<Stop>, ca: real, cb: real, k: nat, c: Limit)
    requires AllValid([a, b] + suf)
    requires a.twOpen <= ca && b.twOpen <= cb && (k < |suf| && c.At? ==> suf[k].twOpen <= c.t)
    ensures AllValid([a.(twClose := At(ca)), b.(twClose := At(cb))] + ClosingOnly(suf, k, c))
  {
    var old_ := [a, b] + suf;
    assert old_[0] == a && old_[1] == b;
    forall i | 0 <= i < |suf| ensures ClosingOnly(suf, k, c)[i].Valid() {
      assert old_[i + 2] == suf[i];
    }
  }

  /** Exchanging two neighbours anywhere in a route never adds lateness, whatever the closing times, exactly when
      the condition holds. */
  lemma ExchangeExact(mx: Matrix, v: Vehicle, pre: seq<Stop>, a: Stop, b: Stop, suf: seq<Stop>)
    requires mx.NonNegative() && AllValid([a, b] + suf)
    ensures ExchangeNeverHurts(mx, v, pre, a, b, suf) <==> ExchangeHelps(mx, v, pre, a, b, suf)
  {
    hide Lateness;
    hide Arrival;
    if ExchangeHelps(mx, v, pre, a, b, suf) {
      HelpsAlways(mx, v, pre, a, b, suf);
    } else if ExchangeNeverHurts(mx, v, pre, a, b, suf) {
      PromiseBindsPair(mx, v, pre, a, b, suf);
      forall k | 0 <= k < |suf| ensures StopNotDelayed(mx, v, pre, a, b, suf, k) {
        PromiseBindsTail(mx, v, pre, a, b, suf, k);
      }
    }
  }

  lemma HelpsAlways(mx: Matrix, v: Vehicle, pre: seq<Stop>, a: Stop, b: Stop, suf: seq<Stop>)
    requires mx.NonNegative() && ExchangeHelps(mx, v, pre, a, b, suf)
    ensures ExchangeNeverHurts(mx, v, pre, a, b, suf)
  {
    hide Lateness;
    hide Arrival;
    hide ExchangeHelps;
    forall a', b', suf' | Reclosed([a, b] + suf, [a', b'] + suf') && AllValid([a', b'] + suf') && !DueFirst(a', b')
      ensures Lateness(true, mx, v, pre + [b', a'] + suf') <= Lateness(true, mx, v, pre + [a', b'] + suf')
    {
      ReclosedParts(a, b, suf, a', b', suf');
      HelpsIgnoresCloses(mx, v, pre, a, b, suf, a', b', suf');
      ExchangeNotWorse(mx, v, pre, a', b', suf');
    }
  }

  lemma ReclosedParts(a: Stop, b: Stop, suf: seq<Stop>, a': Stop, b': Stop, suf': seq<Stop>)
    requires Reclosed([a, b] + suf, [a', b'] + suf') && AllValid([a', b'] + suf')
    ensures Reclosed([a, b], [a', b']) && Reclosed(suf, suf')
    ensures a'.Valid() && b'.Valid() && AllValid(suf')
  {
    var x, y := [a, b] + suf, [a', b'] + suf';
    assert y[0] == a' && y[1] == b' && x[0] == a && x[1] == b;
    forall i | 0 <= i < |suf| ensures suf'[i] == suf[i].(twClose := suf'[i].twClose) && suf'[i].Valid() {
      assert y[i + 2] == suf'[i] && x[i + 2] == suf[i];
    }
  }

  lemma PromiseBindsPair(mx: Matrix, v: Vehicle, pre: seq<Stop>, a: Stop, b: Stop, suf: seq<Stop>)
    requires mx.NonNegative() && AllValid([a, b] + suf) && ExchangeNeverHurts(mx, v, pre, a, b, suf)
    ensures PairOf(mx, v, pre, a, b).Helps()
  {
    hide ExchangeNeverHurts;
    hide Arrival;
    var p := PairOf(mx, v, pre, a, b);
    assert ([a, b] + suf)[0] == a && ([a, b] + suf)[1] == b;
    PairOfOrdered(mx, v, pre, a, b);
    forall ca, cb | p.lb <= cb < ca && p.la <= ca ensures p.NotLater(ca, cb) {
      PromiseFor(mx, v, pre, a, b, suf, ca, cb, |suf|, Never);
    }
    PairExact(p);
  }

  lemma PromiseBindsTail(mx: Matrix, v: Vehicle, pre: seq<Stop>, a: Stop, b: Stop, suf: seq<Stop>, k: nat)
    requires mx.NonNegative() && AllValid([a, b] + suf) && ExchangeNeverHurts(mx, v, pre, a, b, suf) && k < |suf|
    ensures StopNotDelayed(mx, v, pre, a, b, suf, k)
  {
    hide ExchangeNeverHurts;
    hide Arrival;
    var p := PairOf(mx, v, pre, a, b);
    assert ([a, b] + suf)[0] == a && ([a, b] + suf)[1] == b;
    PairOfOrdered(mx, v, pre, a, b);
    var c := Max(Arrival(mx, v, pre + [a, b] + suf, |pre| + 2 + k), suf[k].twOpen);
    var late := Max(p.BothOpen(), Max(p.a2, p.b2));
    PromiseFor(mx, v, pre, a, b, suf, late + 1.0, late, k, At(c));
  }

  // ---------- the sort as a series of exchanges ----------

  /** Whatever the closing times of two stops: if the sort exchanges them, the repaired route is not later. */
  ghost predicate TidyTwoNeverHurts(spec: Spec, mx: Matrix, v: Vehicle, a: Stop, b: Stop) {
    forall a', b' :: Reclosed([a, b], [a', b']) && a'.Valid() && b'.Valid() && !DueFirst(a', b') ==>
      Lateness(true, mx, v, TidyRoute(spec, [a', b'])) <= Lateness(true, mx, v, [a', b'])
  }

  /** For a route of two stops that is the whole answer: putting it in due order, whatever the closing times,
      never adds lateness exactly when the condition holds. */
  lemma TwoStopTidyExact(spec: Spec, mx: Matrix, v: Vehicle, a: Stop, b: Stop)
    requires spec.enforceTw && mx.NonNegative() && a.Valid() && b.Valid()
    ensures TidyTwoNeverHurts(spec, mx, v, a, b) <==> PairOf(mx, v, [], a, b).Helps()
  {
    hide Lateness;
    hide Arrival;
    forall x: Stop ensures [] + [x] == [x] {
    }
    forall x: Stop, y: Stop ensures [] + [x, y] == [x, y] && [x, y] + [] == [x, y] && [] + [x, y] + [] == [x, y] {
    }
    assert AllValid([a, b] + []);
    ExchangeExact(mx, v, [], a, b, []);
    if ExchangeHelps(mx, v, [], a, b, []) {
      forall a', b' | Reclosed([a, b], [a', b']) && a'.Valid() && b'.Valid() && !DueFirst(a', b')
        ensures Lateness(true, mx, v, TidyRoute(spec, [a', b'])) <= Lateness(true, mx, v, [a', b'])
      {
        SortsTwo(a', b');
        HelpsIgnoresCloses(mx, v, [], a, b, [], a', b', []);
        ExchangeNotWorse(mx, v, [], a', b', []);
      }
    } else {
      var a', b', suf' :| Reclosed([a, b] + [], [a', b'] + suf') && AllValid([a', b'] + suf') && !DueFirst(a', b')
        && Lateness(true, mx, v, [] + [b', a'] + suf') > Lateness(true, mx, v, [] + [a', b'] + suf');
      ReclosedParts(a, b, [], a', b', suf');
      assert suf' == [];
      SortsTwo(a', b');
    }
  }

  /** Moving x to its place in the sorted front makes only exchanges that help. */
  ghost predicate InsertHelps(mx: Matrix, v: Vehicle, x: Stop, s: seq<Stop>, tail: seq<Stop>) {
    s == [] || DueFirst(s[|s| - 1], x)
    || (var front, last := s[..|s| - 1], s[|s| - 1];
        ExchangeHelps(mx, v, front, last, x, tail) && InsertHelps(mx, v, x, front, [last] + tail))
  }

  /** All exchanges of the sort up to position k help. */
  ghost predicate SortHelps(mx: Matrix, v: Vehicle, route: seq<Stop>, k: nat)
    requires k <= |route|
  {
    k == 0
    || (SortHelps(mx, v, route, k - 1)
        && InsertHelps(mx, v, route[k - 1], SortBy(DueFirst, route[..k - 1]), route[k..]))
  }

  lemma {:induction false} InsertNotWorse(mx: Matrix, v: Vehicle, x: Stop, s: seq<Stop>, tail: seq<Stop>)
    requires mx.NonNegative() && x.Valid() && AllValid(s) && AllValid(tail) && InsertHelps(mx, v, x, s, tail)
    ensures Lateness(true, mx, v, Insert(DueFirst, x, s) + tail) <= Lateness(true, mx, v, s + [x] + tail)
  {
    hide Lateness;
    hide ExchangeHelps;
    hide DueFirst;
    if s != [] && !DueFirst(s[|s| - 1], x) {
      var front, last := s[..|s| - 1], s[|s| - 1];
      assert AllValid([last] + tail);
      ExchangeNotWorse(mx, v, front, last, x, tail);
      InsertNotWorse(mx, v, x, front, [last] + tail);
      assert s + [x] + tail == front + [last, x] + tail;
      assert front + [x, last] + tail == front + [x] + ([last] + tail);
      assert Insert(DueFirst, x, s) + tail == Insert(DueFirst, x, front) + ([last] + tail);
    } else if s == [] {
      assert s + [x] + tail == [x] + tail;
    }
  }

  lemma ValidPermuted(a: seq<Stop>, b: seq<Stop>)
    requires AllValid(a) && multiset(a) == multiset(b)
    ensures AllValid(b)
  {
    forall i | 0 <= i < |b| ensures b[i].Valid() {
      assert b[i] in multiset(a);
    }
  }

  lemma SortedStaysValid(route: seq<Stop>)
    requires AllValid(route)
    ensures AllValid(SortBy(DueFirst, route))
  {
    DueFirstOrder();
    SortByCorrect(DueFirst, route);
    ValidPermuted(route, SortBy(DueFirst, route));
  }

  lemma SortNext(route: seq<Stop>, k: nat)
    requires 0 < k <= |route|
    ensures var sorted := SortBy(DueFirst, route[..k - 1]);
      && SortBy(DueFirst, route[..k]) == Insert(DueFirst, route[k - 1], sorted)
      && sorted + route[k - 1..] == sorted + [route[k - 1]] + route[k..]
  {
    assert route[..k][..k - 1] == route[..k - 1];
  }

  lemma {:induction false} SortNotWorse(mx: Matrix, v: Vehicle, route: seq<Stop>, k: nat)
    requires mx.NonNegative() && AllValid(route) && k <= |route| && SortHelps(mx, v, route, k)
    ensures Lateness(true, mx, v, SortBy(DueFirst, route[..k]) + route[k..]) <= Lateness(true, mx, v, route)
  {
    hide Lateness;
    hide InsertHelps;
    hide DueFirst;
    hide Insert;
    if k == 0 {
      assert SortBy(DueFirst, route[..0]) + route[0..] == route;
    } else {
      var front, x, tail := route[..k - 1], route[k - 1], route[k..];
      SortNotWorse(mx, v, route, k - 1);
      SortedStaysValid(front);
      InsertNotWorse(mx, v, x, SortBy(DueFirst, front), tail);
      SortNext(route, k);
    }
  }

  /** A route of any length: if every exchange the sort makes meets the condition, the sort adds no lateness. */
  lemma TidyNotWorse(spec: Spec, mx: Matrix, v: Vehicle, route: seq<Stop>)
    requires mx.NonNegative() && AllValid(route) && SortHelps(mx, v, route, |route|)
    ensures Lateness(true, mx, v, TidyRoute(spec, route)) <= Lateness(true, mx, v, route)
  {
    if spec.enforceTw {
      SortNotWorse(mx, v, route, |route|);
      assert route[..|route|] == route && route[|route|..] == [];
      assert SortBy(DueFirst, route) + [] == SortBy(DueFirst, route);
    }
  }
}
