/** The ant-colony population: tours are always the orders their keys decode to, and pheromone is laid
    on exactly those orders. */
module Aco {
  import opened Base
  import opened Sorting

  datatype Config = Config(evaporation: real, deposit: real, tauMin: real, tauMax: real)
  {
    predicate Valid() {
      0.0 < evaporation <= 1.0 && deposit > 0.0 && 0.0 < tauMin < tauMax
    }
  }

  /** The random choices of one ant: where it starts and which remaining stop it takes at each step. */
  datatype Choices = Choices(start: nat, pick: nat -> nat)

  function Clamp(x: real, lo: real, hi: real): real {
    if x < lo then lo else if x > hi then hi else x
  }

  function ClampKeys(v: seq<real>): (keys: seq<real>)
    ensures |keys| == |v| && forall i :: 0 <= i < |v| ==> keys[i] == Clamp(v[i], 0.0, 1.0)
  {
    seq(|v|, i requires 0 <= i < |v| => Clamp(v[i], 0.0, 1.0))
  }

  /** Pheromone laid between u and v along the first k legs of a tour. */
  function Laid(tour: seq<nat>, amount: real, u: nat, v: nat, k: nat): real
    requires k < |tour| || k == 0
  {
    if k == 0 then 0.0
    else Laid(tour, amount, u, v, k - 1)
         + (if tour[k - 1] == u && tour[k] == v then amount else 0.0)
         + (if tour[k - 1] == v && tour[k] == u then amount else 0.0)
  }

  lemma {:induction false} LaidSymmetric(tour: seq<nat>, amount: real, u: nat, v: nat, k: nat)
    requires k < |tour| || k == 0
    ensures Laid(tour, amount, u, v, k) == Laid(tour, amount, v, u, k)
  {
    if k > 0 { LaidSymmetric(tour, amount, u, v, k - 1); }
  }

  function Legs(tour: seq<nat>): nat {
    if tour == [] then 0 else |tour| - 1
  }

  /** u and v follow each other within the first k legs of the tour, in either direction. */
  ghost predicate Neighbours(tour: seq<nat>, u: nat, v: nat, k: nat)
    requires k < |tour| || k == 0
  {
    exists i: nat :: i < k && ((tour[i] == u && tour[i + 1] == v) || (tour[i] == v && tour[i + 1] == u))
  }

  /** A tour lays its amount once between stops that follow each other and nothing elsewhere. */
  lemma {:induction false} LaidBetweenNeighbours(tour: seq<nat>, amount: real, u: nat, v: nat, k: nat)
    requires (k < |tour| || k == 0) && forall i, j :: 0 <= i < j < |tour| ==> tour[i] != tour[j]
    ensures Laid(tour, amount, u, v, k) == if Neighbours(tour, u, v, k) then amount else 0.0
  {
    if k > 0 {
      LaidBetweenNeighbours(tour, amount, u, v, k - 1);
      if i: nat :| i < k - 1 && ((tour[i] == u && tour[i + 1] == v) || (tour[i] == v && tour[i + 1] == u)) {
        assert Neighbours(tour, u, v, k - 1) && Neighbours(tour, u, v, k);
        assert tour[i] != tour[k];
      } else if (tour[k - 1] == u && tour[k] == v) || (tour[k - 1] == v && tour[k] == u) {
        assert Neighbours(tour, u, v, k);
      }
    }
  }

  /** What evaporation leaves. */
  function Faded(cfg: Config, before: real): real {
    before * (1.0 - cfg.evaporation)
  }

  function Amount(cfg: Config, cost: real): real {
    cfg.deposit / Max(cost, EPS)
  }

  /** y is x, or the limit that x is beyond. */
  predicate IsNearest(y: real, x: real, lo: real, hi: real) {
    && (lo <= x <= hi ==> y == x)
    && (x < lo ==> y == lo)
    && (hi < x ==> y == hi)
  }

  lemma AmountMeans(cfg: Config, cost: real, amount: real)
    requires amount * (if cost < 0.000000001 then 0.000000001 else cost) == cfg.deposit
    ensures Amount(cfg, cost) == amount
  {
    var d := Max(cost, EPS);
    assert (amount * d) / d == amount;
  }

  lemma FadedMeans(cfg: Config, before: real)
    ensures Faded(cfg, before) == before - cfg.evaporation * before
  {
  }

  /** The first index of the smallest cost. */
  ghost predicate IsArgMin(costs: seq<real>, i: nat) {
    && i < |costs|
    && (forall j :: 0 <= j < |costs| ==> costs[i] <= costs[j])
    && (forall j :: 0 <= j < i ==> costs[i] < costs[j])
  }

  method ArgMin(costs: seq<real>) returns (i: nat)
    requires costs != []
    ensures IsArgMin(costs, i)
  {
    i := 0;
    for k := 1 to |costs|
      invariant i < k
      invariant forall j :: 0 <= j < k ==> costs[i] <= costs[j]
      invariant forall j :: 0 <= j < i ==> costs[i] < costs[j]
    {
      if costs[k] < costs[i] {
        i := k;
      }
    }
  }

  // ---------- tour construction ----------

  /** Tour and remaining stops partition the stops 0..n. */
  ghost predicate Partition(n: nat, tour: seq<nat>, remaining: seq<nat>) {
    IsPermutation(tour + remaining, n)
  }

  lemma TakeKeepsPartition(n: nat, tour: seq<nat>, remaining: seq<nat>, c: nat)
    requires Partition(n, tour, remaining) && c < |remaining|
    ensures Partition(n, tour + [remaining[c]], RemoveAt(remaining, c))
  {
    PermutationReaches(tour + remaining, n);
    RemoveAtElements(remaining, c);
    assert multiset(tour + remaining) == multiset(tour) + multiset(remaining);
    assert multiset((tour + [remaining[c]]) + RemoveAt(remaining, c)) == multiset(Iota(n));
    SameElementsPermute((tour + [remaining[c]]) + RemoveAt(remaining, c), n);
  }

  /** `_construct`: whatever the draws, the ant visits every stop once. */
  method Construct(n: nat, choices: Choices) returns (tour: seq<nat>)
    requires n > 0
    ensures IsPermutation(tour, n)
  {
    var current := if choices.start < n then choices.start else n - 1;
    var remaining := Iota(n);
    assert Partition(n, [], remaining) by { assert [] + remaining == remaining; }
    TakeKeepsPartition(n, [], remaining, current);
    assert [] + [remaining[current]] == [current];
    remaining := RemoveAt(remaining, current);
    tour := [current];
    while remaining != []
      invariant Partition(n, tour, remaining)
      decreases |remaining|
    {
      var draw := choices.pick(|tour|);
      var choice := if draw < |remaining| then draw else |remaining| - 1;
      TakeKeepsPartition(n, tour, remaining, choice);
      current := remaining[choice];
      remaining := RemoveAt(remaining, choice);
      tour := tour + [current];
    }
    assert tour + [] == tour;
  }

  /** The key row of a tour: stop tour[r] gets the key of rank r. */
  method WriteKeys(n: nat, tour: seq<nat>) returns (keys: seq<real>)
    requires n > 0 && IsPermutation(tour, n)
    ensures keys == RankKeys(n, tour) && Argsort(keys) == tour
  {
    var row := new real[n];
    for rank := 0 to n
      invariant forall r :: 0 <= r < rank ==> row[tour[r]] == RankKey(r, n)
    {
      row[tour[rank]] := RankKey(rank, n);
    }
    keys := row[..];
    PermutationReaches(tour, n);
    forall i | 0 <= i < n ensures keys[i] == RankKeys(n, tour)[i] {
      assert i in tour;
      var r: nat :| r < n && tour[r] == i;
      RankKeysAt(n, tour, r);
    }
    RankKeysRoundTrip(n, tour);
  }

  // ---------- the population ----------

  class Population {
    const n: nat
    const cfg: Config
    var x: array<seq<real>>
    var tours: array<seq<nat>>
    var tau: array2<real>
    var best: seq<real>
    var bestCost: Cost
    var bestTour: Option<seq<nat>>

    /** In every reachable state tours and keys agree and the pheromone is symmetric. */
    ghost predicate Valid()
      reads this, x, tours, tau
    {
      && n > 0 && cfg.Valid()
      && x.Length == tours.Length >= 2
      && tau.Length0 == tau.Length1 == n
      && (forall k :: 0 <= k < x.Length ==> |x[k]| == n && tours[k] == Argsort(x[k]))
      && |best| == n
      && (bestTour.Some? ==> bestTour.value == Argsort(best))
      && (bestTour.Some? <==> bestCost.Fin?)
      && (forall u, v :: 0 <= u < n && 0 <= v < n ==> tau[u, v] == tau[v, u])
    }

    /** The clamped range; it holds for every pair after any registration. */
    ghost predicate Clamped()
      reads this, tau
    {
      forall u, v :: 0 <= u < tau.Length0 && 0 <= v < tau.Length1 ==> cfg.tauMin <= tau[u, v] <= cfg.tauMax
    }

    constructor (x0: seq<seq<real>>, n: nat, cfg: Config)
      requires n > 0 && cfg.Valid() && |x0| >= 2 && forall k :: 0 <= k < |x0| ==> |x0[k]| == n
      ensures Valid() && fresh(x) && fresh(tours) && fresh(tau)
      ensures this.n == n && this.cfg == cfg && x[..] == x0 && best == x0[0] && bestTour.None?
      ensures forall u, v :: 0 <= u < n && 0 <= v < n ==> tau[u, v] == if u == v then 0.0 else cfg.tauMax
    {
      this.n, this.cfg := n, cfg;
      x := new seq<real>[|x0|](k requires 0 <= k < |x0| => x0[k]);
      tours := new seq<nat>[|x0|](k requires 0 <= k < |x0| => Argsort(x0[k]));
      tau := new real[n, n]((u, v) => if u == v then 0.0 else cfg.tauMax);
      best, bestCost, bestTour := x0[0], Inf, None;
      new;
      assert x[..] == x0;
    }

    method Evaporate()
      requires Valid()
      modifies tau
      ensures Valid()
      ensures forall u, v :: 0 <= u < n && 0 <= v < n ==> tau[u, v] == Faded(cfg, old(tau[u, v]))
    {
      hide Faded;
      forall u, v | 0 <= u < n && 0 <= v < n {
        tau[u, v] := Faded(cfg, tau[u, v]);
      }
    }

    /** One depositor: amount is added in both directions along every leg of its tour. */
    method Deposit(tour: seq<nat>, amount: real)
      requires Valid() && IsPermutation(tour, n)
      modifies tau
      ensures Valid()
      ensures (forall u: nat, v: nat :: u < n && v < n ==>
                tau[u, v] == old(tau[u, v]) + Laid(tour, amount, u, v, Legs(tour)))
    {
      for k := 0 to Legs(tour)
        invariant Valid()
        invariant forall u: nat, v: nat :: u < n && v < n ==> tau[u, v] == old(tau[u, v]) + Laid(tour, amount, u, v, k)
      {
        var a, b := tour[k], tour[k + 1];
        assert a != b;
        tau[a, b] := tau[a, b] + amount;
        tau[b, a] := tau[b, a] + amount;
      }
    }

    method Clip()
      requires Valid()
      modifies tau
      ensures Valid() && Clamped()
      ensures forall u, v :: 0 <= u < n && 0 <= v < n ==> tau[u, v] == Clamp(old(tau[u, v]), cfg.tauMin, cfg.tauMax)
    {
      forall u, v | 0 <= u < n && 0 <= v < n {
        tau[u, v] := Clamp(tau[u, v], cfg.tauMin, cfg.tauMax);
      }
    }

    /** What a registration leaves between u and v: evaporation, then the iteration's best tour, then the
        best tour so far, clamped. */
    ghost function Reinforced(before: real, tour: seq<nat>, cost: real, kept: seq<nat>, keptCost: real,
                              u: nat, v: nat): real
    {
      Clamp(Faded(cfg, before)
            + Laid(tour, Amount(cfg, cost), u, v, Legs(tour))
            + Laid(kept, Amount(cfg, keptCost), u, v, Legs(kept)),
            cfg.tauMin, cfg.tauMax)
    }

    /** In plain terms: the pheromone loses its evaporating share, gains the deposit over the cost where the
        iteration's best tour passes and the deposit over the best cost where the best tour so far passes, and is
        held within its limits. */
    lemma ReinforcedMeans(before: real, tour: seq<nat>, cost: real, first: real, kept: seq<nat>, keptCost: real,
                          second: real, u: nat, v: nat)
      requires cfg.Valid() && IsPermutation(tour, n) && IsPermutation(kept, n)
      requires first * (if cost < 0.000000001 then 0.000000001 else cost) == cfg.deposit
      requires second * (if keptCost < 0.000000001 then 0.000000001 else keptCost) == cfg.deposit
      ensures var left := before - cfg.evaporation * before;
        IsNearest(Reinforced(before, tour, cost, kept, keptCost, u, v),
                  left + (if Neighbours(tour, u, v, Legs(tour)) then first else 0.0)
                  + (if Neighbours(kept, u, v, Legs(kept)) then second else 0.0),
                  cfg.tauMin, cfg.tauMax)
    {
      hide Neighbours;
      hide Faded;
      hide Amount;
      hide Laid;
      FadedMeans(cfg, before);
      AmountMeans(cfg, cost, first);
      AmountMeans(cfg, keptCost, second);
      LaidBetweenNeighbours(tour, first, u, v, Legs(tour));
      LaidBetweenNeighbours(kept, second, u, v, Legs(kept));
    }

    /** Evaporation, the two deposits, the clamp. */
    method Reinforce(tour: seq<nat>, cost: real, kept: seq<nat>, keptCost: real)
      requires Valid() && IsPermutation(tour, n) && IsPermutation(kept, n)
      modifies tau
      ensures Valid() && Clamped()
      ensures (forall u: nat, v: nat :: u < n && v < n ==>
                tau[u, v] == Reinforced(old(tau[u, v]), tour, cost, kept, keptCost, u, v))
    {
      hide Faded;
      hide Laid;
      hide Clamp;
      hide Amount;
      Evaporate();
      Deposit(tour, Amount(cfg, cost));
      Deposit(kept, Amount(cfg, keptCost));
      Clip();
    }

    /** `register_costs`. A batch of the wrong size is refused. Otherwise the best is updated, and the
        pheromone is laid along the decoded order of this iteration's best keys and of the best keys so far. */
    method RegisterCosts(costs: seq<real>) returns (ok: bool, ghost i: nat)
      requires Valid()
      modifies this`best, this`bestCost, this`bestTour, tau
      ensures Valid() && ok == (|costs| == x.Length)
      ensures !ok ==> best == old(best) && bestCost == old(bestCost) && bestTour == old(bestTour)
      ensures !ok ==> forall u, v :: 0 <= u < n && 0 <= v < n ==> tau[u, v] == old(tau[u, v])
      ensures ok ==> IsArgMin(costs, i) && Clamped()
      ensures ok ==> if Less(Fin(costs[i]), old(bestCost))
                     then best == x[i] && bestCost == Fin(costs[i])
                     else best == old(best) && bestCost == old(bestCost)
      ensures ok ==> bestCost.Fin? && AtMost(bestCost, old(bestCost)) && bestCost.v <= costs[i]
      ensures ok ==> (forall u: nat, v: nat :: u < n && v < n ==>
                tau[u, v] == Reinforced(old(tau[u, v]), Argsort(x[i]), costs[i], Argsort(best), bestCost.v, u, v))
    {
      hide Reinforced;
      i := 0;
      ok := |costs| == x.Length;
      if !ok {
        return;
      }
      var b := ArgMin(costs);
      i := b;
      if Less(Fin(costs[b]), bestCost) {
        bestCost := Fin(costs[b]);
        best := x[b];
        bestTour := Some(tours[b]);
      }
      Reinforce(tours[b], costs[b], bestTour.value, bestCost.v);
    }

    /** `advance`: every ant builds a tour, and its keys are the ranks of that tour. */
    method Advance(draws: nat -> Choices)
      requires Valid()
      modifies x, tours
      ensures Valid()
      ensures forall k :: 0 <= k < x.Length ==> IsPermutation(tours[k], n) && x[k] == RankKeys(n, tours[k])
    {
      hide RankKeys;
      hide IsStableArgsort;
      for k := 0 to x.Length
        invariant Valid()
        invariant forall j :: 0 <= j < k ==> IsPermutation(tours[j], n) && x[j] == RankKeys(n, tours[j])
      {
        var tour := Construct(n, draws(k));
        var keys := WriteKeys(n, tour);
        tours[k] := tour;
        x[k] := keys;
      }
    }

    /** `inject_global_best`: a better outside vector is adopted, clipped to the search box. Its length is not
        checked, so the population stays in a valid state exactly when what it adopts has one key per stop. */
    method InjectGlobalBest(vector: seq<real>, cost: real)
      requires Valid()
      modifies this`best, this`bestCost, this`bestTour
      ensures Valid() <==> (Less(Fin(cost), old(bestCost)) ==> |vector| == n)
      ensures if Less(Fin(cost), old(bestCost))
              then best == ClampKeys(vector) && bestCost == Fin(cost) && bestTour == Some(Argsort(best))
              else best == old(best) && bestCost == old(bestCost) && bestTour == old(bestTour)
      ensures Less(Fin(cost), old(bestCost)) ==>
        |best| == |vector| && forall i :: 0 <= i < |vector| ==> IsNearest(best[i], vector[i], 0.0, 1.0)
    {
      if Less(Fin(cost), bestCost) {
        best := ClampKeys(vector);
        bestCost := Fin(cost);
        bestTour := Some(Argsort(best));
      }
    }
  }
}
