/** Sorting by contract: what `sorted`, `list.sort` and `np.argsort(kind="stable")` promise, given
    by one insertion sort, and the fact that the promise determines the answer. */
module Sorting {
  import opened Base

  ghost predicate TotalPreorder<T(!new)>(le: (T, T) -> bool) {
    && (forall a, b :: le(a, b) || le(b, a))
    && (forall a, b, c :: le(a, b) && le(b, c) ==> le(a, c))
  }

  ghost predicate Sorted<T>(le: (T, T) -> bool, s: seq<T>) {
    forall i, j :: 0 <= i < j < |s| ==> le(s[i], s[j])
  }

  /** Puts x behind the last element that is not greater, so equal elements keep their order. */
  function Insert<T>(le: (T, T) -> bool, x: T, s: seq<T>): seq<T> {
    if s == [] then [x]
    else if le(s[|s| - 1], x) then s + [x]
    else Insert(le, x, s[..|s| - 1]) + [s[|s| - 1]]
  }

  function SortBy<T>(le: (T, T) -> bool, xs: seq<T>): seq<T> {
    if xs == [] then [] else Insert(le, xs[|xs| - 1], SortBy(le, xs[..|xs| - 1]))
  }

  lemma {:induction false} InsertKeepsElements<T>(le: (T, T) -> bool, x: T, s: seq<T>)
    ensures multiset(Insert(le, x, s)) == multiset(s) + multiset{x}
  {
    if s != [] {
      var front, last := s[..|s| - 1], s[|s| - 1];
      InsertKeepsElements(le, x, front);
      assert s == front + [last];
      assert multiset(s) == multiset(front) + multiset{last};
    }
  }

  lemma {:induction false} InsertSorted<T(!new)>(le: (T, T) -> bool, x: T, s: seq<T>)
    requires TotalPreorder(le) && Sorted(le, s)
    ensures Sorted(le, Insert(le, x, s))
  {
    if s == [] {
    } else if le(s[|s| - 1], x) {
      forall i | 0 <= i < |s| ensures le(s[i], x) {
        assert i < |s| - 1 ==> le(s[i], s[|s| - 1]);
      }
    } else {
      var t, last := s[..|s| - 1], s[|s| - 1];
      InsertSorted(le, x, t);
      InsertKeepsElements(le, x, t);
      var r := Insert(le, x, t);
      forall i | 0 <= i < |r| ensures le(r[i], last) {
        assert r[i] in multiset(t) + multiset{x};
        if r[i] != x {
          assert r[i] in t;
          var j :| 0 <= j < |t| && t[j] == r[i];
          assert s[j] == r[i];
        }
      }
    }
  }

  /** The elements of s that le cannot tell from a, in order. */
  ghost function Alike<T>(le: (T, T) -> bool, a: T, s: seq<T>): seq<T> {
    if s == [] then []
    else Alike(le, a, s[..|s| - 1]) + if le(a, s[|s| - 1]) && le(s[|s| - 1], a) then [s[|s| - 1]] else []
  }

  /** Every class of equal elements has the same members in the same order. */
  ghost predicate SameClasses<T(!new)>(le: (T, T) -> bool, ys: seq<T>, zs: seq<T>) {
    forall a :: Alike(le, a, ys) == Alike(le, a, zs)
  }

  /** The contract of a stable sort: ordered, the same elements, and equal elements in their old order. */
  ghost predicate IsStableSort<T(!new)>(le: (T, T) -> bool, xs: seq<T>, ys: seq<T>) {
    && Sorted(le, ys)
    && multiset(ys) == multiset(xs)
    && |ys| == |xs|
    && SameClasses(le, ys, xs)
  }

  lemma AlikeSnoc<T>(le: (T, T) -> bool, a: T, s: seq<T>, x: T)
    ensures Alike(le, a, s + [x]) == Alike(le, a, s) + if le(a, x) && le(x, a) then [x] else []
  {
    assert (s + [x])[..|s|] == s;
  }

  lemma {:induction false} InsertStable<T(!new)>(le: (T, T) -> bool, x: T, s: seq<T>, a: T)
    requires TotalPreorder(le)
    ensures Alike(le, a, Insert(le, x, s)) == Alike(le, a, s + [x])
  {
    if s == [] {
      assert s + [x] == [x];
    } else if !le(s[|s| - 1], x) {
      var t, last := s[..|s| - 1], s[|s| - 1];
      InsertStable(le, x, t, a);
      AlikeSnoc(le, a, Insert(le, x, t), last);
      AlikeSnoc(le, a, t, x);
      AlikeSnoc(le, a, s, x);
    }
  }

  lemma {:induction false} SortByStable<T(!new)>(le: (T, T) -> bool, xs: seq<T>, a: T)
    requires TotalPreorder(le)
    ensures Alike(le, a, SortBy(le, xs)) == Alike(le, a, xs)
  {
    if xs != [] {
      var front, last := xs[..|xs| - 1], xs[|xs| - 1];
      SortByStable(le, front, a);
      InsertStable(le, last, SortBy(le, front), a);
      AlikeSnoc(le, a, SortBy(le, front), last);
    }
  }

  lemma {:induction false} SortBySorts<T(!new)>(le: (T, T) -> bool, xs: seq<T>)
    requires TotalPreorder(le)
    ensures Sorted(le, SortBy(le, xs))
    ensures multiset(SortBy(le, xs)) == multiset(xs)
    ensures |SortBy(le, xs)| == |xs|
  {
    if xs != [] {
      SortBySorts(le, xs[..|xs| - 1]);
      InsertSorted(le, xs[|xs| - 1], SortBy(le, xs[..|xs| - 1]));
      InsertKeepsElements(le, xs[|xs| - 1], SortBy(le, xs[..|xs| - 1]));
      assert xs == xs[..|xs| - 1] + [xs[|xs| - 1]];
    }
    assert |multiset(SortBy(le, xs))| == |multiset(xs)|;
  }

  /** The sort keeps its promise. */
  lemma SortByCorrect<T(!new)>(le: (T, T) -> bool, xs: seq<T>)
    requires TotalPreorder(le)
    ensures IsStableSort(le, xs, SortBy(le, xs))
  {
    SortBySorts(le, xs);
    forall a ensures Alike(le, a, SortBy(le, xs)) == Alike(le, a, xs) {
      SortByStable(le, xs, a);
    }
  }

  lemma {:induction false} AlikeCons<T>(le: (T, T) -> bool, a: T, s: seq<T>)
    requires s != []
    ensures Alike(le, a, s) == (if le(a, s[0]) && le(s[0], a) then [s[0]] else []) + Alike(le, a, s[1..])
  {
    var front := s[..|s| - 1];
    if front != [] {
      AlikeCons(le, a, front);
      assert front[1..] == s[1..][..|s| - 2];
    } else {
      assert s[1..] == [];
    }
  }

  lemma LeastFirst<T(!new)>(le: (T, T) -> bool, s: seq<T>, x: T)
    requires TotalPreorder(le) && Sorted(le, s) && x in s
    ensures le(s[0], x)
  {
    var i :| 0 <= i < |s| && s[i] == x;
  }

  lemma FirstOfItsClass<T>(le: (T, T) -> bool, s: seq<T>, a: T)
    requires s != [] && le(a, s[0]) && le(s[0], a)
    ensures Alike(le, a, s) != [] && Alike(le, a, s)[0] == s[0]
  {
    AlikeCons(le, a, s);
  }

  lemma TailClasses<T(!new)>(le: (T, T) -> bool, ys: seq<T>, zs: seq<T>)
    requires SameClasses(le, ys, zs) && ys != [] && zs != [] && ys[0] == zs[0]
    ensures SameClasses(le, ys[1..], zs[1..])
  {
    forall a ensures Alike(le, a, ys[1..]) == Alike(le, a, zs[1..]) {
      AlikeCons(le, a, ys);
      AlikeCons(le, a, zs);
      assert Alike(le, a, ys) == Alike(le, a, zs);
      assert Alike(le, a, ys)[|Alike(le, a, ys)| - |Alike(le, a, ys[1..])|..] == Alike(le, a, ys[1..]);
    }
  }

  lemma {:induction false} SortedClassesAgree<T(!new)>(le: (T, T) -> bool, ys: seq<T>, zs: seq<T>)
    requires TotalPreorder(le) && Sorted(le, ys) && Sorted(le, zs)
    requires multiset(ys) == multiset(zs) && SameClasses(le, ys, zs)
    ensures ys == zs
    decreases |ys|
  {
    hide Alike;
    hide TotalPreorder;
    assert |ys| == |multiset(ys)| == |multiset(zs)| == |zs|;
    if ys != [] {
      StableHeadsAgree(le, ys, zs);
      TailElements(ys);
      TailElements(zs);
      TailClasses(le, ys, zs);
      SortedClassesAgree(le, ys[1..], zs[1..]);
    }
  }

  lemma StableHeadsAgree<T(!new)>(le: (T, T) -> bool, ys: seq<T>, zs: seq<T>)
    requires TotalPreorder(le) && Sorted(le, ys) && Sorted(le, zs) && ys != [] && zs != []
    requires multiset(ys) == multiset(zs) && SameClasses(le, ys, zs)
    ensures ys[0] == zs[0]
  {
    hide Alike;
    assert ys[0] in multiset(zs) && zs[0] in multiset(ys);
    LeastFirst(le, ys, zs[0]);
    LeastFirst(le, zs, ys[0]);
    FirstOfItsClass(le, ys, ys[0]);
    FirstOfItsClass(le, zs, ys[0]);
  }

  /** The contract of a stable sort has one answer. */
  lemma StableSortUnique<T(!new)>(le: (T, T) -> bool, xs: seq<T>, ys: seq<T>, zs: seq<T>)
    requires TotalPreorder(le) && IsStableSort(le, xs, ys) && IsStableSort(le, xs, zs)
    ensures ys == zs
  {
    SortedClassesAgree(le, ys, zs);
  }

  /** A list already in order is left exactly as it was. */
  lemma {:induction false} SortByFixpoint<T>(le: (T, T) -> bool, xs: seq<T>)
    requires Sorted(le, xs)
    ensures SortBy(le, xs) == xs
  {
    if xs != [] {
      SortByFixpoint(le, xs[..|xs| - 1]);
      if |xs| > 1 {
        assert le(xs[|xs| - 2], xs[|xs| - 1]);
      }
    }
  }

  // ---------- permutations of 0..n ----------

  ghost predicate IsPermutation(order: seq<nat>, n: nat) {
    && |order| == n
    && (forall i :: 0 <= i < n ==> order[i] < n)
    && (forall i, j :: 0 <= i < j < n ==> order[i] != order[j])
  }

  function Iota(n: nat): (s: seq<nat>)
    ensures |s| == n && forall i :: 0 <= i < n ==> s[i] == i
  {
    seq(n, i => i)
  }

  function Elements<T>(s: seq<T>): set<T> {
    set x | x in s
  }

  lemma {:induction false} DistinctCardinality<T>(s: seq<T>)
    requires forall i, j :: 0 <= i < j < |s| ==> s[i] != s[j]
    ensures |Elements(s)| == |s|
  {
    if s != [] {
      var t := s[..|s| - 1];
      DistinctCardinality(t);
      assert s == t + [s[|s| - 1]];
      assert Elements(s) == Elements(t) + {s[|s| - 1]};
    }
  }

  lemma SubsetCardinality<T>(a: set<T>, b: set<T>)
    requires a <= b && |a| == |b|
    ensures a == b
  {
    assert b == a + (b - a);
    assert |b| == |a| + |b - a|;
    assert b - a == {};
  }

  /** An injection of 0..n into itself reaches every index. */
  lemma PermutationReaches(order: seq<nat>, n: nat)
    requires IsPermutation(order, n)
    ensures forall i: nat :: i < n ==> i in order
    ensures multiset(order) == multiset(Iota(n))
  {
    var have, all := Elements(order), Elements(Iota(n));
    DistinctCardinality(order);
    DistinctCardinality(Iota(n));
    assert have <= all by {
      forall x | x in have ensures x in all {
        assert Iota(n)[x] == x;
      }
    }
    SubsetCardinality(have, all);
    forall x: nat ensures (x in have <==> x < n) && (x in order <==> x < n) {
      assert x < n ==> Iota(n)[x] == x;
      assert x in have <==> x in all;
    }
    forall x: nat ensures multiset(order)[x] == multiset(Iota(n))[x] {
      assert x in have <==> x < n;
      if x < n {
        DistinctOnce(order, x);
        DistinctOnce(Iota(n), x);
      }
    }
  }

  lemma {:induction false} DistinctOnce<T>(s: seq<T>, x: T)
    requires forall i, j :: 0 <= i < j < |s| ==> s[i] != s[j]
    requires x in s
    ensures multiset(s)[x] == 1
  {
    var i :| 0 <= i < |s| && s[i] == x;
    assert s == s[..i] + [x] + s[i + 1..];
    assert x !in s[..i] && x !in s[i + 1..];
    assert x !in multiset(s[..i]) && x !in multiset(s[i + 1..]);
  }

  lemma SplitCount<T>(s: seq<T>, i: nat, j: nat)
    requires i < j < |s|
    ensures s[i] == s[j] ==> multiset(s)[s[j]] >= 2
  {
    assert s == s[..j] + [s[j]] + s[j + 1..];
    assert s[i] in s[..j];
    assert s[i] in multiset(s[..j]);
  }

  // ---------- stable argsort ----------

  function KeyAt(keys: seq<real>, i: nat): real {
    if i < |keys| then keys[i] else 0.0
  }

  /** The order in which a stable argsort lists indices: by key, equal keys by index. */
  predicate Before(keys: seq<real>, i: nat, j: nat) {
    KeyAt(keys, i) < KeyAt(keys, j) || (KeyAt(keys, i) == KeyAt(keys, j) && i < j)
  }

  lemma SameElementsPermute(order: seq<nat>, n: nat)
    requires multiset(order) == multiset(Iota(n))
    ensures IsPermutation(order, n)
  {
    assert |order| == |multiset(order)| == n;
    forall i | 0 <= i < n ensures order[i] < n && multiset(order)[order[i]] == 1 {
      assert order[i] in multiset(order);
      DistinctOnce(Iota(n), order[i]);
    }
    forall i, j | 0 <= i < j < n ensures order[i] != order[j] {
      SplitCount(order, i, j);
    }
  }

  /** The contract of `np.argsort(keys, kind="stable")`. */
  ghost predicate IsStableArgsort(keys: seq<real>, order: seq<nat>) {
    && IsPermutation(order, |keys|)
    && (forall i, j :: 0 <= i < j < |order| ==> Before(keys, order[i], order[j]))
  }

  function Argsort(keys: seq<real>): (order: seq<nat>)
    ensures IsStableArgsort(keys, order)
  {
    var le := (i: nat, j: nat) => i == j || Before(keys, i, j);
    var order := SortBy(le, Iota(|keys|));
    assert IsStableArgsort(keys, order) by {
      SortByCorrect(le, Iota(|keys|));
      SameElementsPermute(order, |keys|);
    }
    order
  }

  /** The contract pins the answer down: any two stable argsorts of the same keys are equal. */
  lemma StableArgsortUnique(keys: seq<real>, a: seq<nat>, b: seq<nat>)
    requires IsStableArgsort(keys, a) && IsStableArgsort(keys, b)
    ensures a == b
  {
    PermutationReaches(a, |keys|);
    PermutationReaches(b, |keys|);
    SortedListsAgree(keys, a, b);
  }

  lemma TailElements<T>(s: seq<T>)
    requires s != []
    ensures s == [s[0]] + s[1..]
    ensures multiset(s[1..]) == multiset(s) - multiset{s[0]}
  {
    assert s == [s[0]] + s[1..];
  }

  lemma {:induction false} SortedListsAgree(keys: seq<real>, a: seq<nat>, b: seq<nat>)
    requires multiset(a) == multiset(b)
    requires forall i, j :: 0 <= i < j < |a| ==> Before(keys, a[i], a[j])
    requires forall i, j :: 0 <= i < j < |b| ==> Before(keys, b[i], b[j])
    ensures a == b
    decreases |a|
  {
    assert |a| == |multiset(a)| == |multiset(b)| == |b|;
    if a != [] {
      assert a[0] in multiset(b) && b[0] in multiset(a);
      assert a[0] == b[0];
      TailElements(a);
      TailElements(b);
      SortedListsAgree(keys, a[1..], b[1..]);
    }
  }

  // ---------- rank keys ----------

  /** The key that gives rank r among n: the middle of the r-th of n equal slots of [0, 1]. */
  function RankKey(r: nat, n: nat): real
    requires n > 0
  {
    (r as real + 0.5) / n as real
  }

  /** n times the key of rank r is r and a half. */
  lemma RankKeyIsMiddle(r: nat, n: nat)
    requires r < n
    ensures RankKey(r, n) * n as real == r as real + 0.5
  {
    var x, d := r as real + 0.5, n as real;
    assert x / d * d == x;
  }

  lemma RankKeyMonotone(r: nat, q: nat, n: nat)
    requires n > 0 && r < q
    ensures RankKey(r, n) < RankKey(q, n)
  {
    var x, y, d := r as real + 0.5, q as real + 0.5, n as real;
    assert x / d * d == x && y / d * d == y;
    assert x < y;
  }

  /** Keys written visit by visit: 0.5 where nothing is visited, else the key of the last visit. */
  function RankKeys(n: nat, visits: seq<nat>): (keys: seq<real>)
    requires n > 0 && forall i :: 0 <= i < |visits| ==> visits[i] < n
    ensures |keys| == n
  {
    if visits == [] then seq(n, _ => 0.5)
    else RankKeys(n, visits[..|visits| - 1])[visits[|visits| - 1] := RankKey(|visits| - 1, n)]
  }

  lemma {:induction false} RankKeysAt(n: nat, visits: seq<nat>, r: nat)
    requires n > 0 && r < |visits| && forall i :: 0 <= i < |visits| ==> visits[i] < n
    requires forall i, j :: 0 <= i < j < |visits| ==> visits[i] != visits[j]
    ensures RankKeys(n, visits)[visits[r]] == RankKey(r, n)
  {
    if r < |visits| - 1 {
      RankKeysAt(n, visits[..|visits| - 1], r);
    }
  }

  /** Ranks are read back by sorting: the stable argsort of a tour's rank keys is the tour. */
  lemma RankKeysRoundTrip(n: nat, tour: seq<nat>)
    requires n > 0 && IsPermutation(tour, n)
    ensures Argsort(RankKeys(n, tour)) == tour
  {
    var keys := RankKeys(n, tour);
    forall r, q | 0 <= r < q < n ensures Before(keys, tour[r], tour[q]) {
      RankKeysAt(n, tour, r);
      RankKeysAt(n, tour, q);
      RankKeyMonotone(r, q, n);
    }
    StableArgsortUnique(keys, Argsort(keys), tour);
  }

  // ---------- picking by index ----------

  /** `xs[idx]` for an index array. */
  function Gather<T>(xs: seq<T>, idx: seq<nat>): (ys: seq<T>)
    requires forall i :: 0 <= i < |idx| ==> idx[i] < |xs|
    ensures |ys| == |idx| && forall i :: 0 <= i < |idx| ==> ys[i] == xs[idx[i]]
  {
    seq(|idx|, i requires 0 <= i < |idx| => xs[idx[i]])
  }

  lemma GatherRemove<T>(xs: seq<T>, idx: seq<nat>, i: nat)
    requires i < |idx| && forall k :: 0 <= k < |idx| ==> idx[k] < |xs|
    ensures multiset(Gather(xs, idx)) == multiset(Gather(xs, RemoveAt(idx, i))) + multiset{xs[idx[i]]}
  {
    RemoveAtElements(Gather(xs, idx), i);
    assert Gather(xs, RemoveAt(idx, i)) == RemoveAt(Gather(xs, idx), i);
  }

  lemma {:induction false} GatherPermuted<T>(xs: seq<T>, a: seq<nat>, b: seq<nat>)
    requires forall i :: 0 <= i < |a| ==> a[i] < |xs|
    requires forall i :: 0 <= i < |b| ==> b[i] < |xs|
    requires multiset(a) == multiset(b)
    ensures multiset(Gather(xs, a)) == multiset(Gather(xs, b))
    decreases |a|
  {
    if |a| == 0 {
      assert |multiset(a)| == |multiset(b)|;
    } else {
      assert a[0] in multiset(b);
      var i :| 0 <= i < |b| && b[i] == a[0];
      RemoveAtElements(a, 0);
      RemoveAtElements(b, i);
      GatherPermuted(xs, RemoveAt(a, 0), RemoveAt(b, i));
      GatherRemove(xs, a, 0);
      GatherRemove(xs, b, i);
    }
  }

  /** Reordering a list by a permutation keeps its elements. */
  lemma PermutationKeepsElements<T>(xs: seq<T>, order: seq<nat>)
    requires IsPermutation(order, |xs|)
    ensures multiset(Gather(xs, order)) == multiset(xs)
  {
    PermutationReaches(order, |xs|);
    GatherPermuted(xs, order, Iota(|xs|));
    assert Gather(xs, Iota(|xs|)) == xs;
  }
}
