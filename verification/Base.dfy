/** Small shared vocabulary: optional values, results, costs that may be infinite, and the
    order Python uses to compare strings. */
module Base {

  /** The tolerance the encoding and the repair both use when a load is compared with a capacity. */
  const EPS: real := 0.000000001

  datatype Option<+T> = None | Some(value: T)

  datatype Result<+T, +E> = Success(value: T) | Failure(error: E)

  /** A float that starts out as `inf` and may later become a number. */
  datatype Cost = Inf | Fin(v: real)

  predicate Less(a: Cost, b: Cost) {
    a.Fin? && (b.Inf? || a.v < b.v)
  }

  predicate AtMost(a: Cost, b: Cost) {
    b.Inf? || (a.Fin? && a.v <= b.v)
  }

  function Max(a: real, b: real): real {
    if a < b then b else a
  }

  function Flatten<T>(xss: seq<seq<T>>): seq<T> {
    if xss == [] then [] else Flatten(xss[..|xss| - 1]) + xss[|xss| - 1]
  }

  /** Python's `<` on strings: the first differing code point decides, a proper prefix is smaller. */
  predicate StringLess(a: string, b: string) {
    b != [] && (a == [] || a[0] < b[0] || (a[0] == b[0] && StringLess(a[1..], b[1..])))
  }

  lemma {:induction false} StringLessTotal(a: string, b: string)
    ensures StringLess(a, b) || a == b || StringLess(b, a)
    ensures !(StringLess(a, b) && StringLess(b, a))
    ensures a == b ==> !StringLess(a, b)
    decreases |a|
  {
    if a != [] && b != [] && a[0] == b[0] {
      StringLessTotal(a[1..], b[1..]);
      assert a == [a[0]] + a[1..] && b == [b[0]] + b[1..];
    }
  }

  lemma {:induction false} StringLessTransitive(a: string, b: string, c: string)
    requires StringLess(a, b) && StringLess(b, c)
    ensures StringLess(a, c)
    decreases |a|
  {
    if a != [] && a[0] == b[0] == c[0] {
      StringLessTransitive(a[1..], b[1..], c[1..]);
    }
  }

  lemma {:induction false} FlattenLength<T>(xss: seq<seq<T>>, m: nat)
    requires m <= |xss|
    ensures |Flatten(xss[..m])| <= |Flatten(xss)|
    ensures Flatten(xss[..m]) == Flatten(xss)[..|Flatten(xss[..m])|]
    decreases |xss| - m
  {
    if m == |xss| {
      assert xss[..m] == xss;
    } else {
      FlattenLength(xss, m + 1);
      assert xss[..m + 1][..m] == xss[..m];
    }
  }

  lemma SliceJoin<T>(s: seq<T>, i: nat, j: nat)
    requires i <= j <= |s|
    ensures s[..i] + s[i..j] == s[..j]
  {
  }

  lemma PrefixSnoc<T>(s: seq<T>, n: nat)
    requires n < |s|
    ensures s[..n + 1] == s[..n] + [s[n]]
    ensures multiset(s[..n + 1]) == multiset(s[..n]) + multiset{s[n]}
  {
    assert s[..n + 1] == s[..n] + [s[n]];
  }

  // ---------- list edits ----------

  /** `del s[i]`. */
  function RemoveAt<T>(s: seq<T>, i: nat): seq<T>
    requires i < |s|
  {
    s[..i] + s[i + 1..]
  }

  /** `s.insert(i, x)`. */
  function InsertAt<T>(s: seq<T>, i: nat, x: T): seq<T>
    requires i <= |s|
  {
    s[..i] + [x] + s[i..]
  }

  lemma RemoveAtElements<T>(s: seq<T>, i: nat)
    requires i < |s|
    ensures multiset(RemoveAt(s, i)) == multiset(s) - multiset{s[i]}
    ensures multiset(s) == multiset(RemoveAt(s, i)) + multiset{s[i]}
  {
    assert s == s[..i] + [s[i]] + s[i + 1..];
    assert multiset(s) == multiset(s[..i]) + multiset{s[i]} + multiset(s[i + 1..]);
  }

  lemma InsertAtElements<T>(s: seq<T>, i: nat, x: T)
    requires i <= |s|
    ensures multiset(InsertAt(s, i, x)) == multiset(s) + multiset{x}
  {
    assert s == s[..i] + s[i..];
  }
}
