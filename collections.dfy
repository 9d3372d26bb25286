/** The list and collection operations the repositories use: the LINQ/driver
    calls `FirstOrDefault`, `Where`, `Any`, `CountDocuments`, `ReplaceOne`,
    `DeleteOne` and `SortBy`, as functions over a sequence in store order. */
module Collections {
  import opened Common

  /** Index of the first element satisfying `p`. */
  function FirstIndex<T>(s: seq<T>, p: T -> bool): (r: Option<nat>)
    ensures r.None? <==> forall j :: 0 <= j < |s| ==> !p(s[j])
    ensures r.Some? ==> r.value < |s| && p(s[r.value])
    ensures r.Some? ==> forall j :: 0 <= j < r.value ==> !p(s[j])
  {
    if |s| == 0 then None
    else if p(s[0]) then Some(0)
    else match FirstIndex(s[1..], p)
      case None => None
      case Some(i) => Some(i + 1)
  }

  /** `FirstOrDefault(p)`: the first element satisfying `p`, if any. */
  function First<T>(s: seq<T>, p: T -> bool): (r: Option<T>)
    ensures r.None? <==> forall j :: 0 <= j < |s| ==> !p(s[j])
    ensures r.Some? ==> r.value in s && p(r.value)
    ensures r.Some? ==> exists i :: 0 <= i < |s| && s[i] == r.value && forall j :: 0 <= j < i ==> !p(s[j])
  {
    match FirstIndex(s, p)
    case None => None
    case Some(i) => Some(s[i])
  }

  /** `Any(p)`. */
  predicate Exists<T>(s: seq<T>, p: T -> bool) {
    exists j :: 0 <= j < |s| && p(s[j])
  }

  /** `ReplaceOne(p, x)`: the first element satisfying `p` becomes `x`; no match, no change. */
  function ReplaceFirst<T>(s: seq<T>, p: T -> bool, x: T): (r: seq<T>)
    ensures |r| == |s|
    ensures FirstIndex(s, p).None? ==> r == s
    ensures FirstIndex(s, p).Some? ==>
      r[FirstIndex(s, p).value] == x &&
      forall j :: 0 <= j < |s| && j != FirstIndex(s, p).value ==> r[j] == s[j]
  {
    match FirstIndex(s, p)
    case None => s
    case Some(i) => s[i := x]
  }

  /** `DeleteOne(p)`: the first element satisfying `p` is removed, the rest keep their order. */
  function RemoveFirst<T>(s: seq<T>, p: T -> bool): (r: seq<T>)
    ensures FirstIndex(s, p).None? ==> r == s
    ensures FirstIndex(s, p).Some? ==>
      |r| == |s| - 1 &&
      r == s[..FirstIndex(s, p).value] + s[FirstIndex(s, p).value + 1..]
  {
    match FirstIndex(s, p)
    case None => s
    case Some(i) => s[..i] + s[i + 1..]
  }

  /** `Where(p)`, keeping store order. */
  function Filter<T(!new)>(s: seq<T>, p: T -> bool): (r: seq<T>)
    ensures |r| <= |s|
    ensures forall x :: x in r <==> x in s && p(x)
    ensures multiset(r) <= multiset(s)
  {
    if |s| == 0 then []
    else if p(s[0]) then
      assert s == [s[0]] + s[1..];
      [s[0]] + Filter(s[1..], p)
    else
      assert s == [s[0]] + s[1..];
      Filter(s[1..], p)
  }

  /** `CountDocuments(p)`. */
  function Count<T>(s: seq<T>, p: T -> bool): (n: nat)
    ensures n <= |s|
    ensures n == 0 <==> forall j :: 0 <= j < |s| ==> !p(s[j])
    ensures n == |s| <==> forall j :: 0 <= j < |s| ==> p(s[j])
  {
    if |s| == 0 then 0
    else (if p(s[0]) then 1 else 0) + Count(s[1..], p)
  }

  /** Counting agrees with the length of the filtered list. */
  lemma {:induction false} CountIsFilterLength<T(!new)>(s: seq<T>, p: T -> bool)
    ensures Count(s, p) == |Filter(s, p)|
  {
    if |s| > 0 {
      CountIsFilterLength(s[1..], p);
    }
  }

  /** Skipping a first element that does not satisfy `p` does not change what `First` finds. */
  lemma FirstSkip<T>(s: seq<T>, p: T -> bool)
    requires |s| > 0 && !p(s[0])
    ensures First(s, p) == First(s[1..], p)
  {
    match FirstIndex(s[1..], p)
    case None =>
    case Some(i) =>
      assert FirstIndex(s, p) == Some(i + 1);
      assert s[i + 1] == s[1..][i];
  }

  /** `Where(p).FirstOrDefault(q)` finds what `FirstOrDefault(p && q)` finds on
      the unfiltered list: filtering keeps store order. */
  lemma {:induction false} FirstOfFilter<T(!new)>(s: seq<T>, p: T -> bool, q: T -> bool, pq: T -> bool)
    requires forall x :: pq(x) == (p(x) && q(x))
    ensures First(Filter(s, p), q) == First(s, pq)
  {
    if |s| > 0 {
      FirstOfFilter(s[1..], p, q, pq);
      var f := Filter(s[1..], p);
      if p(s[0]) && q(s[0]) {
        assert Filter(s, p) == [s[0]] + f;
        assert FirstIndex(Filter(s, p), q) == Some(0);
        assert FirstIndex(s, pq) == Some(0);
      } else if p(s[0]) {
        var g := [s[0]] + f;
        assert Filter(s, p) == g;
        assert g[1..] == f;
        FirstSkip(g, q);
        FirstSkip(s, pq);
      } else {
        assert Filter(s, p) == f;
        FirstSkip(s, pq);
      }
    }
  }

  /** Filtering keeps an increasing sequence increasing. */
  lemma {:induction false} FilterKeepsIncreasing<T(!new)>(s: seq<T>, p: T -> bool, key: T -> int)
    requires forall i, j :: 0 <= i < j < |s| ==> key(s[i]) < key(s[j])
    ensures forall i, j :: 0 <= i < j < |Filter(s, p)| ==> key(Filter(s, p)[i]) < key(Filter(s, p)[j])
  {
    if |s| > 0 {
      FilterKeepsIncreasing(s[1..], p, key);
      var f := Filter(s[1..], p);
      if p(s[0]) {
        forall j | 0 <= j < |f|
          ensures key(s[0]) < key(f[j])
        {
          assert f[j] in s[1..];
          var k :| 0 <= k < |s[1..]| && s[1..][k] == f[j];
          assert s[k + 1] == f[j];
        }
        var r := [s[0]] + f;
        assert r == Filter(s, p);
        assert forall i :: 0 < i < |r| ==> r[i] == f[i - 1];
      }
    }
  }

  // ---- ordering by an integer key (`SortBy` / `SortByDescending`) ----

  predicate InOrder(a: int, b: int, descending: bool) {
    if descending then a >= b else a <= b
  }

  predicate SortedBy<T>(s: seq<T>, key: T -> int, descending: bool) {
    forall i, j :: 0 <= i < j < |s| ==> InOrder(key(s[i]), key(s[j]), descending)
  }

  function Insert<T>(x: T, s: seq<T>, key: T -> int, descending: bool): (r: seq<T>)
    requires SortedBy(s, key, descending)
    ensures SortedBy(r, key, descending)
    ensures multiset(r) == multiset(s) + multiset{x}
    ensures |r| == |s| + 1
    ensures forall y :: y in r ==> y == x || y in s
  {
    if |s| == 0 then [x]
    else if InOrder(key(x), key(s[0]), descending) then
      [x] + s
    else
      var t := Insert(x, s[1..], key, descending);
      assert s == [s[0]] + s[1..];
      InsertAfterHead(s, x, t, key, descending);
      [s[0]] + t
  }

  /** Putting the head of a sorted `s` back in front of a sorted `t` made of
      `x` and the rest of `s` keeps the order, when the head goes before `x`. */
  lemma InsertAfterHead<T>(s: seq<T>, x: T, t: seq<T>, key: T -> int, descending: bool)
    requires |s| > 0 && SortedBy(s, key, descending) && SortedBy(t, key, descending)
    requires InOrder(key(s[0]), key(x), descending)
    requires forall y :: y in t ==> y == x || y in s[1..]
    ensures SortedBy([s[0]] + t, key, descending)
  {
    forall j | 0 <= j < |t| ensures InOrder(key(s[0]), key(t[j]), descending) {
      assert t[j] in t;
      if t[j] != x {
        var k :| 0 <= k < |s[1..]| && s[1..][k] == t[j];
        assert s[k + 1] == t[j];
      }
    }
    var r := [s[0]] + t;
    forall i, j | 0 <= i < j < |r| ensures InOrder(key(r[i]), key(r[j]), descending) {
      assert r[j] == t[j - 1];
      if i > 0 {
        assert r[i] == t[i - 1];
      }
    }
  }

  /** A stable insertion sort: sorted by `key` and a permutation of `s`. */
  function SortBy<T>(s: seq<T>, key: T -> int, descending: bool): (r: seq<T>)
    ensures SortedBy(r, key, descending)
    ensures multiset(r) == multiset(s)
    ensures |r| == |s|
  {
    if |s| == 0 then []
    else
      assert s == [s[0]] + s[1..];
      Insert(s[0], SortBy(s[1..], key, descending), key, descending)
  }

  /** Sequences that are permutations of each other have the same elements. */
  lemma SameElements<T>(a: seq<T>, b: seq<T>)
    requires multiset(a) == multiset(b)
    ensures forall x :: x in a <==> x in b
  {
    forall x ensures x in a <==> x in b {
      assert x in a <==> x in multiset(a);
      assert x in b <==> x in multiset(b);
    }
  }
}
