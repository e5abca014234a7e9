/**
  Sequence operations shared by the list handling of the dashboard pages:
  `Array.prototype.filter`, `new Set(...)`, grouping into an insertion-ordered
  `Map` or object by a `forEach`/`reduce`, the stable `Array.prototype.sort`
  and `slice(0, n)`.
*/
module Seqs {

  /** r occurs in s with its elements in the same relative order. */
  predicate IsSubsequence<T(==,!new)>(r: seq<T>, s: seq<T>)
    decreases |s|
  {
    r == [] || (s != [] && ((r[0] == s[0] && IsSubsequence(r[1..], s[1..])) || IsSubsequence(r, s[1..])))
  }

  predicate NoDuplicates<T(==,!new)>(s: seq<T>)
  {
    forall i, j :: 0 <= i < j < |s| ==> s[i] != s[j]
  }

  function Map<T, U>(s: seq<T>, f: T -> U): (r: seq<U>)
    ensures |r| == |s|
    ensures forall i :: 0 <= i < |s| ==> r[i] == f(s[i])
  {
    seq(|s|, i requires 0 <= i < |s| => f(s[i]))
  }

  /** Mapping over s with one more element appends that element's image. */
  lemma MapAppendOne<T, U>(s: seq<T>, x: T, f: T -> U)
    ensures Map(s + [x], f) == Map(s, f) + [f(x)]
  {
    var r := Map(s + [x], f);
    assert forall i :: 0 <= i < |s| ==> r[i] == f(s[i]);
  }

  /** The elements of s that satisfy p, in their original order. */
  function Filter<T(==,!new)>(s: seq<T>, p: T -> bool): (r: seq<T>)
    ensures |r| <= |s|
    ensures forall x :: x in r <==> x in s && p(x)
    ensures IsSubsequence(r, s)
  {
    if s == [] then []
    else if p(s[0]) then [s[0]] + Filter(s[1..], p)
      else Filter(s[1..], p)
  }

  /** Filtering keeps each passing element as many times as it occurs, and no other. */
  lemma {:induction false} FilterMultiset<T(!new)>(s: seq<T>, p: T -> bool)
    ensures forall x :: multiset(Filter(s, p))[x] == if p(x) then multiset(s)[x] else 0
  {
    if s != [] {
      assert s == [s[0]] + s[1..];
      FilterMultiset(s[1..], p);
    }
  }

  /** Filtering a non-empty sequence keeps its head exactly when the head passes. */
  lemma FilterStep<T(!new)>(s: seq<T>, p: T -> bool)
    requires s != []
    ensures |Filter(s, p)| == |Filter(s[1..], p)| + if p(s[0]) then 1 else 0
  {
  }

  lemma {:induction false} FilterKeepsAll<T(!new)>(s: seq<T>, p: T -> bool)
    requires forall x :: x in s ==> p(x)
    ensures Filter(s, p) == s
  {
    if s != [] {
      FilterKeepsAll(s[1..], p);
    }
  }

  lemma {:induction false} FilterAppend<T(!new)>(a: seq<T>, b: seq<T>, p: T -> bool)
    ensures Filter(a + b, p) == Filter(a, p) + Filter(b, p)
  {
    if a == [] {
      assert a + b == b;
    } else {
      assert (a + b)[0] == a[0];
      assert (a + b)[1..] == a[1..] + b;
      FilterAppend(a[1..], b, p);
    }
  }

  /** The distinct elements of s, in the order of their first occurrence. */
  function Distinct<T(==,!new)>(s: seq<T>): (r: seq<T>)
    ensures |r| <= |s|
    ensures forall x :: x in r <==> x in s
    ensures NoDuplicates(r)
  {
    if s == [] then []
    else
      var d := Distinct(s[..|s| - 1]);
      assert forall x :: x in s <==> x in s[..|s| - 1] || x == s[|s| - 1];
      if s[|s| - 1] in d then d else d + [s[|s| - 1]]
  }

  lemma {:induction false} NoDuplicatesCardinality<T(!new)>(s: seq<T>)
    requires NoDuplicates(s)
    ensures |set x | x in s| == |s|
  {
    if s != [] {
      var s0 := s[..|s| - 1];
      NoDuplicatesCardinality(s0);
      assert (set x | x in s) == (set x | x in s0) + {s[|s| - 1]};
      assert s[|s| - 1] !in (set x | x in s0);
    }
  }

  /** `new Set(s).size` is the number of distinct elements, at most |s|. */
  lemma SetSizeIsDistinct<T(!new)>(s: seq<T>)
    ensures |set x | x in s| == |Distinct(s)| <= |s|
  {
    NoDuplicatesCardinality(Distinct(s));
    assert (set x | x in s) == (set x | x in Distinct(s));
  }

  /** `slice(0, n)`. */
  function Take<T>(s: seq<T>, n: nat): (r: seq<T>)
    ensures |r| == if n < |s| then n else |s|
    ensures forall i :: 0 <= i < |r| ==> r[i] == s[i]
  {
    if n < |s| then s[..n] else s
  }

  /** Sum of f over the elements of s. */
  function SumOf<T>(s: seq<T>, f: T -> int): int
  {
    if s == [] then 0 else SumOf(s[..|s| - 1], f) + f(s[|s| - 1])
  }

  lemma {:induction false} SumOfUpdate<T>(s: seq<T>, i: nat, v: T, f: T -> int)
    requires i < |s|
    ensures SumOf(s[i := v], f) == SumOf(s, f) - f(s[i]) + f(v)
  {
    if i < |s| - 1 {
      assert s[i := v][..|s| - 1] == s[..|s| - 1][i := v];
      SumOfUpdate(s[..|s| - 1], i, v, f);
    } else {
      assert s[i := v][..|s| - 1] == s[..|s| - 1];
    }
  }

  // ---------------------------------------------------------------------
  // Grouping by key, in the order in which keys first appear

  /** One bucket of a grouping: its key, its first element, how many elements and the sum of their weights. */
  datatype Group<T, K> = Group(key: K, first: T, count: nat, total: int)

  function KeyOf<T, K>(b: Group<T, K>): K
  {
    b.key
  }

  function CountOf<T, K>(b: Group<T, K>): int
  {
    b.count
  }

  function TotalOf<T, K>(b: Group<T, K>): int
  {
    b.total
  }

  function Keys<T, K>(g: seq<Group<T, K>>): seq<K>
  {
    Map(g, KeyOf)
  }

  function Counts<T, K>(g: seq<Group<T, K>>): int
  {
    SumOf(g, CountOf)
  }

  function Totals<T, K>(g: seq<Group<T, K>>): int
  {
    SumOf(g, TotalOf)
  }

  /** Index of the bucket with key k, or -1 when there is none. */
  function FindKey<T, K(==,!new)>(g: seq<Group<T, K>>, k: K): (i: int)
    ensures -1 <= i < |g|
    ensures 0 <= i ==> g[i].key == k
    ensures i < 0 <==> forall j :: 0 <= j < |g| ==> g[j].key != k
  {
    if g == [] then -1
    else if g[0].key == k then 0
    else
      var i := FindKey(g[1..], k);
      if i < 0 then -1 else i + 1
  }

  /**
    The buckets a `forEach` or `reduce` over s builds in a `Map` (or in an
    object whose keys are not array indices), in insertion order.
  */
  function GroupBy<T, K(==,!new)>(s: seq<T>, key: T -> K, w: T -> int): seq<Group<T, K>>
  {
    if s == [] then []
    else
      var g := GroupBy(s[..|s| - 1], key, w);
      var x := s[|s| - 1];
      var i := FindKey(g, key(x));
      if i < 0 then g + [Group(key(x), x, 1, w(x))]
      else g[i := g[i].(count := g[i].count + 1, total := g[i].total + w(x))]
  }

  /** The key of every element, in order. */
  function KeysOf<T, K>(s: seq<T>, key: T -> K): seq<K>
  {
    Map(s, key)
  }

  /** Sum of the weights of the elements of s with key k. */
  function SumWhere<T, K(==,!new)>(s: seq<T>, key: T -> K, w: T -> int, k: K): int
  {
    if s == [] then 0
    else SumWhere(s[..|s| - 1], key, w, k) + (if key(s[|s| - 1]) == k then w(s[|s| - 1]) else 0)
  }

  /** The first element of s whose key is k. */
  function FirstWith<T, K(==,!new)>(s: seq<T>, key: T -> K, k: K): (r: T)
    requires k in KeysOf(s, key)
    ensures r in s && key(r) == k
  {
    var s0 := s[..|s| - 1];
    assert KeysOf(s, key) == KeysOf(s0, key) + [key(s[|s| - 1])];
    if k in KeysOf(s0, key) then FirstWith(s0, key, k) else s[|s| - 1]
  }

  lemma KeysOfSnoc<T, K>(s: seq<T>, key: T -> K)
    requires s != []
    ensures KeysOf(s, key) == KeysOf(s[..|s| - 1], key) + [key(s[|s| - 1])]
  {
  }

  lemma {:induction false} SumWhereAbsent<T, K(!new)>(s: seq<T>, key: T -> K, w: T -> int, k: K)
    requires k !in KeysOf(s, key)
    ensures SumWhere(s, key, w, k) == 0
  {
    if s != [] {
      KeysOfSnoc(s, key);
      SumWhereAbsent(s[..|s| - 1], key, w, k);
    }
  }

  /** GroupBy has one bucket per distinct key, in the order in which the keys first appear. */
  lemma {:induction false} GroupByKeys<T, K(!new)>(s: seq<T>, key: T -> K, w: T -> int)
    ensures Keys(GroupBy(s, key, w)) == Distinct(KeysOf(s, key))
  {
    if s != [] {
      var s0, x := s[..|s| - 1], s[|s| - 1];
      GroupByKeys(s0, key, w);
      KeysOfSnoc(s, key);
      var ks := KeysOf(s, key);
      assert ks[..|ks| - 1] == KeysOf(s0, key);
      var g0 := GroupBy(s0, key, w);
      var i := FindKey(g0, key(x));
      assert forall j :: 0 <= j < |g0| ==> Keys(g0)[j] == g0[j].key;
      if i < 0 {
        assert key(x) !in Keys(g0);
        var g := g0 + [Group(key(x), x, 1, w(x))];
        assert Keys(g) == Keys(g0) + [key(x)];
      } else {
        assert key(x) in Keys(g0);
        var g := g0[i := g0[i].(count := g0[i].count + 1, total := g0[i].total + w(x))];
        assert Keys(g) == Keys(g0);
      }
    }
  }

  /**
    Each bucket of GroupBy counts the elements with its key (so at least one),
    sums their weights and remembers the first of them.
  */
  lemma {:induction false} GroupByBucket<T, K(!new)>(s: seq<T>, key: T -> K, w: T -> int, i: nat)
    requires i < |GroupBy(s, key, w)|
    ensures var b := GroupBy(s, key, w)[i];
      b.key in KeysOf(s, key) &&
      b.count == multiset(KeysOf(s, key))[b.key] && b.count >= 1 &&
      b.total == SumWhere(s, key, w, b.key) &&
      b.first == FirstWith(s, key, b.key)
  {
    var s0, x := s[..|s| - 1], s[|s| - 1];
    KeysOfSnoc(s, key);
    var g0 := GroupBy(s0, key, w);
    var j := FindKey(g0, key(x));
    GroupByKeys(s0, key, w);
    assert forall m :: 0 <= m < |g0| ==> Keys(g0)[m] == g0[m].key;
    if i == |g0| {
      assert j < 0;
      assert key(x) !in KeysOf(s0, key);
      SumWhereAbsent(s0, key, w, key(x));
    } else {
      GroupByBucket(s0, key, w, i);
      var k := g0[i].key;
      if j != i {
        assert k != key(x);
      }
    }
  }

  lemma {:induction false} GroupByCounts<T, K(!new)>(s: seq<T>, key: T -> K, w: T -> int)
    ensures Counts(GroupBy(s, key, w)) == |s|
  {
    if s != [] {
      var s0, x := s[..|s| - 1], s[|s| - 1];
      GroupByCounts(s0, key, w);
      var g0 := GroupBy(s0, key, w);
      var i := FindKey(g0, key(x));
      if i < 0 {
        var g := g0 + [Group(key(x), x, 1, w(x))];
        assert g[..|g0|] == g0;
        assert GroupBy(s, key, w) == g;
        assert SumOf(g, CountOf) == SumOf(g0, CountOf) + CountOf(g[|g0|]);
      } else {
        var b := g0[i].(count := g0[i].count + 1, total := g0[i].total + w(x));
        assert GroupBy(s, key, w) == g0[i := b];
        SumOfUpdate(g0, i, b, CountOf);
      }
    }
  }

  lemma {:induction false} GroupByTotals<T, K(!new)>(s: seq<T>, key: T -> K, w: T -> int)
    ensures Totals(GroupBy(s, key, w)) == SumOf(s, w)
  {
    if s != [] {
      var s0, x := s[..|s| - 1], s[|s| - 1];
      GroupByTotals(s0, key, w);
      var g0 := GroupBy(s0, key, w);
      var i := FindKey(g0, key(x));
      if i < 0 {
        var g := g0 + [Group(key(x), x, 1, w(x))];
        assert g[..|g0|] == g0;
        assert GroupBy(s, key, w) == g;
        assert SumOf(g, TotalOf) == SumOf(g0, TotalOf) + TotalOf(g[|g0|]);
      } else {
        var b := g0[i].(count := g0[i].count + 1, total := g0[i].total + w(x));
        assert GroupBy(s, key, w) == g0[i := b];
        SumOfUpdate(g0, i, b, TotalOf);
      }
    }
  }

  // ---------------------------------------------------------------------
  // Stable sorting by an integer key

  predicate SortedBy<T>(s: seq<T>, key: T -> int)
  {
    forall i, j :: 0 <= i < j < |s| ==> key(s[i]) <= key(s[j])
  }

  /** Insert x after every element whose key is at most x's. */
  function InsertSorted<T(==,!new)>(t: seq<T>, x: T, key: T -> int): (r: seq<T>)
    ensures |r| == |t| + 1
    ensures multiset(r) == multiset(t) + multiset{x}
    ensures forall y :: y in r ==> y in t || y == x
    ensures SortedBy(t, key) ==> SortedBy(r, key)
  {
    if t == [] then [x]
    else if key(t[|t| - 1]) <= key(x) then t + [x]
    else
      var t0, last := t[..|t| - 1], t[|t| - 1];
      assert t == t0 + [last];
      var r0 := InsertSorted(t0, x, key);
      assert SortedBy(t, key) ==> SortedBy(r0 + [last], key) by {
        if SortedBy(t, key) {
          assert forall y :: y in t0 ==> key(y) <= key(last);
          SortedAppendMax(r0, last, key);
        }
      }
      r0 + [last]
  }

  /** Appending an element whose key is at least every key keeps a sequence sorted. */
  lemma SortedAppendMax<T>(r: seq<T>, last: T, key: T -> int)
    requires SortedBy(r, key)
    requires forall y :: y in r ==> key(y) <= key(last)
    ensures SortedBy(r + [last], key)
  {
    var r' := r + [last];
    forall i, j | 0 <= i < j < |r'| ensures key(r'[i]) <= key(r'[j]) {
      assert r'[i] == r[i];
      if j < |r| {
        assert r'[j] == r[j];
      }
    }
  }

  /**
    The order `Array.prototype.sort` gives with a comparator that subtracts
    keys: non-decreasing by key, elements with equal keys in their original
    order.
  */
  function SortBy<T(==,!new)>(s: seq<T>, key: T -> int): (r: seq<T>)
    ensures |r| == |s|
    ensures multiset(r) == multiset(s)
    ensures SortedBy(r, key)
  {
    if s == [] then []
    else
      assert s == s[..|s| - 1] + [s[|s| - 1]];
      InsertSorted(SortBy(s[..|s| - 1], key), s[|s| - 1], key)
  }
  /** The elements whose key is k. */
  function KeyIs<T>(key: T -> int, k: int): T -> bool
  {
    (x: T) => key(x) == k
  }

  lemma {:induction false} InsertSortedStable<T(!new)>(t: seq<T>, x: T, key: T -> int, k: int)
    ensures Filter(InsertSorted(t, x, key), KeyIs(key, k)) == Filter(t, KeyIs(key, k)) + Filter([x], KeyIs(key, k))
  {
    var p := KeyIs(key, k);
    if t == [] {
      assert [x] == [] + [x];
    } else if key(t[|t| - 1]) <= key(x) {
      FilterAppend(t, [x], p);
    } else {
      var t0, last := t[..|t| - 1], t[|t| - 1];
      assert t == t0 + [last];
      assert InsertSorted(t, x, key) == InsertSorted(t0, x, key) + [last];
      InsertSortedStable(t0, x, key, k);
      AppendPastStable(InsertSorted(t0, x, key), t0, x, last, p);
    }
  }

  /**
    When x and last are not both kept, appending last after a sequence whose
    kept part is t0's followed by x's gives t0 + [last]'s kept part followed
    by x's.
  */
  lemma AppendPastStable<T(!new)>(u: seq<T>, t0: seq<T>, x: T, last: T, p: T -> bool)
    requires !p(x) || !p(last)
    requires Filter(u, p) == Filter(t0, p) + Filter([x], p)
    ensures Filter(u + [last], p) == Filter(t0 + [last], p) + Filter([x], p)
  {
    FilterAppend(u, [last], p);
    FilterAppend(t0, [last], p);
    FilterOne(x, p);
    FilterOne(last, p);
    SwapAroundEmpty(Filter(t0, p), Filter([x], p), Filter([last], p));
  }

  lemma FilterOne<T(!new)>(x: T, p: T -> bool)
    ensures Filter([x], p) == if p(x) then [x] else []
  {
    assert [x][1..] == [];
  }

  lemma SwapAroundEmpty<T>(a: seq<T>, b: seq<T>, c: seq<T>)
    requires b == [] || c == []
    ensures a + b + c == a + c + b
  {
  }

  /**
    SortBy is stable: the elements that share any one key appear in the
    result in the same order as in the input.
  */
  lemma {:induction false} SortByStable<T(!new)>(s: seq<T>, key: T -> int, k: int)
    ensures Filter(SortBy(s, key), KeyIs(key, k)) == Filter(s, KeyIs(key, k))
  {
    if s != [] {
      var s0, x := s[..|s| - 1], s[|s| - 1];
      assert s == s0 + [x];
      SortByStable(s0, key, k);
      InsertSortedStable(SortBy(s0, key), x, key, k);
      FilterAppend(s0, [x], KeyIs(key, k));
    }
  }

  /** Filtering by a predicate and by its negation splits s in two. */
  lemma {:induction false} FilterPartition<T(!new)>(s: seq<T>, p: T -> bool, q: T -> bool)
    requires forall x :: q(x) == !p(x)
    ensures |Filter(s, p)| + |Filter(s, q)| == |s|
  {
    if s != [] {
      FilterPartition(s[1..], p, q);
    }
  }
  /**
    The accumulation loop of a `forEach` or `reduce` that keeps one bucket per
    key: a new key opens a bucket at the end, a known key updates its bucket.
  */
  method Tally<T(==,!new), K(==,!new)>(s: seq<T>, key: T -> K, w: T -> int) returns (g: seq<Group<T, K>>)
    ensures g == GroupBy(s, key, w)
    ensures Keys(g) == Distinct(KeysOf(s, key))
    ensures Counts(g) == |s| && Totals(g) == SumOf(s, w)
  {
    g := [];
    for i := 0 to |s|
      invariant g == GroupBy(s[..i], key, w)
    {
      assert s[..i + 1][..i] == s[..i];
      var x := s[i];
      var j := FindKey(g, key(x));
      if j < 0 {
        g := g + [Group(key(x), x, 1, w(x))];
      } else {
        g := g[j := g[j].(count := g[j].count + 1, total := g[j].total + w(x))];
      }
    }
    assert s[..|s|] == s;
    GroupByKeys(s, key, w);
    GroupByCounts(s, key, w);
    GroupByTotals(s, key, w);
  }

  /** GroupByBucket for every bucket, wherever it sits. */
  lemma GroupByMembers<T(!new), K(!new)>(s: seq<T>, key: T -> K, w: T -> int)
    ensures forall b :: b in GroupBy(s, key, w) ==>
      b.key in KeysOf(s, key) && b.count == multiset(KeysOf(s, key))[b.key] && b.count >= 1 &&
      b.total == SumWhere(s, key, w, b.key) && b.first == FirstWith(s, key, b.key)
  {
    var g := GroupBy(s, key, w);
    forall b | b in g
      ensures b.key in KeysOf(s, key) && b.count == multiset(KeysOf(s, key))[b.key] && b.count >= 1 &&
        b.total == SumWhere(s, key, w, b.key) && b.first == FirstWith(s, key, b.key)
    {
      var i :| 0 <= i < |g| && g[i] == b;
      GroupByBucket(s, key, w, i);
    }
  }

  /** Summing a weight over the images of the buckets sums their counts, when the weight reads the count. */
  lemma {:induction false} MapCounts<T, K, U>(g: seq<Group<T, K>>, f: Group<T, K> -> U, w: U -> int)
    requires forall b :: w(f(b)) == b.count
    ensures SumOf(Map(g, f), w) == Counts(g)
  {
    if g != [] {
      MapCounts(g[..|g| - 1], f, w);
      assert Map(g, f)[..|g| - 1] == Map(g[..|g| - 1], f);
    }
  }

  /** Summing a weight over the images of the buckets sums their totals, when the weight reads the total. */
  lemma {:induction false} MapTotals<T, K, U>(g: seq<Group<T, K>>, f: Group<T, K> -> U, w: U -> int)
    requires forall b :: w(f(b)) == b.total
    ensures SumOf(Map(g, f), w) == Totals(g)
  {
    if g != [] {
      MapTotals(g[..|g| - 1], f, w);
      assert Map(g, f)[..|g| - 1] == Map(g[..|g| - 1], f);
    }
  }

  lemma {:induction false} InsertSortedSum<T(!new)>(t: seq<T>, x: T, key: T -> int, f: T -> int)
    ensures SumOf(InsertSorted(t, x, key), f) == SumOf(t, f) + f(x)
  {
    if t != [] && key(x) < key(t[|t| - 1]) {
      var t0, last := t[..|t| - 1], t[|t| - 1];
      InsertSortedSum(t0, x, key, f);
      var r := InsertSorted(t, x, key);
      assert r[..|r| - 1] == InsertSorted(t0, x, key);
    } else if t == [] {
      assert [x][..0] == [];
    } else {
      assert (t + [x])[..|t|] == t;
    }
  }

  /** Sorting does not change a sum. */
  lemma {:induction false} SortBySum<T(!new)>(s: seq<T>, key: T -> int, f: T -> int)
    ensures SumOf(SortBy(s, key), f) == SumOf(s, f)
  {
    if s != [] {
      SortBySum(s[..|s| - 1], key, f);
      InsertSortedSum(SortBy(s[..|s| - 1], key), s[|s| - 1], key, f);
    }
  }

  /** With distinct keys, the last element's key differs from every earlier element's. */
  lemma LastKeyFresh<T, K(!new)>(s: seq<T>, gk: T -> K)
    requires s != [] && NoDuplicates(Map(s, gk))
    ensures NoDuplicates(Map(s[..|s| - 1], gk))
    ensures forall y :: y in s[..|s| - 1] ==> gk(y) != gk(s[|s| - 1])
  {
    var s0 := s[..|s| - 1];
    assert Map(s, gk)[..|s0|] == Map(s0, gk);
    forall y | y in s0
      ensures gk(y) != gk(s[|s| - 1])
    {
      var i :| 0 <= i < |s0| && s0[i] == y;
      assert Map(s, gk)[i] == gk(y) && Map(s, gk)[|s0|] == gk(s[|s| - 1]);
    }
  }

  lemma {:induction false} InsertSortedDistinct<T(!new), K(!new)>(t: seq<T>, x: T, key: T -> int, gk: T -> K)
    requires NoDuplicates(Map(t, gk))
    requires forall y :: y in t ==> gk(y) != gk(x)
    ensures NoDuplicates(Map(InsertSorted(t, x, key), gk))
  {
    if t != [] && key(x) < key(t[|t| - 1]) {
      var t0, last := t[..|t| - 1], t[|t| - 1];
      LastKeyFresh(t, gk);
      InsertSortedDistinct(t0, x, key, gk);
      var r0 := InsertSorted(t0, x, key);
      var m := Map(r0 + [last], gk);
      forall i, j | 0 <= i < j < |m|
        ensures m[i] != m[j]
      {
        if j == |r0| {
          assert r0[i] in r0;
        } else {
          assert Map(r0, gk)[i] == m[i] && Map(r0, gk)[j] == m[j];
        }
      }
    }
  }

  /** Sorting keeps the elements' keys (of any other kind) distinct when they were. */
  lemma {:induction false} SortByDistinct<T(!new), K(!new)>(s: seq<T>, key: T -> int, gk: T -> K)
    requires NoDuplicates(Map(s, gk))
    ensures NoDuplicates(Map(SortBy(s, key), gk))
  {
    if s != [] {
      var s0, x := s[..|s| - 1], s[|s| - 1];
      LastKeyFresh(s, gk);
      SortByDistinct(s0, key, gk);
      var t := SortBy(s0, key);
      forall y | y in t
        ensures gk(y) != gk(x)
      {
        assert y in multiset(t);
      }
      InsertSortedDistinct(t, x, key, gk);
    }
  }
  /**
    `slice(0, n)` after sorting keeps the n best: no element left out has a
    smaller sort key than one kept, and the kept ones are still sorted.
  */
  lemma TakeSortedIsTop<T(!new)>(s: seq<T>, key: T -> int, n: nat)
    ensures SortedBy(Take(SortBy(s, key), n), key)
    ensures forall x, y :: x in Take(SortBy(s, key), n) && y in s && y !in Take(SortBy(s, key), n) ==> key(x) <= key(y)
  {
    var t := SortBy(s, key);
    var top := Take(t, n);
    forall x, y | x in top && y in s && y !in top
      ensures key(x) <= key(y)
    {
      var i :| 0 <= i < |top| && top[i] == x;
      assert y in multiset(t);
      var j :| 0 <= j < |t| && t[j] == y;
    }
  }
  /**
    The first n buckets of GroupBy after sorting them by rank: distinct keys,
    sorted, every one a bucket of the grouping.
  */
  lemma TopGroups<T(!new), K(!new)>(s: seq<T>, key: T -> K, w: T -> int, rank: Group<T, K> -> int, n: nat)
    ensures var top := Take(SortBy(GroupBy(s, key, w), rank), n);
      NoDuplicates(Keys(top)) && SortedBy(top, rank) &&
      forall b :: b in top ==> b in GroupBy(s, key, w)
  {
    GroupByKeys(s, key, w);
    TakeSortedGroups(GroupBy(s, key, w), rank, n);
  }

  /** The first n of any buckets with distinct keys, sorted by rank. */
  lemma TakeSortedGroups<T(!new), K(!new)>(g: seq<Group<T, K>>, rank: Group<T, K> -> int, n: nat)
    requires NoDuplicates(Keys(g))
    ensures var top := Take(SortBy(g, rank), n);
      NoDuplicates(Keys(top)) && SortedBy(top, rank) && forall b :: b in top ==> b in g
  {
    var sorted := SortBy(g, rank);
    var top := Take(sorted, n);
    TakeSortedIsTop(g, rank, n);
    SortByDistinct(g, rank, KeyOf);
    assert Keys(top) == Keys(sorted)[..|top|];
    forall b | b in top
      ensures b in g
    {
      assert b in multiset(sorted);
    }
  }

  /** No bucket left out of the first n ranks before one kept. */
  lemma TopGroupsRank<T(!new), K(!new)>(s: seq<T>, key: T -> K, w: T -> int, rank: Group<T, K> -> int, n: nat)
    ensures var top := Take(SortBy(GroupBy(s, key, w), rank), n);
      forall b, e :: b in GroupBy(s, key, w) && b !in top && e in top ==> rank(e) <= rank(b)
  {
    TakeSortedIsTop(GroupBy(s, key, w), rank, n);
  }

  /** With at most n keys, the first n buckets are all of them: their counts and totals are the input's. */
  lemma TopGroupsAll<T(!new), K(!new)>(s: seq<T>, key: T -> K, w: T -> int, rank: Group<T, K> -> int, n: nat)
    requires |Distinct(KeysOf(s, key))| <= n
    ensures var top := Take(SortBy(GroupBy(s, key, w), rank), n);
      Counts(top) == |s| && Totals(top) == SumOf(s, w)
  {
    var g := GroupBy(s, key, w);
    GroupByKeys(s, key, w);
    assert |g| == |Keys(g)|;
    SortBySum(g, rank, CountOf);
    SortBySum(g, rank, TotalOf);
    GroupByCounts(s, key, w);
    GroupByTotals(s, key, w);
  }
}
