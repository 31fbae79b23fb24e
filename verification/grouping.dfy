/** The `collections.defaultdict(list)` grouping idiom: walk a sequence and
    append each element to the bucket of its key. */
module Grouping {

  /** The elements of `xs` whose key is `k`, in their original order. */
  function FilterKey<T, K(==)>(xs: seq<T>, key: T -> K, k: K): (r: seq<T>)
    ensures |r| <= |xs|
    ensures forall y :: y in r ==> y in xs && key(y) == k
  {
    if |xs| == 0 then []
    else
      var last := xs[|xs| - 1];
      FilterKey(xs[..|xs| - 1], key, k) + (if key(last) == k then [last] else [])
  }

  /** Selecting from a concatenation selects from each part in turn. */
  lemma {:induction false} FilterKeyAppend<T, K>(a: seq<T>, b: seq<T>, key: T -> K, k: K)
    ensures FilterKey(a + b, key, k) == FilterKey(a, key, k) + FilterKey(b, key, k)
    decreases |b|
  {
    if |b| == 0 {
      assert a + b == a;
    } else {
      var init := b[..|b| - 1];
      var last := b[|b| - 1];
      var tail: seq<T> := if key(last) == k then [last] else [];
      FilterKeyAppend(a, init, key, k);
      assert (a + b)[..|a + b| - 1] == a + init;
      assert (a + b)[|a + b| - 1] == last;
      assert FilterKey(a + b, key, k) == FilterKey(a + init, key, k) + tail;
      assert FilterKey(b, key, k) == FilterKey(init, key, k) + tail;
    }
  }

  /** A key no element has selects nothing. */
  lemma {:induction false} FilterKeyAbsent<T, K>(xs: seq<T>, key: T -> K, k: K)
    requires forall i :: 0 <= i < |xs| ==> key(xs[i]) != k
    ensures FilterKey(xs, key, k) == []
  {
    if |xs| > 0 {
      FilterKeyAbsent(xs[..|xs| - 1], key, k);
    }
  }

  /** A bucket holds every element with its key, as often as it occurs, and
      nothing else. */
  lemma {:induction false} FilterKeyCounts<T, K>(xs: seq<T>, key: T -> K, k: K, y: T)
    ensures multiset(FilterKey(xs, key, k))[y] == if key(y) == k then multiset(xs)[y] else 0
  {
    if |xs| > 0 {
      var init := xs[..|xs| - 1];
      FilterKeyCounts(init, key, k, y);
      assert xs == init + [xs[|xs| - 1]];
    }
  }

  /** Appends each element to the list of its key, walking left to right. */
  function GroupBy<T, K(==)>(xs: seq<T>, key: T -> K): map<K, seq<T>> {
    if |xs| == 0 then map[]
    else
      var m := GroupBy(xs[..|xs| - 1], key);
      var last := xs[|xs| - 1];
      m[key(last) := (if key(last) in m then m[key(last)] else []) + [last]]
  }

  /** Every key of the sequence has a bucket, and the bucket of a key is the
      in-order selection of the elements with that key. */
  lemma {:induction false} GroupByBuckets<T, K>(xs: seq<T>, key: T -> K)
    ensures forall i :: 0 <= i < |xs| ==> key(xs[i]) in GroupBy(xs, key)
    ensures forall k :: k in GroupBy(xs, key) ==> GroupBy(xs, key)[k] == FilterKey(xs, key, k)
  {
    if |xs| > 0 {
      var init := xs[..|xs| - 1];
      var last := xs[|xs| - 1];
      var m := GroupBy(init, key);
      var r := GroupBy(xs, key);
      GroupByBuckets(init, key);
      assert r == m[key(last) := (if key(last) in m then m[key(last)] else []) + [last]];
      forall i | 0 <= i < |xs| ensures key(xs[i]) in r {
        if i < |xs| - 1 {
          assert xs[i] == init[i];
        }
      }
      forall k | k in r ensures r[k] == FilterKey(xs, key, k) {
        assert FilterKey(xs, key, k) == FilterKey(init, key, k) + (if key(last) == k then [last] else []);
        if k != key(last) {
          assert r[k] == m[k];
        } else if k !in m {
          FilterKeyAbsent(init, key, k);
        }
      }
    }
  }

  /** The grouping is a partition: every element sits in the bucket of its own
      key, each bucket holds exactly the elements with that key, and the order
      within a bucket is the original order. */
  lemma GroupByPartitions<T, K>(xs: seq<T>, key: T -> K)
    ensures forall x :: x in xs ==> key(x) in GroupBy(xs, key) && x in GroupBy(xs, key)[key(x)]
    ensures forall k, y :: k in GroupBy(xs, key) ==>
              multiset(GroupBy(xs, key)[k])[y] == if key(y) == k then multiset(xs)[y] else 0
  {
    var g := GroupBy(xs, key);
    GroupByBuckets(xs, key);
    forall k, y | k in g
      ensures multiset(g[k])[y] == if key(y) == k then multiset(xs)[y] else 0
    {
      FilterKeyCounts(xs, key, k, y);
    }
    forall x | x in xs ensures key(x) in g && x in g[key(x)] {
      var i :| 0 <= i < |xs| && xs[i] == x;
      FilterKeyCounts(xs, key, key(x), x);
      assert x in multiset(xs);
      assert x in multiset(g[key(x)]);
    }
  }

  /** A subset is no larger than its superset. */
  lemma SubsetCard(a: set<int>, b: set<int>)
    requires a <= b
    ensures |a| <= |b|
  {
    assert b == a + (b - a);
  }
}
