/** The half-open character span the library takes from its NLP dependency
    (`LexicalSpan`), with the operations the section code uses: `widen`,
    disjointness, ordering by `(begin, end)` and `gaps`. The dependency's source
    is not part of this model; the semantics below are the ones the library
    relies on. */
module Spans {
  import Grouping

  datatype LexicalSpan = LexicalSpan(begin: int, end: int)

  /** A span is a pair of non-negative offsets with `begin <= end`. */
  type Span = s: LexicalSpan | 0 <= s.begin <= s.end witness LexicalSpan(0, 0)

  function Len(s: Span): nat {
    s.end - s.begin
  }

  /** Offset `p` lies inside the half-open span. */
  predicate Contains(s: Span, p: int) {
    s.begin <= p < s.end
  }

  /** No offset lies in both spans: one ends before the other begins, or one
      of them is empty. */
  predicate Disjoint(a: Span, b: Span) {
    a.end <= b.begin || b.end <= a.begin || a.begin == a.end || b.begin == b.end
  }

  lemma DisjointIffNoSharedOffset(a: Span, b: Span)
    ensures Disjoint(a, b) <==> !exists p :: Contains(a, p) && Contains(b, p)
  {
    if !Disjoint(a, b) {
      var p := if a.begin < b.begin then b.begin else a.begin;
      assert Contains(a, p) && Contains(b, p);
    }
  }

  /** Some span of `spans` contains offset `p`. */
  predicate Covered(p: int, spans: seq<Span>) {
    exists s :: s in spans && Contains(s, p)
  }

  /** Sort key: spans order by `(begin, end)`. */
  function SpanKey(s: Span): (int, int) {
    (s.begin, s.end)
  }

  /** Lexicographic order on integer pairs. */
  predicate KeyLe(a: (int, int), b: (int, int)) {
    a.0 < b.0 || (a.0 == b.0 && a.1 <= b.1)
  }

  ghost predicate SortedBy<T>(xs: seq<T>, key: T -> (int, int)) {
    forall i, j :: 0 <= i < j < |xs| ==> KeyLe(key(xs[i]), key(xs[j]))
  }

  /** Inserts `x` before the first element whose key is not smaller, so that
      `x` precedes the elements with an equal key. */
  function Insert<T>(x: T, xs: seq<T>, key: T -> (int, int)): (r: seq<T>)
    requires SortedBy(xs, key)
    ensures |r| == |xs| + 1
    ensures multiset(r) == multiset(xs) + multiset{x}
    ensures SortedBy(r, key)
  {
    if |xs| == 0 || KeyLe(key(x), key(xs[0])) then [x] + xs
    else
      var tail := Insert(x, xs[1..], key);
      assert xs == [xs[0]] + xs[1..];
      forall y | y in tail ensures KeyLe(key(xs[0]), key(y)) {
        assert y in multiset(tail);
        if y != x {
          SortedHead(xs, key, y);
        }
      }
      SortedCons(xs[0], tail, key);
      [xs[0]] + tail
  }

  lemma SortedHead<T>(xs: seq<T>, key: T -> (int, int), y: T)
    requires SortedBy(xs, key) && |xs| > 0 && y in multiset(xs[1..])
    ensures KeyLe(key(xs[0]), key(y))
  {
    var k :| 0 <= k < |xs[1..]| && xs[1..][k] == y;
    assert xs[k + 1] == y;
  }

  lemma SortedCons<T>(x: T, xs: seq<T>, key: T -> (int, int))
    requires SortedBy(xs, key)
    requires forall y :: y in xs ==> KeyLe(key(x), key(y))
    ensures SortedBy([x] + xs, key)
  {
    var r := [x] + xs;
    forall i, j | 0 <= i < j < |r| ensures KeyLe(key(r[i]), key(r[j])) {
      if i > 0 {
        assert r[i] == xs[i - 1] && r[j] == xs[j - 1];
      } else {
        assert r[j] in xs;
      }
    }
  }

  /** Python's stable `sorted(xs, key=key)` for keys ordered lexicographically. */
  function SortBy<T>(xs: seq<T>, key: T -> (int, int)): (r: seq<T>)
    ensures |r| == |xs|
    ensures multiset(r) == multiset(xs)
    ensures SortedBy(r, key)
  {
    if |xs| == 0 then []
    else
      assert xs == [xs[0]] + xs[1..];
      Insert(xs[0], SortBy(xs[1..], key), key)
  }

  /** Inserting before the first element with a key at least as large keeps
      `x` ahead of every element with its own key. */
  lemma {:induction false} InsertStable<T>(x: T, xs: seq<T>, key: T -> (int, int), k: (int, int))
    requires SortedBy(xs, key)
    ensures Grouping.FilterKey(Insert(x, xs, key), key, k)
            == Grouping.FilterKey([x], key, k) + Grouping.FilterKey(xs, key, k)
    decreases |xs|
  {
    if |xs| == 0 || KeyLe(key(x), key(xs[0])) {
      Grouping.FilterKeyAppend([x], xs, key, k);
    } else {
      var tail := Insert(x, xs[1..], key);
      assert xs == [xs[0]] + xs[1..];
      InsertStable(x, xs[1..], key, k);
      Grouping.FilterKeyAppend([xs[0]], tail, key, k);
      Grouping.FilterKeyAppend([xs[0]], xs[1..], key, k);
      assert key(xs[0]) != key(x);
      assert Grouping.FilterKey([xs[0]], key, k) == [] || Grouping.FilterKey([x], key, k) == [];
    }
  }

  /** The sort is stable: the elements with any one key come out in their
      input order. */
  lemma {:induction false} SortByStable<T>(xs: seq<T>, key: T -> (int, int), k: (int, int))
    ensures Grouping.FilterKey(SortBy(xs, key), key, k) == Grouping.FilterKey(xs, key, k)
    decreases |xs|
  {
    if |xs| > 0 {
      SortByStable(xs[1..], key, k);
      InsertStable(xs[0], SortBy(xs[1..], key), key, k);
      assert xs == [xs[0]] + xs[1..];
      Grouping.FilterKeyAppend([xs[0]], xs[1..], key, k);
    }
  }

  ghost predicate Pairwise<T>(xs: seq<T>, rel: (T, T) -> bool) {
    forall i, j :: 0 <= i < |xs| && 0 <= j < |xs| && i != j ==> rel(xs[i], xs[j])
  }

  lemma {:induction false} InsertPreservesPairwise<T>(x: T, xs: seq<T>, key: T -> (int, int), rel: (T, T) -> bool)
    requires SortedBy(xs, key)
    requires Pairwise(xs, rel)
    requires forall y :: y in xs ==> rel(x, y) && rel(y, x)
    ensures Pairwise(Insert(x, xs, key), rel)
  {
    if |xs| == 0 || KeyLe(key(x), key(xs[0])) {
      PairwiseCons(x, xs, rel);
    } else {
      var tail := Insert(x, xs[1..], key);
      forall y | y in xs[1..] ensures rel(x, y) && rel(y, x) {
        assert y in xs;
      }
      PairwiseTail(xs, rel);
      InsertPreservesPairwise(x, xs[1..], key, rel);
      forall y | y in tail ensures rel(xs[0], y) && rel(y, xs[0]) {
        InsertMember(x, xs[1..], key, y);
        if y != x {
          PairwiseHead(xs, rel, y);
        }
      }
      PairwiseCons(xs[0], tail, rel);
    }
  }

  lemma PairwiseCons<T>(x: T, xs: seq<T>, rel: (T, T) -> bool)
    requires Pairwise(xs, rel)
    requires forall y :: y in xs ==> rel(x, y) && rel(y, x)
    ensures Pairwise([x] + xs, rel)
  {
    var r := [x] + xs;
    forall i, j | 0 <= i < |r| && 0 <= j < |r| && i != j
      ensures rel(r[i], r[j])
    {
      if i > 0 && j > 0 {
        assert r[i] == xs[i - 1] && r[j] == xs[j - 1];
      } else if i == 0 {
        assert r[j] in xs;
      } else {
        assert r[i] in xs;
      }
    }
  }

  lemma PairwiseTail<T>(xs: seq<T>, rel: (T, T) -> bool)
    requires Pairwise(xs, rel) && |xs| > 0
    ensures Pairwise(xs[1..], rel)
  {
    var tail := xs[1..];
    forall i, j | 0 <= i < |tail| && 0 <= j < |tail| && i != j
      ensures rel(tail[i], tail[j])
    {
      assert tail[i] == xs[i + 1] && tail[j] == xs[j + 1];
    }
  }

  lemma PairwiseHead<T>(xs: seq<T>, rel: (T, T) -> bool, y: T)
    requires Pairwise(xs, rel) && |xs| > 0 && y in xs[1..]
    ensures rel(xs[0], y) && rel(y, xs[0])
  {
    var k :| 0 <= k < |xs[1..]| && xs[1..][k] == y;
    assert xs[k + 1] == y;
  }

  lemma InsertMember<T>(x: T, xs: seq<T>, key: T -> (int, int), y: T)
    requires SortedBy(xs, key)
    requires y in Insert(x, xs, key)
    ensures y == x || y in xs
  {
    assert y in multiset(Insert(x, xs, key));
  }

  /** Sorting keeps any relation that held between every two positions. */
  lemma {:induction false} SortPreservesPairwise<T>(xs: seq<T>, key: T -> (int, int), rel: (T, T) -> bool)
    requires Pairwise(xs, rel)
    ensures Pairwise(SortBy(xs, key), rel)
  {
    if |xs| > 0 {
      var tail := xs[1..];
      PairwiseTail(xs, rel);
      SortPreservesPairwise(tail, key, rel);
      var sorted := SortBy(tail, key);
      forall y | y in sorted ensures rel(xs[0], y) && rel(y, xs[0]) {
        assert y in multiset(tail);
        PairwiseHead(xs, rel, y);
      }
      InsertPreservesPairwise(xs[0], sorted, key, rel);
    }
  }

  /** The smallest span holding both `a` and `b`. */
  function Hull(a: Span, b: Span): (r: Span)
    ensures r.begin <= a.begin && r.begin <= b.begin && a.end <= r.end && b.end <= r.end
    ensures (r.begin == a.begin || r.begin == b.begin) && (r.end == a.end || r.end == b.end)
  {
    LexicalSpan(if a.begin < b.begin then a.begin else b.begin,
                if a.end > b.end then a.end else b.end)
  }

  /** `LexicalSpan.widen`: the smallest span holding every span given. */
  function Widen(spans: seq<Span>): (r: Span)
    requires |spans| > 0
    ensures forall i :: 0 <= i < |spans| ==> r.begin <= spans[i].begin && spans[i].end <= r.end
  {
    if |spans| == 1 then spans[0] else Hull(spans[0], Widen(spans[1..]))
  }

  /** Widening a span onto a non-empty sequence. */
  lemma WidenCons(x: Span, xs: seq<Span>)
    requires |xs| > 0
    ensures Widen([x] + xs) == Hull(x, Widen(xs))
  {
    assert ([x] + xs)[1..] == xs;
  }

  lemma HullAssoc(a: Span, b: Span, c: Span)
    ensures Hull(Hull(a, b), c) == Hull(a, Hull(b, c))
  {
  }

  /** The widened span is the smallest: its begin and its end are those of
      some span given. */
  lemma {:induction false} WidenAttained(spans: seq<Span>)
    requires |spans| > 0
    ensures exists i :: 0 <= i < |spans| && spans[i].begin == Widen(spans).begin
    ensures exists i :: 0 <= i < |spans| && spans[i].end == Widen(spans).end
  {
    if |spans| > 1 {
      var tail := spans[1..];
      WidenAttained(tail);
      var i :| 0 <= i < |tail| && tail[i].begin == Widen(tail).begin;
      var j :| 0 <= j < |tail| && tail[j].end == Widen(tail).end;
      assert tail[i] == spans[i + 1] && tail[j] == spans[j + 1];
      var w := Widen(spans);
      assert w == Hull(spans[0], Widen(tail));
      var bi := if w.begin == spans[0].begin then 0 else i + 1;
      var ej := if w.end == spans[0].end then 0 else j + 1;
      assert spans[bi].begin == w.begin && spans[ej].end == w.end;
    } else {
      assert spans[0].begin == Widen(spans).begin && spans[0].end == Widen(spans).end;
    }
  }

  ghost predicate SortedByBegin(ss: seq<Span>) {
    forall i, j :: 0 <= i < j < |ss| ==> ss[i].begin <= ss[j].begin
  }

  /** Walks spans sorted by `begin`, emitting every stretch of `[cur, end)`
      that no span reaches. */
  function GapsFrom(ss: seq<Span>, cur: nat, end: nat): (r: seq<Span>)
    requires SortedByBegin(ss)
    ensures forall i :: 0 <= i < |r| ==> cur <= r[i].begin < r[i].end <= end
    ensures forall i, j :: 0 <= i < j < |r| ==> r[i].end <= r[j].begin
    decreases |ss|
  {
    if |ss| == 0 then (if cur < end then [LexicalSpan(cur, end)] else [])
    else
      var s := ss[0];
      var b: nat := if s.begin < end then s.begin else end;
      var next: nat := if cur < s.end then s.end else cur;
      var rest := GapsFrom(ss[1..], next, end);
      (if cur < b then [LexicalSpan(cur, b)] else []) + rest
  }

  /** Inside `[cur, end)` an offset lies in a gap exactly when no span of
      the walk covers it. */
  lemma {:induction false} GapsFromComplement(ss: seq<Span>, cur: nat, end: nat, p: int)
    requires SortedByBegin(ss)
    requires cur <= p < end
    ensures Covered(p, GapsFrom(ss, cur, end)) <==> !Covered(p, ss)
    decreases |ss|
  {
    var r := GapsFrom(ss, cur, end);
    if |ss| == 0 {
      assert Contains(r[0], p);
    } else {
      var s := ss[0];
      var b: nat := if s.begin < end then s.begin else end;
      var next: nat := if cur < s.end then s.end else cur;
      if p < b {
        GapBeforeFirst(ss, cur, end, p);
      } else if p < next {
        InsideFirst(ss, cur, end, p);
      } else {
        var rest := GapsFrom(ss[1..], next, end);
        var first: seq<Span> := if cur < b then [LexicalSpan(cur, b)] else [];
        assert r == first + rest;
        GapsFromComplement(ss[1..], next, end, p);
        assert ss == [s] + ss[1..];
        assert Covered(p, ss) <==> Covered(p, ss[1..]);
        assert Covered(p, r) <==> Covered(p, rest);
      }
    }
  }

  /** An offset before the first span's begin lies in the leading gap and in
      no span. */
  lemma GapBeforeFirst(ss: seq<Span>, cur: nat, end: nat, p: int)
    requires SortedByBegin(ss) && |ss| > 0
    requires cur <= p < end && p < ss[0].begin
    ensures Covered(p, GapsFrom(ss, cur, end)) && !Covered(p, ss)
  {
    var r := GapsFrom(ss, cur, end);
    var b := if ss[0].begin < end then ss[0].begin else end;
    assert r == [LexicalSpan(cur, b)] + GapsFrom(ss[1..], ss[0].end, end);
    assert Contains(r[0], p);
    forall k | 0 <= k < |ss| ensures !Contains(ss[k], p) {
      assert ss[0].begin <= ss[k].begin;
    }
  }

  /** An offset covered by the first span lies in no gap. */
  lemma InsideFirst(ss: seq<Span>, cur: nat, end: nat, p: int)
    requires SortedByBegin(ss) && |ss| > 0
    requires cur <= p < end && ss[0].begin <= p < ss[0].end
    ensures !Covered(p, GapsFrom(ss, cur, end)) && Covered(p, ss)
  {
    var r := GapsFrom(ss, cur, end);
    var rest := GapsFrom(ss[1..], ss[0].end, end);
    var first: seq<Span> := if cur < ss[0].begin then [LexicalSpan(cur, ss[0].begin)] else [];
    assert r == first + rest;
    assert Contains(ss[0], p);
    forall k | 0 <= k < |r| ensures !Contains(r[k], p) {
      if k >= |first| {
        assert r[k] == rest[k - |first|];
      }
    }
  }

  /** Neighbouring pieces of `r` are apart, unless an empty span of `ss`
      sits exactly where one ends and the next begins. */
  ghost predicate ApartOrSplit(r: seq<Span>, ss: seq<Span>) {
    forall i :: 0 <= i < |r| - 1 ==> r[i].end < r[i + 1].begin || LexicalSpan(r[i].end, r[i].end) in ss
  }

  /** Neighbouring gaps of the walk are apart, unless an empty span sits
      exactly where one ends and the next begins. */
  lemma {:induction false} GapsFromSeparated(ss: seq<Span>, cur: nat, end: nat)
    requires SortedByBegin(ss)
    ensures ApartOrSplit(GapsFrom(ss, cur, end), ss)
    decreases |ss|
  {
    if |ss| > 0 {
      var s := ss[0];
      var b: nat := if s.begin < end then s.begin else end;
      var next: nat := if cur < s.end then s.end else cur;
      var rest := GapsFrom(ss[1..], next, end);
      var first: seq<Span> := if cur < b then [LexicalSpan(cur, b)] else [];
      assert GapsFrom(ss, cur, end) == first + rest;
      GapsFromSeparated(ss[1..], next, end);
      assert ss == [s] + ss[1..];
      ApartOrSplitWiden(rest, ss[1..], ss);
      if cur < b && |rest| > 0 {
        assert next <= rest[0].begin < end;
        assert b < rest[0].begin || s == LexicalSpan(b, b);
      }
      ApartOrSplitCons(first, rest, ss);
    }
  }

  lemma ApartOrSplitWiden(r: seq<Span>, ss: seq<Span>, ts: seq<Span>)
    requires ApartOrSplit(r, ss)
    requires forall x :: x in ss ==> x in ts
    ensures ApartOrSplit(r, ts)
  {
  }

  lemma ApartOrSplitCons(first: seq<Span>, rest: seq<Span>, ss: seq<Span>)
    requires |first| <= 1 && ApartOrSplit(rest, ss)
    requires |first| == 1 && |rest| > 0 ==>
               first[0].end < rest[0].begin || LexicalSpan(first[0].end, first[0].end) in ss
    ensures ApartOrSplit(first + rest, ss)
  {
    var r := first + rest;
    forall i | 0 <= i < |r| - 1
      ensures r[i].end < r[i + 1].begin || LexicalSpan(r[i].end, r[i].end) in ss
    {
      if i >= |first| {
        assert r[i] == rest[i - |first|] && r[i + 1] == rest[i + 1 - |first|];
      } else {
        assert r[i] == first[0] && r[i + 1] == rest[0];
      }
    }
  }

  /** `LexicalSpan.gaps(spans, end)`: the parts of `[0, end)` covered by no
      span, ascending, with zero-length pieces left out. Two gaps touch only
      where an empty span splits an uncovered stretch. */
  function Gaps(spans: seq<Span>, end: nat): (r: seq<Span>)
    ensures forall i :: 0 <= i < |r| ==> r[i].begin < r[i].end <= end
    ensures forall i, j :: 0 <= i < j < |r| ==> r[i].end <= r[j].begin
    ensures ApartOrSplit(r, spans)
  {
    var sorted := SortBy(spans, SpanKey);
    assert SortedByBegin(sorted) by {
      forall i, j | 0 <= i < j < |sorted| ensures sorted[i].begin <= sorted[j].begin {
        assert KeyLe(SpanKey(sorted[i]), SpanKey(sorted[j]));
      }
    }
    GapsFromSeparated(sorted, 0, end);
    assert forall x :: x in sorted ==> x in spans by {
      forall x | x in sorted ensures x in spans {
        assert x in multiset(sorted);
      }
    }
    ApartOrSplitWiden(GapsFrom(sorted, 0, end), sorted, spans);
    GapsFrom(sorted, 0, end)
  }

  /** Without empty spans the gaps are maximal: no two of them touch, so each
      uncovered stretch is one gap. */
  lemma GapsMaximal(spans: seq<Span>, end: nat)
    requires forall i :: 0 <= i < |spans| ==> spans[i].begin < spans[i].end
    ensures var r := Gaps(spans, end);
            forall i :: 0 <= i < |r| - 1 ==> r[i].end < r[i + 1].begin
  {
    assert forall x :: x in spans ==> x.begin < x.end;
  }

  /** Inside `[0, end)` an offset lies in a gap exactly when no span covers it. */
  lemma GapsComplement(spans: seq<Span>, end: nat, p: int)
    requires 0 <= p < end
    ensures Covered(p, Gaps(spans, end)) <==> !Covered(p, spans)
  {
    var sorted := SortBy(spans, SpanKey);
    assert SortedByBegin(sorted) by {
      forall i, j | 0 <= i < j < |sorted| ensures sorted[i].begin <= sorted[j].begin {
        assert KeyLe(SpanKey(sorted[i]), SpanKey(sorted[j]));
      }
    }
    GapsFromComplement(sorted, 0, end, p);
    forall s ensures s in sorted <==> s in spans {
      assert s in sorted <==> s in multiset(sorted);
      assert s in spans <==> s in multiset(spans);
    }
    assert Covered(p, sorted) <==> Covered(p, spans);
  }

  /** No gap shares an offset with any of the spans it was computed from. */
  lemma GapsAvoidSpans(spans: seq<Span>, end: nat, g: Span, s: Span)
    requires g in Gaps(spans, end) && s in spans
    ensures Disjoint(g, s)
  {
    if !Disjoint(g, s) {
      var p := if g.begin < s.begin then s.begin else g.begin;
      assert Contains(g, p) && Contains(s, p);
      GapsComplement(spans, end, p);
      assert false;
    }
  }

  /** Total length of a sequence of spans. */
  function SumLens(spans: seq<Span>): nat {
    if |spans| == 0 then 0 else Len(spans[0]) + SumLens(spans[1..])
  }

  /** The character offsets a span covers. */
  function Offsets(s: Span): (r: set<int>)
    ensures forall p :: p in r <==> Contains(s, p)
    ensures |r| == Len(s)
    decreases Len(s)
  {
    if Len(s) == 0 then {}
    else
      var shorter := Offsets(LexicalSpan(s.begin, s.end - 1));
      assert s.end - 1 !in shorter;
      shorter + {s.end - 1}
  }

  function UnionOffsets(spans: seq<Span>): set<int> {
    if |spans| == 0 then {} else Offsets(spans[0]) + UnionOffsets(spans[1..])
  }

  /** Spans that share no offset cover exactly as many offsets as their
      lengths add up to. */
  lemma {:induction false} DisjointUnionCard(spans: seq<Span>)
    requires Pairwise(spans, Disjoint)
    ensures |UnionOffsets(spans)| == SumLens(spans)
  {
    if |spans| > 0 {
      var tail := spans[1..];
      assert Pairwise(tail, Disjoint) by {
        forall i, j | 0 <= i < |tail| && 0 <= j < |tail| && i != j
          ensures Disjoint(tail[i], tail[j])
        {
          assert tail[i] == spans[i + 1] && tail[j] == spans[j + 1];
        }
      }
      DisjointUnionCard(tail);
      assert Offsets(spans[0]) !! UnionOffsets(tail) by {
        forall p | p in Offsets(spans[0]) ensures p !in UnionOffsets(tail) {
          forall k | 0 <= k < |tail| ensures p !in Offsets(tail[k]) {
            assert tail[k] == spans[k + 1];
            assert Disjoint(spans[0], spans[k + 1]);
            DisjointIffNoSharedOffset(spans[0], spans[k + 1]);
          }
          OffsetsInUnion(tail, p);
        }
      }
    }
  }

  lemma {:induction false} OffsetsInUnion(spans: seq<Span>, p: int)
    ensures p in UnionOffsets(spans) <==> exists k :: 0 <= k < |spans| && p in Offsets(spans[k])
  {
    if |spans| > 0 {
      OffsetsInUnion(spans[1..], p);
      if p in UnionOffsets(spans[1..]) {
        var k :| 0 <= k < |spans[1..]| && p in Offsets(spans[1..][k]);
        assert spans[k + 1] == spans[1..][k];
      }
      if exists k :: 0 <= k < |spans| && p in Offsets(spans[k]) {
        var k :| 0 <= k < |spans| && p in Offsets(spans[k]);
        if k > 0 {
          assert spans[1..][k - 1] == spans[k];
        }
      }
    }
  }
}
