/** A note section (`Section` in note.py) and the views a section container
    derives from its sections: the id map, the id order, the positional
    iteration order and the grouping by name. A section refers to its note
    only through the note text passed to the functions that need it. */
module Sections {
  import opened Wrappers
  import opened Text
  import opened Spans
  import Grouping

  /** Name of a section without headers. */
  const UNKNOWN_NAME := "unknown"

  /** Name of the single section of an unsectioned note. */
  const DEFAULT_SECTION_NAME := "default"

  /** Characters whose runs become one dash when a name is inferred. */
  const NAME_SEPARATORS: set<char> := {'_', '/', ' '}

  /** A section: a unique id within its container, a (possibly inferred)
      name, the header spans in order and the body span. */
  datatype Section = Section(id: int, name: string, headerSpans: seq<Span>, bodySpan: Span)

  /** `Section.headers`: the note text under each header span. */
  function Headers(headerSpans: seq<Span>, noteText: string): (r: seq<string>)
    ensures |r| == |headerSpans|
    ensures forall i :: 0 <= i < |r| ==> r[i] == Slice(noteText, headerSpans[i].begin, headerSpans[i].end)
  {
    if |headerSpans| == 0 then []
    else [Slice(noteText, headerSpans[0].begin, headerSpans[0].end)] + Headers(headerSpans[1..], noteText)
  }

  /** Name inferred from the header texts: "unknown" without headers,
      otherwise the headers joined by a space, each run of `_`, `/` or space
      turned into one dash, lower-cased. */
  function InferName(headers: seq<string>): string {
    if |headers| == 0 then UNKNOWN_NAME
    else Lower(Collapse(Join(" ", headers), NAME_SEPARATORS))
  }

  /** An inferred name of a headed section holds no separator and no upper
      case letter. */
  lemma InferredNameIsSlug(headers: seq<string>)
    requires |headers| > 0
    ensures forall i :: 0 <= i < |InferName(headers)| ==>
              InferName(headers)[i] !in NAME_SEPARATORS && !('A' <= InferName(headers)[i] <= 'Z')
  {
    CollapseRemovesSeparators(Join(" ", headers), NAME_SEPARATORS);
  }

  /** `Section.__post_init__`: builds a section, keeping an explicit name and
      otherwise inferring one from the headers' text. */
  function NewSection(id: int, name: Option<string>, headerSpans: seq<Span>, bodySpan: Span,
                      noteText: string): (s: Section)
    ensures s.id == id && s.headerSpans == headerSpans && s.bodySpan == bodySpan
    ensures name.Some? ==> s.name == name.value
    ensures name.None? && |headerSpans| == 0 ==> s.name == UNKNOWN_NAME
    ensures name.None? && |headerSpans| > 0 ==>
              s.name == Lower(Collapse(Join(" ", Headers(headerSpans, noteText)), NAME_SEPARATORS))
  {
    var n := match name
      case Some(v) => v
      case None => InferName(Headers(headerSpans, noteText));
    Section(id, n, headerSpans, bodySpan)
  }

  /** A header made of two separator-free words around a run of separators
      becomes the lower-cased words joined by a single dash. */
  lemma {:induction false} NameOfSeparatedWords(first: string, run: string, second: string)
    requires forall i :: 0 <= i < |first| ==> first[i] !in NAME_SEPARATORS
    requires forall i :: 0 <= i < |second| ==> second[i] !in NAME_SEPARATORS
    requires |run| > 0 && forall i :: 0 <= i < |run| ==> run[i] in NAME_SEPARATORS
    ensures InferName([first + run + second]) == Lower(first) + "-" + Lower(second)
  {
    CollapseRun(first, run, second, NAME_SEPARATORS);
    CollapseIdentity(second, NAME_SEPARATORS);
    var collapsed := first + "-" + second;
    assert Lower(collapsed) == Lower(first) + "-" + Lower(second);
  }

  /** `Section.body`: the note text under the body span. */
  function Body(s: Section, noteText: string): string {
    Slice(noteText, s.bodySpan.begin, s.bodySpan.end)
  }

  /** Widens `acc` by each span of `hs` in turn. */
  function WidenOnto(acc: Span, hs: seq<Span>): (r: Span)
    ensures r.begin <= acc.begin && acc.end <= r.end
    ensures forall i :: 0 <= i < |hs| ==> r.begin <= hs[i].begin && hs[i].end <= r.end
    decreases |hs|
  {
    if |hs| == 0 then acc else WidenOnto(Hull(acc, hs[0]), hs[1..])
  }

  /** Widening step by step agrees with widening the whole sequence at once. */
  lemma {:induction false} WidenOntoIsWiden(acc: Span, hs: seq<Span>)
    ensures WidenOnto(acc, hs) == Widen([acc] + hs)
    decreases |hs|
  {
    if |hs| > 0 {
      var rest := hs[1..];
      WidenOntoIsWiden(Hull(acc, hs[0]), rest);
      WidenCons(acc, hs);
      if |rest| > 0 {
        WidenCons(Hull(acc, hs[0]), rest);
        assert hs == [hs[0]] + rest;
        WidenCons(hs[0], rest);
        HullAssoc(acc, hs[0], Widen(rest));
      } else {
        assert hs == [hs[0]];
      }
    }
  }

  /** `Section.lexspan`: from the smallest begin to the largest end over the
      body span and every header span. */
  function Lexspan(s: Section): (r: Span)
    ensures r.begin <= s.bodySpan.begin && s.bodySpan.end <= r.end
    ensures forall i :: 0 <= i < |s.headerSpans| ==>
              r.begin <= s.headerSpans[i].begin && s.headerSpans[i].end <= r.end
  {
    WidenOnto(s.bodySpan, s.headerSpans)
  }

  /** The lexical span is the widening of the body with the headers, so its
      bounds are attained by some span of the section. */
  lemma LexspanAttained(s: Section)
    ensures Lexspan(s) == Widen([s.bodySpan] + s.headerSpans)
    ensures Lexspan(s).begin == s.bodySpan.begin
            || exists i :: 0 <= i < |s.headerSpans| && s.headerSpans[i].begin == Lexspan(s).begin
    ensures Lexspan(s).end == s.bodySpan.end
            || exists i :: 0 <= i < |s.headerSpans| && s.headerSpans[i].end == Lexspan(s).end
  {
    var all := [s.bodySpan] + s.headerSpans;
    WidenOntoIsWiden(s.bodySpan, s.headerSpans);
    WidenAttained(all);
    var i :| 0 <= i < |all| && all[i].begin == Widen(all).begin;
    var j :| 0 <= j < |all| && all[j].end == Widen(all).end;
    if i > 0 {
      assert all[i] == s.headerSpans[i - 1];
    }
    if j > 0 {
      assert all[j] == s.headerSpans[j - 1];
    }
  }

  /** `Section.is_empty`: no header spans and a body that strips to nothing,
      which is the same as a body of whitespace only. */
  function IsEmpty(s: Section, noteText: string): (r: bool)
    ensures r <==> |s.headerSpans| == 0 && IsBlank(Body(s, noteText))
  {
    BlankIffStripEmpty(Body(s, noteText));
    |s.headerSpans| == 0 && |Strip(Body(s, noteText))| == 0
  }

  /** `Section.__len__`: body length plus the lengths of the headers. */
  function SectionLen(s: Section): (r: nat)
    ensures r >= Len(s.bodySpan)
    ensures |s.headerSpans| == 0 ==> r == Len(s.bodySpan)
  {
    Len(s.bodySpan) + SumLens(s.headerSpans)
  }

  /** When the body and the headers share no character (as sections are
      meant to), the section length counts distinct characters and so never
      exceeds the length of the lexical span. */
  lemma SectionLenWithinLexspan(s: Section)
    requires Pairwise([s.bodySpan] + s.headerSpans, Disjoint)
    ensures SectionLen(s) <= Len(Lexspan(s))
  {
    var all := [s.bodySpan] + s.headerSpans;
    var w := Lexspan(s);
    var u := UnionOffsets(all);
    assert all[1..] == s.headerSpans;
    assert SumLens(all) == SectionLen(s);
    DisjointUnionCard(all);
    forall p | p in u ensures p in Offsets(w) {
      OffsetsInUnion(all, p);
      var k :| 0 <= k < |all| && p in Offsets(all[k]);
      if k > 0 {
        assert all[k] == s.headerSpans[k - 1];
      }
    }
    Grouping.SubsetCard(u, Offsets(w));
  }

  /** `Section.header_to_name` (and `SectionContainer.category_to_id`):
      spaces become dashes and letters are lower-cased. */
  function HeaderToName(s: string): (r: string)
    ensures |r| == |s|
    ensures forall i :: 0 <= i < |s| ==> r[i] == LowerChar(if s[i] == ' ' then '-' else s[i])
  {
    Lower(ReplaceChar(s, ' ', '-'))
  }

  /** `Section.name_to_header` (and `SectionContainer.id_to_category`):
      dashes become spaces and the result is capitalized. */
  function NameToHeader(s: string): (r: string)
    ensures |r| == |s|
  {
    Capitalize(ReplaceChar(s, '-', ' '))
  }

  /** Going from a dash-free header to a name and back only changes the
      case: the round trip is the capitalized header. */
  lemma HeaderRoundTrip(h: string)
    requires forall i :: 0 <= i < |h| ==> h[i] != '-'
    ensures NameToHeader(HeaderToName(h)) == Capitalize(h)
  {
    var n := HeaderToName(h);
    var back := ReplaceChar(n, '-', ' ');
    assert back == Lower(h);
    if |h| > 0 {
      assert back[1..] == Lower(h[1..]);
      assert Lower(back[1..]) == Lower(h[1..]);
    }
  }

  /** A lower-case name without spaces survives the trip to a header and back. */
  lemma NameRoundTrip(n: string)
    requires forall i :: 0 <= i < |n| ==> n[i] != ' ' && !('A' <= n[i] <= 'Z')
    ensures HeaderToName(NameToHeader(n)) == n
  {
    var h := NameToHeader(n);
    if |n| > 0 {
      var spaced := ReplaceChar(n, '-', ' ');
      assert h[1..] == Lower(spaced[1..]);
      assert forall i :: 0 <= i < |h| ==> LowerChar(h[i]) == LowerChar(spaced[i]);
    }
  }

  ghost predicate UniqueIds(secs: seq<Section>) {
    forall i, j :: 0 <= i < j < |secs| ==> secs[i].id != secs[j].id
  }

  /** No later section of `secs` shares the id of the one at `i`. */
  ghost predicate IsLastOfId(secs: seq<Section>, i: int)
    requires 0 <= i < |secs|
  {
    forall j :: i < j < |secs| ==> secs[j].id != secs[i].id
  }

  /** Position of the section with the given id, or -1. */
  function IndexOfId(vals: seq<Section>, id: int): (r: int)
    ensures -1 <= r < |vals|
    ensures r >= 0 ==> vals[r].id == id
    ensures r == -1 <==> forall j :: 0 <= j < |vals| ==> vals[j].id != id
  {
    if |vals| == 0 then -1
    else if vals[|vals| - 1].id == id then |vals| - 1
    else IndexOfId(vals[..|vals| - 1], id)
  }

  /** With unique ids, the position found for an entry's id is its own. */
  lemma IndexOfIdUnique(vals: seq<Section>, m: int)
    requires UniqueIds(vals) && 0 <= m < |vals|
    ensures IndexOfId(vals, vals[m].id) == m
  {
    var r := IndexOfId(vals, vals[m].id);
    assert vals[r].id == vals[m].id;
  }

  /** `SectionContainer.sections` as an insertion-ordered dictionary keyed by
      id, built as `{sec.id: sec for sec in secs}`: a repeated id keeps the
      position of its first occurrence and the value of its last. */
  function DictValues(secs: seq<Section>): (r: seq<Section>)
    ensures |r| <= |secs|
    ensures UniqueIds(r)
  {
    if |secs| == 0 then []
    else
      var vals := DictValues(secs[..|secs| - 1]);
      var s := secs[|secs| - 1];
      var k := IndexOfId(vals, s.id);
      if k >= 0 then vals[k := s] else vals + [s]
  }

  /** Every dictionary entry is one of the sections. */
  lemma {:induction false} DictValuesFromSections(secs: seq<Section>)
    ensures forall j :: 0 <= j < |DictValues(secs)| ==> DictValues(secs)[j] in secs
  {
    if |secs| > 0 {
      var init := secs[..|secs| - 1];
      DictValuesFromSections(init);
      var vals := DictValues(init);
      var r := DictValues(secs);
      forall j | 0 <= j < |r| ensures r[j] in secs {
        if r[j] != secs[|secs| - 1] {
          assert r[j] == vals[j];
          assert vals[j] in init;
        }
      }
    }
  }

  /** Every section's id has an entry in the dictionary. */
  lemma {:induction false} DictValuesHasIds(secs: seq<Section>)
    ensures forall i :: 0 <= i < |secs| ==> IndexOfId(DictValues(secs), secs[i].id) >= 0
  {
    if |secs| > 0 {
      var init := secs[..|secs| - 1];
      DictValuesHasIds(init);
      var vals := DictValues(init);
      var r := DictValues(secs);
      var s := secs[|secs| - 1];
      var k := IndexOfId(vals, s.id);
      forall i | 0 <= i < |secs| ensures IndexOfId(r, secs[i].id) >= 0 {
        if i < |secs| - 1 {
          assert secs[i] == init[i];
          var m := IndexOfId(vals, secs[i].id);
          assert r[m].id == secs[i].id;
        } else {
          assert r[if k >= 0 then k else |vals|].id == s.id;
        }
      }
    }
  }

  /** The dictionary entry for an id is the last section carrying it. */
  lemma {:induction false} DictValuesLastWins(secs: seq<Section>)
    ensures forall i :: 0 <= i < |secs| && IsLastOfId(secs, i) ==>
              IndexOfId(DictValues(secs), secs[i].id) >= 0 &&
              DictValues(secs)[IndexOfId(DictValues(secs), secs[i].id)] == secs[i]
  {
    if |secs| > 0 {
      var init := secs[..|secs| - 1];
      DictValuesLastWins(init);
      var vals := DictValues(init);
      var r := DictValues(secs);
      var s := secs[|secs| - 1];
      var k := IndexOfId(vals, s.id);
      forall i | 0 <= i < |secs| && IsLastOfId(secs, i)
        ensures IndexOfId(r, secs[i].id) >= 0 && r[IndexOfId(r, secs[i].id)] == secs[i]
      {
        if i < |secs| - 1 {
          assert secs[i] == init[i];
          assert IsLastOfId(init, i);
          var m := IndexOfId(vals, secs[i].id);
          assert secs[i].id != s.id;
          assert r[m] == secs[i];
          IndexOfIdUnique(r, m);
        } else {
          var m := if k >= 0 then k else |vals|;
          assert r[m] == s;
          IndexOfIdUnique(r, m);
        }
      }
    }
  }

  /** With unique ids the dictionary loses no section and keeps their order. */
  lemma {:induction false} DictValuesOfUniqueIds(secs: seq<Section>)
    requires UniqueIds(secs)
    ensures DictValues(secs) == secs
  {
    if |secs| > 0 {
      var init := secs[..|secs| - 1];
      var s := secs[|secs| - 1];
      UniqueInit(secs);
      DictValuesOfUniqueIds(init);
      DictValuesAppend(secs);
      InitLast(secs);
    }
  }

  lemma UniqueInit(secs: seq<Section>)
    requires UniqueIds(secs) && |secs| > 0
    ensures UniqueIds(secs[..|secs| - 1])
    ensures IndexOfId(secs[..|secs| - 1], secs[|secs| - 1].id) == -1
  {
    var init := secs[..|secs| - 1];
    assert forall j :: 0 <= j < |init| ==> init[j] == secs[j];
  }

  /** A new id is appended at the end of the dictionary. */
  lemma DictValuesAppend(secs: seq<Section>)
    requires |secs| > 0
    requires IndexOfId(DictValues(secs[..|secs| - 1]), secs[|secs| - 1].id) == -1
    ensures DictValues(secs) == DictValues(secs[..|secs| - 1]) + [secs[|secs| - 1]]
  {
  }

  lemma InitLast<T>(xs: seq<T>)
    requires |xs| > 0
    ensures xs == xs[..|xs| - 1] + [xs[|xs| - 1]]
  {
  }

  /** `SectionContainer.__getitem__`: the section with the given id, if any,
      which is the last section carrying that id. */
  function Lookup(secs: seq<Section>, id: int): (r: Option<Section>)
    ensures r.Some? ==> r.value.id == id && r.value in secs
    ensures r.None? <==> forall i :: 0 <= i < |secs| ==> secs[i].id != id
    ensures forall i :: 0 <= i < |secs| && secs[i].id == id && IsLastOfId(secs, i) ==> r == Some(secs[i])
  {
    DictValuesFromSections(secs);
    DictValuesHasIds(secs);
    DictValuesLastWins(secs);
    var vals := DictValues(secs);
    var k := IndexOfId(vals, id);
    if k >= 0 then Some(vals[k]) else None
  }

  function IdKey(s: Section): (int, int) {
    (s.id, 0)
  }

  function LexKey(s: Section): (int, int) {
    SpanKey(Lexspan(s))
  }

  /** In a sequence with unique ids every entry occurs once. */
  lemma SingleOccurrence(vals: seq<Section>, a: int)
    requires UniqueIds(vals) && 0 <= a < |vals|
    ensures multiset(vals)[vals[a]] == 1
  {
    var x := vals[a];
    var before, after := vals[..a], vals[a + 1..];
    assert vals == before + [x] + after;
    forall m | 0 <= m < |before| ensures before[m] != x {
      assert vals[m].id != vals[a].id;
    }
    forall m | 0 <= m < |after| ensures after[m] != x {
      assert vals[a + 1 + m].id != vals[a].id;
    }
    assert x !in before && x !in after;
  }

  /** Equal entries at two positions are counted twice. */
  lemma TwoOccurrences(r: seq<Section>, i: int, j: int)
    requires 0 <= i < j < |r| && r[i] == r[j]
    ensures multiset(r)[r[i]] >= 2
  {
    assert r == r[..i] + [r[i]] + r[i + 1..j] + [r[j]] + r[j + 1..];
  }

  /** A permutation of sections with unique ids has unique ids. */
  lemma PermutationKeepsUniqueIds(vals: seq<Section>, r: seq<Section>)
    requires UniqueIds(vals) && multiset(r) == multiset(vals)
    ensures UniqueIds(r)
  {
    forall i, j | 0 <= i < j < |r| ensures r[i].id != r[j].id {
      assert r[i] in multiset(vals) && r[j] in multiset(vals);
      var a :| 0 <= a < |vals| && vals[a] == r[i];
      var b :| 0 <= b < |vals| && vals[b] == r[j];
      if a < b {
        assert vals[a].id != vals[b].id;
      } else if b < a {
        assert vals[b].id != vals[a].id;
      } else {
        SingleOccurrence(vals, a);
        TwoOccurrences(r, i, j);
        assert false;
      }
    }
  }

  /** `SectionContainer.sections_ordered`: the dictionary's sections sorted
      by id (not by position in the note). */
  function SectionsOrdered(secs: seq<Section>): (r: seq<Section>)
    ensures multiset(r) == multiset(DictValues(secs))
    ensures forall i, j :: 0 <= i < j < |r| ==> r[i].id < r[j].id
  {
    var vals := DictValues(secs);
    var r := SortBy(vals, IdKey);
    PermutationKeepsUniqueIds(vals, r);
    assert forall i, j :: 0 <= i < j < |r| ==> KeyLe(IdKey(r[i]), IdKey(r[j]));
    r
  }

  /** `SectionContainer.__iter__`: the dictionary's sections sorted by their
      lexical span. */
  function Iterate(secs: seq<Section>): (r: seq<Section>)
    ensures multiset(r) == multiset(DictValues(secs))
    ensures forall i, j :: 0 <= i < j < |r| ==> KeyLe(SpanKey(Lexspan(r[i])), SpanKey(Lexspan(r[j])))
  {
    SortBy(DictValues(secs), LexKey)
  }

  function NameOf(s: Section): string {
    s.name
  }

  /** `SectionContainer.sections_by_name`: the dictionary's sections grouped
      by name. */
  function SectionsByName(secs: seq<Section>): map<string, seq<Section>> {
    Grouping.GroupBy(DictValues(secs), NameOf)
  }

  /** The grouping by name is a partition of the container: every section
      occurs exactly once, under its own name, and each group lists its
      sections in dictionary order. */
  lemma SectionsByNamePartitions(secs: seq<Section>)
    ensures forall s :: s in DictValues(secs) ==>
              s.name in SectionsByName(secs) && multiset(SectionsByName(secs)[s.name])[s] == 1
    ensures forall n, s :: n in SectionsByName(secs) && s in SectionsByName(secs)[n] ==>
              s.name == n && s in DictValues(secs)
    ensures forall n :: n in SectionsByName(secs) ==>
              SectionsByName(secs)[n] == Grouping.FilterKey(DictValues(secs), NameOf, n)
  {
    var vals := DictValues(secs);
    Grouping.GroupByPartitions(vals, NameOf);
    Grouping.GroupByBuckets(vals, NameOf);
    forall s | s in vals
      ensures s.name in SectionsByName(secs) && multiset(SectionsByName(secs)[s.name])[s] == 1
    {
      var a :| 0 <= a < |vals| && vals[a] == s;
      SingleOccurrence(vals, a);
    }
  }
}
