/** `GapSectionContainer`: the sections of a delegate note completed with one
    headerless "unknown" section per stretch of text no section covers, then
    sorted by position and renumbered, each keeping the id it had before. */
module GapFill {
  import opened Wrappers
  import opened Text
  import opened Spans
  import opened Sections

  /** A section of the filled container together with the id it had before
      renumbering (-1 for a gap section). */
  datatype FilledSection = FilledSection(sec: Section, originalId: int)

  /** The lexical spans of a sequence of sections, in order. */
  function SecSpans(secs: seq<Section>): (r: seq<Span>)
    ensures |r| == |secs|
    ensures forall i :: 0 <= i < |secs| ==> r[i] == Lexspan(secs[i])
  {
    seq(|secs|, i requires 0 <= i < |secs| => Lexspan(secs[i]))
  }

  /** Two sections whose lexical spans share no character. */
  function SecDisjoint(a: Section, b: Section): bool {
    Disjoint(Lexspan(a), Lexspan(b))
  }

  /** The section made for a gap: id -1, no name given and no headers, so it
      is named "unknown"; its span is the gap itself. */
  function GapSection(g: Span, noteText: string): (s: Section)
    ensures s.id == -1 && s.name == UNKNOWN_NAME && s.headerSpans == [] && s.bodySpan == g
    ensures Lexspan(s) == g
  {
    NewSection(-1, None, [], g, noteText)
  }

  /** A gap the filtered container drops: filtering is on and the gap's
      text is whitespace only, which is when its section would be empty
      (`DroppedIffEmpty`). */
  predicate Dropped(g: Span, noteText: string, filterEmpty: bool) {
    filterEmpty && IsBlank(Slice(noteText, g.begin, g.end))
  }

  /** Dropping a gap is filtering an empty gap section. */
  lemma DroppedIffEmpty(g: Span, noteText: string, filterEmpty: bool)
    ensures Dropped(g, noteText, filterEmpty) <==> filterEmpty && IsEmpty(GapSection(g, noteText), noteText)
  {
  }

  /** The gaps that get a section, in gap order. */
  function KeptGaps(gaps: seq<Span>, noteText: string, filterEmpty: bool): (r: seq<Span>)
    ensures |r| <= |gaps|
    ensures forall g :: g in r ==> g in gaps
    ensures !filterEmpty ==> r == gaps
  {
    if |gaps| == 0 then []
    else
      var rest := KeptGaps(gaps[1..], noteText, filterEmpty);
      if Dropped(gaps[0], noteText, filterEmpty) then rest else [gaps[0]] + rest
  }

  /** A gap is kept exactly when it is not dropped. */
  lemma {:induction false} KeptGapsMembers(gaps: seq<Span>, noteText: string, filterEmpty: bool, g: Span)
    requires g in gaps
    ensures g in KeptGaps(gaps, noteText, filterEmpty) <==> !Dropped(g, noteText, filterEmpty)
  {
    var tail := gaps[1..];
    if g != gaps[0] {
      assert g in tail;
      KeptGapsMembers(tail, noteText, filterEmpty, g);
    } else if g in tail {
      KeptGapsMembers(tail, noteText, filterEmpty, g);
    }
  }

  /** Each span ends before the next one begins. */
  ghost predicate Chained(spans: seq<Span>) {
    forall i, j :: 0 <= i < j < |spans| ==> spans[i].end <= spans[j].begin
  }

  /** Keeping some gaps keeps them in order. */
  lemma {:induction false} KeptGapsChained(gaps: seq<Span>, noteText: string, filterEmpty: bool)
    requires forall i, j :: 0 <= i < j < |gaps| ==> gaps[i].end <= gaps[j].begin
    ensures Chained(KeptGaps(gaps, noteText, filterEmpty))
  {
    if |gaps| > 0 {
      var tail := gaps[1..];
      ChainTail(gaps);
      KeptGapsChained(tail, noteText, filterEmpty);
      if !Dropped(gaps[0], noteText, filterEmpty) {
        var rest := KeptGaps(tail, noteText, filterEmpty);
        KeptGapsBeginAfter(tail, noteText, filterEmpty, gaps[0].end);
        ChainedCons(gaps[0], rest);
      }
    }
  }

  /** The tail of a chain is a chain that begins after its head ends. */
  lemma ChainTail(xs: seq<Span>)
    requires |xs| > 0
    requires forall i, j :: 0 <= i < j < |xs| ==> xs[i].end <= xs[j].begin
    ensures forall i, j :: 0 <= i < j < |xs[1..]| ==> xs[1..][i].end <= xs[1..][j].begin
    ensures forall k :: 0 <= k < |xs[1..]| ==> xs[0].end <= xs[1..][k].begin
  {
    forall i, j | 0 <= i < j < |xs[1..]| ensures xs[1..][i].end <= xs[1..][j].begin {
      assert xs[1..][i] == xs[i + 1] && xs[1..][j] == xs[j + 1];
    }
    forall k | 0 <= k < |xs[1..]| ensures xs[0].end <= xs[1..][k].begin {
      assert xs[1..][k] == xs[k + 1];
    }
  }

  /** Keeping some gaps keeps a lower bound on their beginnings. */
  lemma {:induction false} KeptGapsBeginAfter(gaps: seq<Span>, noteText: string, filterEmpty: bool, b: int)
    requires forall k :: 0 <= k < |gaps| ==> b <= gaps[k].begin
    ensures forall k :: 0 <= k < |KeptGaps(gaps, noteText, filterEmpty)| ==> b <= KeptGaps(gaps, noteText, filterEmpty)[k].begin
  {
    if |gaps| > 0 {
      var tail := gaps[1..];
      assert forall k :: 0 <= k < |tail| ==> b <= tail[k].begin by {
        forall k | 0 <= k < |tail| ensures b <= tail[k].begin {
          assert tail[k] == gaps[k + 1];
        }
      }
      KeptGapsBeginAfter(tail, noteText, filterEmpty, b);
    }
  }

  /** A span ending before every span of a chain extends it at the front. */
  lemma ChainedCons(g: Span, rest: seq<Span>)
    requires Chained(rest)
    requires forall k :: 0 <= k < |rest| ==> g.end <= rest[k].begin
    ensures Chained([g] + rest)
  {
    var r := [g] + rest;
    forall i, j | 0 <= i < j < |r| ensures r[i].end <= r[j].begin {
      if i == 0 {
        assert r[j] == rest[j - 1];
      } else {
        assert r[i] == rest[i - 1] && r[j] == rest[j - 1];
      }
    }
  }

  /** The gap sections in gap order; with `filterEmpty` a gap whose section
      would be empty gets none. */
  function GapSections(gaps: seq<Span>, noteText: string, filterEmpty: bool): (r: seq<Section>)
    ensures var kept := KeptGaps(gaps, noteText, filterEmpty);
            |r| == |kept| && forall i :: 0 <= i < |r| ==> r[i] == GapSection(kept[i], noteText)
  {
    var kept := KeptGaps(gaps, noteText, filterEmpty);
    seq(|kept|, i requires 0 <= i < |kept| => GapSection(kept[i], noteText))
  }

  /** Gives every section its position as id and remembers the old id. */
  function Renumber(secs: seq<Section>): (r: seq<FilledSection>)
    ensures |r| == |secs|
    ensures forall i :: 0 <= i < |r| ==> r[i].sec.id == i && r[i].originalId == secs[i].id
    ensures forall i :: 0 <= i < |r| ==> r[i].sec == secs[i].(id := i)
  {
    seq(|secs|, i requires 0 <= i < |secs| => FilledSection(secs[i].(id := i), secs[i].id))
  }

  /** The sections with their original ids put back. */
  function Restore(r: seq<FilledSection>): (secs: seq<Section>)
    ensures |secs| == |r|
    ensures forall i :: 0 <= i < |r| ==> secs[i] == r[i].sec.(id := r[i].originalId)
  {
    seq(|r|, i requires 0 <= i < |r| => r[i].sec.(id := r[i].originalId))
  }

  /** Restoring the original ids undoes renumbering. */
  lemma RestoreRenumber(secs: seq<Section>)
    ensures Restore(Renumber(secs)) == secs
  {
  }

  /** Changing a section's id leaves its lexical span alone. */
  lemma LexspanIgnoresId(s: Section, id: int)
    ensures Lexspan(s.(id := id)) == Lexspan(s)
  {
    assert [s.(id := id).bodySpan] + s.(id := id).headerSpans == [s.bodySpan] + s.headerSpans;
  }

  /** The delegate's sections followed by the gap sections, before sorting. */
  function Combined(delegate: seq<Section>, noteText: string, filterEmpty: bool): seq<Section> {
    var vals := DictValues(delegate);
    vals + GapSections(Gaps(SecSpans(vals), |noteText|), noteText, filterEmpty)
  }

  /** Sorts sections by lexical span (stably) and renumbers them. */
  function SortRenumber(secs: seq<Section>): (r: seq<FilledSection>)
    ensures forall i :: 0 <= i < |r| ==> r[i].sec.id == i
    ensures multiset(Restore(r)) == multiset(secs)
    ensures forall i, j :: 0 <= i < j < |r| ==> KeyLe(SpanKey(Lexspan(r[i].sec)), SpanKey(Lexspan(r[j].sec)))
  {
    var sorted := SortBy(secs, LexKey);
    var r := Renumber(sorted);
    RestoreRenumber(sorted);
    forall i | 0 <= i < |r| ensures Lexspan(r[i].sec) == Lexspan(sorted[i]) {
      LexspanIgnoresId(sorted[i], i);
    }
    r
  }

  /** `GapSectionContainer._get_sections`: nothing when the delegate has no
      section; otherwise the delegate's sections and the gap sections,
      ordered by lexical span and numbered from 0, each remembering its
      previous id. */
  function GapFill(delegate: seq<Section>, noteText: string, filterEmpty: bool): (r: seq<FilledSection>)
    ensures |DictValues(delegate)| == 0 <==> r == []
    ensures forall i :: 0 <= i < |r| ==> r[i].sec.id == i
    ensures |r| > 0 ==> multiset(Restore(r)) == multiset(Combined(delegate, noteText, filterEmpty))
    ensures forall i, j :: 0 <= i < j < |r| ==> KeyLe(SpanKey(Lexspan(r[i].sec)), SpanKey(Lexspan(r[j].sec)))
  {
    if |DictValues(delegate)| == 0 then []
    else
      var c := Combined(delegate, noteText, filterEmpty);
      var r := SortRenumber(c);
      assert |c| >= |DictValues(delegate)|;
      assert |Restore(r)| == |c|;
      r
  }

  /** One section per delegate section and one per kept gap; without
      filtering, one per gap. */
  lemma GapFillCount(delegate: seq<Section>, noteText: string, filterEmpty: bool)
    requires |DictValues(delegate)| > 0
    ensures |GapFill(delegate, noteText, filterEmpty)|
            == |DictValues(delegate)| + |KeptGaps(Gaps(SecSpans(DictValues(delegate)), |noteText|), noteText, filterEmpty)|
    ensures !filterEmpty ==>
              |GapFill(delegate, noteText, filterEmpty)|
              == |DictValues(delegate)| + |Gaps(SecSpans(DictValues(delegate)), |noteText|)|
  {
    var r := GapFill(delegate, noteText, filterEmpty);
    assert |multiset(Restore(r))| == |Restore(r)|;
  }

  /** Every filled section, with its original id put back, is either one of
      the delegate's sections or a synthetic gap section of id -1. */
  lemma GapFillOriginalIds(delegate: seq<Section>, noteText: string, filterEmpty: bool)
    ensures forall i :: 0 <= i < |GapFill(delegate, noteText, filterEmpty)| ==>
              || GapFill(delegate, noteText, filterEmpty)[i].sec.(id := GapFill(delegate, noteText, filterEmpty)[i].originalId)
                 in DictValues(delegate)
              || (&& GapFill(delegate, noteText, filterEmpty)[i].originalId == -1
                  && GapFill(delegate, noteText, filterEmpty)[i].sec.headerSpans == []
                  && GapFill(delegate, noteText, filterEmpty)[i].sec.name == UNKNOWN_NAME)
  {
    var r := GapFill(delegate, noteText, filterEmpty);
    var vals := DictValues(delegate);
    var gs := GapSections(Gaps(SecSpans(vals), |noteText|), noteText, filterEmpty);
    forall i | 0 <= i < |r|
      ensures || r[i].sec.(id := r[i].originalId) in vals
              || (r[i].originalId == -1 && r[i].sec.headerSpans == [] && r[i].sec.name == UNKNOWN_NAME)
    {
      var x := Restore(r)[i];
      assert x in multiset(Restore(r));
      assert x in vals + gs;
      if x !in vals {
        assert x in gs;
        var m :| 0 <= m < |gs| && gs[m] == x;
      }
    }
  }

  /** When the delegate's sections lie within the note, so do the filled
      sections: with `GapFillCovers` their union is exactly the note. */
  lemma GapFillWithin(delegate: seq<Section>, noteText: string, filterEmpty: bool)
    requires forall k :: 0 <= k < |delegate| ==> Lexspan(delegate[k]).end <= |noteText|
    ensures forall i :: 0 <= i < |GapFill(delegate, noteText, filterEmpty)| ==>
              Lexspan(GapFill(delegate, noteText, filterEmpty)[i].sec).end <= |noteText|
  {
    var r := GapFill(delegate, noteText, filterEmpty);
    forall i | 0 <= i < |r| ensures Lexspan(r[i].sec).end <= |noteText| {
      var x := Restore(r)[i];
      LexspanIgnoresId(r[i].sec, r[i].originalId);
      assert x in multiset(Restore(r));
      CombinedWithin(delegate, noteText, filterEmpty, x);
    }
  }

  lemma CombinedWithin(delegate: seq<Section>, noteText: string, filterEmpty: bool, x: Section)
    requires forall k :: 0 <= k < |delegate| ==> Lexspan(delegate[k]).end <= |noteText|
    requires x in Combined(delegate, noteText, filterEmpty)
    ensures Lexspan(x).end <= |noteText|
  {
    var vals := DictValues(delegate);
    var gaps := Gaps(SecSpans(vals), |noteText|);
    var gs := GapSections(gaps, noteText, filterEmpty);
    if x in vals {
      DictValuesFromSections(delegate);
      var v :| 0 <= v < |vals| && vals[v] == x;
      assert x in delegate;
    } else {
      assert x in gs;
      var m :| 0 <= m < |gs| && gs[m] == x;
      var kept := KeptGaps(gaps, noteText, filterEmpty);
      assert kept[m] in gaps;
    }
  }

  /** Sorting and renumbering keeps every section, id aside, at some
      position. */
  lemma SortRenumberKeeps(secs: seq<Section>, k: int)
    requires 0 <= k < |secs|
    ensures exists i :: 0 <= i < |SortRenumber(secs)| && Lexspan(SortRenumber(secs)[i].sec) == Lexspan(secs[k])
  {
    var sorted := SortBy(secs, LexKey);
    var r := SortRenumber(secs);
    assert r == Renumber(sorted);
    assert secs[k] in multiset(sorted);
    var i :| 0 <= i < |sorted| && sorted[i] == secs[k];
    LexspanIgnoresId(sorted[i], i);
    assert Lexspan(r[i].sec) == Lexspan(secs[k]);
  }

  /** Sorting and renumbering non-overlapping sections leaves them
      non-overlapping. */
  lemma SortRenumberDisjoint(secs: seq<Section>)
    requires Pairwise(secs, SecDisjoint)
    ensures forall i, j :: 0 <= i < |SortRenumber(secs)| && 0 <= j < |SortRenumber(secs)| && i != j ==>
              Disjoint(Lexspan(SortRenumber(secs)[i].sec), Lexspan(SortRenumber(secs)[j].sec))
  {
    var sorted := SortBy(secs, LexKey);
    var r := SortRenumber(secs);
    assert r == Renumber(sorted);
    SortPreservesPairwise(secs, LexKey, SecDisjoint);
    forall i, j | 0 <= i < |r| && 0 <= j < |r| && i != j
      ensures Disjoint(Lexspan(r[i].sec), Lexspan(r[j].sec))
    {
      LexspanIgnoresId(sorted[i], i);
      LexspanIgnoresId(sorted[j], j);
      assert SecDisjoint(sorted[i], sorted[j]);
    }
  }

  /** Sections of a note that do not overlap stay non-overlapping once the
      gaps are filled in: gaps avoid every section and each other. */
  lemma GapFillDisjoint(delegate: seq<Section>, noteText: string, filterEmpty: bool)
    requires Pairwise(delegate, SecDisjoint)
    ensures forall i, j :: 0 <= i < |GapFill(delegate, noteText, filterEmpty)|
                           && 0 <= j < |GapFill(delegate, noteText, filterEmpty)| && i != j ==>
              Disjoint(Lexspan(GapFill(delegate, noteText, filterEmpty)[i].sec),
                       Lexspan(GapFill(delegate, noteText, filterEmpty)[j].sec))
  {
    if |DictValues(delegate)| > 0 {
      var c := Combined(delegate, noteText, filterEmpty);
      assert GapFill(delegate, noteText, filterEmpty) == SortRenumber(c);
      CombinedPairwise(delegate, noteText, filterEmpty);
      SortRenumberDisjoint(c);
    }
  }

  /** The dictionary of a delegate whose sections do not overlap has no
      overlapping entries. */
  lemma DictValuesPairwise(delegate: seq<Section>)
    requires Pairwise(delegate, SecDisjoint)
    ensures Pairwise(DictValues(delegate), SecDisjoint)
  {
    var vals := DictValues(delegate);
    DictValuesFromSections(delegate);
    forall i, j | 0 <= i < |vals| && 0 <= j < |vals| && i != j
      ensures SecDisjoint(vals[i], vals[j])
    {
      assert vals[i].id != vals[j].id;
      var a :| 0 <= a < |delegate| && delegate[a] == vals[i];
      var b :| 0 <= b < |delegate| && delegate[b] == vals[j];
    }
  }

  /** Gap sections over chained gaps do not overlap each other. */
  lemma GapSectionsPairwise(gaps: seq<Span>, noteText: string, filterEmpty: bool)
    requires Chained(KeptGaps(gaps, noteText, filterEmpty))
    ensures Pairwise(GapSections(gaps, noteText, filterEmpty), SecDisjoint)
  {
    var kept := KeptGaps(gaps, noteText, filterEmpty);
    var gs := GapSections(gaps, noteText, filterEmpty);
    forall a, b | 0 <= a < |gs| && 0 <= b < |gs| && a != b ensures SecDisjoint(gs[a], gs[b]) {
      assert Lexspan(gs[a]) == kept[a] && Lexspan(gs[b]) == kept[b];
      if a < b {
        assert kept[a].end <= kept[b].begin;
      } else {
        assert kept[b].end <= kept[a].begin;
      }
    }
  }

  /** Two pairwise disjoint sequences of sections, disjoint from each other,
      concatenate to a pairwise disjoint sequence. */
  lemma ConcatPairwise(xs: seq<Section>, ys: seq<Section>)
    requires Pairwise(xs, SecDisjoint) && Pairwise(ys, SecDisjoint)
    requires forall a, b :: 0 <= a < |xs| && 0 <= b < |ys| ==> SecDisjoint(xs[a], ys[b])
    ensures Pairwise(xs + ys, SecDisjoint)
  {
    var c := xs + ys;
    forall i, j | 0 <= i < |c| && 0 <= j < |c| && i != j ensures SecDisjoint(c[i], c[j]) {
      if i < |xs| && j < |xs| {
        assert c[i] == xs[i] && c[j] == xs[j];
      } else if i >= |xs| && j >= |xs| {
        assert c[i] == ys[i - |xs|] && c[j] == ys[j - |xs|];
      } else if i < |xs| {
        assert SecDisjoint(xs[i], ys[j - |xs|]);
      } else {
        assert SecDisjoint(xs[j], ys[i - |xs|]);
      }
    }
  }

  /** Before sorting, the delegate's sections and the gap sections are
      pairwise disjoint. */
  lemma CombinedPairwise(delegate: seq<Section>, noteText: string, filterEmpty: bool)
    requires Pairwise(delegate, SecDisjoint)
    ensures Pairwise(Combined(delegate, noteText, filterEmpty), SecDisjoint)
  {
    var vals := DictValues(delegate);
    var gaps := Gaps(SecSpans(vals), |noteText|);
    var gs := GapSections(gaps, noteText, filterEmpty);
    DictValuesPairwise(delegate);
    KeptGapsChained(gaps, noteText, filterEmpty);
    GapSectionsPairwise(gaps, noteText, filterEmpty);
    forall a, b | 0 <= a < |vals| && 0 <= b < |gs| ensures SecDisjoint(vals[a], gs[b]) {
      GapAvoidsSection(vals, noteText, filterEmpty, b, a);
    }
    ConcatPairwise(vals, gs);
  }

  /** A gap section does not overlap any of the delegate's sections. */
  lemma GapAvoidsSection(vals: seq<Section>, noteText: string, filterEmpty: bool, g: int, v: int)
    requires 0 <= v < |vals|
    requires 0 <= g < |GapSections(Gaps(SecSpans(vals), |noteText|), noteText, filterEmpty)|
    ensures SecDisjoint(vals[v], GapSections(Gaps(SecSpans(vals), |noteText|), noteText, filterEmpty)[g])
  {
    var spans := SecSpans(vals);
    var gaps := Gaps(spans, |noteText|);
    var kept := KeptGaps(gaps, noteText, filterEmpty);
    var gs := GapSections(gaps, noteText, filterEmpty);
    assert Lexspan(gs[g]) == kept[g];
    assert kept[g] in kept;
    assert spans[v] == Lexspan(vals[v]);
    GapsAvoidSpans(spans, |noteText|, kept[g], spans[v]);
  }

  /** Every character of the note lies in some section of the filled
      container, except, when empty gaps are filtered, whitespace that only
      an empty gap would have held. Requires a delegate with at least one
      section, as every note has. */
  lemma GapFillCovers(delegate: seq<Section>, noteText: string, filterEmpty: bool, p: int)
    requires |DictValues(delegate)| > 0
    requires 0 <= p < |noteText|
    ensures (exists i :: 0 <= i < |GapFill(delegate, noteText, filterEmpty)|
                         && Contains(Lexspan(GapFill(delegate, noteText, filterEmpty)[i].sec), p))
            || (filterEmpty && IsSpace(noteText[p]))
  {
    var c := Combined(delegate, noteText, filterEmpty);
    assert GapFill(delegate, noteText, filterEmpty) == SortRenumber(c);
    var k := CombinedCovers(delegate, noteText, filterEmpty, p);
    if k >= 0 {
      SortRenumberKeeps(c, k);
    }
  }

  /** Before sorting, the delegate's sections and the gap sections cover
      every character but the whitespace of dropped gaps: the position of a
      section holding the offset, or -1 for such whitespace. */
  lemma CombinedCovers(delegate: seq<Section>, noteText: string, filterEmpty: bool, p: int) returns (k: int)
    requires 0 <= p < |noteText|
    ensures -1 <= k < |Combined(delegate, noteText, filterEmpty)|
    ensures k >= 0 ==> Contains(Lexspan(Combined(delegate, noteText, filterEmpty)[k]), p)
    ensures k == -1 ==> filterEmpty && IsSpace(noteText[p])
  {
    var vals := DictValues(delegate);
    var spans := SecSpans(vals);
    var gaps := Gaps(spans, |noteText|);
    var gs := GapSections(gaps, noteText, filterEmpty);
    var c := Combined(delegate, noteText, filterEmpty);
    assert c == vals + gs;
    GapsComplement(spans, |noteText|, p);
    if Covered(p, spans) {
      k := CoveringSection(vals, p);
      assert c[k] == vals[k];
    } else {
      var m := CoveringGap(gaps, noteText, filterEmpty, p);
      if m >= 0 {
        k := |vals| + m;
        assert c[k] == gs[m];
      } else {
        k := -1;
      }
    }
  }

  /** The gap section holding an offset that a gap covers, or -1 when that
      gap was dropped, in which case the character is whitespace. */
  lemma CoveringGap(gaps: seq<Span>, noteText: string, filterEmpty: bool, p: int) returns (m: int)
    requires 0 <= p < |noteText|
    requires forall i :: 0 <= i < |gaps| ==> gaps[i].end <= |noteText|
    requires Covered(p, gaps)
    ensures -1 <= m < |GapSections(gaps, noteText, filterEmpty)|
    ensures m >= 0 ==> Contains(Lexspan(GapSections(gaps, noteText, filterEmpty)[m]), p)
    ensures m == -1 ==> filterEmpty && IsSpace(noteText[p])
  {
    var kept := KeptGaps(gaps, noteText, filterEmpty);
    var g :| g in gaps && Contains(g, p);
    KeptGapsMembers(gaps, noteText, filterEmpty, g);
    if g in kept {
      m :| 0 <= m < |kept| && kept[m] == g;
    } else {
      m := -1;
      BlankGapCharacter(g, noteText, p);
    }
  }

  /** The position of a section whose lexical span holds a covered offset. */
  lemma CoveringSection(vals: seq<Section>, p: int) returns (k: int)
    requires Covered(p, SecSpans(vals))
    ensures 0 <= k < |vals| && Contains(Lexspan(vals[k]), p)
  {
    var spans := SecSpans(vals);
    var sp :| sp in spans && Contains(sp, p);
    k :| 0 <= k < |spans| && spans[k] == sp;
  }

  /** A character inside a gap whose text is blank is whitespace. */
  lemma BlankGapCharacter(g: Span, noteText: string, p: int)
    requires g.end <= |noteText| && Contains(g, p)
    requires IsBlank(Slice(noteText, g.begin, g.end))
    ensures IsSpace(noteText[p])
  {
    assert noteText[p] == Slice(noteText, g.begin, g.end)[p - g.begin];
  }
}
