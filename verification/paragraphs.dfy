/** Paragraph factories: the whitespace factory, which cuts a section body at
    every separator `\n[\s.]*\n`, and the decisions of the chunking factory
    that prune tokens, sentences and documents and choose the list-chunked
    version of a section. The NLP documents themselves come from an external
    library; they are reduced here to the counts and norms the decisions
    read. */
module Paragraphs {
  import opened Wrappers
  import opened Text
  import opened Spans
  import opened Sections

  // ---------------------------------------------------------------------
  // The separator pattern `\n[\s.]*\n`

  /** The class `[\s.]`. */
  predicate InSeparatorClass(c: char) {
    IsSpace(c) || c == '.'
  }

  /** `s[a..b]` is text the separator pattern matches as a whole: a newline,
      any run of whitespace and periods, and a closing newline. */
  predicate SeparatorAt(s: string, a: int, b: int) {
    && 0 <= a && a + 2 <= b <= |s|
    && s[a] == '\n'
    && s[b - 1] == '\n'
    && forall k :: a < k < b - 1 ==> InSeparatorClass(s[k])
  }

  /** The end of the run of `[\s.]` characters starting at `i`. */
  function RunEnd(s: string, i: nat): (j: nat)
    requires i <= |s|
    ensures i <= j <= |s|
    ensures forall k :: i <= k < j ==> InSeparatorClass(s[k])
    ensures j < |s| ==> !InSeparatorClass(s[j])
    decreases |s| - i
  {
    if i == |s| || !InSeparatorClass(s[i]) then i else RunEnd(s, i + 1)
  }

  /** The last newline in `s[lo..hi]`, or -1. */
  function LastNewline(s: string, lo: nat, hi: nat): (k: int)
    requires lo <= hi <= |s|
    ensures k == -1 || (lo <= k < hi && s[k] == '\n')
    ensures forall m :: lo <= m < hi && k < m ==> s[m] != '\n'
    decreases hi
  {
    if hi == lo then -1
    else if s[hi - 1] == '\n' then hi - 1
    else LastNewline(s, lo, hi - 1)
  }

  /** Where the search for a match at `i` ends: the last newline of the
      class run after `i`, or -1 when `i` opens no match. */
  function MatchClose(s: string, i: nat): (k: int)
    requires i < |s|
    ensures k == -1 || i < k < |s|
  {
    if s[i] != '\n' then -1 else LastNewline(s, i + 1, RunEnd(s, i + 1))
  }

  /** What the search takes at `i` is text the pattern matches. */
  lemma MatchCloseSeparator(s: string, i: nat)
    requires i < |s| && MatchClose(s, i) != -1
    ensures SeparatorAt(s, i, MatchClose(s, i) + 1)
  {
  }

  /** Where a match opening at each offset of `s` closes, or -1. */
  function Closes(s: string): (c: seq<int>)
    ensures |c| == |s|
    ensures forall j :: 0 <= j < |s| ==> c[j] == MatchClose(s, j)
  {
    seq(|s|, j requires 0 <= j < |s| => MatchClose(s, j))
  }

  /** Every close lies after its opening and inside the text. */
  predicate ValidCloses(c: seq<int>) {
    forall j :: 0 <= j < |c| ==> c[j] == -1 || j < c[j] < |c|
  }

  /** The left-to-right search of `re.finditer` over precomputed closes: a
      match opening at `i` is taken whole and the search resumes after it;
      where nothing opens, the search moves one character on. */
  function Scan(c: seq<int>, i: nat): seq<Span>
    requires ValidCloses(c) && i <= |c|
    decreases |c| - i
  {
    if i == |c| then []
    else if c[i] == -1 then Scan(c, i + 1)
    else [LexicalSpan(i, c[i] + 1)] + Scan(c, c[i] + 1)
  }

  /** `r` is a run of matches at or after `i`, each spanning an opening and
      its close, in order without overlap. */
  predicate ScanShape(c: seq<int>, i: nat, r: seq<Span>) {
    && (forall m :: 0 <= m < |r| ==> i <= r[m].begin < r[m].end <= |c|)
    && (forall m :: 0 <= m < |r| ==> c[r[m].begin] == r[m].end - 1)
    && (forall m, n :: 0 <= m < n < |r| ==> r[m].end <= r[n].begin)
  }

  /** One step of the search: a match opening at `i`, or none and the search
      goes on at `i + 1`. */
  lemma ScanStep(c: seq<int>, i: nat)
    requires ValidCloses(c) && i < |c|
    ensures c[i] != -1 ==> Scan(c, i) == [LexicalSpan(i, c[i] + 1)] + Scan(c, c[i] + 1)
    ensures c[i] == -1 ==> Scan(c, i) == Scan(c, i + 1)
  {
  }

  /** Every match the search yields spans an opening and its close, and the
      matches come in order without overlap. */
  lemma {:induction false} ScanSound(c: seq<int>, i: nat)
    requires ValidCloses(c) && i <= |c|
    ensures ScanShape(c, i, Scan(c, i))
    decreases |c| - i
  {
    if i < |c| {
      ScanStep(c, i);
      if c[i] == -1 {
        ScanSound(c, i + 1);
        ShapeLower(c, i, Scan(c, i + 1));
      } else {
        ScanSound(c, c[i] + 1);
        ShapeCons(c, i, Scan(c, c[i] + 1));
      }
    }
  }

  lemma ShapeLower(c: seq<int>, i: nat, r: seq<Span>)
    requires ScanShape(c, i + 1, r)
    ensures ScanShape(c, i, r)
  {
  }

  lemma ShapeCons(c: seq<int>, i: nat, rest: seq<Span>)
    requires ValidCloses(c) && i < |c| && c[i] != -1
    requires ScanShape(c, c[i] + 1, rest)
    ensures ScanShape(c, i, [LexicalSpan(i, c[i] + 1)] + rest)
  {
    var r := [LexicalSpan(i, c[i] + 1)] + rest;
    forall m | 0 < m < |r| ensures r[m] == rest[m - 1] {
    }
  }

  /** The search is leftmost: an opening anywhere at or after `i` means a
      match is found, and the first one begins no later than it. */
  lemma {:induction false} ScanLeftmost(c: seq<int>, i: nat, a: nat)
    requires ValidCloses(c) && i <= a < |c| && c[a] != -1
    ensures |Scan(c, i)| > 0 && Scan(c, i)[0].begin <= a
    decreases |c| - i
  {
    ScanStep(c, i);
    if i < a && c[i] == -1 {
      ScanLeftmost(c, i + 1, a);
    }
  }

  /** `re.finditer` of the separator pattern from offset `i`: at each newline
      the greedy `[\s.]*` takes the whole run of the class and gives back
      characters until a newline can close the match; where no newline
      closes it, the search moves one character on. */
  function SeparatorsFrom(s: string, i: nat): seq<Span>
    requires i <= |s|
  {
    Scan(Closes(s), i)
  }

  /** `r` are separators of `s` at or after `i`, in order without overlap. */
  predicate MatchesFrom(s: string, i: nat, r: seq<Span>) {
    && (forall m :: 0 <= m < |r| ==> i <= r[m].begin && r[m].end <= |s|)
    && (forall m :: 0 <= m < |r| ==> SeparatorAt(s, r[m].begin, r[m].end))
    && (forall m, n :: 0 <= m < n < |r| ==> r[m].end <= r[n].begin)
  }

  /** Every match of the search lies at or after where it started, is text
      the pattern matches, and the matches come in order without overlap. */
  lemma SeparatorsFromSound(s: string, i: nat)
    requires i <= |s|
    ensures MatchesFrom(s, i, SeparatorsFrom(s, i))
  {
    var c := Closes(s);
    var r := Scan(c, i);
    ScanSound(c, i);
    forall m | 0 <= m < |r| ensures SeparatorAt(s, r[m].begin, r[m].end) {
      MatchCloseSeparator(s, r[m].begin);
    }
  }

  /** All matches of the separator pattern in `s`, as `re.finditer` yields them. */
  function Separators(s: string): (r: seq<Span>)
    ensures forall m :: 0 <= m < |r| ==> r[m].end <= |s|
    ensures forall m :: 0 <= m < |r| ==> SeparatorAt(s, r[m].begin, r[m].end)
    ensures forall m, n :: 0 <= m < n < |r| ==> r[m].end <= r[n].begin
  {
    SeparatorsFromSound(s, 0);
    SeparatorsFrom(s, 0)
  }

  /** A separator opening at `i` means the search finds a match there. */
  lemma SeparatorsLeftmostHere(s: string, i: nat, b: nat)
    requires i < b <= |s|
    requires SeparatorAt(s, i, b)
    ensures MatchClose(s, i) != -1
  {
    var j := RunEnd(s, i + 1);
    assert InSeparatorClass(s[b - 1]);
    assert j >= b;
    assert LastNewline(s, i + 1, j) >= b - 1;
  }

  /** The search is leftmost: a separator anywhere at or after `i` means a
      match is found, and the first one begins no later than it. */
  lemma SeparatorsLeftmost(s: string, i: nat, a: nat, b: nat)
    requires i <= a <= b <= |s|
    requires SeparatorAt(s, a, b)
    ensures |SeparatorsFrom(s, i)| > 0 && SeparatorsFrom(s, i)[0].begin <= a
  {
    SeparatorsLeftmostHere(s, a, b);
    ScanLeftmost(Closes(s), i, a);
  }

  /** The search is greedy: no separator starting where a match starts is
      longer than the match. */
  lemma SeparatorsLongest(s: string, i: nat, m: int, b: int)
    requires i <= |s|
    requires 0 <= m < |SeparatorsFrom(s, i)|
    requires SeparatorsFrom(s, i)[m].end < b <= |s|
    ensures !SeparatorAt(s, SeparatorsFrom(s, i)[m].begin, b)
  {
    var c := Closes(s);
    var r := Scan(c, i);
    ScanSound(c, i);
    MatchLongest(s, r[m].begin, b);
  }

  /** No separator opening at `i` reaches past the match found there. */
  lemma MatchLongest(s: string, i: nat, b: int)
    requires i < |s| && MatchClose(s, i) != -1
    requires MatchClose(s, i) + 1 < b <= |s|
    ensures !SeparatorAt(s, i, b)
  {
    var j := RunEnd(s, i + 1);
    LongerThanRun(s, i, j, LastNewline(s, i + 1, j), b);
  }

  /** Past the last newline of the run there is no newline that ends a
      separator starting at `i`. */
  lemma LongerThanRun(s: string, i: nat, j: nat, k: int, b: int)
    requires i < |s| && s[i] == '\n' && i + 1 <= j <= |s|
    requires forall m :: i + 1 <= m < j ==> InSeparatorClass(s[m])
    requires j < |s| ==> !InSeparatorClass(s[j])
    requires forall m :: i + 1 <= m < j && k < m ==> s[m] != '\n'
    requires i < k < j && k + 1 < b <= |s|
    ensures !SeparatorAt(s, i, b)
  {
    if b - 1 < j {
      assert s[b - 1] != '\n';
    } else {
      assert !InSeparatorClass(s[j]);
    }
  }

  // ---------------------------------------------------------------------
  // WhitespaceParagraphFactory.create

  /** Each separator match's start and end, shifted by `offset`, flattened. */
  function ShiftedMarks(ms: seq<Span>, offset: int): (r: seq<int>)
    ensures |r| == 2 * |ms|
  {
    if |ms| == 0 then []
    else [ms[0].begin + offset, ms[0].end + offset] + ShiftedMarks(ms[1..], offset)
  }

  /** The marks: the body's begin, every separator's start and end in note
      offsets, and the body's end. */
  function Marks(bodySpan: Span, ms: seq<Span>): seq<int> {
    [bodySpan.begin] + ShiftedMarks(ms, bodySpan.begin) + [bodySpan.end]
  }

  /** Consecutive marks taken two at a time. */
  function PairUp(marks: seq<int>): (r: seq<LexicalSpan>)
    requires |marks| % 2 == 0
    ensures 2 * |r| == |marks|
  {
    if |marks| == 0 then [] else [LexicalSpan(marks[0], marks[1])] + PairUp(marks[2..])
  }

  /** The spans between consecutive separators: from `start` to the first
      separator, between each separator and the next, and from the last
      separator to `end`, with separators shifted by `offset`. */
  function Between(start: int, ms: seq<Span>, offset: int, end: int): (r: seq<LexicalSpan>)
    decreases |ms|
    ensures |r| == |ms| + 1
    ensures r[0].begin == start && r[|r| - 1].end == end
    ensures forall i :: 0 <= i < |ms| ==> r[i].end == ms[i].begin + offset && r[i + 1].begin == ms[i].end + offset
  {
    if |ms| == 0 then [LexicalSpan(start, end)]
    else [LexicalSpan(start, ms[0].begin + offset)] + Between(ms[0].end + offset, ms[1..], offset, end)
  }

  /** Pairing the marks two at a time yields exactly the spans between the
      separators. */
  lemma {:induction false} PairUpMarks(start: int, ms: seq<Span>, offset: int, end: int)
    ensures PairUp([start] + ShiftedMarks(ms, offset) + [end]) == Between(start, ms, offset, end)
    decreases |ms|
  {
    if |ms| > 0 {
      var marks := [start] + ShiftedMarks(ms, offset) + [end];
      var next := ms[0].end + offset;
      var tail := ShiftedMarks(ms[1..], offset);
      assert ShiftedMarks(ms, offset) == [ms[0].begin + offset, next] + tail;
      MarksRegroup(start, ms[0].begin + offset, next, tail, end);
      PairUpMarks(next, ms[1..], offset, end);
      PairUpCons(start, ms[0].begin + offset, [next] + tail + [end]);
    }
  }

  lemma PairUpCons(a: int, b: int, rest: seq<int>)
    requires |rest| % 2 == 0
    ensures PairUp([a, b] + rest) == [LexicalSpan(a, b)] + PairUp(rest)
  {
    assert ([a, b] + rest)[2..] == rest;
  }

  lemma MarksRegroup(start: int, x: int, next: int, tail: seq<int>, end: int)
    ensures [start] + ([x, next] + tail) + [end] == [start, x] + ([next] + tail + [end])
  {
  }

  /** `WhitespaceParagraphFactory.create`'s spans for a body span and the
      separator matches `ms` of its text (in body offsets): paragraph `i` runs
      from the end of separator `i - 1` (or the body's begin) to the start of
      separator `i` (or the body's end). */
  function PairSpans(bodySpan: Span, ms: seq<Span>): (r: seq<LexicalSpan>)
    ensures |r| == |ms| + 1
    ensures r[0].begin == bodySpan.begin
    ensures r[|r| - 1].end == bodySpan.end
    ensures forall i :: 0 <= i < |ms| ==>
              r[i].end == ms[i].begin + bodySpan.begin && r[i + 1].begin == ms[i].end + bodySpan.begin
  {
    PairUpMarks(bodySpan.begin, ms, bodySpan.begin, bodySpan.end);
    PairUp(Marks(bodySpan, ms))
  }

  /** With ascending separators that end within the body span's length,
      the paired spans are proper, ascending and inside the body span. */
  lemma PairSpansWithin(bodySpan: Span, ms: seq<Span>)
    requires forall m, n :: 0 <= m < n < |ms| ==> ms[m].end <= ms[n].begin
    ensures (forall m :: 0 <= m < |ms| ==> ms[m].end <= Len(bodySpan)) ==>
              forall i :: 0 <= i < |PairSpans(bodySpan, ms)| ==>
                bodySpan.begin <= PairSpans(bodySpan, ms)[i].begin <= PairSpans(bodySpan, ms)[i].end <= bodySpan.end
    ensures (forall m :: 0 <= m < |ms| ==> ms[m].end <= Len(bodySpan)) ==>
              forall i, j :: 0 <= i < j < |PairSpans(bodySpan, ms)| ==>
                PairSpans(bodySpan, ms)[i].end <= PairSpans(bodySpan, ms)[j].begin
  {
    var r := PairSpans(bodySpan, ms);
    if forall m :: 0 <= m < |ms| ==> ms[m].end <= Len(bodySpan) {
      forall i | 0 <= i < |r| ensures bodySpan.begin <= r[i].begin <= r[i].end <= bodySpan.end {
        if 0 < i {
          assert r[i].begin == ms[i - 1].end + bodySpan.begin;
        }
        if i < |r| - 1 {
          assert r[i].end == ms[i].begin + bodySpan.begin;
        }
        if 0 < i < |r| - 1 {
          assert ms[i - 1].end <= ms[i].begin;
        }
      }
      forall i, j | 0 <= i < j < |r| ensures r[i].end <= r[j].begin {
        assert r[i].end == ms[i].begin + bodySpan.begin;
        assert r[j].begin == ms[j - 1].end + bodySpan.begin;
        if i < j - 1 {
          assert ms[i].end <= ms[j - 1].begin;
        }
      }
    }
  }

  /** The text between two consecutive paired spans is the separator match
      between them. */
  lemma PairSpansSeparated(bodySpan: Span, body: string, ms: seq<Span>)
    requires forall m :: 0 <= m < |ms| ==> SeparatorAt(body, ms[m].begin, ms[m].end)
    ensures forall i, j :: 0 <= i < j < |PairSpans(bodySpan, ms)| && j == i + 1 ==>
              SeparatorAt(body, PairSpans(bodySpan, ms)[i].end - bodySpan.begin,
                          PairSpans(bodySpan, ms)[j].begin - bodySpan.begin)
  {
    var r := PairSpans(bodySpan, ms);
    forall i, j | 0 <= i < j < |r| && j == i + 1
      ensures SeparatorAt(body, r[i].end - bodySpan.begin, r[j].begin - bodySpan.begin)
    {
      assert r[i].end - bodySpan.begin == ms[i].begin;
      assert r[j].begin - bodySpan.begin == ms[i].end;
    }
  }

  /** A section's body is never longer than its body span. */
  lemma BodyFitsSpan(sec: Section, noteText: string)
    ensures |Body(sec, noteText)| <= Len(sec.bodySpan)
  {
  }

  /** `WhitespaceParagraphFactory.create`'s paragraph spans, in note offsets,
      from the section's body span and body text (`Sections.Body`): one
      paragraph more than separators, the first beginning at the body's
      begin and the last ending at the body's end, and exactly one separator
      between two consecutive paragraphs. */
  function ParagraphSpans(bodySpan: Span, body: string): (r: seq<LexicalSpan>)
    ensures |r| == |Separators(body)| + 1
    ensures r[0].begin == bodySpan.begin && r[|r| - 1].end == bodySpan.end
    ensures forall i, j :: 0 <= i < j < |r| && j == i + 1 ==>
              SeparatorAt(body, r[i].end - bodySpan.begin, r[j].begin - bodySpan.begin)
  {
    PairSpansSeparated(bodySpan, body, Separators(body));
    PairSpans(bodySpan, Separators(body))
  }

  /** For a body no longer than its span, as `BodyFitsSpan` shows every
      section's is, the paragraph spans are proper, inside the body span and
      in ascending order without overlap. */
  lemma ParagraphsWithinBody(bodySpan: Span, body: string)
    requires |body| <= Len(bodySpan)
    ensures forall i :: 0 <= i < |ParagraphSpans(bodySpan, body)| ==>
              bodySpan.begin <= ParagraphSpans(bodySpan, body)[i].begin
              <= ParagraphSpans(bodySpan, body)[i].end <= bodySpan.end
    ensures forall i, j :: 0 <= i < j < |ParagraphSpans(bodySpan, body)| ==>
              ParagraphSpans(bodySpan, body)[i].end <= ParagraphSpans(bodySpan, body)[j].begin
  {
    PairSpansWithin(bodySpan, Separators(body));
  }

  // ---------------------------------------------------------------------
  // ChunkingParagraphFactory

  /** The `mimic_` feature value the tokenizer gives separator tokens. */
  const SEPARATOR_FEATURE := "separator"

  /** A token as the chunking factory sees it: its norm and its `mimic_`
      feature, which tokens not passed through the decorator lack. */
  datatype Token = Token(norm: string, mimic: Option<string>)

  /** A sentence: its tokens and its norm. */
  datatype Sentence = Sentence(tokens: seq<Token>, norm: string)

  /** A document reduced to its sentences. */
  type Doc = seq<Sentence>

  /** The chunking factory's configuration. */
  datatype ChunkConfig = ChunkConfig(
    minSentLen: int,
    minListNormMatches: int,
    maxSentListLen: int,
    includeSectionHeaders: bool,
    filterSentText: set<string>)

  /** `filter_toks`: drop separator tokens and tokens whose norm strips to
      nothing. */
  function KeepToken(t: Token): (r: bool)
    ensures r <==> t.mimic != Some(SEPARATOR_FEATURE) && !IsBlank(t.norm)
  {
    BlankIffStripEmpty(t.norm);
    t.mimic != Some(SEPARATOR_FEATURE) && |Strip(t.norm)| > 0
  }

  /** The tokens of a sentence that `filter_toks` keeps, in order. */
  function KeptTokens(ts: seq<Token>): (r: seq<Token>)
    ensures |r| <= |ts|
    ensures forall i :: 0 <= i < |r| ==> KeepToken(r[i])
  {
    if |ts| == 0 then []
    else (if KeepToken(ts[0]) then [ts[0]] else []) + KeptTokens(ts[1..])
  }

  /** Token filtering keeps exactly the tokens the predicate accepts. */
  lemma {:induction false} KeptTokensMembers(ts: seq<Token>, t: Token)
    ensures t in KeptTokens(ts) <==> t in ts && KeepToken(t)
  {
    if |ts| > 0 {
      KeptTokensMembers(ts[1..], t);
      assert ts == [ts[0]] + ts[1..];
    }
  }

  /** `filter_sents`: more tokens than the minimum and a norm not on the
      filter list. */
  predicate KeepSentence(s: Sentence, cfg: ChunkConfig) {
    |s.tokens| > cfg.minSentLen && s.norm !in cfg.filterSentText
  }

  /** The sentences `filter_sents` keeps, in order. */
  function KeptSentences(doc: Doc, cfg: ChunkConfig): (r: Doc)
    ensures |r| <= |doc|
    ensures forall i :: 0 <= i < |r| ==> KeepSentence(r[i], cfg)
  {
    if |doc| == 0 then []
    else (if KeepSentence(doc[0], cfg) then [doc[0]] else []) + KeptSentences(doc[1..], cfg)
  }

  /** Sentence filtering keeps exactly the sentences the predicate accepts. */
  lemma {:induction false} KeptSentencesMembers(doc: Doc, cfg: ChunkConfig, s: Sentence)
    ensures s in KeptSentences(doc, cfg) <==> s in doc && KeepSentence(s, cfg)
  {
    if |doc| > 0 {
      KeptSentencesMembers(doc[1..], cfg, s);
      assert doc == [doc[0]] + doc[1..];
    }
  }

  /** The longest norm of a non-empty document, counted in characters. */
  function MaxNormLen(doc: Doc): (r: nat)
    requires |doc| > 0
    ensures forall i :: 0 <= i < |doc| ==> |doc[i].norm| <= r
    ensures exists i :: 0 <= i < |doc| && |doc[i].norm| == r
  {
    if |doc| == 1 then |doc[0].norm|
    else
      var m := MaxNormLen(doc[1..]);
      assert forall i :: 1 <= i < |doc| ==> doc[i] == doc[1..][i - 1];
      if |doc[0].norm| >= m then |doc[0].norm| else m
  }

  /** `_norm_list`'s test: the list-chunked document has sentences, more of
      them than `min_list_norm_matches` (strictly), and its longest sentence
      norm is shorter than `max_sent_list_len`. */
  predicate UseListDoc(listDoc: Doc, cfg: ChunkConfig) {
    |listDoc| > 0 && |listDoc| > cfg.minListNormMatches && MaxNormLen(listDoc) < cfg.maxSentListLen
  }

  /** `_norm_list`: the list-chunked document when the test passes, the
      document itself otherwise. */
  function NormList(doc: Doc, listDoc: Doc, cfg: ChunkConfig): (r: Doc)
    ensures r == listDoc || r == doc
  {
    if UseListDoc(listDoc, cfg) then listDoc else doc
  }

  /** Where the list step runs at all (a positive threshold), the list
      version is taken iff it has more sentences than the threshold and every
      one of its sentence norms is shorter than the maximum. */
  lemma UseListDocIff(listDoc: Doc, cfg: ChunkConfig)
    requires cfg.minListNormMatches > 0
    ensures UseListDoc(listDoc, cfg)
            <==> |listDoc| > cfg.minListNormMatches
                 && forall i :: 0 <= i < |listDoc| ==> |listDoc[i].norm| < cfg.maxSentListLen
  {
    if |listDoc| > 0 {
      var m := MaxNormLen(listDoc);
      var w :| 0 <= w < |listDoc| && |listDoc[w].norm| == m;
    }
  }

  /** `token_len` of a document. */
  function TokenLen(doc: Doc): nat {
    if |doc| == 0 then 0 else |doc[0].tokens| + TokenLen(doc[1..])
  }

  /** A document has tokens iff one of its sentences does. */
  lemma {:induction false} TokenLenPositive(doc: Doc)
    ensures TokenLen(doc) > 0 <==> exists i :: 0 <= i < |doc| && |doc[i].tokens| > 0
  {
    if |doc| > 0 {
      TokenLenPositive(doc[1..]);
      if TokenLen(doc[1..]) > 0 {
        var i :| 0 <= i < |doc[1..]| && |doc[1..][i].tokens| > 0;
        assert |doc[i + 1].tokens| > 0;
      }
      forall i | 1 <= i < |doc| ensures doc[i] == doc[1..][i - 1] { }
    }
  }

  /** The sentence after token filtering; its norm is recomputed by the NLP
      library, here the `sentNorm` oracle. */
  function FilterSentenceTokens(s: Sentence, sentNorm: seq<Token> -> string): Sentence {
    var ts := KeptTokens(s.tokens);
    Sentence(ts, sentNorm(ts))
  }

  function FilterDocTokens(doc: Doc, sentNorm: seq<Token> -> string): (r: Doc)
    ensures |r| == |doc|
    ensures forall i :: 0 <= i < |r| ==> r[i] == FilterSentenceTokens(doc[i], sentNorm)
  {
    seq(|doc|, i requires 0 <= i < |doc| => FilterSentenceTokens(doc[i], sentNorm))
  }

  /** `_norm_doc`: filter tokens, then sentences, then (when the threshold is
      positive) chunk lists with the `listChunker` oracle; a document left
      without tokens is dropped. */
  function NormDoc(doc: Doc, cfg: ChunkConfig, sentNorm: seq<Token> -> string, listChunker: Doc -> Doc): (r: Option<Doc>)
    ensures r.Some? ==> TokenLen(r.value) > 0
    ensures var kept := KeptSentences(FilterDocTokens(doc, sentNorm), cfg);
            cfg.minListNormMatches <= 0 ==> r == (if TokenLen(kept) > 0 then Some(kept) else None)
  {
    var kept := KeptSentences(FilterDocTokens(doc, sentNorm), cfg);
    var normed := if cfg.minListNormMatches > 0 then NormList(kept, listChunker(kept), cfg) else kept;
    if TokenLen(normed) > 0 then Some(normed) else None
  }

  /** Without list chunking every sentence of a kept document passed both
      filters: its token count exceeds the minimum, its norm is not filtered,
      and each of its tokens is neither a separator nor blank. */
  lemma NormDocSentences(doc: Doc, cfg: ChunkConfig, sentNorm: seq<Token> -> string, listChunker: Doc -> Doc, i: int)
    requires cfg.minListNormMatches <= 0
    requires NormDoc(doc, cfg, sentNorm, listChunker).Some?
    requires 0 <= i < |NormDoc(doc, cfg, sentNorm, listChunker).value|
    ensures var s := NormDoc(doc, cfg, sentNorm, listChunker).value[i];
            && |s.tokens| > cfg.minSentLen
            && s.norm !in cfg.filterSentText
            && forall j :: 0 <= j < |s.tokens| ==> s.tokens[j].mimic != Some(SEPARATOR_FEATURE) && !IsBlank(s.tokens[j].norm)
  {
    var kept := KeptSentences(FilterDocTokens(doc, sentNorm), cfg);
    var s := kept[i];
    assert s in kept;
    KeptSentencesMembers(FilterDocTokens(doc, sentNorm), cfg, s);
    var k :| 0 <= k < |doc| && FilterDocTokens(doc, sentNorm)[k] == s;
    assert s.tokens == KeptTokens(doc[k].tokens);
  }

  /** The documents kept from a sequence of optional documents, in order. */
  function Present(ds: seq<Option<Doc>>): (r: seq<Doc>)
    ensures |r| <= |ds|
  {
    if |ds| == 0 then []
    else (if ds[0].Some? then [ds[0].value] else []) + Present(ds[1..])
  }

  /** A document is kept exactly when it is present. */
  lemma {:induction false} PresentMembers(ds: seq<Option<Doc>>, d: Doc)
    ensures d in Present(ds) <==> Some(d) in ds
  {
    if |ds| > 0 {
      PresentMembers(ds[1..], d);
      assert ds == [ds[0]] + ds[1..];
    }
  }

  /** `ChunkingParagraphFactory.create` from the section document and the
      paragraph chunker's pieces of it: no paragraphs when the section
      document has no sentences, otherwise the normalised pieces that keep
      tokens. */
  function ChunkParagraphs(sectionDoc: Doc, pieces: seq<Doc>, cfg: ChunkConfig,
                           sentNorm: seq<Token> -> string, listChunker: Doc -> Doc): (r: seq<Doc>)
    ensures |sectionDoc| == 0 ==> r == []
    ensures |r| <= |pieces|
    ensures forall i :: 0 <= i < |r| ==> TokenLen(r[i]) > 0
    ensures |sectionDoc| > 0 ==> forall d :: d in r <==>
              exists i :: 0 <= i < |pieces| && NormDoc(pieces[i], cfg, sentNorm, listChunker) == Some(d)
  {
    if |sectionDoc| == 0 then []
    else
      var normed := seq(|pieces|, i requires 0 <= i < |pieces| => NormDoc(pieces[i], cfg, sentNorm, listChunker));
      PresentNonEmpty(normed);
      NormedMembers(pieces, cfg, sentNorm, listChunker, normed);
      Present(normed)
  }

  /** The kept normalised pieces are exactly the pieces whose normalisation
      is present. */
  lemma NormedMembers(pieces: seq<Doc>, cfg: ChunkConfig, sentNorm: seq<Token> -> string,
                      listChunker: Doc -> Doc, normed: seq<Option<Doc>>)
    requires |normed| == |pieces|
    requires forall i :: 0 <= i < |pieces| ==> normed[i] == NormDoc(pieces[i], cfg, sentNorm, listChunker)
    ensures forall d :: d in Present(normed) <==>
              exists i :: 0 <= i < |pieces| && NormDoc(pieces[i], cfg, sentNorm, listChunker) == Some(d)
  {
    forall d ensures d in Present(normed) <==>
                     exists i :: 0 <= i < |pieces| && NormDoc(pieces[i], cfg, sentNorm, listChunker) == Some(d)
    {
      PresentMembers(normed, d);
      if Some(d) in normed {
        var i :| 0 <= i < |normed| && normed[i] == Some(d);
        assert NormDoc(pieces[i], cfg, sentNorm, listChunker) == Some(d);
      }
      if exists i :: 0 <= i < |pieces| && NormDoc(pieces[i], cfg, sentNorm, listChunker) == Some(d) {
        var i :| 0 <= i < |pieces| && NormDoc(pieces[i], cfg, sentNorm, listChunker) == Some(d);
        assert normed[i] == Some(d);
      }
    }
  }

  /** Every present document kept from normalised documents has tokens. */
  lemma {:induction false} PresentNonEmpty(ds: seq<Option<Doc>>)
    requires forall i :: 0 <= i < |ds| ==> ds[i].Some? ==> TokenLen(ds[i].value) > 0
    ensures forall i :: 0 <= i < |Present(ds)| ==> TokenLen(Present(ds)[i]) > 0
  {
    if |ds| > 0 {
      PresentNonEmpty(ds[1..]);
    }
  }

  /** The span the chunking factory cuts: the whole section when headers are
      included, the body otherwise. */
  function ChunkSpan(sec: Section, includeHeaders: bool): (r: Span)
    ensures includeHeaders ==> r == Lexspan(sec)
    ensures !includeHeaders ==> r == sec.bodySpan
    ensures r.begin <= sec.bodySpan.begin && sec.bodySpan.end <= r.end
  {
    if includeHeaders then Lexspan(sec) else sec.bodySpan
  }
}
