/** How a note is cut into sections: the whole-note default, the regular
    expression driver shared by every category-specific note, the discharge
    summary's choice between its two patterns, and the factory's choice of
    note class for a category. A category's section pattern is not modelled
    as a regular expression: it is an oracle from text to the ordered
    matches it finds. */
module Notes {
  import opened Wrappers
  import opened Text
  import opened Spans
  import opened Sections
  import GapFill

  /** `SectionAnnotatorType`: who or what produced a note's sections. */
  datatype SectionAnnotatorType = NoAnnotator | RegularExpression | Human | Model

  /** One match of a section pattern: the whole match, group 1 (the header)
      and group 2 (the body). */
  datatype RegexMatch = RegexMatch(whole: Span, header: Span, body: Span)

  /** A section pattern, run over a text, as the ordered list of its matches. */
  type Matcher = string -> seq<RegexMatch>

  /** The note classes: a plain note with one section, or a note whose
      sections come from a pattern. */
  datatype NoteClass = PlainNote | RegexNote(matcher: Matcher)

  /** `Note._get_sections`: one section spanning the whole note, id 0, named
      "default", without headers. */
  function DefaultSections(noteText: string): (r: seq<Section>)
    ensures |r| == 1
    ensures r[0].id == 0 && r[0].name == DEFAULT_SECTION_NAME && r[0].headerSpans == []
    ensures r[0].bodySpan == LexicalSpan(0, |noteText|)
  {
    [Section(0, DEFAULT_SECTION_NAME, [], LexicalSpan(0, |noteText|))]
  }

  /** The default section is the whole note: its lexical span is exactly
      `[0, |noteText|)`, its body is the note text, and it is empty exactly
      when the note is whitespace only. */
  lemma DefaultSectionIsWholeNote(noteText: string)
    ensures Lexspan(DefaultSections(noteText)[0]) == LexicalSpan(0, |noteText|)
    ensures Body(DefaultSections(noteText)[0], noteText) == noteText
    ensures IsEmpty(DefaultSections(noteText)[0], noteText) <==> IsBlank(noteText)
  {
    assert noteText[0..|noteText|] == noteText;
  }

  /** Section patterns mostly expect two newlines after a section, so they
      run over the note text with two newlines appended. */
  const MATCH_PADDING := "\n\n"

  function MatchText(noteText: string): string {
    noteText + MATCH_PADDING
  }

  /** The matches whose whole match is not empty, in order. Only the whole
      match counts: a match with an empty body survives. */
  function NonEmptyMatches(ms: seq<RegexMatch>): (r: seq<RegexMatch>)
    ensures |r| <= |ms|
    ensures forall i :: 0 <= i < |r| ==> Len(r[i].whole) > 0
  {
    if |ms| == 0 then []
    else if Len(ms[0].whole) > 0 then [ms[0]] + NonEmptyMatches(ms[1..])
    else NonEmptyMatches(ms[1..])
  }

  /** Dropping empty matches keeps exactly the non-empty ones, in order:
      the result is a subsequence, and a match is in it iff it is in the
      input with a non-empty whole match. */
  lemma {:induction false} NonEmptyMatchesMembers(ms: seq<RegexMatch>, m: RegexMatch)
    ensures m in NonEmptyMatches(ms) <==> m in ms && Len(m.whole) > 0
  {
    if |ms| > 0 {
      NonEmptyMatchesMembers(ms[1..], m);
      assert ms == [ms[0]] + ms[1..];
    }
  }

  /** Without empty matches nothing is dropped. */
  lemma {:induction false} NonEmptyMatchesIdentity(ms: seq<RegexMatch>)
    requires forall i :: 0 <= i < |ms| ==> Len(ms[i].whole) > 0
    ensures NonEmptyMatches(ms) == ms
  {
    if |ms| > 0 {
      NonEmptyMatchesIdentity(ms[1..]);
    }
  }

  /** One section per match, numbered from `first`: the header is group 1,
      the body group 2, and the name is inferred from the header text. */
  function MatchSections(ms: seq<RegexMatch>, noteText: string, first: int): (r: seq<Section>)
    ensures |r| == |ms|
    ensures forall i :: 0 <= i < |r| ==>
              r[i] == NewSection(first + i, None, [ms[i].header], ms[i].body, noteText)
  {
    if |ms| == 0 then []
    else [NewSection(first, None, [ms[0].header], ms[0].body, noteText)]
         + MatchSections(ms[1..], noteText, first + 1)
  }

  /** `RegexNote._get_sections`: the sections of the non-empty matches of the
      padded text, numbered 0, 1, 2, ..., or the default section when no
      match survives. */
  function RegexSections(matcher: Matcher, noteText: string): (r: seq<Section>)
    ensures |r| > 0
    ensures forall i :: 0 <= i < |r| ==> r[i].id == i
    ensures var kept := NonEmptyMatches(matcher(MatchText(noteText)));
            (|kept| == 0 ==> r == DefaultSections(noteText))
            && (|kept| > 0 ==> |r| == |kept|)
  {
    var kept := NonEmptyMatches(matcher(MatchText(noteText)));
    if |kept| == 0 then DefaultSections(noteText) else MatchSections(kept, noteText, 0)
  }

  /** A regex section is the section of the surviving match at its
      position: one header span (group 1), the body span (group 2), and the
      name inferred from the header's text in the note (not the padded text). */
  lemma RegexSectionOfMatch(matcher: Matcher, noteText: string, i: int)
    requires 0 <= i < |NonEmptyMatches(matcher(MatchText(noteText)))|
    ensures 0 <= i < |RegexSections(matcher, noteText)|
    ensures RegexSections(matcher, noteText)[i].headerSpans
              == [NonEmptyMatches(matcher(MatchText(noteText)))[i].header]
    ensures RegexSections(matcher, noteText)[i].bodySpan
              == NonEmptyMatches(matcher(MatchText(noteText)))[i].body
    ensures RegexSections(matcher, noteText)[i].name
              == InferName([Slice(noteText, NonEmptyMatches(matcher(MatchText(noteText)))[i].header.begin,
                                            NonEmptyMatches(matcher(MatchText(noteText)))[i].header.end)])
  {
    var kept := NonEmptyMatches(matcher(MatchText(noteText)));
    var h := kept[i].header;
    assert Headers([h], noteText) == [Slice(noteText, h.begin, h.end)];
  }

  /** Consecutive ids are unique. */
  lemma ConsecutiveIdsUnique(secs: seq<Section>)
    requires forall i :: 0 <= i < |secs| ==> secs[i].id == i
    ensures UniqueIds(secs)
  {
  }

  /** The sections of any note, keyed by id, lose nothing: ids are unique. */
  lemma RegexSectionsLossless(matcher: Matcher, noteText: string)
    ensures DictValues(RegexSections(matcher, noteText)) == RegexSections(matcher, noteText)
  {
    ConsecutiveIdsUnique(RegexSections(matcher, noteText));
    DictValuesOfUniqueIds(RegexSections(matcher, noteText));
  }

  /** The sections a note of the given class produces. */
  function NoteSections(c: NoteClass, noteText: string): (r: seq<Section>)
    ensures |r| > 0
    ensures forall i :: 0 <= i < |r| ==> r[i].id == i
  {
    match c
    case PlainNote => DefaultSections(noteText)
    case RegexNote(m) => RegexSections(m, noteText)
  }

  /** `_get_section_annotator_type`: regular expression notes say so, plain
      notes report none. */
  function AnnotatorType(c: NoteClass): (r: SectionAnnotatorType)
    ensures r == RegularExpression <==> c.RegexNote?
    ensures r == NoAnnotator <==> c.PlainNote?
  {
    match c
    case PlainNote => NoAnnotator
    case RegexNote(_) => RegularExpression
  }

  /** Every note has at least one section and keying them by id loses none,
      so gap filling a note's sections without dropping blank gaps covers
      every character of the note. */
  lemma NoteGapFillCovers(c: NoteClass, noteText: string, p: int)
    requires 0 <= p < |noteText|
    ensures var r := GapFill.GapFill(NoteSections(c, noteText), noteText, false);
            exists i :: 0 <= i < |r| && Contains(Lexspan(r[i].sec), p)
  {
    var secs := NoteSections(c, noteText);
    ConsecutiveIdsUnique(secs);
    DictValuesOfUniqueIds(secs);
    GapFill.GapFillCovers(secs, noteText, false, p);
  }

  /** The literal whose presence selects the discharge summary's paragraph
      pattern. */
  const HPI_MARKER := "HISTORY OF PRESENT ILLNESS:"

  /** The discharge summary's two section patterns. */
  datatype DischargePattern = ParaPattern | HeaderPattern

  /** `DischargeSummaryNote._get_matches`: the paragraph pattern when the
      text contains the marker, the header pattern otherwise. */
  function ChooseDischargePattern(text: string): (r: DischargePattern)
    ensures r == ParaPattern <==> exists i :: OccursAt(text, HPI_MARKER, i)
  {
    if Find(text, HPI_MARKER) > -1 then ParaPattern else HeaderPattern
  }

  /** The discharge summary matcher built from its two pattern oracles. */
  function DischargeMatcher(para: Matcher, header: Matcher): Matcher {
    text => if ChooseDischargePattern(text) == ParaPattern then para(text) else header(text)
  }

  /** Every character past the note in the padded text is a newline. */
  lemma PaddingIsNewlines(noteText: string, j: int)
    requires 0 <= j < |MatchText(noteText)|
    requires MatchText(noteText)[j] != '\n'
    ensures j < |noteText|
  {
  }

  /** The marker holds no newline, so appending the padding neither adds
      nor removes occurrences: the choice made on the padded text is the
      choice the note text itself dictates. */
  lemma DischargeChoiceIgnoresPadding(noteText: string)
    ensures ChooseDischargePattern(MatchText(noteText)) == ParaPattern
            <==> exists i :: OccursAt(noteText, HPI_MARKER, i)
  {
    var ext := MatchText(noteText);
    if i :| OccursAt(ext, HPI_MARKER, i) {
      var last := i + |HPI_MARKER| - 1;
      assert ext[last] == ext[i..i + |HPI_MARKER|][|HPI_MARKER| - 1] == ':';
      PaddingIsNewlines(noteText, last);
      assert noteText[i..i + |HPI_MARKER|] == ext[i..i + |HPI_MARKER|];
      assert OccursAt(noteText, HPI_MARKER, i);
    }
    if i :| OccursAt(noteText, HPI_MARKER, i) {
      assert ext[i..i + |HPI_MARKER|] == noteText[i..i + |HPI_MARKER|];
      assert OccursAt(ext, HPI_MARKER, i);
    }
  }

  /** `NoteFactory`: the configuration section to use per note category and
      the section for notes of unmapped categories. */
  datatype NoteFactory = NoteFactory(categoryToNote: map<string, string>, defaultNoteSection: string)

  /** `NoteFactory._create_from_note_event`: the configuration section that
      creates the note: the one asked for, else the category's, else the
      default. */
  function SectionForEvent(f: NoteFactory, category: string, section: Option<string>): (r: string)
    ensures section.Some? ==> r == section.value
    ensures section.None? && category in f.categoryToNote ==> r == f.categoryToNote[category]
    ensures section.None? && category !in f.categoryToNote ==> r == f.defaultNoteSection
  {
    match section
    case Some(s) => s
    case None => if category in f.categoryToNote then f.categoryToNote[category] else f.defaultNoteSection
  }

  /** `NoteFactory.create`: no section asked for. */
  function Create(f: NoteFactory, category: string): string {
    SectionForEvent(f, category, None)
  }

  /** `NoteFactory.create_default`: always the default section. */
  function CreateDefault(f: NoteFactory, category: string): string {
    SectionForEvent(f, category, Some(f.defaultNoteSection))
  }

  /** `DefaultNoteFactory.create` delegates to `create_default`. */
  function DefaultFactoryCreate(f: NoteFactory, category: string): string {
    CreateDefault(f, category)
  }

  /** `create` falls back to the default exactly for unmapped categories
      (or categories mapped to the default), `create_default` and the
      default-only factory never look at the category. */
  lemma FactoryDispatch(f: NoteFactory, category: string)
    ensures Create(f, category) == f.defaultNoteSection
            <==> category !in f.categoryToNote || f.categoryToNote[category] == f.defaultNoteSection
    ensures category in f.categoryToNote ==> Create(f, category) == f.categoryToNote[category]
    ensures forall other :: CreateDefault(f, category) == CreateDefault(f, other) == f.defaultNoteSection
    ensures DefaultFactoryCreate(f, category) == f.defaultNoteSection
  {
  }
}
