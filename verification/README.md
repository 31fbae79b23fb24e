# Clinical note sections, paragraphs and admissions — a Dafny model

This project models the core of a library that reads MIMIC-III clinical
notes. The library splits a note's text into sections and its section bodies
into paragraphs. It fills the gaps between sections with synthetic sections.
It groups an admission's notes, finds duplicated notes and classifies tokens
of the text.

Everything is modelled as immutable datatypes and pure functions over `seq`.
Properties are stated as contracts and lemmas.

Modules, one per file, following the library's structure:

| file | module | what it models |
|---|---|---|
| wrappers.dfy | Wrappers | `Option` and `Result`, used for the error paths |
| text.dfy | Text | Python string primitives the code relies on: `str.isspace`, `strip`/`rstrip`, clamped slicing, ASCII `lower`/`capitalize`, `replace`, `re.sub('[…]+', '-', …)`, `find` |
| spans.dfy | Spans | `LexicalSpan` (half-open, `begin <= end`), `widen`, `gaps`, ordering by `(begin, end)`, a stable insertion sort |
| grouping.dfy | Grouping | `defaultdict(list)` grouping by a key; each bucket keeps its elements in first-seen order, but the order of the keys is not modelled (a Dafny `map` has none, while the `frozendict`s built in `notes_by_category` and `sections_by_name` keep first-seen key order) |
| sections.dfy | Sections | `Section` (name inference, headers, body, `lexspan`, `is_empty`, `__len__`, header/name conversion) and `SectionContainer` (`sections` keyed by id, `sections_ordered`, `sections_by_name`, `__getitem__`, `__iter__`) |
| notes.dfy | Notes | `Note._get_sections` (the default section), `RegexNote._get_sections` over an abstract matcher, the discharge-summary pattern choice, the annotator type, and `NoteFactory` dispatch |
| gapfill.dfy | GapFill | both `GapSectionContainer._get_sections` variants (with and without `filter_empty`) |
| paragraphs.dfy | Paragraphs | the whitespace paragraph factory (the `\n[\s.]*\n` separator search and mark pairing) and the chunking factory's filters, list test and pruning |
| admission.dfy | Admission | `HospitalAdmission.notes_by_category`, `notes_by_id`, `__getitem__`/`__contains__`, `get_duplicate_notes`, `get_non_duplicate_notes` |
| domain.dfy | Domain | the row-id check, `NoteEvent` construction (`hadm_id` check, stripping), `NoteEvent.id`, error messages |
| tokens.dfy | Tokens | `MimicTokenDecorator` in both tokenizer copies and the older pseudo-token policy in the package's `__init__.py` |

`LexicalSpan` comes from a library whose source is not part of this model.
It is defined here with the semantics the code relies on:
- `widen` is (minimum begin, maximum end).
- `gaps(spans, end)` is the complement of the spans within `[0, end)`, in order, without empty pieces. The walk over the sorted spans starts a new gap after every span, so an empty span inside an uncovered stretch splits it into two touching gaps; without empty spans every uncovered stretch is exactly one gap.
- Spans are ordered by `(begin, end)`.

A section pattern is an abstract `Matcher`. It maps a text to its ordered
matches, each with the whole match, group 1 and group 2. The whitespace
paragraph separator `\n[\s.]*\n` is modelled concretely, including the
leftmost-longest behaviour of `re.finditer`. The token patterns are modelled
concretely as string predicates:
- the `[**…**]` mask;
- runs of five `_`, `*` or `-`;
- the `First Name` and `Last Name` prefixes;
- the `21dd-d-d` date.

Where a docstring and the code differ, the model follows the code:
- The regex driver drops a match when its *whole* match is empty. A match with an empty body survives (src/zensols/mimic/regexnote.py:31).
- `sections_ordered` is documented as "in order as they appear in the note". It sorts by section id. `__iter__` sorts by lexical span (src/python/zensols/mimic/note.py:387-394).
- With `filter_empty`, a whitespace-only gap gets no section, so the filled container may leave whitespace uncovered. The variant in util.py always covers the whole text.
- `get_non_duplicate_notes` with an empty tuple of duplicate sets is an error (`reduce` without an initial value). It is not an empty result.
- `_compile_regexes` unpacks three values from every entry, including the documented two-element replacement pairs (see Findings).

## Model

| member | source | states |
|---|---|---|
| Text.Slice | src/python/zensols/mimic/note.py:149-153 | Python slicing with clamped bounds: the exact substring when the bounds are in range, never longer than the string or the range, empty past the end |
| Text.Strip | src/python/zensols/mimic/domain.py:363 | the stripped string neither starts nor ends with whitespace |
| Text.StripShape | src/python/zensols/mimic/domain.py:363 | the original string is whitespace, then the stripped string, then whitespace: stripping removes only whitespace from the ends |
| Text.StripIdempotent | src/python/zensols/mimic/domain.py:363 | stripping a stripped category changes nothing |
| Text.RStrip | src/python/zensols/mimic/domain.py:364 | the result is a prefix of the text, ends in no whitespace, and only whitespace was cut |
| Text.RStripIdempotent | src/python/zensols/mimic/domain.py:364 | right-stripping a right-stripped text changes nothing |
| Text.BlankIffStripEmpty | src/python/zensols/mimic/note.py:221 | `len(s.strip()) == 0` holds exactly when every character is whitespace |
| Text.Lower | src/python/zensols/mimic/note.py:226 | same length, every character lower-cased |
| Text.Capitalize | src/python/zensols/mimic/note.py:235 | same length, first character upper-cased, the rest lower-cased |
| Text.ReplaceChar | src/python/zensols/mimic/note.py:226 | same length, every occurrence of one character replaced and every other character kept |
| Text.CollapseIdempotent | src/python/zensols/mimic/domain.py:390 | collapsing separator runs to "-" a second time changes nothing |
| Text.Find | src/zensols/mimic/regexnote.py:67 | -1 exactly when the pattern occurs nowhere; otherwise the lowest index where it occurs |
| Spans.DisjointIffNoSharedOffset | src/python/zensols/mimic/util.py:63-66 | two spans are disjoint exactly when no character offset lies in both |
| Spans.Widen | src/python/zensols/mimic/note.py:199-200 | the widened span contains every given span |
| Spans.WidenAttained | src/python/zensols/mimic/note.py:199-200 | the widened span's begin and end are each attained by one of the spans, so it is the smallest containing span |
| Spans.SortBy | src/python/zensols/mimic/note.py:636 | sorting is a permutation and leaves the spans in `(begin, end)` order |
| Spans.SortByStable | src/python/zensols/mimic/note.py:636 | the sort is stable: for every key, the entries with that key come out in their input order |
| Spans.SortPreservesPairwise | src/python/zensols/mimic/note.py:636 | sorting keeps any relation that held between every two distinct entries (used for disjointness) |
| Spans.GapsFromComplement | src/python/zensols/mimic/util.py:79-81 | walking spans sorted by begin, an offset is in a produced gap exactly when no span covers it |
| Spans.Gaps | src/python/zensols/mimic/note.py:617-619 | gaps are non-empty, end by `end`, and come in order without overlap; two neighbouring gaps touch only where an empty input span sits at their common offset |
| Spans.GapsMaximal | src/python/zensols/mimic/note.py:617-619 | when no input span is empty, no two gaps touch, so every uncovered stretch is a single gap |
| Spans.GapsComplement | src/python/zensols/mimic/note.py:617-619 | an offset below `end` lies in a gap exactly when no span covers it |
| Spans.GapsAvoidSpans | src/python/zensols/mimic/util.py:79-81 | every gap is disjoint from every input span |
| Spans.DisjointUnionCard | src/python/zensols/mimic/note.py:330-331 | pairwise disjoint spans cover as many offsets as their lengths add up to |
| Grouping.FilterKey | src/python/zensols/mimic/adm.py:68-71 | the in-order selection of the elements with a key: only elements of the input, all with that key |
| Grouping.FilterKeyCounts | src/python/zensols/mimic/adm.py:68-71 | the selection holds each element with the key exactly as often as the input does, and no other |
| Grouping.FilterKeyAbsent | src/python/zensols/mimic/adm.py:68-71 | a key no element has selects nothing |
| Grouping.GroupByBuckets | src/python/zensols/mimic/adm.py:68-71 | every element's key has a bucket, and each bucket is the in-order selection of its key's elements |
| Grouping.GroupByPartitions | src/python/zensols/mimic/note.py:400-404 | the buckets partition the input: each element sits in its own key's bucket, each as often as in the input, and in no other |
| Sections.Headers | src/python/zensols/mimic/note.py:143-147 | one header text per header span, each the note text under that span |
| Sections.NewSection | src/python/zensols/mimic/note.py:129-136 | an explicit name is kept; without one a headerless section is "unknown", otherwise the headers joined by spaces, separator runs collapsed to "-", lower-cased |
| Sections.InferredNameIsSlug | src/python/zensols/mimic/note.py:133-136 | an inferred name contains no `_`, `/` or space and no upper-case letter |
| Sections.NameOfSeparatedWords | src/python/zensols/mimic/note.py:135-136 | two words around one separator run give the lower-cased words joined by a single "-" (as "Discharge Medications" gives "discharge-medications") |
| Sections.WidenOntoIsWiden | src/python/zensols/mimic/note.py:199-200 | folding the header spans onto the body span is widening over the chained sequence |
| Sections.Lexspan | src/python/zensols/mimic/note.py:195-200 | the lexical span contains the body span and every header span |
| Sections.LexspanAttained | src/python/zensols/mimic/note.py:195-200 | the lexical span is the widening of body and headers, and its begin and end come from one of them |
| Sections.IsEmpty | src/python/zensols/mimic/note.py:218-221 | empty exactly when there are no header spans and the body text is whitespace only |
| Sections.SectionLen | src/python/zensols/mimic/note.py:330-331 | at least the body length, and exactly the body length for a headerless section |
| Sections.SectionLenWithinLexspan | src/python/zensols/mimic/note.py:330-331 | when body and header spans do not overlap, the section length is at most its lexical span's length |
| Sections.HeaderToName | src/python/zensols/mimic/note.py:223-226 | same length; each space becomes "-" and every character is lower-cased |
| Sections.NameToHeader | src/python/zensols/mimic/note.py:228-235 | same length as the name |
| Sections.HeaderRoundTrip | src/python/zensols/mimic/note.py:223-235 | for a header without "-", name then header gives back the capitalized header (the heuristic is lossy only in letter case) |
| Sections.NameRoundTrip | src/python/zensols/mimic/note.py:223-235 | a lower-case name without spaces survives header conversion and back unchanged |
| Sections.DictValues | src/python/zensols/mimic/note.py:378-385 | the values of the id-keyed dictionary have unique ids and are no more than the sections |
| Sections.DictValuesFromSections | src/python/zensols/mimic/note.py:384-385 | every dictionary value is one of the sections |
| Sections.DictValuesHasIds | src/python/zensols/mimic/note.py:384-385 | every section's id is a key of the dictionary |
| Sections.DictValuesLastWins | src/python/zensols/mimic/note.py:384-385 | for a repeated id the last section with that id is the one kept |
| Sections.DictValuesOfUniqueIds | src/python/zensols/mimic/note.py:384-385 | with unique ids the dictionary keeps every section, in order |
| Sections.Lookup | src/python/zensols/mimic/note.py:590-591 | indexing by id finds the last section with that id, and fails exactly when no section has it |
| Sections.SectionsOrdered | src/python/zensols/mimic/note.py:387-392 | a permutation of the dictionary values in strictly increasing id order |
| Sections.Iterate | src/python/zensols/mimic/note.py:593-594 | a permutation of the dictionary values in `(begin, end)` order of lexical span |
| Sections.SectionsByNamePartitions | src/python/zensols/mimic/note.py:394-405 | each section appears exactly once, under its own name, and each group lists its sections in dictionary order |
| Notes.DefaultSections | src/python/zensols/mimic/note.py:656-660 | exactly one section: id 0, named "default", no headers, body `[0, len(text))` |
| Notes.DefaultSectionIsWholeNote | src/python/zensols/mimic/note.py:656-660 | the default section spans the whole note, its body is the note text, and it is empty exactly when the note is blank |
| Notes.NonEmptyMatches | src/zensols/mimic/regexnote.py:31 | every surviving match has a non-empty whole match |
| Notes.NonEmptyMatchesMembers | src/zensols/mimic/regexnote.py:31 | a match survives exactly when it was produced and its whole match is non-empty |
| Notes.NonEmptyMatchesIdentity | src/zensols/mimic/regexnote.py:31 | when no match is empty, filtering keeps them all in order |
| Notes.MatchSections | src/zensols/mimic/regexnote.py:34-45 | one section per match in order, ids counting up, header span group 1, body span group 2, name inferred |
| Notes.RegexSections | src/zensols/mimic/regexnote.py:27-50 | never empty and ids are 0..n-1; the default section when no non-empty match survives the matcher on the text plus "\n\n", otherwise one section per surviving match |
| Notes.RegexSectionOfMatch | src/zensols/mimic/regexnote.py:36-43 | the i-th section has the i-th surviving match's group 1 as its only header span, group 2 as body, and the name inferred from the header text |
| Notes.RegexSectionsLossless | src/zensols/mimic/regexnote.py:38-45 | keying the regex sections by id loses none of them |
| Notes.NoteSections | src/zensols/mimic/regexnote.py:27-50 | every note class yields a non-empty section list with ids 0..n-1 |
| Notes.AnnotatorType | src/zensols/mimic/regexnote.py:24-25 | regex notes report the regular-expression annotator and plain notes report none, and only they do |
| Notes.NoteGapFillCovers | src/python/zensols/mimic/util.py:74-100 | filling a note's sections without filtering covers every character of the note |
| Notes.ChooseDischargePattern | src/zensols/mimic/regexnote.py:65-71 | the "para" pattern exactly when the text contains "HISTORY OF PRESENT ILLNESS:", the "header" pattern otherwise |
| Notes.DischargeChoiceIgnoresPadding | src/zensols/mimic/regexnote.py:29-30 | choosing on the padded text is choosing on the note text |
| Notes.SectionForEvent | src/python/zensols/mimic/note.py:747-771 | an explicit section wins; else the category's configured section; else the default section |
| Notes.FactoryDispatch | src/python/zensols/mimic/note.py:773-792 | `create` yields the default exactly for unmapped categories (or ones mapped to the default); `create_default` ignores the category |
| GapFill.GapSection | src/python/zensols/mimic/note.py:625-630 | a gap section has id -1, the name "unknown", no headers, and the gap as body and lexical span |
| GapFill.DroppedIffEmpty | src/python/zensols/mimic/note.py:631-632 | a gap is dropped exactly when filtering is on and its section would be empty |
| GapFill.KeptGaps | src/python/zensols/mimic/note.py:624-634 | the kept gaps are some of the gaps; without filtering, all of them |
| GapFill.KeptGapsMembers | src/python/zensols/mimic/note.py:631-634 | a gap is kept exactly when it is not dropped |
| GapFill.KeptGapsChained | src/python/zensols/mimic/note.py:624-634 | kept gaps stay in order without overlap |
| GapFill.GapSections | src/python/zensols/mimic/note.py:622-634 | one gap section per kept gap, in gap order |
| GapFill.Renumber | src/python/zensols/mimic/note.py:637-640 | each section's id becomes its position and its previous id is recorded as original id; nothing else changes |
| GapFill.RestoreRenumber | src/python/zensols/mimic/note.py:637-640 | putting the original ids back after renumbering gives the input again |
| GapFill.SortRenumber | src/python/zensols/mimic/note.py:635-640 | ids are 0..n-1, the sections with original ids restored are a permutation of the input, ordered by lexical span |
| GapFill.GapFill | src/python/zensols/mimic/note.py:612-641 | empty exactly when the delegate has no sections; otherwise ids 0..n-1, lexical-span order, and a permutation of the delegate's sections plus the gap sections |
| GapFill.GapFillCount | src/python/zensols/mimic/util.py:85-94 | the result holds one section per delegate section and one per kept gap; without filtering, one per gap |
| GapFill.GapFillOriginalIds | src/python/zensols/mimic/note.py:637-640 | each filled section with its original id restored is a delegate section, or a headerless "unknown" gap section with original id -1 |
| GapFill.SortRenumberKeeps | src/python/zensols/mimic/note.py:636-640 | every input section's lexical span appears in the sorted result |
| GapFill.SortRenumberDisjoint | src/python/zensols/mimic/note.py:636-640 | sorting and renumbering keeps pairwise disjoint lexical spans disjoint |
| GapFill.GapAvoidsSection | src/python/zensols/mimic/util.py:79-91 | every gap section is disjoint from every delegate section |
| GapFill.GapSectionsPairwise | src/python/zensols/mimic/note.py:624-634 | gap sections of chained gaps are pairwise disjoint |
| GapFill.CombinedPairwise | src/python/zensols/mimic/util.py:85-94 | with disjoint delegate sections, delegate and gap sections together are pairwise disjoint |
| GapFill.GapFillDisjoint | src/python/zensols/mimic/util.py:79-95 | with disjoint delegate sections, the filled sections' lexical spans are pairwise disjoint |
| GapFill.CombinedCovers | src/python/zensols/mimic/note.py:624-635 | each character of the note lies in a delegate or gap section, unless filtering dropped the whitespace gap it lies in |
| GapFill.GapFillWithin | src/python/zensols/mimic/util.py:79-95 | when the delegate's sections end within the note text, every filled section does too, so together with GapFillCovers the union of the filled sections is exactly the note |
| GapFill.GapFillCovers | src/python/zensols/mimic/note.py:631 | every character of the note is covered by a filled section, or filtering is on and the character is whitespace |
| GapFill.BlankGapCharacter | src/python/zensols/mimic/note.py:631-632 | every character of a whitespace-only gap is whitespace |
| Paragraphs.Separators | src/python/zensols/mimic/parafac.py:23 | every separator match lies in the body, is text `\n[\s.]*\n` matches, and matches come in order without overlap |
| Paragraphs.SeparatorsFromSound | src/python/zensols/mimic/parafac.py:30 | a search from any offset yields matches at or after it, each matched by the pattern, in order without overlap |
| Paragraphs.SeparatorsLeftmost | src/python/zensols/mimic/parafac.py:30 | if the pattern matches anywhere at or after the search start, the search finds a match beginning no later |
| Paragraphs.SeparatorsLongest | src/python/zensols/mimic/parafac.py:23 | no found match can be extended to a longer match from the same start (the greedy `[\s.]*`) |
| Paragraphs.PairUpMarks | src/python/zensols/mimic/parafac.py:29-35 | pairing the marks (body begin, each match's shifted start and end, body end) gives the spans between consecutive separators |
| Paragraphs.PairSpans | src/python/zensols/mimic/parafac.py:29-35 | one more paragraph than separator matches; the first begins at the body begin, the last ends at the body end, and each paragraph ends where the next separator begins |
| Paragraphs.PairSpansWithin | src/python/zensols/mimic/parafac.py:29-35 | for ordered matches inside the body, paragraphs lie within the body span and come in order |
| Paragraphs.PairSpansSeparated | src/python/zensols/mimic/parafac.py:30-35 | the text between consecutive paragraphs is exactly one separator match |
| Paragraphs.BodyFitsSpan | src/python/zensols/mimic/note.py:149-153 | the body text is no longer than its span |
| Paragraphs.ParagraphSpans | src/python/zensols/mimic/parafac.py:25-35 | as many paragraphs as separators plus one, from body begin to body end, with exactly a separator match between neighbours |
| Paragraphs.ParagraphsWithinBody | src/python/zensols/mimic/parafac.py:25-35 | paragraph spans lie within the body span and are ascending without overlap |
| Paragraphs.KeepToken | src/python/zensols/mimic/parafac.py:104-107 | a token is kept exactly when it is not tagged separator and its norm is not whitespace only |
| Paragraphs.KeptTokens | src/python/zensols/mimic/parafac.py:115-116 | the remaining tokens are all kept tokens |
| Paragraphs.KeptTokensMembers | src/python/zensols/mimic/parafac.py:115-116 | a token remains exactly when it was in the sentence and passes the filter |
| Paragraphs.KeptSentences | src/python/zensols/mimic/parafac.py:120 | the remaining sentences all have more than `min_sent_len` tokens and a norm not in `filter_sent_text` |
| Paragraphs.KeptSentencesMembers | src/python/zensols/mimic/parafac.py:109-111 | a sentence remains exactly when it was in the document and passes the filter |
| Paragraphs.MaxNormLen | src/python/zensols/mimic/parafac.py:80 | the longest sentence norm: no norm is longer and one attains it |
| Paragraphs.NormList | src/python/zensols/mimic/parafac.py:75-84 | the result is the list-chunked document or the original one |
| Paragraphs.UseListDocIff | src/python/zensols/mimic/parafac.py:79-84 | the list document is used exactly when it has more than `min_list_norm_matches` sentences (strictly) and every sentence norm is shorter than `max_sent_list_len` |
| Paragraphs.FilterDocTokens | src/python/zensols/mimic/parafac.py:114-117 | every sentence keeps its position and loses exactly its filtered-out tokens |
| Paragraphs.NormDoc | src/python/zensols/mimic/parafac.py:94-132 | a returned document has tokens; without list chunking it is the filtered document exactly when that has tokens, and nothing otherwise |
| Paragraphs.NormDocSentences | src/python/zensols/mimic/parafac.py:104-121 | every sentence of a normalized document passes the sentence filter and all its tokens pass the token filter |
| Paragraphs.Present | src/python/zensols/mimic/parafac.py:156-157 | dropping missing documents never adds any |
| Paragraphs.PresentMembers | src/python/zensols/mimic/parafac.py:156-157 | a document is kept exactly when it was produced (not `None`) |
| Paragraphs.PresentNonEmpty | src/python/zensols/mimic/parafac.py:156-157 | if every present document has tokens, so does every document kept |
| Paragraphs.ChunkParagraphs | src/python/zensols/mimic/parafac.py:134-157 | a section document without sentences gives no paragraphs; otherwise a document is a paragraph exactly when it is the present normalisation of one of the chunker's pieces; every paragraph given has tokens |
| Paragraphs.ChunkSpan | src/python/zensols/mimic/parafac.py:139-142 | with headers the section's lexical span, without them the body span; either way it contains the body span |
| Admission.NotesByCategoryPartitions | src/python/zensols/mimic/adm.py:61-71 | every note sits in its category's group, and each group holds exactly its category's notes, as often as in the admission, in admission order |
| Admission.NotesById | src/python/zensols/mimic/adm.py:73-77 | every note's row id is a key, and each key maps to a note with that row id |
| Admission.NotesByIdLastWins | src/python/zensols/mimic/adm.py:77 | for a repeated row id, the last note with it is the one kept |
| Admission.NoteWithId | src/python/zensols/mimic/adm.py:251-252 | indexing finds a note with that row id, and fails exactly when there is none |
| Admission.HasNote | src/python/zensols/mimic/adm.py:254-255 | membership holds exactly when some note has the row id, exactly when indexing succeeds |
| Admission.Prefix | src/python/zensols/mimic/adm.py:94 | `text[:n]`: a prefix of the text: of length `min(n, len)` for non-negative `n`, and with `-n` characters cut from the end (or empty) for negative `n` |
| Admission.Keys | src/python/zensols/mimic/adm.py:91-94 | one comparison key per note: the whole text, or its first `text_start` characters |
| Admission.KeysInOrder | src/python/zensols/mimic/adm.py:89-95 | the dictionary's keys: no repeats, every note's key present, and only notes' keys |
| Admission.DupKeys | src/python/zensols/mimic/adm.py:96-97 | exactly the keys shared by more than one row id are kept |
| Admission.DupKeysDistinct | src/python/zensols/mimic/adm.py:96-97 | kept keys do not repeat |
| Admission.DuplicateNotes | src/python/zensols/mimic/adm.py:79-97 | each reported set has more than one row id and is the set of row ids of all notes sharing some note's key |
| Admission.DuplicatesFound | src/python/zensols/mimic/adm.py:79-97 | two notes with the same key and different row ids are reported in one set together |
| Admission.SharedKeyReported | src/python/zensols/mimic/adm.py:79-97 | a key shared by more than one row id has its full row-id set reported |
| Admission.DuplicateSetsDisjoint | src/python/zensols/mimic/adm.py:89-95 | with unique row ids the reported sets are pairwise disjoint |
| Admission.Union | src/python/zensols/mimic/adm.py:126 | the union of the duplicate sets: it contains each set and nothing outside them |
| Admission.Singles | src/python/zensols/mimic/adm.py:129-131 | only notes whose row id is in no duplicate set, flagged False |
| Admission.SinglesAppend | src/python/zensols/mimic/adm.py:129-131 | the singles of two stretches of notes are the singles of the first followed by those of the second, so the non-duplicates keep admission order |
| Admission.SinglesCount | src/python/zensols/mimic/adm.py:129-131 | each note in no duplicate set appears exactly as often as in the admission, and the others not at all |
| Admission.FirstPreferred | src/python/zensols/mimic/adm.py:116-138 | the first note in the set that the filter accepts, if any; none exactly when no note qualifies |
| Admission.Flagged | src/python/zensols/mimic/adm.py:142 | the representatives in order, each flagged True |
| Admission.AnyMember | src/python/zensols/mimic/adm.py:141 | an arbitrary element of a non-empty set |
| Admission.PickRepresentative | src/python/zensols/mimic/adm.py:133-142 | the note chosen is in the set and is the first preferred one when there is one; an empty set or an unknown id is an error |
| Admission.NonDuplicateNotes | src/python/zensols/mimic/adm.py:99-143 | no duplicate sets is an error; it succeeds whenever every set is non-empty and holds only known row ids; a result is the non-duplicates flagged False in order, then one representative per set, in set order, flagged True |
| Domain.CheckRowId | src/python/zensols/mimic/domain.py:49-52 | a record succeeds exactly when it has a row id; without one it fails with the "row id" not-found error |
| Domain.NewNoteEvent | src/python/zensols/mimic/domain.py:359-365 | fails without a row id or hadm id; otherwise keeps the ids, strips the category and right-strips the text |
| Domain.NoteEventStripped | src/python/zensols/mimic/domain.py:363-364 | a constructed event's category has no whitespace at either end and its text none at the end |
| Domain.NoteEventRebuilt | src/python/zensols/mimic/domain.py:363-364 | constructing from an already normalized event gives it back unchanged |
| Domain.CategoryId | src/python/zensols/mimic/domain.py:387-390 | the id contains no "/", no space and no upper-case letter |
| Domain.CategoryIdOfWord | src/python/zensols/mimic/domain.py:390 | a category without "/" or space is only lower-cased |
| Domain.CategoryIdOfRun | src/python/zensols/mimic/domain.py:390 | a word followed by a run of "/" and spaces becomes the lower-cased word, one "-", and the id of the rest; with CategoryIdOfWord this fixes every id |
| Domain.CategoryIdOfSeparatedWords | src/python/zensols/mimic/domain.py:390 | two words around a run of "/" and spaces become the lower-cased words joined by one "-" |
| Domain.CategoryIdIdempotent | src/python/zensols/mimic/domain.py:387-390 | an id is its own id |
| Domain.NatToString | src/python/zensols/mimic/domain.py:27 | a decimal rendering: non-empty, digits only, no leading zero |
| Domain.NatToStringRoundTrip | src/python/zensols/mimic/domain.py:27 | reading the digits back gives the number |
| Domain.Truncated | src/python/zensols/mimic/domain.py:34-36 | the text itself up to 50 characters; longer texts become their first 50 characters plus "..." |
| Domain.ParseErrorMessage | src/python/zensols/mimic/domain.py:30-37 | the message is at most 72 characters and shows the text's (possibly truncated) prefix, and the error keeps the full text |
| Tokens.MaskMatch | src/python/zensols/mimic/tokenizer.py:64 | a match exactly when the token starts with `[**`, then a non-empty run without `*`, then `**]` (anything may follow); the run is the captured group |
| Tokens.MaskAround | src/python/zensols/mimic/tokenizer.py:64 | a non-empty star-free text wrapped in `[**` and `**]` matches with that text captured |
| Tokens.MaskExcludesSeparator | src/zensols/mimic/tokenizer.py:84-85 | no token matches both the mask and a separator pattern |
| Tokens.Compile | src/python/zensols/mimic/tokenizer.py:106-116 | compiled rules keep the entries' patterns and replacements in order; the mapping gains exactly the labelled replacements |
| Tokens.CompileLastLabelWins | src/python/zensols/mimic/tokenizer.py:114-115 | a replacement's label is the one from the last entry labelling it |
| Tokens.CompileKeeps | src/python/zensols/mimic/tokenizer.py:114-115 | a label no entry relabels is kept |
| Tokens.CompileAsWritten | src/python/zensols/mimic/tokenizer.py:106-116 | succeeds exactly when every entry is a triple, and then agrees with the corrected compilation |
| Tokens.PairReplacementRejected | src/python/zensols/mimic/tokenizer.py:96-97 | a replacement pair fails as written, and the corrected compilation turns it into an unlabelled rule |
| Tokens.NewDecorator | src/python/zensols/mimic/tokenizer.py:100-104 | one rule per entity and per replacement entry; the mapping holds exactly the labelled entries of either list |
| Tokens.DefaultDecorator | src/python/zensols/mimic/tokenizer.py:87-91 | the default mapping is FIRSTNAME and LASTNAME to PERSON, DATE to DATE, with no replacements |
| Tokens.FirstMatch | src/python/zensols/mimic/tokenizer.py:131-138 | the replacement of the first rule whose pattern matches; none exactly when no rule matches |
| Tokens.Decorate | src/python/zensols/mimic/tokenizer.py:118-150 | "mask" exactly for mask tokens, "separator" exactly for separator tokens that are not masks, NONE otherwise; the onto label is set only on masks, and separators keep their norm |
| Tokens.DecorateMask | src/zensols/mimic/tokenizer.py:127-138 | a mask whose inner text first matches entity i gets entity i's replacement as norm, the mask feature, and its label as onto, or NONE when the entity has no label |
| Tokens.DecoratePlain | src/zensols/mimic/tokenizer.py:140-149 | a token that is neither mask nor separator and matches no replacement is left with NONE feature and NONE onto |
| Tokens.DecorateReplaced | src/python/zensols/mimic/tokenizer.py:140-149 | a token that is neither mask nor separator takes the first matching replacement rule's text as norm, with NONE feature and NONE onto |
| Tokens.DecorateUnknownMask | src/python/zensols/mimic/tokenizer.py:127-138 | a mask whose inner text no entity pattern matches gets norm "<UNKNOWN>", feature "mask" and onto NONE |
| Tokens.PseudoDecorate | src/python/zensols/mimic/__init__.py:63-79 | "pseudo" exactly for mask tokens, "separator" exactly for `_`/`*` runs that are not masks; only a pseudo token's norm can change |
| Tokens.PoliciesAgree | src/python/zensols/mimic/__init__.py:46-58 | both policies give a recognised mask the same norm; an unrecognised mask is "<UNKNOWN>" in one and unchanged in the other; dashes are a separator only in the newer policy |
| Tokens.RedactedNameMask | src/python/zensols/mimic/__init__.py:46 | "[**First Name3 (LF) 922**]" is a mask whose inner text starts with "First Name" |
| Tokens.RedactedNamePseudoExample | test/python/test_mimic.py:28-43 | the older policy turns the redacted name into "FIRSTNAME" tagged "pseudo", and leaves "Patient" untagged |
| Tokens.RedactedNameMaskExample | src/python/zensols/mimic/tokenizer.py:118-150 | the newer default decorator turns the redacted name into "FIRSTNAME", tagged "mask", labelled PERSON |

## Left out

- Regular-expression matching in general. Each category's section pattern is an abstract matcher returning ordered `(whole, group 1, group 2)` spans; only the whitespace paragraph separator and the token patterns are modelled concretely.
- The other regex note classes in regexnote.py differ only in their patterns, so they are instances of the abstract matcher.
- Character classes: `str.isspace` and `\s` use the Unicode whitespace set; `lower`, `capitalize` and `\d` are modelled on ASCII only.
- Feature documents (`Section.doc`, `body_doc`, paragraph text joining, `ParagraphChunker`, `ListItemChunker`, `_clone_norm_doc`, `reindex`). Their source is not part of this model. Documents are reduced to sentences of tokens, and the chunkers and sentence norm are parameters.
- `NoteFactory.__call__` passes two arguments to a one-argument `create`, so calling a factory directly would raise a `TypeError`; only `create`, `create_default` and `_create_from_note_event` are modelled.
- The spaCy tokenizer component, `@persisted` caching, context wiring, stashes and database access, pandas projections and all writing/printing.
- The Python exception classes become `Result` failures carrying the error and its message; the record class name used as actor is a string parameter.
- Sections.SectionLen: the contract pins the length only for headerless sections and bounds it below by the body length, because the exact sum over header spans is its definition; SectionLenWithinLexspan relates it to the lexical span.
- Sections.NameToHeader: the contract states only the length; the content is stated by HeaderRoundTrip and NameRoundTrip.
- Paragraphs.NormDoc: the contract states the result exactly only when list chunking is off, because the list chunker is a parameter; with it on, only that a returned document has tokens.
- Admission.AnyMember: Python's set iteration order is not modelled; any member of the set may be chosen.

## Findings

| source | as written | input that shows it | evidently intended | confidence | as-written member | corrected member |
|---|---|---|---|---|---|---|
| src/python/zensols/mimic/tokenizer.py:106-116 | `_compile_regexes` unpacks every entry as `pat, ent, onto_name`, and `__post_init__` applies it to `token_replacements` too | `token_replacements=((date_pattern, 'DATE'),)`, the two-element shape the field's type declares, fails with "not enough values to unpack" | pairs compile to unlabelled rules and only triples add an OntoNotes label | not executed; medium (the default replacement list is empty, so default construction is unaffected) | Tokens.CompileAsWritten | Tokens.Compile |
