/** The record layer's validation and normalisation: the error messages,
    the null-key checks run when a record is built, the stripping of a note
    event's category and text, and the note event's category slug. */
module Domain {
  import opened Wrappers
  import opened Text

  /** `MimicError` and its two specialisations. */
  datatype MimicError =
    | RecordNotFound(actor: string, keyType: string, key: Option<int>)
    | ParseError(text: string)
    | Error(message: string)

  /** The decimal digit `d` as a character. */
  function DigitChar(d: int): char
    requires 0 <= d < 10
  {
    ('0' as int + d) as char
  }

  /** `str(n)` for a natural number: its decimal digits, most significant
      first, without leading zeros. */
  function NatToString(n: nat): (r: string)
    ensures |r| > 0
    ensures forall i :: 0 <= i < |r| ==> IsDigit(r[i])
    ensures n > 0 ==> r[0] != '0'
  {
    if n < 10 then [DigitChar(n)] else NatToString(n / 10) + [DigitChar(n % 10)]
  }

  /** The value of a string of decimal digits. */
  function DigitsValue(s: string): nat
    requires forall i :: 0 <= i < |s| ==> IsDigit(s[i])
  {
    if |s| == 0 then 0
    else
      assert IsDigit(s[|s| - 1]);
      DigitsValue(s[..|s| - 1]) * 10 + (s[|s| - 1] as int - '0' as int)
  }

  /** Reading back the digits gives the number: the rendering is lossless. */
  lemma {:induction false} NatToStringRoundTrip(n: nat)
    ensures DigitsValue(NatToString(n)) == n
  {
    if n >= 10 {
      var head := NatToString(n / 10);
      NatToStringRoundTrip(n / 10);
      assert (head + [DigitChar(n % 10)])[..|head|] == head;
    }
  }

  /** `f'{key}'` for an optional integer key: Python renders a missing key
      as `None`. */
  function KeyText(key: Option<int>): string {
    match key
    case None => "None"
    case Some(k) => if k < 0 then "-" + NatToString(-k) else NatToString(k)
  }

  /** The length past which a parse error's message truncates the text. */
  const TRUNCATE_AT := 50

  /** The text as the parse error's message shows it: the first 50
      characters and an ellipsis when it is longer, else the whole text. */
  function Truncated(text: string): (r: string)
    ensures |text| <= TRUNCATE_AT ==> r == text
    ensures |text| > TRUNCATE_AT ==> |r| == TRUNCATE_AT + 3 && r[..TRUNCATE_AT] == text[..TRUNCATE_AT]
    ensures |text| > TRUNCATE_AT ==> r[TRUNCATE_AT..] == "..."
  {
    if |text| > TRUNCATE_AT then text[0..TRUNCATE_AT] + "..." else text
  }

  /** The message each error carries. */
  function Message(e: MimicError): string {
    match e
    case RecordNotFound(actor, keyType, key) =>
      "Actor " + actor + " could not find " + keyType + " ID " + KeyText(key)
    case ParseError(text) => "Could not parse: <" + Truncated(text) + ">"
    case Error(message) => message
  }

  /** A parse error's message is never more than 72 characters whatever the
      text (18 for the prefix, 53 for the truncated text, 1 for the closing
      bracket), it shows a prefix of the text, and the full text stays
      available on the error. */
  lemma ParseErrorMessage(text: string)
    ensures |Message(ParseError(text))| <= 72
    ensures var shown := if |text| <= TRUNCATE_AT then |text| else TRUNCATE_AT;
            Message(ParseError(text))[18..18 + shown] == text[..shown]
    ensures ParseError(text).text == text
  {
    var m := Message(ParseError(text));
    assert m == "Could not parse: <" + Truncated(text) + ">";
    var shown := if |text| <= TRUNCATE_AT then |text| else TRUNCATE_AT;
    assert m[18..18 + shown] == Truncated(text)[..shown];
  }

  /** The class name `RecordNotFoundError` reports for note events. */
  const NOTE_EVENT_ACTOR := "NoteEvent"

  /** A note event as built from a row: `row_id`, `hadm_id`, `category` and
      `text` are the fields construction checks or normalises; the rest of
      the row is carried as is. */
  datatype NoteEvent = NoteEvent(rowId: int, subjectId: int, hadmId: int,
                                 category: string, description: string, text: string)

  /** `MimicContainer.__post_init__`: a record without a row id is an error. */
  function CheckRowId(actor: string, rowId: Option<int>): (r: Result<int, MimicError>)
    ensures r.Success? <==> rowId.Some?
    ensures r.Success? ==> r.value == rowId.value
    ensures r.Failure? ==> r.error == RecordNotFound(actor, "row id", None)
  {
    match rowId
    case None => Failure(RecordNotFound(actor, "row id", None))
    case Some(id) => Success(id)
  }

  /** `NoteEvent.__post_init__`: the container's row id check first, then
      the admission id check, then the category is stripped on both sides
      and the text on the right. */
  function NewNoteEvent(rowId: Option<int>, subjectId: int, hadmId: Option<int>,
                        category: string, description: string, text: string): (r: Result<NoteEvent, MimicError>)
    ensures r.Success? <==> rowId.Some? && hadmId.Some?
    ensures rowId.None? ==> r == Failure(RecordNotFound(NOTE_EVENT_ACTOR, "row id", None))
    ensures rowId.Some? && hadmId.None? ==> r == Failure(Error("NoteEvent is missing hadm_id"))
    ensures r.Success? ==> r.value.rowId == rowId.value && r.value.hadmId == hadmId.value
    ensures r.Success? ==> r.value.category == Strip(category) && r.value.text == RStrip(text)
  {
    var id :- CheckRowId(NOTE_EVENT_ACTOR, rowId);
    if hadmId.None? then Failure(Error("NoteEvent is missing hadm_id"))
    else Success(NoteEvent(id, subjectId, hadmId.value, Strip(category), description, RStrip(text)))
  }

  /** A built note event has a category without surrounding whitespace and
      a text without trailing whitespace. */
  lemma NoteEventStripped(rowId: Option<int>, subjectId: int, hadmId: Option<int>,
                          category: string, description: string, text: string)
    requires NewNoteEvent(rowId, subjectId, hadmId, category, description, text).Success?
    ensures var e := NewNoteEvent(rowId, subjectId, hadmId, category, description, text).value;
            && (e.category == "" || (!IsSpace(e.category[0]) && !IsSpace(e.category[|e.category| - 1])))
            && (e.text == "" || !IsSpace(e.text[|e.text| - 1]))
  {
  }

  /** Building a note event again from a built one's fields gives it back
      unchanged: the normalisation is idempotent (every built event meets the
      condition, by `Text.StripIdempotent`). */
  lemma NoteEventRebuilt(e: NoteEvent)
    requires e.category == Strip(e.category) && e.text == RStrip(e.text)
    ensures NewNoteEvent(Some(e.rowId), e.subjectId, Some(e.hadmId), e.category, e.description, e.text) == Success(e)
  {
  }

  /** The characters a category slug replaces runs of. */
  const CATEGORY_SEPARATORS: set<char> := {'/', ' '}

  /** `NoteEvent.id`: each run of slashes and spaces in the category becomes
      one dash, and the result is lower cased. */
  function CategoryId(category: string): (r: string)
    ensures forall i :: 0 <= i < |r| ==> r[i] != '/' && r[i] != ' ' && !('A' <= r[i] <= 'Z')
  {
    var c := Collapse(category, CATEGORY_SEPARATORS);
    CollapseRemovesSeparators(category, CATEGORY_SEPARATORS);
    Lower(c)
  }

  /** A category without slashes or spaces only changes case. */
  lemma CategoryIdOfWord(word: string)
    requires forall i :: 0 <= i < |word| ==> word[i] !in CATEGORY_SEPARATORS
    ensures CategoryId(word) == Lower(word)
  {
    CollapseIdentity(word, CATEGORY_SEPARATORS);
  }

  /** A leading word followed by a run of slashes and spaces becomes the
      lower-cased word, one dash, and the id of the rest. With
      `CategoryIdOfWord` this fixes the id of every category, since each one
      is a word, or a word, a run and a rest that does not start a run. */
  lemma CategoryIdOfRun(word: string, run: string, rest: string)
    requires forall i :: 0 <= i < |word| ==> word[i] !in CATEGORY_SEPARATORS
    requires |run| > 0 && forall i :: 0 <= i < |run| ==> run[i] in CATEGORY_SEPARATORS
    requires rest == "" || rest[0] !in CATEGORY_SEPARATORS
    ensures CategoryId(word + run + rest) == Lower(word) + "-" + CategoryId(rest)
  {
    var tail := Collapse(rest, CATEGORY_SEPARATORS);
    CollapseRun(word, run, rest, CATEGORY_SEPARATORS);
    LowerAroundDash(word, tail);
  }

  lemma LowerAroundDash(word: string, tail: string)
    ensures Lower(word + "-" + tail) == Lower(word) + "-" + Lower(tail)
  {
    LowerAppend(word + "-", tail);
    LowerAppend(word, "-");
  }

  /** Two words around a run of slashes and spaces, as in "Nursing/other":
      the lower-cased words joined by one dash. */
  lemma CategoryIdOfSeparatedWords(first: string, run: string, second: string)
    requires forall i :: 0 <= i < |first| ==> first[i] !in CATEGORY_SEPARATORS
    requires forall i :: 0 <= i < |second| ==> second[i] !in CATEGORY_SEPARATORS
    requires |run| > 0 && forall i :: 0 <= i < |run| ==> run[i] in CATEGORY_SEPARATORS
    ensures CategoryId(first + run + second) == Lower(first) + "-" + Lower(second)
  {
    CategoryIdOfRun(first, run, second);
    CategoryIdOfWord(second);
  }

  /** An id is its own id: slugging is idempotent. */
  lemma CategoryIdIdempotent(category: string)
    ensures CategoryId(CategoryId(category)) == CategoryId(category)
  {
    var id := CategoryId(category);
    CollapseIdentity(id, CATEGORY_SEPARATORS);
  }
}
