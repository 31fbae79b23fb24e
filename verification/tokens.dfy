/** The token decorator: an ordered, first-match-wins classification of a
    token's normalised text into a redaction mask, a typed-out separator or
    plain text, with the mask's inner text mapped to an entity name and an
    OntoNotes label. Two generations of the policy exist; both are here. */
module Tokens {
  import opened Wrappers
  import opened Text

  /** The feature value of a token nothing matched. */
  const NONE: string := "<none>"
  const MASK_FEATURE: string := "mask"
  const SEPARATOR_FEATURE: string := "separator"
  const PSEUDO_FEATURE: string := "pseudo"
  /** The norm of a mask whose inner text no entity pattern recognises. */
  const UNKNOWN_ENTITY: string := "<UNKNOWN>"

  const MASK_OPEN: string := "[**"
  const MASK_CLOSE: string := "**]"

  // ---------------------------------------------------------------------
  // The mask pattern `\[\*\*([^\*]+)\*\*\]`, matched at the start

  /** The pattern matches the prefix `s[..k + 3]` with group 1 `s[3..k]`:
      an opening `[**`, one or more characters other than `*`, and a
      closing `**]`. */
  predicate MaskAt(s: string, k: int) {
    && 3 < k && k + 3 <= |s|
    && s[..3] == MASK_OPEN
    && (forall i :: 3 <= i < k ==> s[i] != '*')
    && s[k..k + 3] == MASK_CLOSE
  }

  /** The first `*` at or after `i`, or the end of the string. */
  function StarFrom(s: string, i: nat): (r: nat)
    requires i <= |s|
    ensures i <= r <= |s|
    ensures r < |s| ==> s[r] == '*'
    ensures forall j :: i <= j < r ==> s[j] != '*'
    decreases |s| - i
  {
    if i == |s| || s[i] == '*' then i else StarFrom(s, i + 1)
  }

  /** `MASK_REGEX.match(s)`: the masked inner text, if `s` starts with a
      mask. The group cannot hold `*`, so it ends at the first star. */
  function MaskMatch(s: string): (r: Option<string>)
    ensures r.Some? <==> exists k :: MaskAt(s, k)
    ensures forall k :: MaskAt(s, k) ==> r == Some(s[3..k])
  {
    if |s| < 3 || s[..3] != MASK_OPEN then None
    else
      var k := StarFrom(s, 3);
      assert forall j :: MaskAt(s, j) ==> j == k by {
        forall j | MaskAt(s, j) ensures j == k {
          assert s[j..j + 3][0] == '*';
          if k < |s| {
            assert !(k < j);
          }
        }
      }
      if 3 < k && k + 3 <= |s| && s[k..k + 3] == MASK_CLOSE then
        assert MaskAt(s, k);
        Some(s[3..k])
      else None
  }

  // ---------------------------------------------------------------------
  // The separator pattern: five or more of one separator character

  /** Separator characters of the current policy, `_{5,}|[*]{5,}|[-]{5,}`. */
  const SEPARATOR_CHARS: set<char> := {'_', '*', '-'}
  /** Separator characters of the older policy, `_{5,}|[*]{5,}`. */
  const PSEUDO_SEPARATOR_CHARS: set<char> := {'_', '*'}

  /** The separator pattern matches at the start of `s`: it opens with at
      least five copies of one of `chars`. */
  predicate SeparatorMatch(s: string, chars: set<char>) {
    |s| >= 5 && s[0] in chars && forall i :: 0 < i < 5 ==> s[i] == s[0]
  }

  /** A mask opens with `[`, which no separator character is, so the two
      patterns never both match and their order does not change the result. */
  lemma MaskExcludesSeparator(s: string, chars: set<char>)
    requires '[' !in chars
    ensures MaskMatch(s).Some? ==> !SeparatorMatch(s, chars)
  {
    if MaskMatch(s).Some? {
      var k :| MaskAt(s, k);
      assert s[0] == s[..3][0] == '[';
    }
  }

  // ---------------------------------------------------------------------
  // The default entity patterns

  /** A token pattern, as `pattern.match(text) is not None`. */
  type Pattern = string -> bool

  const FIRST_NAME := "First Name"

  /** `^First Name`. */
  predicate FirstNamePattern(v: string) {
    StartsWith(v, FIRST_NAME)
  }

  /** `^Last Name`. */
  predicate LastNamePattern(v: string) {
    StartsWith(v, "Last Name")
  }

  predicate AllDigits(t: string) {
    forall i :: 0 <= i < |t| ==> IsDigit(t[i])
  }

  /** `\d{1,2}`, the whole of `t`. */
  predicate OneOrTwoDigits(t: string) {
    1 <= |t| <= 2 && AllDigits(t)
  }

  /** `\d{1,2}-\d{1,2}`, the whole of `t`. */
  predicate MonthDay(t: string) {
    exists k :: 1 <= k <= 2 && k < |t| && OneOrTwoDigits(t[..k]) && t[k] == '-' && OneOrTwoDigits(t[k + 1..])
  }

  /** `21\d{2}-\d{1,2}-\d{1,2}`, the whole of `v`: a redacted date, shifted
      into the twenty-second century. */
  predicate ShiftedDate(v: string) {
    && |v| >= 5
    && v[..2] == "21" && IsDigit(v[2]) && IsDigit(v[3]) && v[4] == '-'
    && MonthDay(v[5..])
  }

  /** `^21\d{2}-\d{1,2}-\d{1,2}$`: `$` also matches before a final newline. */
  predicate DatePattern(v: string) {
    ShiftedDate(v) || (|v| > 0 && v[|v| - 1] == '\n' && ShiftedDate(v[..|v| - 1]))
  }

  // ---------------------------------------------------------------------
  // Configuration

  /** A configured pattern entry: a pair `(pattern, replacement)` or a triple
      that adds an OntoNotes label (or `None`). */
  datatype ConfigEntry =
    | Pair(pattern: Pattern, repl: string)
    | Triple(pattern: Pattern, repl: string, onto: Option<string>)

  /** A compiled entry: the pattern and its replacement. */
  datatype Rule = Rule(pattern: Pattern, repl: string)

  /** The label an entry contributes to the OntoNotes mapping. */
  function OntoOf(e: ConfigEntry): Option<string> {
    if e.Triple? then e.onto else None
  }

  /** Compiling a list of entries: the rules in order, and the mapping
      extended with each labelled replacement (a later label for the same
      replacement overrides an earlier one). */
  function Compile(entries: seq<ConfigEntry>, onto: map<string, string>): (r: (seq<Rule>, map<string, string>))
    ensures |r.0| == |entries|
    ensures forall i :: 0 <= i < |entries| ==> r.0[i] == Rule(entries[i].pattern, entries[i].repl)
    ensures forall k :: k in r.1 <==> k in onto || exists i :: 0 <= i < |entries| && entries[i].repl == k && OntoOf(entries[i]).Some?
    decreases |entries|
  {
    if |entries| == 0 then ([], onto)
    else
      var e := entries[0];
      var onto' := if OntoOf(e).Some? then onto[e.repl := OntoOf(e).value] else onto;
      var rest := Compile(entries[1..], onto');
      assert forall i :: 1 <= i < |entries| ==> entries[i] == entries[1..][i - 1];
      ([Rule(e.pattern, e.repl)] + rest.0, rest.1)
  }

  /** The label a replacement ends up with is the one of the last entry
      that labels it. */
  lemma {:induction false} CompileLastLabelWins(entries: seq<ConfigEntry>, onto: map<string, string>, i: int)
    requires 0 <= i < |entries| && OntoOf(entries[i]).Some?
    requires forall j :: i < j < |entries| ==> entries[j].repl != entries[i].repl || OntoOf(entries[j]).None?
    ensures entries[i].repl in Compile(entries, onto).1
    ensures Compile(entries, onto).1[entries[i].repl] == OntoOf(entries[i]).value
    decreases |entries|
  {
    var e := entries[0];
    var onto' := if OntoOf(e).Some? then onto[e.repl := OntoOf(e).value] else onto;
    if i == 0 {
      CompileKeeps(entries[1..], onto', e.repl);
    } else {
      forall j | i - 1 < j < |entries[1..]|
        ensures entries[1..][j].repl != entries[1..][i - 1].repl || OntoOf(entries[1..][j]).None?
      {
        assert entries[1..][j] == entries[j + 1];
      }
      CompileLastLabelWins(entries[1..], onto', i - 1);
    }
  }

  /** A label no later entry relabels survives compilation. */
  lemma {:induction false} CompileKeeps(entries: seq<ConfigEntry>, onto: map<string, string>, k: string)
    requires k in onto
    requires forall j :: 0 <= j < |entries| ==> entries[j].repl != k || OntoOf(entries[j]).None?
    ensures k in Compile(entries, onto).1 && Compile(entries, onto).1[k] == onto[k]
    decreases |entries|
  {
    if |entries| > 0 {
      var e := entries[0];
      var onto' := if OntoOf(e).Some? then onto[e.repl := OntoOf(e).value] else onto;
      forall j | 0 <= j < |entries[1..]| ensures entries[1..][j].repl != k || OntoOf(entries[1..][j]).None? {
        assert entries[1..][j] == entries[j + 1];
      }
      CompileKeeps(entries[1..], onto', k);
    }
  }

  /** Why compiling a configuration fails. */
  datatype ConfigError = NotEnoughValues(repl: string)

  /** `_compile_regexes` as written: every entry is unpacked into three
      values, so a pair (the documented shape of a replacement entry) fails
      with "not enough values to unpack". */
  function CompileAsWritten(entries: seq<ConfigEntry>, onto: map<string, string>): (r: Result<(seq<Rule>, map<string, string>), ConfigError>)
    ensures r.Success? <==> forall i :: 0 <= i < |entries| ==> entries[i].Triple?
    ensures r.Success? ==> r.value == Compile(entries, onto)
    decreases |entries|
  {
    if |entries| == 0 then Success(([], onto))
    else if entries[0].Pair? then Failure(NotEnoughValues(entries[0].repl))
    else
      var e := entries[0];
      var onto' := if e.onto.Some? then onto[e.repl := e.onto.value] else onto;
      assert forall i :: 1 <= i < |entries| ==> entries[i] == entries[1..][i - 1];
      var rest :- CompileAsWritten(entries[1..], onto');
      Success(([Rule(e.pattern, e.repl)] + rest.0, rest.1))
  }

  /** A replacement configured as a documented pair, here the date pattern
      mapped to `DATE`, makes construction fail as written; the corrected
      compilation accepts it as a rule with no label. */
  lemma PairReplacementRejected()
    ensures CompileAsWritten([Pair(DatePattern, "DATE")], map[]) == Failure(NotEnoughValues("DATE"))
    ensures Compile([Pair(DatePattern, "DATE")], map[]).0 == [Rule(DatePattern, "DATE")]
    ensures Compile([Pair(DatePattern, "DATE")], map[]).1 == map[]
  {
    var entries := [Pair(DatePattern, "DATE")];
    assert entries[1..] == [];
    assert OntoOf(entries[0]).None?;
    assert Compile(entries[1..], map[]) == ([], map[]);
    assert Compile(entries, map[]).1 == map[];
    assert Compile(entries, map[]).0 == [Rule(DatePattern, "DATE")] + [];
  }

  /** The decorator after `__post_init__`: compiled entity and replacement
      rules, and the OntoNotes mapping gathered from both lists, entities
      first. */
  datatype Decorator = Decorator(entities: seq<Rule>, replacements: seq<Rule>, onto: map<string, string>)

  function NewDecorator(entities: seq<ConfigEntry>, replacements: seq<ConfigEntry>): (r: Decorator)
    ensures |r.entities| == |entities| && |r.replacements| == |replacements|
    ensures forall k :: k in r.onto <==>
              || (exists i :: 0 <= i < |entities| && entities[i].repl == k && OntoOf(entities[i]).Some?)
              || (exists i :: 0 <= i < |replacements| && replacements[i].repl == k && OntoOf(replacements[i]).Some?)
  {
    var c1 := Compile(entities, map[]);
    var c2 := Compile(replacements, c1.1);
    forall k ensures k in c2.1 <==>
              || (exists i :: 0 <= i < |entities| && entities[i].repl == k && OntoOf(entities[i]).Some?)
              || (exists i :: 0 <= i < |replacements| && replacements[i].repl == k && OntoOf(replacements[i]).Some?)
    {
      assert k in c1.1 <==> exists i :: 0 <= i < |entities| && entities[i].repl == k && OntoOf(entities[i]).Some?;
    }
    Decorator(c1.0, c2.0, c2.1)
  }

  /** The default entity list: first and last names are people, shifted
      dates are dates. */
  const DEFAULT_ENTITIES: seq<ConfigEntry> := [
    Triple(FirstNamePattern, "FIRSTNAME", Some("PERSON")),
    Triple(LastNamePattern, "LASTNAME", Some("PERSON")),
    Triple(DatePattern, "DATE", Some("DATE"))
  ]

  function DefaultDecorator(): (r: Decorator)
    ensures r.onto == map["FIRSTNAME" := "PERSON", "LASTNAME" := "PERSON", "DATE" := "DATE"]
    ensures |r.replacements| == 0
  {
    var e := DEFAULT_ENTITIES;
    var m1 := map["FIRSTNAME" := "PERSON"];
    var m2 := m1["LASTNAME" := "PERSON"];
    var m3 := m2["DATE" := "DATE"];
    assert Compile(e, map[]).1 == Compile(e[1..], m1).1;
    assert Compile(e[1..], m1).1 == Compile(e[1..][1..], m2).1;
    assert Compile(e[1..][1..], m2).1 == Compile(e[1..][1..][1..], m3).1;
    assert e[1..][1..][1..] == [];
    NewDecorator(DEFAULT_ENTITIES, [])
  }

  // ---------------------------------------------------------------------
  // Decoration

  /** The replacement of the first rule whose pattern matches. */
  function FirstMatch(rules: seq<Rule>, v: string): (r: Option<string>)
    ensures r.None? <==> forall i :: 0 <= i < |rules| ==> !rules[i].pattern(v)
    ensures r.Some? ==> exists i :: 0 <= i < |rules| && rules[i].pattern(v) && rules[i].repl == r.value
                                    && forall j :: 0 <= j < i ==> !rules[j].pattern(v)
  {
    if |rules| == 0 then None
    else if rules[0].pattern(v) then Some(rules[0].repl)
    else
      var r := FirstMatch(rules[1..], v);
      assert forall i :: 1 <= i < |rules| ==> rules[i] == rules[1..][i - 1];
      if r.Some? then
        var i :| 0 <= i < |rules[1..]| && rules[1..][i].pattern(v) && rules[1..][i].repl == r.value
                 && forall j :: 0 <= j < i ==> !rules[1..][j].pattern(v);
        assert rules[i + 1] == rules[1..][i];
        r
      else r
  }

  /** A token's features after decoration. */
  datatype Decorated = Decorated(norm: string, mimic: string, onto: string)

  /** `decorate`: a mask becomes its entity's replacement (or
      `<UNKNOWN>`) and carries the entity's label; a separator keeps its
      text; anything else may be rewritten by the first matching
      replacement rule. */
  function Decorate(d: Decorator, norm: string): (r: Decorated)
    ensures r.mimic == MASK_FEATURE <==> MaskMatch(norm).Some?
    ensures r.mimic == SEPARATOR_FEATURE <==> MaskMatch(norm).None? && SeparatorMatch(norm, SEPARATOR_CHARS)
    ensures r.mimic == NONE <==> MaskMatch(norm).None? && !SeparatorMatch(norm, SEPARATOR_CHARS)
    ensures r.onto != NONE ==> r.mimic == MASK_FEATURE
    ensures r.mimic == SEPARATOR_FEATURE ==> r.norm == norm
  {
    match MaskMatch(norm)
    case Some(v) =>
      (match FirstMatch(d.entities, v)
       case Some(repl) => Decorated(repl, MASK_FEATURE, if repl in d.onto then d.onto[repl] else NONE)
       case None => Decorated(UNKNOWN_ENTITY, MASK_FEATURE, NONE))
    case None =>
      if SeparatorMatch(norm, SEPARATOR_CHARS) then Decorated(norm, SEPARATOR_FEATURE, NONE)
      else
        (match FirstMatch(d.replacements, norm)
         case Some(repl) => Decorated(repl, NONE, NONE)
         case None => Decorated(norm, NONE, NONE))
  }

  /** The norm of a masked token: the first entity whose pattern matches the
      inner text names it, and its label is that entity's, or no label when
      the entity has none. */
  lemma DecorateMask(d: Decorator, norm: string, k: int, i: int)
    requires MaskAt(norm, k)
    requires 0 <= i < |d.entities| && d.entities[i].pattern(norm[3..k])
    requires forall j :: 0 <= j < i ==> !d.entities[j].pattern(norm[3..k])
    ensures Decorate(d, norm) == Decorated(d.entities[i].repl, MASK_FEATURE,
                                           if d.entities[i].repl in d.onto then d.onto[d.entities[i].repl] else NONE)
  {
    var r := FirstMatch(d.entities, norm[3..k]);
    var i' :| 0 <= i' < |d.entities| && d.entities[i'].pattern(norm[3..k]) && d.entities[i'].repl == r.value
              && forall j :: 0 <= j < i' ==> !d.entities[j].pattern(norm[3..k]);
    assert !(i < i') && !(i' < i);
  }

  /** Plain text no rule rewrites keeps its text and has no features. */
  lemma DecoratePlain(d: Decorator, norm: string)
    requires MaskMatch(norm).None? && !SeparatorMatch(norm, SEPARATOR_CHARS)
    requires forall i :: 0 <= i < |d.replacements| ==> !d.replacements[i].pattern(norm)
    ensures Decorate(d, norm) == Decorated(norm, NONE, NONE)
  {
  }

  /** Plain text is rewritten by the first replacement rule that matches it,
      and gets no features. */
  lemma DecorateReplaced(d: Decorator, norm: string, i: int)
    requires MaskMatch(norm).None? && !SeparatorMatch(norm, SEPARATOR_CHARS)
    requires 0 <= i < |d.replacements| && d.replacements[i].pattern(norm)
    requires forall j :: 0 <= j < i ==> !d.replacements[j].pattern(norm)
    ensures Decorate(d, norm) == Decorated(d.replacements[i].repl, NONE, NONE)
  {
    var r := FirstMatch(d.replacements, norm);
    var i' :| 0 <= i' < |d.replacements| && d.replacements[i'].pattern(norm) && d.replacements[i'].repl == r.value
              && forall j :: 0 <= j < i' ==> !d.replacements[j].pattern(norm);
    assert !(i < i') && !(i' < i);
  }

  /** A mask no entity recognises becomes `<UNKNOWN>` with no label. */
  lemma DecorateUnknownMask(d: Decorator, norm: string, k: int)
    requires MaskAt(norm, k)
    requires forall i :: 0 <= i < |d.entities| ==> !d.entities[i].pattern(norm[3..k])
    ensures Decorate(d, norm) == Decorated(UNKNOWN_ENTITY, MASK_FEATURE, NONE)
  {
  }

  // ---------------------------------------------------------------------
  // The older policy

  /** The older policy's replacements: the same three patterns, without
      labels. */
  const DEFAULT_PSEUDO_RULES: seq<Rule> := [
    Rule(FirstNamePattern, "FIRSTNAME"),
    Rule(LastNamePattern, "LASTNAME"),
    Rule(DatePattern, "DATE")
  ]

  /** The older `decorate`: a mask is a "pseudo" token rewritten by the
      first matching rule (and left as it is when none matches), a separator
      keeps its text, and only `_` and `*` runs are separators. Returns the
      norm and the `mimic_` feature. */
  function PseudoDecorate(rules: seq<Rule>, norm: string): (r: (string, string))
    ensures r.1 == PSEUDO_FEATURE <==> MaskMatch(norm).Some?
    ensures r.1 == SEPARATOR_FEATURE <==> MaskMatch(norm).None? && SeparatorMatch(norm, PSEUDO_SEPARATOR_CHARS)
    ensures r.1 != PSEUDO_FEATURE ==> r.0 == norm
  {
    match MaskMatch(norm)
    case Some(v) =>
      (match FirstMatch(rules, v)
       case Some(repl) => (repl, PSEUDO_FEATURE)
       case None => (norm, PSEUDO_FEATURE))
    case None =>
      if SeparatorMatch(norm, PSEUDO_SEPARATOR_CHARS) then (norm, SEPARATOR_FEATURE) else (norm, NONE)
  }

  /** The two policies agree on recognised masks: with the same rules,
      the current policy's norm is the older one's. They differ on masks no
      rule recognises (`<UNKNOWN>` against the text kept as it is), and on
      dash runs, which only the current policy calls separators. */
  lemma PoliciesAgree(entities: seq<ConfigEntry>, norm: string)
    ensures MaskMatch(norm).Some? && FirstMatch(NewDecorator(entities, []).entities, MaskMatch(norm).value).Some? ==>
              Decorate(NewDecorator(entities, []), norm).norm
                == PseudoDecorate(NewDecorator(entities, []).entities, norm).0
    ensures MaskMatch(norm).Some? && FirstMatch(NewDecorator(entities, []).entities, MaskMatch(norm).value).None? ==>
              Decorate(NewDecorator(entities, []), norm).norm == UNKNOWN_ENTITY
              && PseudoDecorate(NewDecorator(entities, []).entities, norm).0 == norm
    ensures SeparatorMatch(norm, PSEUDO_SEPARATOR_CHARS) ==> SeparatorMatch(norm, SEPARATOR_CHARS)
    ensures Decorate(NewDecorator(entities, []), "-----").mimic == SEPARATOR_FEATURE
    ensures PseudoDecorate(NewDecorator(entities, []).entities, "-----") == ("-----", NONE)
  {
    assert MaskMatch("-----").None?;
  }

  /** Text the mask pattern recognises: a non-empty inner text without `*`
      between the mask's brackets. */
  lemma MaskAround(inner: string)
    requires |inner| > 0
    requires forall i :: 0 <= i < |inner| ==> inner[i] != '*'
    ensures MaskMatch(MASK_OPEN + inner + MASK_CLOSE) == Some(inner)
  {
    var s := MASK_OPEN + inner + MASK_CLOSE;
    var k := 3 + |inner|;
    assert s[..3] == MASK_OPEN;
    assert s[3..k] == inner;
    assert s[k..k + 3] == MASK_CLOSE;
    assert MaskAt(s, k);
  }

  /** The inner text of a redacted attending physician's name. */
  const NAME_INNER := FIRST_NAME + "3 (LF) 922"

  /** A redacted attending physician's name as it appears in a note. */
  const REDACTED_NAME := MASK_OPEN + NAME_INNER + MASK_CLOSE

  /** The redacted name is a mask around its inner text, which the
      first-name pattern recognises. */
  lemma RedactedNameMask()
    ensures MaskMatch(REDACTED_NAME) == Some(NAME_INNER)
    ensures FirstNamePattern(NAME_INNER)
  {
    assert forall i :: 0 <= i < |NAME_INNER| ==> NAME_INNER[i] != '*';
    MaskAround(NAME_INNER);
    assert NAME_INNER[..|FIRST_NAME|] == FIRST_NAME;
  }

  /** Under the older policy the name becomes the pseudo token `FIRSTNAME`,
      and a plain word is left alone. */
  lemma RedactedNamePseudoExample()
    ensures PseudoDecorate(DEFAULT_PSEUDO_RULES, REDACTED_NAME) == ("FIRSTNAME", PSEUDO_FEATURE)
    ensures PseudoDecorate(DEFAULT_PSEUDO_RULES, "Patient") == ("Patient", NONE)
  {
    RedactedNameMask();
  }

  /** Under the current policy the name becomes the mask `FIRSTNAME`,
      labelled a person. */
  lemma RedactedNameMaskExample()
    ensures Decorate(DefaultDecorator(), REDACTED_NAME) == Decorated("FIRSTNAME", MASK_FEATURE, "PERSON")
  {
    RedactedNameMask();
    var d := DefaultDecorator();
    assert d.entities[0] == Rule(FirstNamePattern, "FIRSTNAME");
  }
}
