/** Python string primitives the library leans on: the whitespace class shared
    by `str.strip` and the regular expression `\s`, clamped slicing, ASCII
    case mapping, run collapsing as done by `re.sub(r'[...]+', '-', s)` and
    `str.find`. */
module Text {

  /** Characters for which Python's `str.isspace()` holds; the same set is
      matched by `\s` in a `str` regular expression and removed by
      `str.strip()` without arguments. */
  const SPACES: set<char> := {
    ' ', '\t', '\n', '\U{0B}', '\U{0C}', '\r', '\U{1C}', '\U{1D}', '\U{1E}', '\U{1F}',
    '\U{85}', '\U{A0}', '\U{1680}',
    '\U{2000}', '\U{2001}', '\U{2002}', '\U{2003}', '\U{2004}', '\U{2005}',
    '\U{2006}', '\U{2007}', '\U{2008}', '\U{2009}', '\U{200A}',
    '\U{2028}', '\U{2029}', '\U{202F}', '\U{205F}', '\U{3000}'
  }

  predicate IsSpace(c: char) {
    c in SPACES
  }

  /** `len(s.strip()) == 0`: the string holds only whitespace. */
  predicate IsBlank(s: string) {
    forall i :: 0 <= i < |s| ==> IsSpace(s[i])
  }

  function StartsWith(s: string, prefix: string): bool {
    |prefix| <= |s| && s[..|prefix|] == prefix
  }

  predicate IsDigit(c: char) {
    '0' <= c <= '9'
  }

  /** Python's `s[begin:end]` for non-negative bounds: both bounds are clamped
      to the length and a reversed range gives the empty string. */
  function Slice(s: string, begin: nat, end: nat): (r: string)
    ensures |r| <= |s|
    ensures end <= |s| && begin <= end ==> r == s[begin..end]
    ensures begin <= end ==> |r| <= end - begin
    ensures |s| <= begin ==> r == ""
  {
    var lo := if begin < |s| then begin else |s|;
    var hi := if end < |s| then end else |s|;
    if lo < hi then s[lo..hi] else ""
  }

  /** The end of the whitespace run starting at `i`. */
  function LeadEnd(s: string, i: nat): (n: nat)
    requires i <= |s|
    ensures i <= n <= |s|
    ensures forall j :: i <= j < n ==> IsSpace(s[j])
    ensures n == |s| || !IsSpace(s[n])
    decreases |s| - i
  {
    if i == |s| || !IsSpace(s[i]) then i else LeadEnd(s, i + 1)
  }

  /** The start of the whitespace run ending at `e`. */
  function TrailStart(s: string, e: nat): (n: nat)
    requires e <= |s|
    ensures n <= e
    ensures forall j :: n <= j < e ==> IsSpace(s[j])
    ensures n == 0 || !IsSpace(s[n - 1])
  {
    if e == 0 || !IsSpace(s[e - 1]) then e else TrailStart(s, e - 1)
  }

  /** `str.rstrip()`: the longest prefix that does not end with whitespace. */
  function RStrip(s: string): (r: string)
    ensures |r| <= |s| && r == s[..|r|]
    ensures IsBlank(s[|r|..])
    ensures r == "" || !IsSpace(r[|r| - 1])
  {
    s[..TrailStart(s, |s|)]
  }

  /** `str.strip()`: whitespace removed from both ends. */
  function Strip(s: string): (r: string)
    ensures |r| <= |s|
    ensures r == "" || (!IsSpace(r[0]) && !IsSpace(r[|r| - 1]))
  {
    var a := LeadEnd(s, 0);
    if a == |s| then "" else s[a..TrailStart(s, |s|)]
  }

  /** The original is the stripped string with whitespace around it. */
  lemma StripShape(s: string) returns (lead: string, trail: string)
    ensures s == lead + Strip(s) + trail
    ensures IsBlank(lead) && IsBlank(trail)
  {
    var a := LeadEnd(s, 0);
    if a == |s| {
      lead, trail := s, "";
      BlankRange(s, 0, a);
      assert s[0..a] == s;
    } else {
      var b := TrailStart(s, |s|);
      lead, trail := s[0..a], s[b..|s|];
      BlankRange(s, 0, a);
      BlankRange(s, b, |s|);
      ThreeParts(s, a, b);
    }
  }

  lemma BlankRange(s: string, i: nat, j: nat)
    requires i <= j <= |s|
    requires forall k :: i <= k < j ==> IsSpace(s[k])
    ensures IsBlank(s[i..j])
  {
  }

  lemma ThreeParts(s: string, a: nat, b: nat)
    requires a <= b <= |s|
    ensures s == s[0..a] + s[a..b] + s[b..|s|]
  {
  }

  /** Stripping an already stripped string changes nothing. */
  lemma StripIdempotent(s: string)
    ensures Strip(Strip(s)) == Strip(s)
  {
    var r := Strip(s);
    assert LeadEnd(r, 0) == 0 || r == "";
    assert TrailStart(r, |r|) == |r|;
  }

  lemma RStripIdempotent(s: string)
    ensures RStrip(RStrip(s)) == RStrip(s)
  {
    var r := RStrip(s);
    assert TrailStart(r, |r|) == |r|;
  }

  /** A string is blank exactly when stripping it leaves nothing. */
  lemma BlankIffStripEmpty(s: string)
    ensures IsBlank(s) <==> Strip(s) == ""
  {
  }

  function LowerChar(c: char): char {
    if 'A' <= c <= 'Z' then (c as int + 32) as char else c
  }

  function UpperChar(c: char): char {
    if 'a' <= c <= 'z' then (c as int - 32) as char else c
  }

  /** `str.lower()` on the ASCII letters. */
  function Lower(s: string): (r: string)
    ensures |r| == |s|
    ensures forall i :: 0 <= i < |s| ==> r[i] == LowerChar(s[i])
  {
    if |s| == 0 then "" else [LowerChar(s[0])] + Lower(s[1..])
  }

  /** Lower-casing works piece by piece. */
  lemma LowerAppend(a: string, b: string)
    ensures Lower(a + b) == Lower(a) + Lower(b)
  {
    assert forall i :: 0 <= i < |a + b| ==> Lower(a + b)[i] == (Lower(a) + Lower(b))[i];
  }

  /** `str.capitalize()` on the ASCII letters: first character upper case,
      the rest lower case. */
  function Capitalize(s: string): (r: string)
    ensures |r| == |s|
    ensures |s| > 0 ==> r[0] == UpperChar(s[0]) && r[1..] == Lower(s[1..])
  {
    if |s| == 0 then "" else [UpperChar(s[0])] + Lower(s[1..])
  }

  /** `s.replace(old, new)` for single characters. */
  function ReplaceChar(s: string, from: char, to: char): (r: string)
    ensures |r| == |s|
    ensures forall i :: 0 <= i < |s| ==> r[i] == (if s[i] == from then to else s[i])
  {
    if |s| == 0 then "" else [if s[0] == from then to else s[0]] + ReplaceChar(s[1..], from, to)
  }

  /** Drops the leading run of separator characters. */
  function SkipRun(s: string, seps: set<char>): (r: string)
    ensures |r| <= |s| && r == s[|s| - |r|..]
    ensures forall i :: 0 <= i < |s| - |r| ==> s[i] in seps
    ensures r == "" || r[0] !in seps
  {
    if |s| == 0 || s[0] !in seps then s else SkipRun(s[1..], seps)
  }

  /** `re.sub('[<seps>]+', '-', s)`: every maximal run of separator
      characters becomes a single dash. */
  function Collapse(s: string, seps: set<char>): (r: string)
    decreases |s|
  {
    if |s| == 0 then ""
    else if s[0] in seps then "-" + Collapse(SkipRun(s, seps), seps)
    else [s[0]] + Collapse(s[1..], seps)
  }

  /** No separator survives collapsing (the dash itself is not a separator). */
  lemma {:induction false} CollapseRemovesSeparators(s: string, seps: set<char>)
    requires '-' !in seps
    ensures forall i :: 0 <= i < |Collapse(s, seps)| ==> Collapse(s, seps)[i] !in seps
    decreases |s|
  {
    if |s| == 0 {
    } else if s[0] in seps {
      CollapseRemovesSeparators(SkipRun(s, seps), seps);
    } else {
      CollapseRemovesSeparators(s[1..], seps);
    }
  }

  /** A string free of separators is left as it is, so collapsing is idempotent. */
  lemma {:induction false} CollapseIdentity(s: string, seps: set<char>)
    requires forall i :: 0 <= i < |s| ==> s[i] !in seps
    ensures Collapse(s, seps) == s
    decreases |s|
  {
    if |s| > 0 {
      CollapseIdentity(s[1..], seps);
    }
  }

  lemma CollapseIdempotent(s: string, seps: set<char>)
    requires '-' !in seps
    ensures Collapse(Collapse(s, seps), seps) == Collapse(s, seps)
  {
    CollapseRemovesSeparators(s, seps);
    CollapseIdentity(Collapse(s, seps), seps);
  }

  /** A run of separators between a separator-free word and the rest turns
      into exactly one dash. */
  lemma {:induction false} CollapseRun(word: string, run: string, rest: string, seps: set<char>)
    requires forall i :: 0 <= i < |word| ==> word[i] !in seps
    requires |run| > 0 && forall i :: 0 <= i < |run| ==> run[i] in seps
    requires rest == "" || rest[0] !in seps
    ensures Collapse(word + run + rest, seps) == word + "-" + Collapse(rest, seps)
    decreases |word|
  {
    var s := word + run + rest;
    if |word| == 0 {
      assert s == run + rest;
      SkipRunOver(run, rest, seps);
    } else {
      assert s[1..] == word[1..] + run + rest;
      CollapseRun(word[1..], run, rest, seps);
    }
  }

  lemma {:induction false} SkipRunOver(run: string, rest: string, seps: set<char>)
    requires forall i :: 0 <= i < |run| ==> run[i] in seps
    requires rest == "" || rest[0] !in seps
    ensures SkipRun(run + rest, seps) == rest
    decreases |run|
  {
    if |run| > 0 {
      assert (run + rest)[1..] == run[1..] + rest;
      SkipRunOver(run[1..], rest, seps);
    }
  }

  predicate OccursAt(s: string, p: string, i: int) {
    0 <= i && i + |p| <= |s| && s[i..i + |p|] == p
  }

  /** `s.find(p, start)`: the lowest index at or after `start` where `p`
      occurs, or -1. */
  function FindFrom(s: string, p: string, start: nat): (r: int)
    ensures r == -1 || (start <= r && OccursAt(s, p, r))
    ensures r == -1 ==> forall i :: start <= i ==> !OccursAt(s, p, i)
    ensures r != -1 ==> forall i :: start <= i < r ==> !OccursAt(s, p, i)
    decreases |s| - start
  {
    if start + |p| > |s| then -1
    else if s[start..start + |p|] == p then start
    else FindFrom(s, p, start + 1)
  }

  /** `s.find(p)`. */
  function Find(s: string, p: string): (r: int)
    ensures r == -1 <==> forall i :: !OccursAt(s, p, i)
    ensures r != -1 ==> OccursAt(s, p, r) && forall i :: 0 <= i < r ==> !OccursAt(s, p, i)
  {
    FindFrom(s, p, 0)
  }

  /** Joins the parts with a separator, as `sep.join(parts)`. */
  function Join(sep: string, parts: seq<string>): string {
    if |parts| == 0 then ""
    else if |parts| == 1 then parts[0]
    else parts[0] + sep + Join(sep, parts[1..])
  }
}
