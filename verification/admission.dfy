/** A hospital admission's notes: grouped by category, indexed by row id,
    and checked for duplicated text, with one representative kept per group
    of duplicates. */
module Admission {
  import opened Wrappers
  import Grouping

  /** The part of a note the admission logic reads. */
  datatype ClinicalNote = ClinicalNote(rowId: int, category: string, text: string)

  function CategoryOf(n: ClinicalNote): string {
    n.category
  }

  /** `notes_by_category`: the notes grouped by category, each group in the
      admission's order. */
  function NotesByCategory(notes: seq<ClinicalNote>): map<string, seq<ClinicalNote>> {
    Grouping.GroupBy(notes, CategoryOf)
  }

  /** The grouping is a partition: every note sits in its own category's
      group, and a category's group holds exactly the notes of that category
      (each as often as in the admission), in admission order. */
  lemma NotesByCategoryPartitions(notes: seq<ClinicalNote>)
    ensures forall n :: n in notes ==>
              n.category in NotesByCategory(notes) && n in NotesByCategory(notes)[n.category]
    ensures forall c :: c in NotesByCategory(notes) ==>
              NotesByCategory(notes)[c] == Grouping.FilterKey(notes, CategoryOf, c)
    ensures forall c, n :: c in NotesByCategory(notes) ==>
              multiset(NotesByCategory(notes)[c])[n] == if n.category == c then multiset(notes)[n] else 0
  {
    Grouping.GroupByPartitions(notes, CategoryOf);
    Grouping.GroupByBuckets(notes, CategoryOf);
  }

  /** `notes_by_id`: each row id mapped to its note; a later note with the
      same row id replaces an earlier one. */
  function NotesById(notes: seq<ClinicalNote>): (r: map<int, ClinicalNote>)
    ensures forall i :: 0 <= i < |notes| ==> notes[i].rowId in r
    ensures forall id :: id in r ==> r[id].rowId == id && r[id] in notes
  {
    if |notes| == 0 then map[]
    else
      var last := notes[|notes| - 1];
      var m := NotesById(notes[..|notes| - 1]);
      assert forall i :: 0 <= i < |notes| - 1 ==> notes[i] == notes[..|notes| - 1][i];
      m[last.rowId := last]
  }

  /** The last note with a row id is the one indexed under it. */
  lemma {:induction false} NotesByIdLastWins(notes: seq<ClinicalNote>, i: int)
    requires 0 <= i < |notes|
    requires forall j :: i < j < |notes| ==> notes[j].rowId != notes[i].rowId
    ensures NotesById(notes)[notes[i].rowId] == notes[i]
  {
    if i < |notes| - 1 {
      var init := notes[..|notes| - 1];
      forall j | i < j < |init| ensures init[j].rowId != init[i].rowId {
        assert init[j] == notes[j];
      }
      NotesByIdLastWins(init, i);
    }
  }

  /** `__getitem__`: the note with the row id, or nothing (a `KeyError`). */
  function NoteWithId(notes: seq<ClinicalNote>, rowId: int): (r: Option<ClinicalNote>)
    ensures r.Some? ==> r.value in notes && r.value.rowId == rowId
    ensures r.None? <==> forall i :: 0 <= i < |notes| ==> notes[i].rowId != rowId
  {
    var m := NotesById(notes);
    if rowId in m then Some(m[rowId]) else None
  }

  /** `__contains__`: some note has the row id. */
  function HasNote(notes: seq<ClinicalNote>, rowId: int): (r: bool)
    ensures r <==> exists i :: 0 <= i < |notes| && notes[i].rowId == rowId
    ensures r <==> NoteWithId(notes, rowId).Some?
  {
    rowId in NotesById(notes)
  }

  // ---------------------------------------------------------------------
  // Duplicates

  /** Python's `s[:n]`: a negative bound counts from the end. */
  function Prefix(s: string, n: int): (r: string)
    ensures |r| <= |s| && r == s[..|r|]
    ensures n >= 0 ==> |r| == if n < |s| then n else |s|
    ensures n < 0 ==> |r| == if |s| + n > 0 then |s| + n else 0
  {
    if n >= 0 then (if n < |s| then s[..n] else s)
    else if |s| + n > 0 then s[..|s| + n] else ""
  }

  /** The text two notes are compared on: the whole text, or its first
      `text_start` characters. */
  function DupKey(n: ClinicalNote, textStart: Option<int>): string {
    match textStart
    case None => n.text
    case Some(k) => Prefix(n.text, k)
  }

  /** Every note's comparison key, in order. */
  function Keys(notes: seq<ClinicalNote>, textStart: Option<int>): (r: seq<string>)
    ensures |r| == |notes|
    ensures forall i :: 0 <= i < |notes| ==> r[i] == DupKey(notes[i], textStart)
  {
    seq(|notes|, i requires 0 <= i < |notes| => DupKey(notes[i], textStart))
  }

  /** The distinct values of `ks` in order of first appearance, as a
      dictionary keeps its keys. */
  function Distinct(ks: seq<string>): (r: seq<string>)
    ensures forall a, b :: 0 <= a < b < |r| ==> r[a] != r[b]
    ensures forall i :: 0 <= i < |ks| ==> ks[i] in r
    ensures forall a :: 0 <= a < |r| ==> r[a] in ks
  {
    if |ks| == 0 then []
    else
      var init := ks[..|ks| - 1];
      var ds := Distinct(init);
      var k := ks[|ks| - 1];
      assert forall i :: 0 <= i < |init| ==> init[i] == ks[i];
      if k in ds then ds else ds + [k]
  }

  /** The comparison keys in order of first appearance. */
  function KeysInOrder(notes: seq<ClinicalNote>, textStart: Option<int>): (r: seq<string>)
    ensures forall a, b :: 0 <= a < b < |r| ==> r[a] != r[b]
    ensures forall i :: 0 <= i < |notes| ==> DupKey(notes[i], textStart) in r
    ensures forall a :: 0 <= a < |r| ==> exists i :: 0 <= i < |notes| && DupKey(notes[i], textStart) == r[a]
  {
    var ks := Keys(notes, textStart);
    var r := Distinct(ks);
    assert forall a :: 0 <= a < |r| ==> r[a] in ks;
    r
  }

  /** The row ids of the notes whose key is `k`. */
  function IdsWithKey(notes: seq<ClinicalNote>, textStart: Option<int>, k: string): set<int> {
    set i | 0 <= i < |notes| && DupKey(notes[i], textStart) == k :: notes[i].rowId
  }

  /** The keys shared by more than one row id, in the order given. */
  function DupKeys(notes: seq<ClinicalNote>, textStart: Option<int>, keys: seq<string>): (r: seq<string>)
    ensures |r| <= |keys|
    ensures forall j :: 0 <= j < |r| ==> r[j] in keys && |IdsWithKey(notes, textStart, r[j])| > 1
    ensures forall a :: 0 <= a < |keys| && |IdsWithKey(notes, textStart, keys[a])| > 1 ==> keys[a] in r
  {
    if |keys| == 0 then []
    else
      var rest := DupKeys(notes, textStart, keys[1..]);
      assert forall a :: 1 <= a < |keys| ==> keys[a] == keys[1..][a - 1];
      if |IdsWithKey(notes, textStart, keys[0])| > 1 then [keys[0]] + rest else rest
  }

  /** Keeping some of a sequence of distinct keys keeps them distinct. */
  lemma {:induction false} DupKeysDistinct(notes: seq<ClinicalNote>, textStart: Option<int>, keys: seq<string>)
    requires forall a, b :: 0 <= a < b < |keys| ==> keys[a] != keys[b]
    ensures forall a, b :: 0 <= a < b < |DupKeys(notes, textStart, keys)| ==>
              DupKeys(notes, textStart, keys)[a] != DupKeys(notes, textStart, keys)[b]
  {
    if |keys| > 0 {
      var rest := DupKeys(notes, textStart, keys[1..]);
      DupKeysDistinct(notes, textStart, keys[1..]);
      assert keys[0] !in keys[1..];
    }
  }

  /** `get_duplicate_notes`: for each distinct key, in order of first
      appearance, the set of row ids of the notes with that key, when there
      is more than one. */
  function DuplicateNotes(notes: seq<ClinicalNote>, textStart: Option<int>): (r: seq<set<int>>)
    ensures forall j :: 0 <= j < |r| ==> |r[j]| > 1
    ensures forall j :: 0 <= j < |r| ==>
              exists i :: 0 <= i < |notes| && r[j] == IdsWithKey(notes, textStart, DupKey(notes[i], textStart))
  {
    var dk := DupKeys(notes, textStart, KeysInOrder(notes, textStart));
    seq(|dk|, j requires 0 <= j < |dk| => IdsWithKey(notes, textStart, dk[j]))
  }

  /** Notes with the same key and different row ids are reported together:
      some duplicate set holds both ids. */
  lemma DuplicatesFound(notes: seq<ClinicalNote>, textStart: Option<int>, i: int, j: int)
    requires 0 <= i < |notes| && 0 <= j < |notes|
    requires DupKey(notes[i], textStart) == DupKey(notes[j], textStart)
    requires notes[i].rowId != notes[j].rowId
    ensures exists d :: d in DuplicateNotes(notes, textStart) && notes[i].rowId in d && notes[j].rowId in d
  {
    var k := DupKey(notes[i], textStart);
    var ids := IdsWithKey(notes, textStart, k);
    assert notes[i].rowId in ids && notes[j].rowId in ids;
    Grouping.SubsetCard({notes[i].rowId, notes[j].rowId}, ids);
    SharedKeyReported(notes, textStart, i);
  }

  /** The id set of a note's key is reported once it has two ids or more. */
  lemma SharedKeyReported(notes: seq<ClinicalNote>, textStart: Option<int>, i: int)
    requires 0 <= i < |notes|
    requires |IdsWithKey(notes, textStart, DupKey(notes[i], textStart))| > 1
    ensures IdsWithKey(notes, textStart, DupKey(notes[i], textStart)) in DuplicateNotes(notes, textStart)
  {
    var k := DupKey(notes[i], textStart);
    var keys := KeysInOrder(notes, textStart);
    var dk := DupKeys(notes, textStart, keys);
    assert k in keys;
    var a :| 0 <= a < |keys| && keys[a] == k;
    assert k in dk;
    var m :| 0 <= m < |dk| && dk[m] == k;
    assert DuplicateNotes(notes, textStart)[m] == IdsWithKey(notes, textStart, k);
  }

  /** Row ids are unique within an admission (they are the table's key). */
  ghost predicate UniqueRowIds(notes: seq<ClinicalNote>) {
    forall i, j :: 0 <= i < j < |notes| ==> notes[i].rowId != notes[j].rowId
  }

  /** With unique row ids the reported sets are pairwise disjoint: each note
      goes under exactly one key. */
  lemma DuplicateSetsDisjoint(notes: seq<ClinicalNote>, textStart: Option<int>)
    requires UniqueRowIds(notes)
    ensures forall a, b :: 0 <= a < b < |DuplicateNotes(notes, textStart)| ==>
              DuplicateNotes(notes, textStart)[a] !! DuplicateNotes(notes, textStart)[b]
  {
    var dk := DupKeys(notes, textStart, KeysInOrder(notes, textStart));
    DupKeysDistinct(notes, textStart, KeysInOrder(notes, textStart));
    forall a, b | 0 <= a < b < |dk|
      ensures IdsWithKey(notes, textStart, dk[a]) !! IdsWithKey(notes, textStart, dk[b])
    {
      KeyIdsDisjoint(notes, textStart, dk[a], dk[b]);
    }
  }

  /** With unique row ids, different keys have no id in common. */
  lemma KeyIdsDisjoint(notes: seq<ClinicalNote>, textStart: Option<int>, k1: string, k2: string)
    requires UniqueRowIds(notes)
    requires k1 != k2
    ensures IdsWithKey(notes, textStart, k1) !! IdsWithKey(notes, textStart, k2)
  {
    forall x | x in IdsWithKey(notes, textStart, k1) ensures x !in IdsWithKey(notes, textStart, k2) {
      var i :| 0 <= i < |notes| && DupKey(notes[i], textStart) == k1 && notes[i].rowId == x;
      forall j | 0 <= j < |notes| && notes[j].rowId == x ensures DupKey(notes[j], textStart) == k1 {
        assert j == i;
      }
    }
  }

  // ---------------------------------------------------------------------
  // Non-duplicates

  /** Why picking the non-duplicates fails. */
  datatype PickError =
    | NoDuplicateSets        // `reduce` of an empty sequence
    | EmptyDuplicateSet      // `next` of an empty set's iterator
    | UnknownRowId(id: int)  // `notes_by_id` has no such row id

  /** The union of the duplicate sets. */
  function Union(sets: seq<set<int>>): (r: set<int>)
    ensures forall j :: 0 <= j < |sets| ==> sets[j] <= r
    ensures forall x :: x in r ==> exists j :: 0 <= j < |sets| && x in sets[j]
  {
    if |sets| == 0 then {}
    else
      var u := Union(sets[1..]);
      assert forall j :: 1 <= j < |sets| ==> sets[j] == sets[1..][j - 1];
      sets[0] + u
  }

  /** The notes in no duplicate set, in order, flagged as not duplicated. */
  function Singles(notes: seq<ClinicalNote>, dups: set<int>): (r: seq<(ClinicalNote, bool)>)
    ensures |r| <= |notes|
    ensures forall i :: 0 <= i < |r| ==> !r[i].1 && r[i].0.rowId !in dups
  {
    if |notes| == 0 then []
    else (if notes[0].rowId !in dups then [(notes[0], false)] else []) + Singles(notes[1..], dups)
  }

  /** Selecting the singles of two stretches of notes one after the other
      gives the singles of the whole, so the singles keep admission order. */
  lemma {:induction false} SinglesAppend(a: seq<ClinicalNote>, b: seq<ClinicalNote>, dups: set<int>)
    ensures Singles(a + b, dups) == Singles(a, dups) + Singles(b, dups)
    decreases |a|
  {
    if |a| == 0 {
      assert a + b == b;
    } else {
      assert (a + b)[1..] == a[1..] + b;
      assert (a + b)[0] == a[0];
      SinglesAppend(a[1..], b, dups);
    }
  }

  /** A note is kept as a single iff its row id is in no duplicate set, and
      as often as it occurs. */
  lemma {:induction false} SinglesCount(notes: seq<ClinicalNote>, dups: set<int>, n: ClinicalNote)
    ensures multiset(Singles(notes, dups))[(n, false)] == if n.rowId in dups then 0 else multiset(notes)[n]
  {
    if |notes| > 0 {
      var tail := notes[1..];
      SinglesCount(tail, dups, n);
      HeadCount(notes, n);
      if notes[0].rowId !in dups {
        ConsCount((notes[0], false), Singles(tail, dups), (n, false));
      }
    }
  }

  lemma HeadCount<T>(xs: seq<T>, y: T)
    requires |xs| > 0
    ensures multiset(xs)[y] == multiset(xs[1..])[y] + (if xs[0] == y then 1 else 0)
  {
    assert xs == [xs[0]] + xs[1..];
    ConsCount(xs[0], xs[1..], y);
  }

  lemma ConsCount<T>(x: T, xs: seq<T>, y: T)
    ensures multiset([x] + xs)[y] == multiset(xs)[y] + (if x == y then 1 else 0)
  {
    assert multiset([x] + xs) == multiset([x]) + multiset(xs);
  }

  /** `filter_ans`: a note of the duplicate set the filter (if any) accepts. */
  predicate Preferred(n: ClinicalNote, ds: set<int>, filterFn: Option<ClinicalNote -> bool>) {
    n.rowId in ds && (filterFn.None? || filterFn.value(n))
  }

  /** The first preferred note, if any. */
  function FirstPreferred(notes: seq<ClinicalNote>, ds: set<int>, filterFn: Option<ClinicalNote -> bool>): (r: Option<ClinicalNote>)
    ensures r.Some? ==> r.value in notes && Preferred(r.value, ds, filterFn)
    ensures r.Some? ==> exists i :: 0 <= i < |notes| && notes[i] == r.value
                          && forall j :: 0 <= j < i ==> !Preferred(notes[j], ds, filterFn)
    ensures r.None? <==> forall i :: 0 <= i < |notes| ==> !Preferred(notes[i], ds, filterFn)
  {
    if |notes| == 0 then None
    else if Preferred(notes[0], ds, filterFn) then Some(notes[0])
    else
      var r := FirstPreferred(notes[1..], ds, filterFn);
      assert forall i :: 1 <= i < |notes| ==> notes[i] == notes[1..][i - 1];
      if r.Some? then
        var i :| 0 <= i < |notes[1..]| && notes[1..][i] == r.value
                 && forall j :: 0 <= j < i ==> !Preferred(notes[1..][j], ds, filterFn);
        assert notes[i + 1] == r.value;
        r
      else r
  }

  /** A representative of duplicate set `ds`: one of the admission's notes
      with an id in the set, and the first preferred note when there is one. */
  predicate Representative(n: ClinicalNote, notes: seq<ClinicalNote>, ds: set<int>,
                           filterFn: Option<ClinicalNote -> bool>) {
    && n in notes
    && n.rowId in ds
    && (FirstPreferred(notes, ds, filterFn).Some? ==> n == FirstPreferred(notes, ds, filterFn).value)
  }

  /** The representatives, flagged as duplicated. */
  function Flagged(picks: seq<ClinicalNote>): (r: seq<(ClinicalNote, bool)>)
    ensures |r| == |picks|
    ensures forall m :: 0 <= m < |picks| ==> r[m] == (picks[m], true)
  {
    seq(|picks|, m requires 0 <= m < |picks| => (picks[m], true))
  }

  /** `next(iter(ds))`: some member of a non-empty set. */
  method AnyMember(ds: set<int>) returns (id: int)
    requires |ds| > 0
    ensures id in ds
  {
    HasMember(ds);
    id :| id in ds;
  }

  lemma HasMember(ds: set<int>)
    requires |ds| > 0
    ensures exists x :: x in ds
  {
    if forall x :: x !in ds {
      assert false;
    }
  }

  /** The note kept for one duplicate set: the first note the filter
      prefers, else the note of an arbitrary id of the set. */
  method PickRepresentative(notes: seq<ClinicalNote>, ds: set<int>, filterFn: Option<ClinicalNote -> bool>)
    returns (r: Result<ClinicalNote, PickError>)
    ensures r.Success? ==> Representative(r.value, notes, ds, filterFn)
    ensures (ds != {} && forall x :: x in ds ==> HasNote(notes, x)) ==> r.Success?
    ensures ds == {} ==> r == Failure(EmptyDuplicateSet)
  {
    var pref := FirstPreferred(notes, ds, filterFn);
    if pref.Some? {
      return Success(pref.value);
    }
    if |ds| == 0 {
      return Failure(EmptyDuplicateSet);
    }
    var id := AnyMember(ds);
    var found := NoteWithId(notes, id);
    if found.None? {
      return Failure(UnknownRowId(id));
    }
    return Success(found.value);
  }

  /** `get_non_duplicate_notes`: the notes in no duplicate set, flagged
      `false`, then one note per duplicate set, flagged `true`: the first
      note the filter prefers, else the note of an arbitrary id of the set. */
  method NonDuplicateNotes(notes: seq<ClinicalNote>, dupSets: seq<set<int>>,
                           filterFn: Option<ClinicalNote -> bool>)
    returns (r: Result<seq<(ClinicalNote, bool)>, PickError>)
    ensures |dupSets| == 0 ==> r == Failure(NoDuplicateSets)
    ensures (|dupSets| > 0 && forall j :: 0 <= j < |dupSets| ==>
               dupSets[j] != {} && forall x :: x in dupSets[j] ==> HasNote(notes, x)) ==> r.Success?
    ensures r.Success? ==> exists picks: seq<ClinicalNote> ::
              && |picks| == |dupSets|
              && r.value == Singles(notes, Union(dupSets)) + Flagged(picks)
              && forall j :: 0 <= j < |dupSets| ==> Representative(picks[j], notes, dupSets[j], filterFn)
  {
    if |dupSets| == 0 {
      return Failure(NoDuplicateSets);
    }
    var picks: seq<ClinicalNote> := [];
    var j := 0;
    while j < |dupSets|
      invariant 0 <= j <= |dupSets|
      invariant |picks| == j
      invariant forall m :: 0 <= m < j ==> Representative(picks[m], notes, dupSets[m], filterFn)
    {
      var pick := PickRepresentative(notes, dupSets[j], filterFn);
      if pick.Failure? {
        return Failure(pick.error);
      }
      picks := picks + [pick.value];
      j := j + 1;
    }
    r := Success(Singles(notes, Union(dupSets)) + Flagged(picks));
    assert r.value == Singles(notes, Union(dupSets)) + Flagged(picks);
  }
}
