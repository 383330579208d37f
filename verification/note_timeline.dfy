/**
 * The notes timeline: notes grouped by the calendar day they were created
 * on, groups labelled "Today", "Yesterday" or with the date, the groups in
 * the order Today, Yesterday, then older (or later) dates newest first, and
 * the notes inside each group oldest first.
 *
 * Calendar days are integers. The local calendar day of an instant is a
 * parameter `dayOf`, and today's day number is a parameter; yesterday is the
 * day before today. A dated group is identified by its day; the page labels
 * it with the formatted date, one label per day.
 */
module NoteTimeline {
  import opened Records
  import Seqs
  import Sorting

  /** The label of a group of notes. */
  datatype DayKey = Today | Yesterday | OnDay(day: int)

  /** The label of the notes created on calendar day `day`. */
  function KeyOfDay(day: int, today: int): (k: DayKey)
    ensures k == Today <==> day == today
    ensures k == Yesterday <==> day == today - 1
    ensures k.OnDay? ==> k.day == day
  {
    if day == today then Today
    else if day == today - 1 then Yesterday
    else OnDay(day)
  }

  /** The label of the group note `n` belongs to. */
  function NoteKey(n: Note, dayOf: int -> int, today: int): DayKey {
    KeyOfDay(dayOf(n.createdAt), today)
  }

  /** The notes that belong under `key`, in their stored order. */
  function InGroup(notes: seq<Note>, key: DayKey, dayOf: int -> int, today: int): (r: seq<Note>)
    ensures |r| <= |notes|
    decreases |notes|
  {
    if |notes| == 0 then []
    else
      var last := notes[|notes| - 1];
      InGroup(notes[..|notes| - 1], key, dayOf, today) + (if NoteKey(last, dayOf, today) == key then [last] else [])
  }

  /** The group of `key` holds exactly the stored notes with that label. */
  lemma {:induction false} InGroupMembers(notes: seq<Note>, key: DayKey, dayOf: int -> int, today: int)
    ensures forall n :: n in InGroup(notes, key, dayOf, today) <==> n in notes && NoteKey(n, dayOf, today) == key
    decreases |notes|
  {
    if |notes| > 0 {
      var init := notes[..|notes| - 1];
      InGroupMembers(init, key, dayOf, today);
      assert notes == init + [notes[|notes| - 1]];
    }
  }

  /** One more note extends the group of its own label and no other. */
  lemma InGroupAppend(notes: seq<Note>, note: Note, key: DayKey, dayOf: int -> int, today: int)
    ensures InGroup(notes + [note], key, dayOf, today)
         == InGroup(notes, key, dayOf, today) + (if NoteKey(note, dayOf, today) == key then [note] else [])
  {
    assert (notes + [note])[..|notes|] == notes;
  }

  // ---------------------------------------------------------------------------
  // The two comparators of the page, and the ranks they agree with
  // ---------------------------------------------------------------------------

  /** The page's comparator for notes within a group: by creation instant. */
  function CompareNotes(a: Note, b: Note): int {
    a.createdAt - b.createdAt
  }

  /** A note's rank: its creation instant. */
  function NoteRank(n: Note): Sorting.Rank {
    Sorting.Rank(n.createdAt, 0)
  }

  /** The note comparator puts `a` first exactly when `a` ranks strictly lower. */
  lemma CompareNotesAgreesWithRank(a: Note, b: Note)
    ensures CompareNotes(a, b) < 0 <==> !Sorting.RankLe(NoteRank(b), NoteRank(a))
    ensures CompareNotes(a, b) == 0 <==> NoteRank(a) == NoteRank(b)
  {
  }

  /**
   * The page's comparator for group labels (day labels compare by the
   * instant their text parses to, which orders them as their days). Two
   * labels of a grouping are never equal, so the page never compares a label
   * with itself; the model gives that case 0.
   */
  function CompareKeys(a: DayKey, b: DayKey): int {
    if a == b then 0
    else if a == Today then -1
    else if b == Today then 1
    else if a == Yesterday then -1
    else if b == Yesterday then 1
    else b.day - a.day
  }

  /** A label's rank: Today, then Yesterday, then the dates newest first. */
  function KeyRank(k: DayKey): Sorting.Rank {
    match k
    case Today => Sorting.Rank(0, 0)
    case Yesterday => Sorting.Rank(1, 0)
    case OnDay(d) => Sorting.Rank(2, -d)
  }

  /** The label comparator puts `a` first exactly when `a` ranks strictly lower, and ranks are distinct. */
  lemma CompareKeysAgreesWithRank(a: DayKey, b: DayKey)
    ensures CompareKeys(a, b) < 0 <==> !Sorting.RankLe(KeyRank(b), KeyRank(a))
    ensures CompareKeys(a, b) == 0 <==> a == b
    ensures KeyRank(a) == KeyRank(b) <==> a == b
  {
  }

  /**
   * The notes of one group, sorted oldest first. Notes created at the same
   * instant keep their stored order.
   */
  function SortNotes(notes: seq<Note>): (r: seq<Note>)
    ensures |r| == |notes|
    ensures multiset(r) == multiset(notes)
    ensures forall i, j :: 0 <= i < j < |r| ==> r[i].createdAt <= r[j].createdAt
  {
    var r := Sorting.Sort(notes, NoteRank);
    assert forall i, j :: 0 <= i < j < |r| ==> Sorting.RankLe(NoteRank(r[i]), NoteRank(r[j]));
    r
  }

  /** Sorting a group is stable: notes of equal creation instant keep their order. */
  lemma SortNotesIsStable(notes: seq<Note>, instant: int)
    ensures Seqs.Filter(SortNotes(notes), (n: Note) => n.createdAt == instant)
         == Seqs.Filter(notes, (n: Note) => n.createdAt == instant)
  {
    Sorting.SortIsStable(notes, NoteRank, Sorting.Rank(instant, 0), (n: Note) => n.createdAt == instant);
  }

  // ---------------------------------------------------------------------------
  // Grouping
  // ---------------------------------------------------------------------------

  /** A labelled group of notes. */
  datatype Group = Group(key: DayKey, notes: seq<Note>)

  function GroupRank(g: Group): Sorting.Rank {
    KeyRank(g.key)
  }

  /** No two groups carry the same label. */
  predicate DistinctKeys(groups: seq<Group>) {
    forall i, j :: 0 <= i < j < |groups| ==> groups[i].key != groups[j].key
  }

  /** The labels of the groups, in group order. */
  function KeysOf(groups: seq<Group>): (keys: seq<DayKey>)
    ensures |keys| == |groups| && forall k :: 0 <= k < |groups| ==> keys[k] == groups[k].key
  {
    seq(|groups|, k requires 0 <= k < |groups| => groups[k].key)
  }

  /**
   * `groups` is a grouping of `notes`: one group per label that occurs, each
   * holding exactly the notes with its label, in stored order.
   */
  predicate GroupsOf(groups: seq<Group>, notes: seq<Note>, dayOf: int -> int, today: int) {
    && DistinctKeys(groups)
    && (forall k :: 0 <= k < |groups| ==> groups[k].notes == InGroup(notes, groups[k].key, dayOf, today))
    && (forall k :: 0 <= k < |groups| ==> |groups[k].notes| > 0)
    && (forall n :: n in notes ==> NoteKey(n, dayOf, today) in KeysOf(groups))
  }

  /**
   * One step of the page's `forEach`: the note is appended to the group of
   * its label, which is created at the end when the label is new.
   */
  function Place(groups: seq<Group>, note: Note, key: DayKey): (r: seq<Group>)
    ensures key !in KeysOf(groups) ==> r == groups + [Group(key, [note])]
    ensures key in KeysOf(groups) ==>
      exists k :: 0 <= k < |groups| && groups[k].key == key && r == groups[k := Group(key, groups[k].notes + [note])]
  {
    match Seqs.FindIndex(groups, (g: Group) => g.key == key)
    case None =>
      assert key !in KeysOf(groups);
      groups + [Group(key, [note])]
    case Some(k) =>
      groups[k := Group(key, groups[k].notes + [note])]
  }

  /** Placing one more note turns a grouping of `notes` into one of `notes + [note]`. */
  lemma PlaceKeepsGrouping(groups: seq<Group>, notes: seq<Note>, note: Note, dayOf: int -> int, today: int)
    requires GroupsOf(groups, notes, dayOf, today)
    ensures GroupsOf(Place(groups, note, NoteKey(note, dayOf, today)), notes + [note], dayOf, today)
  {
    var key := NoteKey(note, dayOf, today);
    if key !in KeysOf(groups) {
      PlaceNewKey(groups, notes, note, dayOf, today);
    } else {
      var k :| 0 <= k < |groups| && groups[k].key == key
        && Place(groups, note, key) == groups[k := Group(key, groups[k].notes + [note])];
      PlaceExistingKey(groups, notes, note, k, dayOf, today);
    }
  }

  /** The first note of a new label opens a new group at the end. */
  lemma PlaceNewKey(groups: seq<Group>, notes: seq<Note>, note: Note, dayOf: int -> int, today: int)
    requires GroupsOf(groups, notes, dayOf, today)
    requires NoteKey(note, dayOf, today) !in KeysOf(groups)
    ensures GroupsOf(groups + [Group(NoteKey(note, dayOf, today), [note])], notes + [note], dayOf, today)
  {
    var key := NoteKey(note, dayOf, today);
    var r := groups + [Group(key, [note])];
    var all := notes + [note];
    assert KeysOf(r) == KeysOf(groups) + [key];
    forall k | 0 <= k < |groups|
      ensures groups[k].key != key
    {
      assert KeysOf(groups)[k] == groups[k].key;
    }
    InGroupOfAbsentKey(notes, key, dayOf, today);
    forall k | 0 <= k < |r|
      ensures r[k].notes == InGroup(all, r[k].key, dayOf, today)
    {
      InGroupAppend(notes, note, r[k].key, dayOf, today);
    }
    forall n | n in all
      ensures NoteKey(n, dayOf, today) in KeysOf(r)
    {
      if n != note {
        assert n in notes;
      } else {
        assert KeysOf(r)[|groups|] == key;
      }
    }
  }

  /** A label no note carries has an empty group. */
  lemma {:induction false} InGroupOfAbsentKey(notes: seq<Note>, key: DayKey, dayOf: int -> int, today: int)
    requires forall n :: n in notes ==> NoteKey(n, dayOf, today) != key
    ensures InGroup(notes, key, dayOf, today) == []
    decreases |notes|
  {
    if |notes| > 0 {
      InGroupOfAbsentKey(notes[..|notes| - 1], key, dayOf, today);
    }
  }

  /** A note whose label already has a group is appended to that group. */
  lemma PlaceExistingKey(groups: seq<Group>, notes: seq<Note>, note: Note, k: nat, dayOf: int -> int, today: int)
    requires GroupsOf(groups, notes, dayOf, today)
    requires k < |groups| && groups[k].key == NoteKey(note, dayOf, today)
    ensures GroupsOf(groups[k := Group(groups[k].key, groups[k].notes + [note])], notes + [note], dayOf, today)
  {
    var key := groups[k].key;
    var r := groups[k := Group(key, groups[k].notes + [note])];
    var all := notes + [note];
    assert KeysOf(r) == KeysOf(groups);
    forall j | 0 <= j < |r|
      ensures r[j].notes == InGroup(all, r[j].key, dayOf, today)
    {
      InGroupAppend(notes, note, r[j].key, dayOf, today);
      if j != k {
        assert r[j].key != key;
      }
    }
    forall n | n in all
      ensures NoteKey(n, dayOf, today) in KeysOf(r)
    {
      if n != note {
        assert n in notes;
      } else {
        assert KeysOf(r)[k] == key;
      }
    }
  }

  /** No notes, no groups. */
  lemma NoNotesNoGroups(dayOf: int -> int, today: int)
    ensures GroupsOf([], [], dayOf, today)
  {
  }

  /**
   * Grouping the stored notes, as the page's `forEach` does: a group is
   * created the first time its label is met and every note is appended to
   * its group, so each group holds its notes in stored order.
   */
  method GroupNotesByDate(notes: seq<Note>, dayOf: int -> int, today: int) returns (groups: seq<Group>)
    ensures GroupsOf(groups, notes, dayOf, today)
  {
    groups := [];
    ghost var seen: seq<Note> := [];
    NoNotesNoGroups(dayOf, today);
    var i := 0;
    while i < |notes|
      invariant 0 <= i <= |notes| && seen == notes[..i]
      invariant GroupsOf(groups, seen, dayOf, today)
    {
      var note := notes[i];
      PlaceKeepsGrouping(groups, seen, note, dayOf, today);
      groups := Place(groups, note, NoteKey(note, dayOf, today));
      seen := seen + [note];
      i := i + 1;
    }
    assert seen == notes;
  }

  /** Sorting every group oldest first; labels and group order stay as they are. */
  function SortEachGroup(groups: seq<Group>): (r: seq<Group>)
    ensures |r| == |groups|
    ensures forall k :: 0 <= k < |r| ==> r[k].key == groups[k].key && r[k].notes == SortNotes(groups[k].notes)
  {
    seq(|groups|, k requires 0 <= k < |groups| => Group(groups[k].key, SortNotes(groups[k].notes)))
  }

  /**
   * Group labels in timeline order: Today can only come first, Yesterday
   * only first or right after Today, and the dated groups come after both,
   * newest first.
   */
  predicate LabelsInTimelineOrder(t: seq<Group>) {
    && (forall i :: 0 < i < |t| ==> t[i].key != Today)
    && (forall i :: 0 <= i < |t| && t[i].key == Yesterday ==> i == 0 || (i == 1 && t[0].key == Today))
    && (forall i, j :: 0 <= i < j < |t| && t[i].key.OnDay? ==> t[j].key.OnDay? && t[i].key.day > t[j].key.day)
  }

  /** Groups with distinct labels sorted by label rank are in timeline order. */
  lemma SortedLabelsInTimelineOrder(t: seq<Group>)
    requires Sorting.Sorted(t, GroupRank) && Sorting.DistinctRanks(t, GroupRank)
    ensures DistinctKeys(t)
    ensures LabelsInTimelineOrder(t)
  {
    forall i, j | 0 <= i < j < |t|
      ensures t[i].key != t[j].key
      ensures Sorting.RankLe(KeyRank(t[i].key), KeyRank(t[j].key))
    {
      CompareKeysAgreesWithRank(t[i].key, t[j].key);
    }
    forall i | 0 < i < |t|
      ensures t[i].key != Today
    {
      assert Sorting.RankLe(KeyRank(t[0].key), KeyRank(t[i].key));
    }
    forall i | 1 < i < |t|
      ensures t[i].key != Yesterday
    {
      assert Sorting.RankLe(KeyRank(t[0].key), KeyRank(t[i].key));
      assert Sorting.RankLe(KeyRank(t[1].key), KeyRank(t[i].key));
      assert t[0].key != t[1].key;
    }
    if 1 < |t| && t[1].key == Yesterday {
      assert Sorting.RankLe(KeyRank(t[0].key), KeyRank(t[1].key));
    }
  }

  /** Distinct labels have distinct ranks. */
  lemma DistinctKeysDistinctRanks(groups: seq<Group>)
    requires DistinctKeys(groups)
    ensures Sorting.DistinctRanks(groups, GroupRank)
  {
    forall i, j | 0 <= i < j < |groups|
      ensures GroupRank(groups[i]) != GroupRank(groups[j])
    {
      CompareKeysAgreesWithRank(groups[i].key, groups[j].key);
    }
  }

  /**
   * Every group of `t` holds, oldest first, exactly the notes of its label,
   * and is not empty.
   */
  predicate SortedGroupsOf(t: seq<Group>, notes: seq<Note>, dayOf: int -> int, today: int) {
    && (forall k :: 0 <= k < |t| ==> t[k].notes == SortNotes(InGroup(notes, t[k].key, dayOf, today)))
    && (forall k :: 0 <= k < |t| ==> |t[k].notes| > 0)
  }

  /** Reordering the groups keeps what each holds. */
  lemma PermutedGroups(groups: seq<Group>, t: seq<Group>, notes: seq<Note>, dayOf: int -> int, today: int)
    requires SortedGroupsOf(groups, notes, dayOf, today)
    requires multiset(t) == multiset(groups)
    ensures SortedGroupsOf(t, notes, dayOf, today)
    ensures forall k :: k in KeysOf(groups) ==> k in KeysOf(t)
  {
    forall k | 0 <= k < |t|
      ensures t[k].notes == SortNotes(InGroup(notes, t[k].key, dayOf, today)) && |t[k].notes| > 0
    {
      assert t[k] in multiset(groups);
      var j :| 0 <= j < |groups| && groups[j] == t[k];
    }
    forall key | key in KeysOf(groups)
      ensures key in KeysOf(t)
    {
      var j :| 0 <= j < |groups| && KeysOf(groups)[j] == key;
      assert groups[j] in multiset(t);
      var k :| 0 <= k < |t| && t[k] == groups[j];
      assert KeysOf(t)[k] == key;
    }
  }

  /** Every stored note is in some group, under its own label. */
  predicate EveryNoteFiled(t: seq<Group>, notes: seq<Note>, dayOf: int -> int, today: int) {
    forall n :: n in notes ==> exists k :: 0 <= k < |t| && t[k].key == NoteKey(n, dayOf, today) && n in t[k].notes
  }

  /** The group holds only stored notes, and only those of its label. */
  predicate HoldsOnlyItsNotes(g: Group, notes: seq<Note>, dayOf: int -> int, today: int) {
    forall n :: n in g.notes ==> n in notes && NoteKey(n, dayOf, today) == g.key
  }

  /** Every group holds only stored notes, and only those of its label. */
  predicate OnlyOwnNotes(t: seq<Group>, notes: seq<Note>, dayOf: int -> int, today: int) {
    forall k :: 0 <= k < |t| ==> HoldsOnlyItsNotes(t[k], notes, dayOf, today)
  }

  /** In a grouping whose groups are sorted, every stored note sits in the group of its label. */
  lemma EveryNoteInItsGroup(t: seq<Group>, notes: seq<Note>, dayOf: int -> int, today: int)
    requires SortedGroupsOf(t, notes, dayOf, today)
    requires forall n :: n in notes ==> NoteKey(n, dayOf, today) in KeysOf(t)
    ensures EveryNoteFiled(t, notes, dayOf, today)
  {
    forall n | n in notes
      ensures exists k :: 0 <= k < |t| && t[k].key == NoteKey(n, dayOf, today) && n in t[k].notes
    {
      var k :| 0 <= k < |t| && KeysOf(t)[k] == NoteKey(n, dayOf, today);
      InGroupMembers(notes, t[k].key, dayOf, today);
      assert n in multiset(t[k].notes);
    }
  }

  /** In a grouping whose groups are sorted, each group holds only stored notes of its label. */
  lemma GroupsHoldTheirLabels(t: seq<Group>, notes: seq<Note>, dayOf: int -> int, today: int)
    requires SortedGroupsOf(t, notes, dayOf, today)
    ensures OnlyOwnNotes(t, notes, dayOf, today)
  {
    forall k | 0 <= k < |t|
      ensures HoldsOnlyItsNotes(t[k], notes, dayOf, today)
    {
      InGroupMembers(notes, t[k].key, dayOf, today);
      forall n | n in t[k].notes
        ensures n in notes && NoteKey(n, dayOf, today) == t[k].key
      {
        assert n in multiset(InGroup(notes, t[k].key, dayOf, today));
      }
    }
  }

  /** Sorting inside each group keeps the labels and turns a grouping into a sorted one. */
  lemma SortEachGroupKeepsGrouping(groups: seq<Group>, notes: seq<Note>, dayOf: int -> int, today: int)
    requires GroupsOf(groups, notes, dayOf, today)
    ensures DistinctKeys(SortEachGroup(groups))
    ensures KeysOf(SortEachGroup(groups)) == KeysOf(groups)
    ensures SortedGroupsOf(SortEachGroup(groups), notes, dayOf, today)
  {
    var r := SortEachGroup(groups);
    assert KeysOf(r) == KeysOf(groups);
  }

  /**
   * The timeline the page shows: the groups ordered Today, Yesterday, then
   * the remaining days newest first; inside each group the notes oldest
   * first; every stored note in exactly one group, under its own label.
   */
  method Timeline(notes: seq<Note>, dayOf: int -> int, today: int) returns (t: seq<Group>)
    ensures DistinctKeys(t)
    ensures LabelsInTimelineOrder(t)
    ensures forall k :: 0 <= k < |t| ==> t[k].notes == SortNotes(InGroup(notes, t[k].key, dayOf, today))
    ensures forall k :: 0 <= k < |t| ==> |t[k].notes| > 0
    ensures EveryNoteFiled(t, notes, dayOf, today)
    ensures OnlyOwnNotes(t, notes, dayOf, today)
  {
    var grouped := GroupNotesByDate(notes, dayOf, today);
    var groups := SortEachGroup(grouped);
    SortEachGroupKeepsGrouping(grouped, notes, dayOf, today);
    DistinctKeysDistinctRanks(groups);
    t := Sorting.Sort(groups, GroupRank);
    Sorting.SortKeepsRanksDistinct(groups, GroupRank);
    SortedLabelsInTimelineOrder(t);
    PermutedGroups(groups, t, notes, dayOf, today);
    EveryNoteInItsGroup(t, notes, dayOf, today);
    GroupsHoldTheirLabels(t, notes, dayOf, today);
  }
}
