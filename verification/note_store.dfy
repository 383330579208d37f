/**
 * The notes page's handlers: adding and deleting notes. Notes have no edit
 * operation; their grouping into a timeline is in `NoteTimeline`.
 */
module NoteStore {
  import opened Base
  import opened Records
  import Seqs

  /**
   * Adding a note. Text that is empty after trimming is ignored; otherwise
   * the note is appended, without a category.
   */
  function AddNote(notes: seq<Note>, text: string, id: int, now: int): (r: seq<Note>)
    ensures AllWhitespace(text) ==> r == notes
    ensures !AllWhitespace(text) ==>
      |r| == |notes| + 1 && r[..|notes|] == notes && r[|notes|] == Note(id, text, now, None)
  {
    BlankIffAllWhitespace(text);
    if IsBlank(text) then notes else notes + [Note(id, text, now, None)]
  }

  /** Deleting: every note with the given id goes, the others stay in order. */
  function DeleteNote(notes: seq<Note>, id: int): (r: seq<Note>)
    ensures id !in NoteIds(r)
    ensures forall n :: n in r <==> n in notes && n.id != id
    ensures id !in NoteIds(notes) ==> r == notes
  {
    Seqs.Filter(notes, (n: Note) => n.id != id)
  }

  /** Deleting from two runs of notes in a row deletes from each run, so the survivors keep their order. */
  lemma DeleteNoteKeepsOrder(front: seq<Note>, back: seq<Note>, id: int)
    ensures DeleteNote(front + back, id) == DeleteNote(front, id) + DeleteNote(back, id)
  {
    Seqs.FilterConcat(front, back, (n: Note) => n.id != id);
  }

  /** Deleting a note just added with a fresh id undoes the addition. */
  lemma AddThenDeleteNote(notes: seq<Note>, text: string, id: int, now: int)
    requires id !in NoteIds(notes)
    ensures DeleteNote(AddNote(notes, text, id, now), id) == notes
  {
    if !IsBlank(text) {
      var added := Note(id, text, now, None);
      assert AddNote(notes, text, id, now) == notes + [added];
      Seqs.FilterConcat(notes, [added], (n: Note) => n.id != id);
      assert DeleteNote(notes, id) == notes;
      assert Seqs.Filter([added], (n: Note) => n.id != id) == [];
    }
  }
}
