/**
 * The idea page's handlers: adding and deleting ideas, expanding an idea's
 * card, converting an idea into a task, and shortening long idea texts.
 *
 * Conversion touches two collections: it appends to the task list held in
 * storage and removes the idea from the idea list. The model computes both
 * new lists in one step.
 */
module IdeaStore {
  import opened Base
  import opened Records
  import Seqs
  import TaskStore

  /**
   * Adding an idea. The page ignores the call when either the title or the
   * text is empty after trimming; otherwise the idea is appended.
   */
  function AddIdea(ideas: seq<Idea>, title: string, text: string, id: int, now: int): (r: seq<Idea>)
    ensures AllWhitespace(title) || AllWhitespace(text) ==> r == ideas
    ensures !AllWhitespace(title) && !AllWhitespace(text) ==>
      |r| == |ideas| + 1 && r[..|ideas|] == ideas && r[|ideas|] == Idea(id, title, text, now)
  {
    BlankIffAllWhitespace(title);
    BlankIffAllWhitespace(text);
    if IsBlank(text) || IsBlank(title) then ideas
    else ideas + [Idea(id, title, text, now)]
  }

  /** Deleting: every idea with the given id goes, the others stay in order. */
  function DeleteIdea(ideas: seq<Idea>, id: int): (r: seq<Idea>)
    ensures id !in IdeaIds(r)
    ensures forall i :: i in r <==> i in ideas && i.id != id
    ensures id !in IdeaIds(ideas) ==> r == ideas
  {
    Seqs.Filter(ideas, (i: Idea) => i.id != id)
  }

  /** Deleting from two runs of ideas in a row deletes from each run, so the survivors keep their order. */
  lemma DeleteIdeaKeepsOrder(front: seq<Idea>, back: seq<Idea>, id: int)
    ensures DeleteIdea(front + back, id) == DeleteIdea(front, id) + DeleteIdea(back, id)
  {
    Seqs.FilterConcat(front, back, (i: Idea) => i.id != id);
  }

  /** With unique ids, deleting an existing idea shortens the list by one. */
  lemma DeleteExistingIdeaCount(ideas: seq<Idea>, id: int)
    requires UniqueIdeaIds(ideas) && id in IdeaIds(ideas)
    ensures |DeleteIdea(ideas, id)| == |ideas| - 1
  {
    var k :| 0 <= k < |ideas| && ideas[k].id == id;
    Seqs.FilterDropsOne(ideas, (i: Idea) => i.id != id, k);
  }

  /** Deleting an idea just added with a fresh id undoes the addition. */
  lemma AddThenDeleteIdea(ideas: seq<Idea>, title: string, text: string, id: int, now: int)
    requires id !in IdeaIds(ideas)
    ensures DeleteIdea(AddIdea(ideas, title, text, id, now), id) == ideas
  {
    if !AllWhitespace(title) && !AllWhitespace(text) {
      var added := Idea(id, title, text, now);
      assert AddIdea(ideas, title, text, id, now) == ideas + [added];
      Seqs.FilterConcat(ideas, [added], (i: Idea) => i.id != id);
      assert DeleteIdea(ideas, id) == ideas;
      assert Seqs.Filter([added], (i: Idea) => i.id != id) == [];
    }
  }

  /**
   * Expanding or collapsing an idea card: the id leaves the expanded list
   * (every copy of it) when it is there, and is appended when it is not.
   */
  function ToggleExpandIdea(expanded: seq<int>, id: int): (r: seq<int>)
    ensures id in r <==> id !in expanded
    ensures forall x :: x != id ==> (x in r <==> x in expanded)
    ensures Seqs.Distinct(expanded) ==> Seqs.Distinct(r)
  {
    if id in expanded then
      Seqs.FilterKeepsDistinct(expanded, (x: int) => x != id);
      Seqs.Filter(expanded, (x: int) => x != id)
    else expanded + [id]
  }

  /**
   * Expanding and then collapsing a card restores the list. (Collapsing and
   * re-expanding moves the id to the end, so the converse holds only when it
   * was already last and not repeated.)
   */
  lemma ExpandThenCollapse(expanded: seq<int>, id: int)
    requires id !in expanded
    ensures ToggleExpandIdea(ToggleExpandIdea(expanded, id), id) == expanded
  {
    Seqs.FilterConcat(expanded, [id], (x: int) => x != id);
  }

  /** The text the conversion appends to the idea's body, before the formatted date. */
  const ProvenancePrefix: string := "\n\nConverted from idea created on "

  /**
   * Opening the conversion modal: the task text is the idea's title, no
   * project or due date, and the details are the idea's text followed by a
   * note saying when the idea was created. The date is passed in already
   * formatted.
   */
  function OpenConvertModal(idea: Idea, formattedDate: string): (d: TaskDraft)
    ensures d.text == idea.title && d.project == "" && d.dueDate == ""
    ensures d.details == idea.text + ProvenancePrefix + formattedDate
    ensures |d.details| > |idea.text| && d.details[..|idea.text|] == idea.text
  {
    TaskDraft(idea.title, "", "", idea.text + ProvenancePrefix + formattedDate)
  }

  /** The task and idea lists as they stand after an operation. */
  datatype Collections = Collections(tasks: seq<Task>, ideas: seq<Idea>)

  /**
   * Committing a conversion. With no idea selected nothing changes.
   * Otherwise the drafted task is appended to the stored tasks and every idea
   * with the selected idea's id is removed.
   */
  function ConvertToTask(c: Collections, selected: Option<Idea>, d: TaskDraft, id: int, now: int): (r: Collections)
    ensures selected.None? ==> r == c
    ensures selected.Some? ==> r.tasks == TaskStore.AddTask(c.tasks, d, id, now)
    ensures selected.Some? ==> r.ideas == DeleteIdea(c.ideas, selected.value.id)
  {
    match selected
    case None => c
    case Some(idea) => Collections(TaskStore.AddTask(c.tasks, d, id, now), DeleteIdea(c.ideas, idea.id))
  }

  /**
   * Converting an idea that is in a list with unique ids yields exactly one
   * more task and exactly one fewer idea; the new task is not completed and
   * keeps the idea's body and provenance as its details.
   */
  lemma ConvertMovesOneIdea(c: Collections, idea: Idea, formattedDate: string, id: int, now: int)
    requires UniqueIdeaIds(c.ideas) && idea in c.ideas
    ensures var r := ConvertToTask(c, Some(idea), OpenConvertModal(idea, formattedDate), id, now);
      && |r.tasks| == |c.tasks| + 1
      && |r.ideas| == |c.ideas| - 1
      && idea !in r.ideas
      && r.tasks[|c.tasks|].text == idea.title
      && !r.tasks[|c.tasks|].completed
      && r.tasks[|c.tasks|].project.None?
      && r.tasks[|c.tasks|].details == Some(idea.text + ProvenancePrefix + formattedDate)
  {
    DeleteExistingIdeaCount(c.ideas, idea.id);
  }

  /** The page's default truncation length for idea texts. */
  const DefaultTruncateLength: int := 150

  /**
   * Shortening a text for display: a text no longer than `maxLength` is shown
   * as is; a longer one is cut to its first `maxLength` characters (none when
   * `maxLength` is negative, as `substring` clamps it to 0) followed by "...".
   */
  function TruncateText(text: string, maxLength: int): (r: string)
    ensures |text| <= maxLength ==> r == text
    ensures |text| > maxLength ==>
      var keep := if maxLength < 0 then 0 else maxLength;
      |r| == keep + 3 && r[..keep] == text[..keep] && r[keep..] == "..."
  {
    if |text| <= maxLength then text
    else
      var keep := if maxLength < 0 then 0 else maxLength;
      text[..keep] + "..."
  }

  /** A truncated text is never longer than the limit plus the three dots. */
  lemma TruncateBound(text: string, maxLength: nat)
    ensures |TruncateText(text, maxLength)| <= maxLength + 3
    ensures TruncateText(text, maxLength) == text || |TruncateText(text, maxLength)| == maxLength + 3
  {
  }

  /** Showing a shortened text again, with room for the three dots, changes nothing. */
  lemma TruncateAgainKeeps(text: string, maxLength: nat)
    ensures TruncateText(TruncateText(text, maxLength), maxLength + 3) == TruncateText(text, maxLength)
  {
  }

  /** Two long texts that start alike are shown alike: only the first `maxLength` characters are seen. */
  lemma TruncateSeesOnlyPrefix(a: string, b: string, maxLength: nat)
    requires |a| > maxLength && |b| > maxLength && a[..maxLength] == b[..maxLength]
    ensures TruncateText(a, maxLength) == TruncateText(b, maxLength)
  {
  }

  /**
   * The texts shown unchanged are exactly those within the limit and those
   * that already consist of `maxLength` characters followed by "...".
   */
  lemma TruncateUnchangedExactly(text: string, maxLength: nat)
    ensures TruncateText(text, maxLength) == text <==>
      |text| <= maxLength || (|text| == maxLength + 3 && text[maxLength..] == "...")
  {
    if |text| == maxLength + 3 && text[maxLength..] == "..." {
      assert text == text[..maxLength] + text[maxLength..];
    }
  }

  /**
   * The idea card's preview, `truncateText(idea.text)` with the default limit:
   * a text of at most 150 characters is shown whole, a longer one as its
   * first 150 characters and "...", so a preview never exceeds 153 characters.
   */
  lemma IdeaCardPreview(text: string)
    ensures |text| <= 150 ==> TruncateText(text, DefaultTruncateLength) == text
    ensures |text| > 150 ==> TruncateText(text, DefaultTruncateLength) == text[..150] + "..."
    ensures |TruncateText(text, DefaultTruncateLength)| <= 153
  {
    if |text| > 150 {
      var r := TruncateText(text, DefaultTruncateLength);
      assert r == r[..150] + r[150..];
    }
  }
}
