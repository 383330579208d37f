/**
 * The four record types the application stores, and the task draft the
 * task modals edit.
 *
 * Identifiers are the millisecond clock reading taken when the record was
 * created, and `createdAt` is the creation instant in milliseconds (the page
 * stores it as an ISO-8601 string and parses it back where it needs a
 * number). Optional fields are `Option`s; a project is referenced from a task
 * by its name, not by its id.
 */
module Records {
  import opened Base

  datatype Task = Task(
    id: int,
    text: string,
    completed: bool,
    createdAt: int,
    dueDate: Option<string>,
    project: Option<string>,
    details: Option<string>)

  datatype Idea = Idea(id: int, title: string, text: string, createdAt: int)

  datatype Note = Note(id: int, text: string, createdAt: int, category: Option<string>)

  datatype Project = Project(
    id: int,
    name: string,
    description: string,
    createdAt: int,
    color: string,
    taskCount: int)

  /** The fields of the task modal, all plain strings ("" for nothing entered). */
  datatype TaskDraft = TaskDraft(text: string, project: string, dueDate: string, details: string)

  /** `s || undefined`: an empty modal field is stored as an absent field. */
  function OrAbsent(s: string): (r: Option<string>)
    ensures r.None? <==> s == ""
    ensures r.Some? ==> r.value == s
  {
    if s == "" then None else Some(s)
  }

  /** `o || ""`: an absent (or empty) stored field shows as an empty modal field. */
  function OrEmpty(o: Option<string>): (r: string)
    ensures OrAbsent(r) == o || o == Some("")
  {
    o.GetOr("")
  }

  /** Showing a stored field and storing it back gives back the field. */
  lemma {:induction false} OrEmptyRoundTrip(s: string)
    ensures OrEmpty(OrAbsent(s)) == s
  {
    if s != "" {
      assert OrAbsent(s) == Some(s);
    }
  }

  /**
   * The page's `!activeTaskId` / `!activeProjectId` test: no id is active when
   * none is set, and also when the id is 0, which JavaScript treats as false.
   */
  predicate IsUnset(active: Option<int>) {
    active.None? || active.value == 0
  }

  /** The task a committed draft becomes: not completed, empty fields absent. */
  function NewTask(d: TaskDraft, id: int, now: int): (t: Task)
    ensures t.id == id && t.createdAt == now && !t.completed && t.text == d.text
    ensures OrEmpty(t.dueDate) == d.dueDate && t.dueDate != Some("")
    ensures OrEmpty(t.project) == d.project && t.project != Some("")
    ensures OrEmpty(t.details) == d.details && t.details != Some("")
  {
    Task(id, d.text, false, now, OrAbsent(d.dueDate), OrAbsent(d.project), OrAbsent(d.details))
  }

  /** The modal fields showing `t` (the inverse of `NewTask` on the draft fields). */
  function DraftOf(t: Task): TaskDraft {
    TaskDraft(t.text, OrEmpty(t.project), OrEmpty(t.dueDate), OrEmpty(t.details))
  }

  /** Committing a draft and reopening the task shows the same draft. */
  lemma NewTaskDraftRoundTrip(d: TaskDraft, id: int, now: int)
    ensures DraftOf(NewTask(d, id, now)) == d
  {
  }

  /** The ids of a collection. */
  function TaskIds(tasks: seq<Task>): set<int> {
    set t | t in tasks :: t.id
  }

  function IdeaIds(ideas: seq<Idea>): set<int> {
    set i | i in ideas :: i.id
  }

  function NoteIds(notes: seq<Note>): set<int> {
    set n | n in notes :: n.id
  }

  function ProjectIds(projects: seq<Project>): set<int> {
    set p | p in projects :: p.id
  }

  /** No two projects share an id. */
  predicate UniqueProjectIds(projects: seq<Project>) {
    forall i, j :: 0 <= i < j < |projects| ==> projects[i].id != projects[j].id
  }

  predicate UniqueTaskIds(tasks: seq<Task>) {
    forall i, j :: 0 <= i < j < |tasks| ==> tasks[i].id != tasks[j].id
  }

  predicate UniqueIdeaIds(ideas: seq<Idea>) {
    forall i, j :: 0 <= i < j < |ideas| ==> ideas[i].id != ideas[j].id
  }
}
