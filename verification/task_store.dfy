/**
 * The task page's handlers: opening the add modal, adding, viewing,
 * updating, completing and deleting tasks, the project filter, and the list
 * of project names used by tasks.
 *
 * Every handler is a pure function of the current task list; the page writes
 * the returned list back to storage.
 */
module TaskStore {
  import opened Base
  import opened Records
  import Seqs

  /**
   * Opening the add modal. Input that is empty after trimming is ignored;
   * otherwise the draft carries the typed text and the project of the active
   * filter, with no due date and no details.
   */
  function OpenAddTaskModal(input: string, selectedProject: Option<string>): (r: Option<TaskDraft>)
    ensures r.None? <==> AllWhitespace(input)
    ensures r.Some? ==> r.value.text == input && r.value.dueDate == "" && r.value.details == ""
    ensures r.Some? ==> OrAbsent(r.value.project) == selectedProject || selectedProject == Some("")
  {
    BlankIffAllWhitespace(input);
    if IsBlank(input) then None
    else Some(TaskDraft(input, OrEmpty(selectedProject), "", ""))
  }

  /** Adding the drafted task at the end of the list. */
  function AddTask(tasks: seq<Task>, d: TaskDraft, id: int, now: int): (r: seq<Task>)
    ensures |r| == |tasks| + 1 && r[..|tasks|] == tasks
    ensures r[|tasks|].id == id && !r[|tasks|].completed && DraftOf(r[|tasks|]) == d
    ensures r[|tasks|].createdAt == now && NormalFields(r[|tasks|])
  {
    tasks + [NewTask(d, id, now)]
  }

  /** Position `k` holds the first task with the given id. */
  predicate FirstWithId(tasks: seq<Task>, id: int, k: int) {
    0 <= k < |tasks| && tasks[k].id == id && forall i :: 0 <= i < k ==> tasks[i].id != id
  }

  /** `tasks.find(t => t.id === id)`: the first task with the id. */
  function FindTask(tasks: seq<Task>, id: int): (r: Option<Task>)
    ensures r.None? <==> id !in TaskIds(tasks)
    ensures r.Some? ==> exists k :: FirstWithId(tasks, id, k) && tasks[k] == r.value
  {
    Seqs.Find(tasks, (t: Task) => t.id == id)
  }

  /**
   * Opening the view modal of task `id`: the draft shows the first task with
   * that id; nothing opens when there is none.
   */
  function OpenViewTaskModal(tasks: seq<Task>, id: int): (r: Option<TaskDraft>)
    ensures r.None? <==> id !in TaskIds(tasks)
    ensures r.Some? ==> exists k :: FirstWithId(tasks, id, k) && r.value == DraftOf(tasks[k])
  {
    match FindTask(tasks, id)
    case None => None
    case Some(t) => Some(DraftOf(t))
  }

  /** `edited` is `original` with its editable fields taken from `d`. */
  predicate EditedFrom(original: Task, d: TaskDraft, edited: Task) {
    && edited.id == original.id
    && edited.completed == original.completed
    && edited.createdAt == original.createdAt
    && DraftOf(edited) == d
    && edited.dueDate != Some("") && edited.project != Some("") && edited.details != Some("")
  }

  /**
   * Saving the view modal. Nothing happens when no task is active (the page
   * treats id 0 as no task); otherwise every task with the active id takes
   * the draft's text, due date, project and details, and nothing else changes.
   */
  function UpdateTask(tasks: seq<Task>, active: Option<int>, d: TaskDraft): (r: seq<Task>)
    ensures |r| == |tasks|
    ensures IsUnset(active) ==> r == tasks
    ensures forall i :: 0 <= i < |tasks| && !IsUnset(active) && tasks[i].id == active.value ==> EditedFrom(tasks[i], d, r[i])
    ensures forall i :: 0 <= i < |tasks| && (IsUnset(active) || tasks[i].id != active.value) ==> r[i] == tasks[i]
  {
    if IsUnset(active) then tasks
    else
      seq(|tasks|, i requires 0 <= i < |tasks| =>
        if tasks[i].id == active.value
        then tasks[i].(text := d.text, dueDate := OrAbsent(d.dueDate), project := OrAbsent(d.project), details := OrAbsent(d.details))
        else tasks[i])
  }

  /** A stored task field the page could itself have written: absent or non-empty. */
  predicate NormalFields(t: Task) {
    t.dueDate != Some("") && t.project != Some("") && t.details != Some("")
  }

  /**
   * Saving the view modal without editing it leaves the tasks as they were,
   * provided ids are unique and the task's optional fields are normal.
   */
  lemma ViewThenSaveUnchanged(tasks: seq<Task>, id: int)
    requires UniqueTaskIds(tasks) && id != 0
    requires forall t :: t in tasks && t.id == id ==> NormalFields(t)
    ensures OpenViewTaskModal(tasks, id).Some? ==>
      UpdateTask(tasks, Some(id), OpenViewTaskModal(tasks, id).value) == tasks
  {
    if OpenViewTaskModal(tasks, id).Some? {
      var d := OpenViewTaskModal(tasks, id).value;
      var r := UpdateTask(tasks, Some(id), d);
      forall i | 0 <= i < |tasks|
        ensures r[i] == tasks[i]
      {
        if tasks[i].id == id {
          var t :| t in tasks && t.id == id && d == DraftOf(t);
          var k :| 0 <= k < |tasks| && tasks[k] == t;
          assert k == i;
          OrEmptyRoundTrip(OrEmpty(t.project));
        }
      }
    }
  }

  /**
   * Toggling completion: exactly the tasks with the given id flip
   * `completed`, and no other field of any task changes.
   */
  function ToggleTaskComplete(tasks: seq<Task>, id: int): (r: seq<Task>)
    ensures |r| == |tasks|
    ensures forall i :: 0 <= i < |tasks| ==> r[i].(completed := tasks[i].completed) == tasks[i]
    ensures forall i :: 0 <= i < |tasks| ==> (r[i].completed != tasks[i].completed <==> tasks[i].id == id)
  {
    seq(|tasks|, i requires 0 <= i < |tasks| =>
      if tasks[i].id == id then tasks[i].(completed := !tasks[i].completed) else tasks[i])
  }

  /** Toggling the same task twice restores the list. */
  lemma ToggleTwiceIsIdentity(tasks: seq<Task>, id: int)
    ensures ToggleTaskComplete(ToggleTaskComplete(tasks, id), id) == tasks
  {
  }

  /** Deleting: every task with the given id goes, the others stay in order. */
  function DeleteTask(tasks: seq<Task>, id: int): (r: seq<Task>)
    ensures id !in TaskIds(r)
    ensures forall t :: t in r <==> t in tasks && t.id != id
    ensures id !in TaskIds(tasks) ==> r == tasks
  {
    Seqs.Filter(tasks, (t: Task) => t.id != id)
  }

  /** With unique ids, deleting an existing task shortens the list by one. */
  lemma DeleteExistingTaskCount(tasks: seq<Task>, id: int)
    requires UniqueTaskIds(tasks) && id in TaskIds(tasks)
    ensures |DeleteTask(tasks, id)| == |tasks| - 1
  {
    var k :| 0 <= k < |tasks| && tasks[k].id == id;
    Seqs.FilterDropsOne(tasks, (t: Task) => t.id != id, k);
  }

  /**
   * Deleting from a list deletes from each of its parts, so the surviving
   * tasks keep their relative order.
   */
  lemma DeleteTaskKeepsOrder(front: seq<Task>, back: seq<Task>, id: int)
    ensures DeleteTask(front + back, id) == DeleteTask(front, id) + DeleteTask(back, id)
  {
    Seqs.FilterConcat(front, back, (t: Task) => t.id != id);
  }

  /** Deleting a task just added with a fresh id undoes the addition. */
  lemma AddThenDeleteTask(tasks: seq<Task>, d: TaskDraft, id: int, now: int)
    requires id !in TaskIds(tasks)
    ensures DeleteTask(AddTask(tasks, d, id, now), id) == tasks
  {
    var added := NewTask(d, id, now);
    Seqs.FilterConcat(tasks, [added], (t: Task) => t.id != id);
    assert DeleteTask(tasks, id) == tasks;
    assert Seqs.Filter([added], (t: Task) => t.id != id) == [];
  }

  /** A task added with a fresh id can be opened again and shows its draft. */
  lemma AddThenView(tasks: seq<Task>, d: TaskDraft, id: int, now: int)
    requires id !in TaskIds(tasks)
    ensures OpenViewTaskModal(AddTask(tasks, d, id, now), id) == Some(d)
  {
    var r := AddTask(tasks, d, id, now);
    assert r[|tasks|] in r;
  }

  /**
   * The task list under the project filter: all tasks when no filter is set
   * (a missing or empty selection), otherwise the tasks whose project is
   * exactly the selected name, case-sensitively, in their original order.
   */
  function VisibleTasks(tasks: seq<Task>, selectedProject: Option<string>): (r: seq<Task>)
    ensures selectedProject.None? || selectedProject == Some("") ==> r == tasks
    ensures selectedProject.Some? && selectedProject.value != "" ==>
      forall t :: t in r <==> t in tasks && t.project == selectedProject
  {
    if selectedProject.None? || selectedProject.value == "" then tasks
    else Seqs.Filter(tasks, (t: Task) => t.project == selectedProject)
  }

  /** The filtered list of two runs of tasks in a row is the filtered first run, then the filtered second. */
  lemma VisibleTasksConcat(a: seq<Task>, b: seq<Task>, selectedProject: Option<string>)
    ensures VisibleTasks(a + b, selectedProject) == VisibleTasks(a, selectedProject) + VisibleTasks(b, selectedProject)
  {
    if selectedProject.Some? && selectedProject.value != "" {
      Seqs.FilterConcat(a, b, (t: Task) => t.project == selectedProject);
    }
  }

  /** A single task shows under the filter exactly when no filter is set or its project is the selected one. */
  lemma VisibleTasksOfOne(t: Task, selectedProject: Option<string>)
    ensures selectedProject.None? || selectedProject == Some("") || t.project == selectedProject ==>
      VisibleTasks([t], selectedProject) == [t]
    ensures selectedProject.Some? && selectedProject.value != "" && t.project != selectedProject ==>
      VisibleTasks([t], selectedProject) == []
  {
    assert [t][1..] == [];
  }

  /**
   * The non-empty project names of the tasks, one per task that has one, in
   * task order (`ProjectNamesOfOne` and `ProjectNamesConcat`).
   */
  function ProjectNames(tasks: seq<Task>): (r: seq<string>)
    ensures forall n :: n in r <==> n != "" && exists t :: t in tasks && t.project == Some(n)
    decreases |tasks|
  {
    if |tasks| == 0 then []
    else
      assert forall t :: t in tasks <==> t == tasks[0] || t in tasks[1..];
      var head := if tasks[0].project.Some? && tasks[0].project.value != "" then [tasks[0].project.value] else [];
      head + ProjectNames(tasks[1..])
  }

  /**
   * The page's `availableProjects`: each non-empty project name used by some
   * task, once, in the order of first use. The page computes this value but
   * never reads it; its filter menu lists the stored projects instead.
   */
  function AvailableProjects(tasks: seq<Task>): (r: seq<string>)
    ensures Seqs.Distinct(r)
    ensures forall n :: n in r <==> n in ProjectNames(tasks)
    ensures forall n :: n in r <==> n != "" && exists t :: t in tasks && t.project == Some(n)
    ensures forall i, j :: 0 <= i < j < |r| ==>
      Seqs.IndexOf(ProjectNames(tasks), r[i]) < Seqs.IndexOf(ProjectNames(tasks), r[j])
  {
    Seqs.Dedup(ProjectNames(tasks))
  }

  /** A single task contributes its project name when it has a non-empty one, and nothing otherwise. */
  lemma ProjectNamesOfOne(t: Task)
    ensures t.project.Some? && t.project.value != "" ==> ProjectNames([t]) == [t.project.value]
    ensures t.project.None? || t.project == Some("") ==> ProjectNames([t]) == []
  {
    assert [t][1..] == [];
  }

  /** The names of two task lists in a row are the names of the first, then those of the second. */
  lemma {:induction false} ProjectNamesConcat(a: seq<Task>, b: seq<Task>)
    ensures ProjectNames(a + b) == ProjectNames(a) + ProjectNames(b)
    decreases |a|
  {
    if |a| > 0 {
      assert (a + b)[0] == a[0];
      assert (a + b)[1..] == a[1..] + b;
      ProjectNamesConcat(a[1..], b);
    } else {
      assert a + b == b;
    }
  }
}
