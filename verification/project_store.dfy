/**
 * The projects page's handlers: opening the project modal, adding, updating
 * and deleting projects, and keeping each project's task count in step with
 * the task list.
 *
 * Tasks refer to a project by its name, so renaming or deleting a project
 * rewrites the task list too; the handlers here take and return both lists.
 * A handler the page aborts (an empty name, a name already used, an id of 0,
 * a declined confirmation) changes neither list.
 */
module ProjectStore {
  import opened Base
  import opened Records
  import Seqs
  import TaskStore

  /** The fields of the project modal. */
  datatype ProjectDraft = ProjectDraft(name: string, description: string, color: string)

  /** The colour a new project starts with. */
  const DefaultColor: string := "#3B82F6"

  /** The project and task lists as they stand after an operation. */
  datatype Workspace = Workspace(projects: seq<Project>, tasks: seq<Task>)

  /** Why the page refuses to save the modal. */
  datatype Rejection = NoActiveProject | BlankName | DuplicateName

  // ---------------------------------------------------------------------------
  // Names
  // ---------------------------------------------------------------------------

  /** Some project's name equals `name` ignoring case. */
  predicate NameTaken(projects: seq<Project>, name: string) {
    exists p :: p in projects && SameIgnoringCase(p.name, name)
  }

  /** Some project other than those with id `id` has `name`, ignoring case. */
  predicate NameTakenByOther(projects: seq<Project>, id: int, name: string) {
    exists p :: p in projects && p.id != id && SameIgnoringCase(p.name, name)
  }

  /** No two projects have names that differ only in case. */
  predicate UniqueNames(projects: seq<Project>) {
    forall i, j :: 0 <= i < j < |projects| ==> !SameIgnoringCase(projects[i].name, projects[j].name)
  }

  // ---------------------------------------------------------------------------
  // The modal
  // ---------------------------------------------------------------------------

  /** Opening the modal to add a project: empty fields, the default colour, no active project. */
  function OpenAddProjectModal(): (r: (ProjectDraft, Option<int>))
    ensures r.0.name == "" && r.0.description == "" && r.0.color == DefaultColor
    ensures r.1.None?
  {
    (ProjectDraft("", "", DefaultColor), None)
  }

  /** Opening the modal to edit `p`: its fields, and `p` as the active project. */
  function OpenEditProjectModal(p: Project): (r: (ProjectDraft, Option<int>))
    ensures r.0.name == p.name && r.0.description == p.description && r.0.color == p.color
    ensures r.1 == Some(p.id)
  {
    (ProjectDraft(p.name, p.description, p.color), Some(p.id))
  }

  // ---------------------------------------------------------------------------
  // Adding
  // ---------------------------------------------------------------------------

  /**
   * Saving the add modal. A name that is empty after trimming, or that equals
   * an existing project's name ignoring case, is refused; otherwise a
   * project with no tasks counted is appended.
   */
  function AddProject(projects: seq<Project>, d: ProjectDraft, id: int, now: int): (r: Result<seq<Project>, Rejection>)
    ensures r.Failure? <==> AllWhitespace(d.name) || NameTaken(projects, d.name)
    ensures r.Failure? && AllWhitespace(d.name) ==> r.error == BlankName
    ensures r.Failure? && !AllWhitespace(d.name) ==> r.error == DuplicateName
    ensures r.Success? ==> |r.value| == |projects| + 1 && r.value[..|projects|] == projects
    ensures r.Success? ==> var p := r.value[|projects|];
      p.id == id && p.name == d.name && p.description == d.description
      && p.createdAt == now && p.color == d.color && p.taskCount == 0
  {
    BlankIffAllWhitespace(d.name);
    if IsBlank(d.name) then Failure(BlankName)
    else if exists p :: p in projects && SameIgnoringCase(p.name, d.name) then Failure(DuplicateName)
    else Success(projects + [Project(id, d.name, d.description, now, d.color, 0)])
  }

  /** Adding keeps project names unique. */
  lemma AddProjectKeepsNamesUnique(projects: seq<Project>, d: ProjectDraft, id: int, now: int)
    requires UniqueNames(projects)
    ensures AddProject(projects, d, id, now).Success? ==> UniqueNames(AddProject(projects, d, id, now).value)
  {
    var r := AddProject(projects, d, id, now);
    if r.Success? {
      forall i | 0 <= i < |projects|
        ensures !SameIgnoringCase(projects[i].name, d.name)
      {
        assert projects[i] in projects;
      }
    }
  }

  /** The modal as it opens for a new project cannot be saved: its name is empty. */
  lemma FreshAddModalIsRefused(projects: seq<Project>, id: int, now: int)
    ensures AddProject(projects, OpenAddProjectModal().0, id, now) == Failure(BlankName)
  {
  }

  // ---------------------------------------------------------------------------
  // Renaming tasks, unlinking tasks
  // ---------------------------------------------------------------------------

  /** Every task filed under project `from` is moved to project `to`; nothing else changes. */
  function Rename(tasks: seq<Task>, from: string, to: string): (r: seq<Task>)
    ensures |r| == |tasks|
    ensures forall i :: 0 <= i < |tasks| ==> r[i].(project := tasks[i].project) == tasks[i]
    ensures forall i :: 0 <= i < |tasks| && tasks[i].project == Some(from) ==> r[i].project == Some(to)
    ensures forall i :: 0 <= i < |tasks| && tasks[i].project != Some(from) ==> r[i] == tasks[i]
  {
    seq(|tasks|, i requires 0 <= i < |tasks| =>
      if tasks[i].project == Some(from) then tasks[i].(project := Some(to)) else tasks[i])
  }

  /** Every task filed under project `name` loses its project; nothing else changes. */
  function Unlink(tasks: seq<Task>, name: string): (r: seq<Task>)
    ensures |r| == |tasks|
    ensures forall i :: 0 <= i < |tasks| ==> r[i].(project := tasks[i].project) == tasks[i]
    ensures forall i :: 0 <= i < |tasks| && tasks[i].project == Some(name) ==> r[i].project.None?
    ensures forall i :: 0 <= i < |tasks| && tasks[i].project != Some(name) ==> r[i] == tasks[i]
  {
    seq(|tasks|, i requires 0 <= i < |tasks| =>
      if tasks[i].project == Some(name) then tasks[i].(project := None) else tasks[i])
  }

  // ---------------------------------------------------------------------------
  // Counting
  // ---------------------------------------------------------------------------

  /** `tasks.filter(task => task.project === name).length`. */
  function TaskCount(tasks: seq<Task>, name: string): (n: nat)
    ensures n <= |tasks|
  {
    |Seqs.Filter(tasks, (t: Task) => t.project == Some(name))|
  }

  /** Counting one task more or less: the count splits over the first task and the rest. */
  lemma TaskCountStep(tasks: seq<Task>, name: string)
    requires |tasks| > 0
    ensures TaskCount(tasks, name) == (if tasks[0].project == Some(name) then 1 else 0) + TaskCount(tasks[1..], name)
  {
  }

  /** A project's count is the length of the task list filtered to that project. */
  lemma TaskCountIsFilteredLength(tasks: seq<Task>, name: string)
    requires name != ""
    ensures TaskCount(tasks, name) == |TaskStore.VisibleTasks(tasks, Some(name))|
  {
    Seqs.FilterSameTest(tasks, (t: Task) => t.project == Some(name), (t: Task) => t.project == Some(name));
  }

  /** A count of zero means no task is filed under the name. */
  lemma {:induction false} ZeroCountMeansNoTask(tasks: seq<Task>, name: string)
    requires TaskCount(tasks, name) == 0
    ensures forall t :: t in tasks ==> t.project != Some(name)
    decreases |tasks|
  {
    if |tasks| > 0 {
      TaskCountStep(tasks, name);
      ZeroCountMeansNoTask(tasks[1..], name);
      assert tasks == [tasks[0]] + tasks[1..];
    }
  }

  /**
   * Renaming moves the tasks counted under `from` to `to`: `from` ends with
   * none, `to` gains them all, and every other name keeps its count.
   */
  lemma {:induction false} RenameMovesCount(tasks: seq<Task>, from: string, to: string, other: string)
    requires from != to && other != from && other != to
    ensures TaskCount(Rename(tasks, from, to), from) == 0
    ensures TaskCount(Rename(tasks, from, to), to) == TaskCount(tasks, from) + TaskCount(tasks, to)
    ensures TaskCount(Rename(tasks, from, to), other) == TaskCount(tasks, other)
    decreases |tasks|
  {
    if |tasks| > 0 {
      var r := Rename(tasks, from, to);
      assert r[1..] == Rename(tasks[1..], from, to);
      RenameMovesCount(tasks[1..], from, to, other);
      TaskCountStep(tasks, from);
      TaskCountStep(tasks, to);
      TaskCountStep(tasks, other);
      TaskCountStep(r, from);
      TaskCountStep(r, to);
      TaskCountStep(r, other);
    }
  }

  /** Unlinking clears the count of the name. */
  lemma {:induction false} UnlinkClearsCount(tasks: seq<Task>, name: string)
    ensures TaskCount(Unlink(tasks, name), name) == 0
    decreases |tasks|
  {
    if |tasks| > 0 {
      var r := Unlink(tasks, name);
      assert r[1..] == Unlink(tasks[1..], name);
      UnlinkClearsCount(tasks[1..], name);
      TaskCountStep(r, name);
    }
  }

  /** Unlinking keeps every other name's count. */
  lemma {:induction false} UnlinkKeepsOtherCounts(tasks: seq<Task>, name: string, other: string)
    requires other != name
    ensures TaskCount(Unlink(tasks, name), other) == TaskCount(tasks, other)
    decreases |tasks|
  {
    if |tasks| > 0 {
      var r := Unlink(tasks, name);
      assert r[1..] == Unlink(tasks[1..], name);
      UnlinkKeepsOtherCounts(tasks[1..], name, other);
      TaskCountStep(tasks, other);
      TaskCountStep(r, other);
    }
  }

  /** Every project's stored count is the number of tasks filed under its name. */
  predicate Synced(projects: seq<Project>, tasks: seq<Task>) {
    forall i :: 0 <= i < |projects| ==> projects[i].taskCount == TaskCount(tasks, projects[i].name)
  }

  /** Each project with its count recomputed from the tasks. */
  function Recount(projects: seq<Project>, tasks: seq<Task>): (r: seq<Project>)
    ensures |r| == |projects|
    ensures forall i :: 0 <= i < |projects| ==> r[i].(taskCount := projects[i].taskCount) == projects[i]
    ensures Synced(r, tasks)
  {
    seq(|projects|, i requires 0 <= i < |projects| => projects[i].(taskCount := TaskCount(tasks, projects[i].name)))
  }

  /** Projects whose counts are right are their own recount, and only those. */
  lemma RecountFixesExactlySynced(projects: seq<Project>, tasks: seq<Task>)
    ensures Recount(projects, tasks) == projects <==> Synced(projects, tasks)
  {
    if Synced(projects, tasks) {
      var r := Recount(projects, tasks);
      forall i | 0 <= i < |projects|
        ensures r[i] == projects[i]
      {
      }
    }
  }

  /**
   * The page's count effect: the recounted projects are written back only
   * when they differ from the stored ones (`None` means no write).
   */
  function SyncTaskCounts(projects: seq<Project>, tasks: seq<Task>): (r: Option<seq<Project>>)
    ensures r.None? <==> Synced(projects, tasks)
    ensures r.Some? ==> Synced(r.value, tasks) && |r.value| == |projects|
    ensures r.Some? ==> forall i :: 0 <= i < |projects| ==> r.value[i].(taskCount := projects[i].taskCount) == projects[i]
  {
    RecountFixesExactlySynced(projects, tasks);
    var updated := Recount(projects, tasks);
    if updated != projects then Some(updated) else None
  }

  /** A second pass of the count effect writes nothing: the effect settles after one write. */
  lemma SyncSettles(projects: seq<Project>, tasks: seq<Task>)
    ensures var once := SyncTaskCounts(projects, tasks);
      once.Some? ==> SyncTaskCounts(once.value, tasks).None?
    ensures Recount(Recount(projects, tasks), tasks) == Recount(projects, tasks)
  {
    RecountFixesExactlySynced(Recount(projects, tasks), tasks);
  }

  // ---------------------------------------------------------------------------
  // Updating
  // ---------------------------------------------------------------------------

  /** Position `k` holds the first project with the given id. */
  predicate FirstWithId(projects: seq<Project>, id: int, k: int) {
    0 <= k < |projects| && projects[k].id == id && forall i :: 0 <= i < k ==> projects[i].id != id
  }

  /** `projects.find(p => p.id === id)`: the first project with the id. */
  function FindProject(projects: seq<Project>, id: int): (r: Option<Project>)
    ensures r.None? <==> id !in ProjectIds(projects)
    ensures r.Some? ==> r.value in projects && r.value.id == id
    ensures r.Some? ==> exists k :: FirstWithId(projects, id, k) && projects[k] == r.value
  {
    Seqs.Find(projects, (p: Project) => p.id == id)
  }

  /**
   * Whether saving the edit modal renames tasks: the project being edited
   * (the first with the active id) exists, its name is not empty, and the
   * new name differs from it, case-sensitively.
   */
  predicate RenamesTasks(projects: seq<Project>, id: int, newName: string) {
    var prev := FindProject(projects, id);
    prev.Some? && prev.value.name != "" && prev.value.name != newName
  }

  /**
   * The project list after saving the edit modal: every project with id `id`
   * takes the draft's name, description and colour; nothing else changes.
   */
  function EditProjects(projects: seq<Project>, id: int, d: ProjectDraft): (r: seq<Project>)
    ensures |r| == |projects|
    ensures forall i :: 0 <= i < |projects| && projects[i].id == id ==>
      r[i] == projects[i].(name := d.name, description := d.description, color := d.color)
    ensures forall i :: 0 <= i < |projects| && projects[i].id != id ==> r[i] == projects[i]
  {
    seq(|projects|, i requires 0 <= i < |projects| =>
      if projects[i].id == id
      then projects[i].(name := d.name, description := d.description, color := d.color)
      else projects[i])
  }

  /**
   * Saving the edit modal. Nothing is saved when no project is active (id 0
   * counts as none), when the name is empty after trimming, or when another
   * project has the name ignoring case. Otherwise the projects with the
   * active id are edited and, when the name changed, the tasks filed under
   * the old name move to the new one.
   */
  function UpdateProject(ws: Workspace, active: Option<int>, d: ProjectDraft): (r: Result<Workspace, Rejection>)
    ensures IsUnset(active) ==> r == Failure(NoActiveProject)
    ensures !IsUnset(active) ==>
      (r.Failure? <==> AllWhitespace(d.name) || NameTakenByOther(ws.projects, active.value, d.name))
    ensures r.Failure? && !IsUnset(active) ==> r.error == if AllWhitespace(d.name) then BlankName else DuplicateName
    ensures r.Success? ==> r.value.projects == EditProjects(ws.projects, active.value, d)
    ensures r.Success? && RenamesTasks(ws.projects, active.value, d.name) ==>
      r.value.tasks == Rename(ws.tasks, FindProject(ws.projects, active.value).value.name, d.name)
    ensures r.Success? && !RenamesTasks(ws.projects, active.value, d.name) ==> r.value.tasks == ws.tasks
  {
    BlankIffAllWhitespace(d.name);
    if IsUnset(active) then Failure(NoActiveProject)
    else if IsBlank(d.name) then Failure(BlankName)
    else if exists p :: p in ws.projects && p.id != active.value && SameIgnoringCase(p.name, d.name) then Failure(DuplicateName)
    else
      var id := active.value;
      var tasks := if RenamesTasks(ws.projects, id, d.name)
        then Rename(ws.tasks, FindProject(ws.projects, id).value.name, d.name)
        else ws.tasks;
      Success(Workspace(EditProjects(ws.projects, id, d), tasks))
  }

  /** With unique ids, editing keeps project names unique when no other project has the new name. */
  lemma EditKeepsNamesUnique(projects: seq<Project>, id: int, d: ProjectDraft)
    requires UniqueNames(projects) && UniqueProjectIds(projects)
    requires !NameTakenByOther(projects, id, d.name)
    ensures UniqueNames(EditProjects(projects, id, d))
  {
    var ps := EditProjects(projects, id, d);
    forall i, j | 0 <= i < j < |ps|
      ensures !SameIgnoringCase(ps[i].name, ps[j].name)
    {
      if projects[i].id == id {
        assert projects[j] in projects;
      } else if projects[j].id == id {
        assert projects[i] in projects;
      }
    }
  }

  /** With unique ids, updating keeps project names unique. */
  lemma UpdateProjectKeepsNamesUnique(ws: Workspace, active: Option<int>, d: ProjectDraft)
    requires UniqueNames(ws.projects) && UniqueProjectIds(ws.projects)
    ensures UpdateProject(ws, active, d).Success? ==> UniqueNames(UpdateProject(ws, active, d).value.projects)
  {
    if UpdateProject(ws, active, d).Success? {
      EditKeepsNamesUnique(ws.projects, active.value, d);
    }
  }

  /** In a list with unique ids, the project found by an id is the one stored under it. */
  lemma FindProjectUnique(projects: seq<Project>, p: Project)
    requires UniqueProjectIds(projects) && p in projects
    ensures FindProject(projects, p.id) == Some(p)
  {
    var q := FindProject(projects, p.id).value;
    var i :| 0 <= i < |projects| && projects[i] == p;
    var j :| 0 <= j < |projects| && projects[j] == q;
    assert i == j;
  }

  /** Re-saving a stored project's own fields leaves the project list as it is. */
  lemma EditWithOwnFields(projects: seq<Project>, p: Project)
    requires UniqueProjectIds(projects) && p in projects
    ensures EditProjects(projects, p.id, OpenEditProjectModal(p).0) == projects
  {
    var r := EditProjects(projects, p.id, OpenEditProjectModal(p).0);
    var k :| 0 <= k < |projects| && projects[k] == p;
    forall i | 0 <= i < |projects|
      ensures r[i] == projects[i]
    {
      if projects[i].id == p.id {
        assert i == k;
      }
    }
  }

  /** Opening a project for editing and saving it unchanged changes nothing, given unique ids and names. */
  lemma EditThenSaveUnchanged(ws: Workspace, p: Project)
    requires UniqueNames(ws.projects) && UniqueProjectIds(ws.projects)
    requires p in ws.projects && p.id != 0 && !AllWhitespace(p.name)
    ensures UpdateProject(ws, OpenEditProjectModal(p).1, OpenEditProjectModal(p).0) == Success(ws)
  {
    var k :| 0 <= k < |ws.projects| && ws.projects[k] == p;
    forall q | q in ws.projects && q.id != p.id
      ensures !SameIgnoringCase(q.name, p.name)
    {
      var j :| 0 <= j < |ws.projects| && ws.projects[j] == q;
      assert j != k;
    }
    FindProjectUnique(ws.projects, p);
    EditWithOwnFields(ws.projects, p);
  }

  // ---------------------------------------------------------------------------
  // Deleting
  // ---------------------------------------------------------------------------

  /**
   * Whether deleting project `id` goes ahead: the project exists, and either
   * its stored count is zero or the user confirmed.
   */
  predicate DeleteGoesAhead(projects: seq<Project>, id: int, confirmed: bool) {
    var target := FindProject(projects, id);
    target.Some? && (target.value.taskCount <= 0 || confirmed)
  }

  /**
   * Deleting project `id`. Nothing happens when there is no such project, or
   * when its stored count is positive and the user declines. Otherwise every
   * project with the id is removed and, if the stored count was positive,
   * the tasks filed under the project's name lose their project.
   */
  function DeleteProject(ws: Workspace, id: int, confirmed: bool): (r: Workspace)
    ensures !DeleteGoesAhead(ws.projects, id, confirmed) ==> r == ws
    ensures DeleteGoesAhead(ws.projects, id, confirmed) ==>
      forall p :: p in r.projects <==> p in ws.projects && p.id != id
    ensures DeleteGoesAhead(ws.projects, id, confirmed) ==> id !in ProjectIds(r.projects)
    ensures DeleteGoesAhead(ws.projects, id, confirmed) && FindProject(ws.projects, id).value.taskCount > 0 ==>
      r.tasks == Unlink(ws.tasks, FindProject(ws.projects, id).value.name)
    ensures DeleteGoesAhead(ws.projects, id, confirmed) && FindProject(ws.projects, id).value.taskCount <= 0 ==>
      r.tasks == ws.tasks
  {
    match FindProject(ws.projects, id)
    case None => ws
    case Some(target) =>
      if target.taskCount > 0 && !confirmed then ws
      else
        var tasks := if target.taskCount > 0 then Unlink(ws.tasks, target.name) else ws.tasks;
        Workspace(Seqs.Filter(ws.projects, (p: Project) => p.id != id), tasks)
  }

  /**
   * Deleting keeps the remaining projects in their order: deleting from two
   * runs of projects in a row removes the id from each run and keeps the
   * runs in the same order.
   */
  lemma DeleteProjectKeepsOrder(front: seq<Project>, back: seq<Project>, tasks: seq<Task>, id: int, confirmed: bool)
    ensures DeleteGoesAhead(front + back, id, confirmed) ==>
      DeleteProject(Workspace(front + back, tasks), id, confirmed).projects
        == Seqs.Filter(front, (p: Project) => p.id != id) + Seqs.Filter(back, (p: Project) => p.id != id)
  {
    Seqs.FilterConcat(front, back, (p: Project) => p.id != id);
  }

  /**
   * When the counts are in step with the tasks, a deletion that goes ahead
   * leaves no task filed under the deleted project's name.
   */
  lemma DeleteLeavesNoDanglingTasks(ws: Workspace, id: int, confirmed: bool)
    requires Synced(ws.projects, ws.tasks)
    requires DeleteGoesAhead(ws.projects, id, confirmed)
    ensures var name := FindProject(ws.projects, id).value.name;
      forall t :: t in DeleteProject(ws, id, confirmed).tasks ==> t.project != Some(name)
  {
    var target := FindProject(ws.projects, id).value;
    var k :| 0 <= k < |ws.projects| && ws.projects[k] == target;
    if target.taskCount > 0 {
      UnlinkClearsCount(ws.tasks, target.name);
      ZeroCountMeansNoTask(Unlink(ws.tasks, target.name), target.name);
    } else {
      ZeroCountMeansNoTask(ws.tasks, target.name);
    }
  }
}
