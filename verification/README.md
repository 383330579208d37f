# TaskTank state handlers in Dafny

TaskTank is a single-page productivity app with four collections: tasks,
ideas, notes and projects. Each collection is kept in browser storage. This
project models the handlers in `src/app/page.tsx` that change those
collections. Each handler becomes a pure function from the current
collections (and the handler's inputs) to the new collections. The model
proves what the handlers promise.

The modules follow the page's structure:

- `Base`: optional values, refusable results, and the two string
  primitives the page relies on. `trim()` is modelled with the exact
  ECMAScript whitespace set. `toLowerCase()` is modelled for ASCII only
  (see Left out).
- `Seqs`: the array primitives used by the handlers. These are `filter`,
  `find`, and `Array.from(new Set(xs))`.
- `Sorting`: `Array.prototype.sort` with a comparator. The engine's sort is
  stable. Both comparators on the page order elements by a key, and each one
  is proved to agree with a rank order. For such a comparator the stable
  sorted permutation is unique, so the stable insertion sort used here
  returns what the engine returns.
- `Records`: the four record types and the task modal's draft. Also the
  page's `x || undefined` / `x || ""` conversions and its `!activeId` test.
- `TaskStore`: adding, viewing, updating, completing and deleting tasks.
  Also the project filter, and `availableProjects`, the list of project
  names used by tasks. The page computes that list but never reads it; its
  filter menu lists the stored projects.
- `IdeaStore`: adding and deleting ideas, and expanding an idea card.
  Converting an idea into a task, and truncating long texts.
- `NoteStore` and `NoteTimeline`: adding and deleting notes, and the
  timeline. The timeline groups notes by day, orders each group oldest
  first, and orders the groups Today, Yesterday, then older days newest
  first.
- `ProjectStore`: the project modal, and adding, updating and deleting
  projects. Names must be unique ignoring case. A rename moves tasks to the
  new name. A confirmed delete unlinks tasks. Each project's task count is
  kept in step with the tasks.
- `DatePicker`: the picker's previous-month and next-month arrows.

External inputs are parameters:

- the clock reading used for new ids and creation instants;
- the answer to the delete confirmation;
- the calendar day of an instant and today's day number;
- the formatted creation date of an idea.

Instants are integers: milliseconds, as the page's ids are. Days are
integers.

A comment in the code says notes in a group are sorted "newest first". The
comparator sorts oldest first, and the model follows the comparator.

## Model

| member | source | states |
|---|---|---|
| Base.TrimStart | src/app/page.tsx:877 | The part of `trim` that strips the start: the result is a suffix of the input, everything removed is whitespace, and the result does not start with whitespace |
| Base.TrimEnd | src/app/page.tsx:877 | The part of `trim` that strips the end: the result is a prefix of the input, everything removed is whitespace, and the result does not end with whitespace |
| Base.BlankIffAllWhitespace | src/app/page.tsx:877 | The page's blank test `s.trim() === ""` holds exactly when every character of `s` is whitespace |
| Base.Lower | src/app/page.tsx:2138 | `toLowerCase` keeps the string's length, character by character |
| Base.LowerIdempotent | src/app/page.tsx:2160-2162 | A lower-cased name lowers to itself, so comparing lower-cased names is an equivalence |
| Seqs.Filter | src/app/page.tsx:946 | `filter` keeps exactly the elements that pass the test, is never longer than its input, and returns the input when every element passes |
| Seqs.FilterConcat | src/app/page.tsx:946 | Filtering a concatenation filters each part, so `filter` keeps the survivors in their original order |
| Seqs.FilterKeepsDistinct | src/app/page.tsx:1469 | Filtering a list without repetitions yields a list without repetitions |
| Seqs.Find | src/app/page.tsx:905 | `find` returns nothing exactly when no element passes; otherwise it returns the first element that passes |
| Seqs.Dedup | src/app/page.tsx:873 | `Array.from(new Set(xs))` has no repetitions, has the same members as `xs`, and lists them in order of first occurrence |
| Sorting.Sort | src/app/page.tsx:1850-1852 | The sort returns a permutation of its input, ordered by rank |
| Sorting.SortIsStable | src/app/page.tsx:1850-1852 | Elements of equal rank leave the sort in the order they had on entry |
| Sorting.SortKeepsSorted | src/app/page.tsx:1860 | An input already in rank order comes back unchanged |
| Sorting.SortKeepsRanksDistinct | src/app/page.tsx:1860 | Sorting elements whose ranks are distinct leaves their ranks distinct |
| Records.OrAbsent | src/app/page.tsx:894-896 | `s \|\| undefined` stores an empty field as absent and keeps a non-empty one |
| Records.OrEmpty | src/app/page.tsx:909-911 | `o \|\| ""` shows an absent field as empty; storing it back gives the field back unless it was stored as an empty string |
| Records.OrEmptyRoundTrip | src/app/page.tsx:894-911 | Storing a modal field and showing it again gives the same text |
| Records.NewTask | src/app/page.tsx:889-897 | A committed draft becomes a task that is not completed, carries the given id and instant, and has no field stored as an empty string |
| Records.NewTaskDraftRoundTrip | src/app/page.tsx:888-912 | Reopening a task just committed from a draft shows that same draft |
| TaskStore.OpenAddTaskModal | src/app/page.tsx:876-886 | Blank input opens nothing. Otherwise the draft carries the typed text and the active filter's project, with no due date and no details |
| TaskStore.AddTask | src/app/page.tsx:888-902 | Adding appends exactly one task: not completed, with the given id and the current instant, showing the committed draft, with no field stored as an empty string. The existing tasks are untouched |
| TaskStore.FindTask | src/app/page.tsx:905 | Looking up an id fails exactly when no task has it; otherwise it yields the first stored task with that id |
| TaskStore.OpenViewTaskModal | src/app/page.tsx:904-916 | Viewing opens nothing exactly when no task has the id; otherwise it shows the draft of the first task with that id |
| TaskStore.UpdateTask | src/app/page.tsx:918-934 | With no active task (including id 0) nothing changes. Otherwise exactly the tasks with the active id take the draft's text, due date, project and details; their id, completion and creation instant are kept, and every other task is unchanged |
| TaskStore.ViewThenSaveUnchanged | src/app/page.tsx:904-934 | With unique ids, opening a task and saving it unedited leaves the task list as it was |
| TaskStore.ToggleTaskComplete | src/app/page.tsx:936-942 | Exactly the tasks with the id flip `completed`; no other field of any task changes |
| TaskStore.ToggleTwiceIsIdentity | src/app/page.tsx:936-942 | Toggling the same id twice restores the list |
| TaskStore.DeleteTask | src/app/page.tsx:944-946 | Deleting removes every task with the id and keeps every other task; a missing id leaves the list unchanged |
| TaskStore.DeleteExistingTaskCount | src/app/page.tsx:944-946 | With unique ids, deleting a stored id shortens the list by exactly one |
| TaskStore.DeleteTaskKeepsOrder | src/app/page.tsx:944-946 | Deleting from a concatenation deletes from each part, so the surviving tasks keep their order |
| TaskStore.AddThenDeleteTask | src/app/page.tsx:888-946 | Deleting a task just added under a fresh id restores the list |
| TaskStore.AddThenView | src/app/page.tsx:888-916 | A task just added under a fresh id can be viewed and shows its draft |
| TaskStore.VisibleTasks | src/app/page.tsx:949-951 | With no filter, or an empty one, every task shows. Otherwise exactly the tasks whose project equals the selected name show, case-sensitively |
| TaskStore.VisibleTasksConcat | src/app/page.tsx:949-951 | The filtered list of two runs of tasks in a row is the first run filtered, then the second, so the shown tasks keep their order and their repetitions |
| TaskStore.VisibleTasksOfOne | src/app/page.tsx:949-951 | A single task shows exactly when no filter is set or its project is the selected name |
| TaskStore.ProjectNames | src/app/page.tsx:868-870 | The names collected are exactly the non-empty project names of the tasks |
| TaskStore.ProjectNamesOfOne | src/app/page.tsx:868-870 | One task contributes its project name when it has a non-empty one, and nothing otherwise |
| TaskStore.ProjectNamesConcat | src/app/page.tsx:868-870 | The names of two task lists in a row are the first list's names followed by the second's, so there is one name per named task, in task order |
| TaskStore.AvailableProjects | src/app/page.tsx:867-874 | `availableProjects` holds each non-empty project name used by a task exactly once, in order of first use (the page does not read it) |
| IdeaStore.AddIdea | src/app/page.tsx:1447-1460 | A blank title or a blank text adds nothing; otherwise exactly one idea with the given fields is appended |
| IdeaStore.DeleteIdea | src/app/page.tsx:1462-1464 | Deleting removes every idea with the id and keeps the others; a missing id changes nothing |
| IdeaStore.DeleteIdeaKeepsOrder | src/app/page.tsx:1462-1464 | Deleting from two runs of ideas in a row deletes from each run, so the remaining ideas keep their order |
| IdeaStore.DeleteExistingIdeaCount | src/app/page.tsx:1462-1464 | With unique ids, deleting a stored id shortens the list by exactly one |
| IdeaStore.AddThenDeleteIdea | src/app/page.tsx:1447-1464 | Deleting an idea just added under a fresh id restores the list |
| IdeaStore.ToggleExpandIdea | src/app/page.tsx:1466-1472 | The id's membership in the expanded list flips, other ids keep theirs, and a list without repetitions stays so |
| IdeaStore.ExpandThenCollapse | src/app/page.tsx:1466-1472 | Expanding a collapsed card and collapsing it again restores the list |
| IdeaStore.OpenConvertModal | src/app/page.tsx:1474-1483 | The conversion draft has the idea's title as its text, no project and no due date. Its details are the idea's text, then the provenance line, then the formatted date |
| IdeaStore.ConvertToTask | src/app/page.tsx:1485-1517 | With no idea selected nothing changes. Otherwise the draft is added as a task and every idea with the selected id is deleted |
| IdeaStore.ConvertMovesOneIdea | src/app/page.tsx:1474-1517 | Converting a stored idea (unique ids) yields one more task, which is not completed and carries the idea's text and provenance, and one fewer idea |
| IdeaStore.TruncateText | src/app/page.tsx:1520-1523 | A text within the limit is shown whole. A longer one shows its first `maxLength` characters followed by "..." |
| IdeaStore.TruncateBound | src/app/page.tsx:1520-1523 | A truncated text is the text itself or exactly the limit plus three characters long |
| IdeaStore.TruncateAgainKeeps | src/app/page.tsx:1520-1523 | Showing a shortened text again, with room for the three dots, changes nothing |
| IdeaStore.TruncateSeesOnlyPrefix | src/app/page.tsx:1520-1523 | Two texts longer than the limit that share their first `maxLength` characters are shown the same |
| IdeaStore.TruncateUnchangedExactly | src/app/page.tsx:1520-1523 | Under a non-negative limit, a text is shown unchanged exactly when it is within the limit, or is `maxLength` characters followed by "..." |
| IdeaStore.IdeaCardPreview | src/app/page.tsx:1633 | The idea card's preview shows a text of at most 150 characters whole and a longer one as its first 150 characters followed by "...", never more than 153 characters |
| NoteStore.AddNote | src/app/page.tsx:1799-1811 | A blank note adds nothing; otherwise exactly one note, without category, is appended |
| NoteStore.DeleteNote | src/app/page.tsx:1813-1815 | Deleting removes every note with the id and keeps the others; a missing id changes nothing |
| NoteStore.DeleteNoteKeepsOrder | src/app/page.tsx:1813-1815 | Deleting from two runs of notes in a row deletes from each run, so the remaining notes keep their order |
| NoteStore.AddThenDeleteNote | src/app/page.tsx:1799-1815 | Deleting a note just added under a fresh id restores the list |
| NoteTimeline.KeyOfDay | src/app/page.tsx:1827-1839 | A day is labelled Today exactly when it is today, Yesterday exactly when it is the day before, and by its own date otherwise |
| NoteTimeline.InGroup | src/app/page.tsx:1841-1845 | The notes pushed under one label, in stored order, never more than the notes there are (members fixed by `InGroupMembers`) |
| NoteTimeline.InGroupMembers | src/app/page.tsx:1821-1846 | The notes gathered under a label are exactly the stored notes with that label |
| NoteTimeline.InGroupAppend | src/app/page.tsx:1841-1845 | One more note extends the group of its own label and no other |
| NoteTimeline.CompareNotesAgreesWithRank | src/app/page.tsx:1850-1852 | The within-group comparator puts a note first exactly when its creation instant is earlier |
| NoteTimeline.CompareKeysAgreesWithRank | src/app/page.tsx:1860-1867 | The label comparator puts Today before everything, Yesterday before every date, and later dates before earlier ones; distinct labels never compare equal |
| NoteTimeline.SortNotes | src/app/page.tsx:1848-1853 | A sorted group is a permutation of the group, in non-decreasing creation instant |
| NoteTimeline.SortNotesIsStable | src/app/page.tsx:1848-1853 | Notes of the same creation instant keep their stored order |
| NoteTimeline.Place | src/app/page.tsx:1841-1845 | A note with a new label opens a group at the end; otherwise it is appended to the group of its label |
| NoteTimeline.PlaceKeepsGrouping | src/app/page.tsx:1821-1846 | Each `forEach` step turns a grouping of the notes seen so far into a grouping of those notes plus the next one |
| NoteTimeline.PlaceNewKey | src/app/page.tsx:1841-1845 | The first note of a label opens a group holding just that note, and the grouping stays valid |
| NoteTimeline.PlaceExistingKey | src/app/page.tsx:1845 | A note whose label has a group joins that group, and the grouping stays valid |
| NoteTimeline.GroupNotesByDate | src/app/page.tsx:1818-1846 | Grouping gives one group per label present, with distinct labels. Each group is non-empty and holds exactly the notes of its label, in stored order |
| NoteTimeline.SortEachGroup | src/app/page.tsx:1848-1853 | Sorting inside the groups keeps every label and group position, and sorts each group |
| NoteTimeline.SortedLabelsInTimelineOrder | src/app/page.tsx:1860-1867 | Labels sorted by the label order are distinct, and come as Today, then Yesterday, then dates strictly newest first |
| NoteTimeline.Timeline | src/app/page.tsx:1818-1867 | The timeline has distinct labels in the order Today, Yesterday, then dates strictly descending. Every group is non-empty and holds its label's notes oldest first. Every note is in the group of its own label, and groups hold only their own notes |
| ProjectStore.OpenAddProjectModal | src/app/page.tsx:2114-2122 | The add modal opens with empty fields, the default colour, and no active project |
| ProjectStore.OpenEditProjectModal | src/app/page.tsx:2124-2132 | The edit modal opens with the project's own fields and the project as the active one |
| ProjectStore.AddProject | src/app/page.tsx:2134-2154 | Adding is refused exactly when the name is blank or equals an existing name ignoring case. Otherwise exactly one project with the draft's fields and a count of 0 is appended |
| ProjectStore.AddProjectKeepsNamesUnique | src/app/page.tsx:2134-2154 | Adding keeps project names unique ignoring case |
| ProjectStore.FreshAddModalIsRefused | src/app/page.tsx:2114-2135 | The add modal saved without typing a name is refused as blank |
| ProjectStore.Rename | src/app/page.tsx:2187-2191 | Tasks filed under the old name move to the new one; every other task, and every other field, is unchanged |
| ProjectStore.Unlink | src/app/page.tsx:2220-2224 | Tasks filed under the name lose their project; every other task, and every other field, is unchanged |
| ProjectStore.TaskCount | src/app/page.tsx:2103 | A project's count is a number of tasks, never more than the task list holds |
| ProjectStore.TaskCountStep | src/app/page.tsx:2103 | A project's count is one for the first task if it is filed under the name, plus the count of the rest |
| ProjectStore.TaskCountIsFilteredLength | src/app/page.tsx:2103 | A project's count equals the number of tasks the task page shows under that project's filter |
| ProjectStore.ZeroCountMeansNoTask | src/app/page.tsx:2103 | A count of zero means no task is filed under the name |
| ProjectStore.RenameMovesCount | src/app/page.tsx:2186-2191 | After a rename the old name counts no tasks, the new name counts the old and new names' tasks together, and every other name keeps its count |
| ProjectStore.UnlinkClearsCount | src/app/page.tsx:2220-2224 | After unlinking, the name counts no tasks |
| ProjectStore.UnlinkKeepsOtherCounts | src/app/page.tsx:2220-2224 | Unlinking one name leaves every other name's count as it was |
| ProjectStore.Recount | src/app/page.tsx:2102-2105 | Recounting changes only `taskCount`, after which every count equals the number of tasks filed under the project's name |
| ProjectStore.RecountFixesExactlySynced | src/app/page.tsx:2108 | A recount returns the projects unchanged exactly when every count was already right |
| ProjectStore.SyncTaskCounts | src/app/page.tsx:2099-2112 | The count effect writes exactly when some count is wrong. What it writes has every count right and no other field changed |
| ProjectStore.SyncSettles | src/app/page.tsx:2099-2112 | Recounting twice is recounting once, so the effect's second pass writes nothing |
| ProjectStore.FindProject | src/app/page.tsx:2170 | Looking up an id fails exactly when no project has it; otherwise it yields the first stored project with that id |
| ProjectStore.EditProjects | src/app/page.tsx:2174-2183 | Exactly the projects with the active id take the draft's name, description and colour; their id, creation instant and count are kept, and every other project is unchanged |
| ProjectStore.UpdateProject | src/app/page.tsx:2156-2203 | Saving is refused when no project is active (id 0 included), when the name is blank, or, exactly then, when another project has the name ignoring case. Otherwise the projects are edited. Tasks are renamed exactly when the edited project's old name is non-empty and differs case-sensitively from the new one, and are unchanged otherwise |
| ProjectStore.EditKeepsNamesUnique | src/app/page.tsx:2159-2183 | With unique ids, an edit that passed the duplicate check keeps names unique ignoring case |
| ProjectStore.UpdateProjectKeepsNamesUnique | src/app/page.tsx:2156-2183 | With unique ids, every successful update keeps names unique ignoring case |
| ProjectStore.FindProjectUnique | src/app/page.tsx:2170 | With unique ids, looking up a stored project's id finds that project |
| ProjectStore.EditWithOwnFields | src/app/page.tsx:2174-2183 | With unique ids, re-saving a project's own fields leaves the project list unchanged |
| ProjectStore.EditThenSaveUnchanged | src/app/page.tsx:2124-2203 | With unique ids and names, opening a project for editing and saving it unedited changes neither projects nor tasks |
| ProjectStore.DeleteProject | src/app/page.tsx:2205-2237 | Nothing changes when there is no such project, or when its stored count is positive and the user declines. Otherwise exactly the projects with the id go, and the tasks lose that project only if the stored count was positive |
| ProjectStore.DeleteProjectKeepsOrder | src/app/page.tsx:2235 | A deletion that goes ahead from two runs of projects in a row removes the id from each run and keeps the runs in order, so the remaining projects keep their order |
| ProjectStore.DeleteLeavesNoDanglingTasks | src/app/page.tsx:2205-2237 | When counts are in step with the tasks, a deletion that goes ahead leaves no task filed under the deleted name |
| DatePicker.PreviousMonth | src/app/page.tsx:222-229 | From January the left arrow goes to December of the year before; otherwise only the month steps back. A month in range stays in range and moves back exactly one month |
| DatePicker.NextMonth | src/app/page.tsx:231-238 | From December the right arrow goes to January of the year after; otherwise only the month steps on. A month in range stays in range and moves on exactly one month |
| DatePicker.NextThenPrevious | src/app/page.tsx:222-238 | Stepping on and then back returns to the month on display |
| DatePicker.PreviousThenNext | src/app/page.tsx:222-238 | Stepping back and then on returns to the month on display |
| DatePicker.StepsAgreeWithAbsoluteCount | src/app/page.tsx:222-238 | Both arrows agree with counting months from a fixed origin |
| DatePicker.Forward | src/app/page.tsx:231-238 | Pressing the right arrow any number of times keeps a month in range |
| DatePicker.ForwardCounts | src/app/page.tsx:231-238 | `n` presses of the right arrow move exactly `n` months on; twelve presses give the same month a year later |

## Left out

- Base.Lower: maps only the ASCII letters A-Z. JavaScript's `toLowerCase` also maps non-ASCII letters, some of them to several characters. So two names that differ only in non-ASCII case count as different here.
- String lengths are counted in characters, not in UTF-16 code units. For `TruncateText`, a text outside the Basic Multilingual Plane is measured differently from the page.
- Storage is not modelled: the `localStorage` reads and writes and the unguarded `JSON.parse` on load. Each collection is an in-memory sequence passed in and returned.
- The selected-project key is left out, because it is only a storage side effect. Its writes, its removal on unmount, and `viewProjectTasks` are not modelled. Only the filter it feeds is.
- Rendering is not modelled. JSX, animations, styling, modal visibility flags and navigation are presentation only.
- Clocks are parameters. `Date.now()` ids and creation instants are passed in. The page stores `createdAt` as an ISO-8601 string; the model keeps the instant as an integer.
- Date formatting and time zones are parameters. `toDateString` day matching and `toLocaleDateString` labels become the `dayOf` function. Re-parsing a label for sorting becomes the label's day. `formatDate` is replaced by the formatted text of an idea's date.
- The page computes "today" afresh for every note. The model takes one today for the whole grouping, so a grouping that runs across midnight is not modelled.
- `daysRemaining` is left out, because it uses floating-point division and `Math.ceil`.
- `alert` and `confirm` are modelled by their effect only. A refused save returns the reason instead of showing a message. The delete confirmation is a boolean argument.
- The engine's sorting algorithm is not modelled. The model sorts with a stable insertion sort, which gives the same result for these comparators.
- DatePicker's starting month is left out, because it comes from the clock or from parsing the picked date. Calendar-grid layout is left out too.
