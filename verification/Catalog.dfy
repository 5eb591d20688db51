/** Project and task catalog operations of app.js: the system project,
    creation with label validation, deletion with reassignment or refusal,
    and the default project offered when creating a task. */
module Catalog {

  import opened Wrappers
  import opened Labels
  import opened TrackerState

  const SystemProject: Project := Project(SystemProjectId, SystemProjectLabel, true)

  /** Puts the system project at the front of the catalog unless a project
      with its id is already there. */
  function EnsureSystemProject(s: State): (r: State)
    ensures HasProject(r.projects, SystemProjectId)
    ensures HasProject(s.projects, SystemProjectId) ==> r == s
    ensures !HasProject(s.projects, SystemProjectId) ==>
      r == s.(projects := [SystemProject] + s.projects)
  {
    if HasProject(s.projects, SystemProjectId) then s
    else
      assert SystemProject in [SystemProject] + s.projects;
      s.(projects := [SystemProject] + s.projects)
  }

  /** Ensuring the system project twice is ensuring it once. */
  lemma EnsureSystemProjectIdempotent(s: State)
    ensures EnsureSystemProject(EnsureSystemProject(s)) == EnsureSystemProject(s)
  {
  }

  /** Start-up turns loaded data whose ids are unique, whose entries all meet
      the threshold and which has no timer yet into a valid state. */
  lemma StartupEstablishesValid(s: State)
    requires ProjectIdsUnique(s.projects) && TaskIdsUnique(s.tasks) && EntryIdsUnique(s.entries)
    requires forall e :: e in s.entries ==> e.durationMinutes >= MinDurationThreshold
    requires s.active.None?
    ensures Valid(EnsureSystemProject(s))
  {
    if !HasProject(s.projects, SystemProjectId) {
      var ps := [SystemProject] + s.projects;
      forall i, j | 0 <= i < j < |ps|
        ensures ps[i].id != ps[j].id
      {
        if i == 0 {
          assert ps[j] in s.projects;
        } else {
          assert ps[i] == s.projects[i - 1] && ps[j] == s.projects[j - 1];
        }
      }
    }
  }

  // ---------------------------------------------------------------------
  // Creation

  /** `saveProject`: validates the label and, when it is accepted, appends
      exactly one non-system project with the trimmed label; nothing else
      changes. A refused label yields the reason and no new state. */
  function CreateProject(s: State, rawLabel: string, freshId: string): (r: Result<State, LabelError>)
    ensures r.Ok? <==> 1 <= |Trim(rawLabel)| <= NameLimit
    ensures r.Ok? ==> r.value == s.(projects := s.projects + [Project(freshId, Trim(rawLabel), false)])
    ensures r.Err? ==> r.error == ValidateLabel(rawLabel).error
  {
    match ValidateLabel(rawLabel)
    case Err(e) => Err(e)
    case Ok(name) => Ok(s.(projects := s.projects + [Project(freshId, name, false)]))
  }

  /** `saveTask`: validates the label and, when it is accepted, appends
      exactly one task with the trimmed label under the chosen project and
      remembers that project as the last selected one. The project id is
      taken as chosen; it is not checked against the catalog. */
  function CreateTask(s: State, rawLabel: string, projId: string, freshId: string): (r: Result<State, LabelError>)
    ensures r.Ok? <==> 1 <= |Trim(rawLabel)| <= NameLimit
    ensures r.Ok? ==> r.value == s.(tasks := s.tasks + [Task(freshId, Trim(rawLabel), projId)],
                                     lastSelectedProj := Some(projId))
    ensures r.Err? ==> r.error == ValidateLabel(rawLabel).error
  {
    match ValidateLabel(rawLabel)
    case Err(e) => Err(e)
    case Ok(name) =>
      Ok(s.(tasks := s.tasks + [Task(freshId, name, projId)], lastSelectedProj := Some(projId)))
  }

  lemma AppendKeepsProjectIdsUnique(ps: seq<Project>, p: Project)
    requires ProjectIdsUnique(ps) && !HasProject(ps, p.id)
    ensures ProjectIdsUnique(ps + [p])
  {
    var qs := ps + [p];
    forall i, j | 0 <= i < j < |qs|
      ensures qs[i].id != qs[j].id
    {
      if j == |ps| {
        assert qs[i] in ps;
      }
    }
  }

  lemma AppendKeepsTaskIdsUnique(ts: seq<Task>, t: Task)
    requires TaskIdsUnique(ts) && !HasTask(ts, t.id)
    ensures TaskIdsUnique(ts + [t])
  {
    var us := ts + [t];
    forall i, j | 0 <= i < j < |us|
      ensures us[i].id != us[j].id
    {
      if j == |ts| {
        assert us[i] in ts;
      }
    }
  }

  /** Creating a project with an id not yet in the catalog keeps the state
      valid. */
  lemma CreateProjectPreservesValid(s: State, rawLabel: string, freshId: string)
    requires Valid(s) && !HasProject(s.projects, freshId)
    ensures CreateProject(s, rawLabel, freshId).Ok? ==> Valid(CreateProject(s, rawLabel, freshId).value)
  {
    var r := CreateProject(s, rawLabel, freshId);
    if r.Ok? {
      var p := Project(freshId, Trim(rawLabel), false);
      AppendKeepsProjectIdsUnique(s.projects, p);
      var q :| q in s.projects && q.id == SystemProjectId;
      assert q in r.value.projects;
    }
  }

  /** Creating a task with an id not yet in the catalog keeps the state
      valid. */
  lemma CreateTaskPreservesValid(s: State, rawLabel: string, projId: string, freshId: string)
    requires Valid(s) && !HasTask(s.tasks, freshId)
    ensures CreateTask(s, rawLabel, projId, freshId).Ok? ==>
      Valid(CreateTask(s, rawLabel, projId, freshId).value)
  {
    var r := CreateTask(s, rawLabel, projId, freshId);
    if r.Ok? {
      AppendKeepsTaskIdsUnique(s.tasks, Task(freshId, Trim(rawLabel), projId));
      if s.active.Some? {
        var t :| t in s.tasks && t.id == s.active.value.taskId;
        assert t in r.value.tasks;
      }
    }
  }

  // ---------------------------------------------------------------------
  // Project deletion

  /** The catalog without the projects carrying `id`, in their order. */
  function WithoutProject(ps: seq<Project>, id: string): (r: seq<Project>)
    ensures forall p :: p in r <==> p in ps && p.id != id
    ensures ProjectIdsUnique(ps) ==> ProjectIdsUnique(r)
  {
    if ps == [] then []
    else
      var rest := WithoutProject(ps[1..], id);
      assert forall p :: p in ps <==> p == ps[0] || p in ps[1..];
      if ps[0].id == id then rest
      else
        assert ProjectIdsUnique(ps) ==> forall p :: p in rest ==> p.id != ps[0].id;
        [ps[0]] + rest
  }

  /** `filter` works piecewise: filtering a concatenation filters each part
      and keeps the parts in order. */
  lemma {:induction false} WithoutProjectAppend(a: seq<Project>, b: seq<Project>, id: string)
    ensures WithoutProject(a + b, id) == WithoutProject(a, id) + WithoutProject(b, id)
    decreases |a|
  {
    if a == [] {
      assert a + b == b;
    } else {
      assert (a + b)[0] == a[0];
      assert (a + b)[1..] == a[1..] + b;
      WithoutProjectAppend(a[1..], b, id);
      if a[0].id != id {
        assert [a[0]] + (WithoutProject(a[1..], id) + WithoutProject(b, id))
          == ([a[0]] + WithoutProject(a[1..], id)) + WithoutProject(b, id);
      }
    }
  }

  /** On a single project `filter` keeps it exactly when its id differs;
      with `WithoutProjectAppend` this fixes the result, order and
      repetitions included. */
  lemma WithoutProjectSingle(p: Project, id: string)
    ensures WithoutProject([p], id) == if p.id == id then [] else [p]
  {
    assert [p][1..] == [];
  }

  /** Tasks with every reference to project `from` moved to the system
      project; ids, labels, order and length are kept. */
  function ReassignTasks(ts: seq<Task>, from: string): (r: seq<Task>)
    ensures |r| == |ts|
    ensures forall i :: 0 <= i < |ts| ==> r[i].id == ts[i].id && r[i].name == ts[i].name
    ensures forall i :: 0 <= i < |ts| ==>
      r[i].projId == (if ts[i].projId == from then SystemProjectId else ts[i].projId)
  {
    seq(|ts|, i requires 0 <= i < |ts| =>
      if ts[i].projId == from then ts[i].(projId := SystemProjectId) else ts[i])
  }

  /** Entries with every reference to project `from` moved to the system
      project; all other fields, order and length are kept. */
  function ReassignEntries(es: seq<TimeEntry>, from: string): (r: seq<TimeEntry>)
    ensures |r| == |es|
    ensures forall i :: 0 <= i < |es| ==> r[i] == es[i].(projId := r[i].projId)
    ensures forall i :: 0 <= i < |es| ==>
      r[i].projId == (if es[i].projId == from then SystemProjectId else es[i].projId)
  {
    seq(|es|, i requires 0 <= i < |es| =>
      if es[i].projId == from then es[i].(projId := SystemProjectId) else es[i])
  }

  /** `deleteProject`, with the user's answer to the confirmation as
      `confirmed`. Declining changes nothing. Otherwise the project is gone
      from the catalog and every task and entry that referred to it refers to
      the system project; the active timer keeps the project id it captured.
      There is no guard against deleting the system project itself: the user
      interface simply offers no button for it. */
  function DeleteProject(s: State, projId: string, confirmed: bool): (r: State)
    ensures !confirmed ==> r == s
    ensures confirmed ==> !HasProject(r.projects, projId)
    ensures confirmed ==> r.projects == WithoutProject(s.projects, projId)
    ensures confirmed ==> forall p :: p in r.projects <==> p in s.projects && p.id != projId
    ensures confirmed ==> r.tasks == ReassignTasks(s.tasks, projId)
    ensures confirmed ==> r.entries == ReassignEntries(s.entries, projId)
    ensures confirmed && projId != SystemProjectId ==>
      (forall t :: t in r.tasks ==> t.projId != projId)
      && (forall e :: e in r.entries ==> e.projId != projId)
    ensures r.active == s.active && r.lastSelectedProj == s.lastSelectedProj
  {
    if !confirmed then s
    else
      var r := s.(projects := WithoutProject(s.projects, projId),
                   tasks := ReassignTasks(s.tasks, projId),
                   entries := ReassignEntries(s.entries, projId));
      assert forall t :: t in r.tasks ==> exists i :: 0 <= i < |r.tasks| && r.tasks[i] == t;
      assert forall e :: e in r.entries ==> exists i :: 0 <= i < |r.entries| && r.entries[i] == e;
      r
  }

  /** Deleting any project other than the system project keeps the state
      valid. */
  lemma DeleteProjectPreservesValid(s: State, projId: string, confirmed: bool)
    requires Valid(s) && projId != SystemProjectId
    ensures Valid(DeleteProject(s, projId, confirmed))
  {
    if confirmed {
      var r := DeleteProject(s, projId, confirmed);
      var q :| q in s.projects && q.id == SystemProjectId;
      assert q in r.projects;
      forall i, j | 0 <= i < j < |r.tasks|
        ensures r.tasks[i].id != r.tasks[j].id
      {
        assert r.tasks[i].id == s.tasks[i].id && r.tasks[j].id == s.tasks[j].id;
      }
      forall i, j | 0 <= i < j < |r.entries|
        ensures r.entries[i].id != r.entries[j].id
      {
        assert r.entries[i].id == s.entries[i].id && r.entries[j].id == s.entries[j].id;
      }
      forall e | e in r.entries
        ensures e.durationMinutes >= MinDurationThreshold
      {
        var i :| 0 <= i < |r.entries| && r.entries[i] == e;
        assert s.entries[i] in s.entries;
      }
      if s.active.Some? {
        var t :| t in s.tasks && t.id == s.active.value.taskId;
        var i :| 0 <= i < |s.tasks| && s.tasks[i] == t;
        assert r.tasks[i] in r.tasks;
      }
    }
  }

  /** Because nothing in `deleteProject` protects the system project, a
      confirmed deletion of it from a valid state leaves an invalid one. */
  lemma DeletingSystemProjectBreaksValid(s: State)
    requires Valid(s)
    ensures !Valid(DeleteProject(s, SystemProjectId, true))
  {
  }

  // ---------------------------------------------------------------------
  // Task deletion

  /** Why a task deletion did not happen. */
  datatype DeleteRefusal = TimerActiveOnTask | NotConfirmed

  /** The catalog without the tasks carrying `id`, in their order. */
  function WithoutTask(ts: seq<Task>, id: string): (r: seq<Task>)
    ensures forall t :: t in r <==> t in ts && t.id != id
    ensures TaskIdsUnique(ts) ==> TaskIdsUnique(r)
  {
    if ts == [] then []
    else
      var rest := WithoutTask(ts[1..], id);
      assert forall t :: t in ts <==> t == ts[0] || t in ts[1..];
      if ts[0].id == id then rest
      else
        assert TaskIdsUnique(ts) ==> forall t :: t in rest ==> t.id != ts[0].id;
        [ts[0]] + rest
  }

  /** `filter` works piecewise: filtering a concatenation filters each part
      and keeps the parts in order. */
  lemma {:induction false} WithoutTaskAppend(a: seq<Task>, b: seq<Task>, id: string)
    ensures WithoutTask(a + b, id) == WithoutTask(a, id) + WithoutTask(b, id)
    decreases |a|
  {
    if a == [] {
      assert a + b == b;
    } else {
      assert (a + b)[0] == a[0];
      assert (a + b)[1..] == a[1..] + b;
      WithoutTaskAppend(a[1..], b, id);
      if a[0].id != id {
        assert [a[0]] + (WithoutTask(a[1..], id) + WithoutTask(b, id))
          == ([a[0]] + WithoutTask(a[1..], id)) + WithoutTask(b, id);
      }
    }
  }

  /** On a single task `filter` keeps it exactly when its id differs. */
  lemma WithoutTaskSingle(t: Task, id: string)
    ensures WithoutTask([t], id) == if t.id == id then [] else [t]
  {
    assert [t][1..] == [];
  }

  /** True when the active timer belongs to task `taskId`. */
  predicate TimerOnTask(s: State, taskId: string) {
    s.active.Some? && s.active.value.taskId == taskId
  }

  /** `deleteTask`, with the user's answer to the confirmation as
      `confirmed`. It is refused while the active timer (running or paused)
      belongs to the task, before the user is even asked. Otherwise, when
      confirmed, only that task leaves the catalog; entries that refer to it
      stay as they are. */
  function DeleteTask(s: State, taskId: string, confirmed: bool): (r: Result<State, DeleteRefusal>)
    ensures TimerOnTask(s, taskId) ==> r == Err(TimerActiveOnTask)
    ensures !TimerOnTask(s, taskId) && !confirmed ==> r == Err(NotConfirmed)
    ensures r.Ok? <==> confirmed && !TimerOnTask(s, taskId)
    ensures r.Ok? ==> !HasTask(r.value.tasks, taskId)
    ensures r.Ok? ==> forall t :: t in r.value.tasks <==> t in s.tasks && t.id != taskId
    ensures r.Ok? ==> r.value == s.(tasks := r.value.tasks)
    ensures r.Ok? ==> r.value.tasks == WithoutTask(s.tasks, taskId)
  {
    if TimerOnTask(s, taskId) then Err(TimerActiveOnTask)
    else if !confirmed then Err(NotConfirmed)
    else Ok(s.(tasks := WithoutTask(s.tasks, taskId)))
  }

  /** A task deletion that goes through keeps the state valid; in particular
      the active timer's task is still in the catalog. */
  lemma DeleteTaskPreservesValid(s: State, taskId: string, confirmed: bool)
    requires Valid(s)
    ensures DeleteTask(s, taskId, confirmed).Ok? ==> Valid(DeleteTask(s, taskId, confirmed).value)
  {
    var r := DeleteTask(s, taskId, confirmed);
    if r.Ok? && s.active.Some? {
      var t :| t in s.tasks && t.id == s.active.value.taskId;
      assert t in r.value.tasks;
    }
  }

  // ---------------------------------------------------------------------
  // Default project for a new task

  /** The remembered last-selected project, when it is set (non-empty) and
      still in the catalog. */
  predicate LastSelectedUsable(s: State) {
    s.lastSelectedProj.Some? && s.lastSelectedProj.value != ""
    && HasProject(s.projects, s.lastSelectedProj.value)
  }

  /** `determineDefaultProject`: the first of these that applies — the last
      selected project if it is still catalogued, the active timer's project,
      the project of the newest entry, the system project. Only the first
      source is checked against the catalog, so the answer can name a
      deleted project. */
  function DefaultProject(s: State): (r: string)
    ensures LastSelectedUsable(s) ==> r == s.lastSelectedProj.value
    ensures !LastSelectedUsable(s) && s.active.Some? && s.active.value.projId != "" ==>
      r == s.active.value.projId
    ensures !LastSelectedUsable(s) && !(s.active.Some? && s.active.value.projId != "") ==>
      r == (if |s.entries| > 0 then s.entries[|s.entries| - 1].projId else SystemProjectId)
    ensures (LastSelectedUsable(s) && r == s.lastSelectedProj.value)
         || (s.active.Some? && r == s.active.value.projId)
         || (exists e :: e in s.entries && r == e.projId)
         || r == SystemProjectId
  {
    if LastSelectedUsable(s) then s.lastSelectedProj.value
    else if s.active.Some? && s.active.value.projId != "" then s.active.value.projId
    else if |s.entries| > 0 then
      assert s.entries[|s.entries| - 1] in s.entries;
      s.entries[|s.entries| - 1].projId
    else SystemProjectId
  }

  /** When the active timer and all entries refer to catalogued projects, the
      default is a catalogued project, so the task dialog can preselect it. */
  lemma DefaultProjectCatalogued(s: State)
    requires Valid(s)
    requires s.active.Some? ==> HasProject(s.projects, s.active.value.projId)
    requires forall e :: e in s.entries ==> HasProject(s.projects, e.projId)
    ensures HasProject(s.projects, DefaultProject(s))
  {
    if !LastSelectedUsable(s) && !(s.active.Some? && s.active.value.projId != "") && |s.entries| > 0 {
      assert s.entries[|s.entries| - 1] in s.entries;
    }
  }
}
