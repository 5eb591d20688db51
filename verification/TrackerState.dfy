/** The tracker's data model: catalogs, the entry archive and the single
    optional active timer, held as one immutable state record (the
    module-level variables of app.js). */
module TrackerState {

  import opened Wrappers
  import opened TimeArithmetic

  /** Id of the always-present system project tasks fall back to. */
  const SystemProjectId: string := "NO_PROJECT"
  const SystemProjectLabel: string := "No Project"
  /** Sessions shorter than this many whole minutes leave no entry. */
  const MinDurationThreshold: int := 1

  /** A catalog project. `name` is the source's `label` field (`label` is a
      Dafny keyword). */
  datatype Project = Project(id: string, name: string, isSystem: bool)

  datatype Task = Task(id: string, name: string, projId: string)

  /** A finished session. `projId` is copied from the timer at stop time. */
  datatype TimeEntry = TimeEntry(
    id: string,
    taskId: string,
    projId: string,
    durationMinutes: int,
    workdayKey: string,
    timestamp: int)

  /** The active timer. It is running when not paused and a start timestamp
      is recorded, and paused otherwise. */
  datatype TimerContext = TimerContext(
    taskId: string,
    projId: string,
    startTimestamp: Option<int>,
    accumulatedMinutes: int,
    isPaused: bool)

  /** Everything the core mutates. `active` is the single timer slot, so at
      most one timer exists by construction. `lastSelectedProj` is the
      persisted preference task creation writes and project defaulting
      reads. */
  datatype State = State(
    projects: seq<Project>,
    tasks: seq<Task>,
    entries: seq<TimeEntry>,
    active: Option<TimerContext>,
    lastSelectedProj: Option<string>)

  datatype Phase = Idle | Running | Paused

  /** The timer state machine's state. */
  function PhaseOf(s: State): (p: Phase)
    ensures p == Idle <==> s.active.None?
    ensures p == Paused <==> s.active.Some? && s.active.value.isPaused
  {
    match s.active
    case None => Idle
    case Some(c) => if c.isPaused then Paused else Running
  }

  // ---------------------------------------------------------------------
  // Lookups (`Array.prototype.find` by id)

  predicate HasProject(ps: seq<Project>, id: string) {
    exists p :: p in ps && p.id == id
  }

  predicate HasTask(ts: seq<Task>, id: string) {
    exists t :: t in ts && t.id == id
  }

  predicate HasEntry(es: seq<TimeEntry>, id: string) {
    exists e :: e in es && e.id == id
  }

  /** The first project with the given id, if any. */
  function FindProject(ps: seq<Project>, id: string): (r: Option<Project>)
    ensures r.None? <==> !HasProject(ps, id)
    ensures r.Some? ==> r.value in ps && r.value.id == id
    ensures r.Some? ==>
      exists i :: 0 <= i < |ps| && ps[i] == r.value && forall j :: 0 <= j < i ==> ps[j].id != id
  {
    if ps == [] then None
    else if ps[0].id == id then Some(ps[0])
    else
      var r := FindProject(ps[1..], id);
      assert forall p :: p in ps[1..] ==> p in ps;
      assert forall p :: p in ps && p != ps[0] ==> p in ps[1..];
      if r.Some? then
        var i :| 0 <= i < |ps[1..]| && ps[1..][i] == r.value
          && forall j :: 0 <= j < i ==> ps[1..][j].id != id;
        assert ps[i + 1] == r.value;
        r
      else r
  }

  /** The first task with the given id, if any. */
  function FindTask(ts: seq<Task>, id: string): (r: Option<Task>)
    ensures r.None? <==> !HasTask(ts, id)
    ensures r.Some? ==> r.value in ts && r.value.id == id
    ensures r.Some? ==>
      exists i :: 0 <= i < |ts| && ts[i] == r.value && forall j :: 0 <= j < i ==> ts[j].id != id
  {
    if ts == [] then None
    else if ts[0].id == id then Some(ts[0])
    else
      var r := FindTask(ts[1..], id);
      assert forall t :: t in ts[1..] ==> t in ts;
      assert forall t :: t in ts && t != ts[0] ==> t in ts[1..];
      if r.Some? then
        var i :| 0 <= i < |ts[1..]| && ts[1..][i] == r.value
          && forall j :: 0 <= j < i ==> ts[1..][j].id != id;
        assert ts[i + 1] == r.value;
        r
      else r
  }

  // ---------------------------------------------------------------------
  // Invariants

  predicate ProjectIdsUnique(ps: seq<Project>) {
    forall i, j :: 0 <= i < j < |ps| ==> ps[i].id != ps[j].id
  }

  predicate TaskIdsUnique(ts: seq<Task>) {
    forall i, j :: 0 <= i < j < |ts| ==> ts[i].id != ts[j].id
  }

  predicate EntryIdsUnique(es: seq<TimeEntry>) {
    forall i, j :: 0 <= i < j < |es| ==> es[i].id != es[j].id
  }

  /** A timer context as the engine creates it: the start timestamp is
      absent exactly when paused, and no negative minutes are banked. */
  predicate TimerWellFormed(c: TimerContext) {
    && (c.isPaused <==> c.startTimestamp.None?)
    && c.accumulatedMinutes >= 0
  }

  /** The state invariant: the system project exists, ids are unique within
      each catalog, every entry meets the duration threshold, and the active
      timer is well formed and names a task of the catalog. */
  predicate Valid(s: State) {
    && HasProject(s.projects, SystemProjectId)
    && ProjectIdsUnique(s.projects)
    && TaskIdsUnique(s.tasks)
    && EntryIdsUnique(s.entries)
    && (forall e :: e in s.entries ==> e.durationMinutes >= MinDurationThreshold)
    && (s.active.Some? ==> TimerWellFormed(s.active.value) && HasTask(s.tasks, s.active.value.taskId))
  }

  /** The minutes a timer shows at `now`: what it banked plus, while it runs,
      the whole minutes since its start. Used both by the live display and
      when stopping. */
  function CurrentTotal(c: TimerContext, now: int): (r: int)
    ensures c.isPaused || c.startTimestamp.None? ==> r == c.accumulatedMinutes
    ensures !c.isPaused && c.startTimestamp.Some? ==>
      r - c.accumulatedMinutes == MinuteSpan(c.startTimestamp.value, now)
  {
    if !c.isPaused && c.startTimestamp.Some? then
      c.accumulatedMinutes + MinuteSpan(c.startTimestamp.value, now)
    else c.accumulatedMinutes
  }

  /** The displayed total never decreases as the clock advances, and once
      the clock has reached the start it is at least what was banked. */
  lemma CurrentTotalMonotone(c: TimerContext, t1: int, t2: int)
    requires t1 <= t2
    ensures CurrentTotal(c, t1) <= CurrentTotal(c, t2)
    ensures c.startTimestamp.Some? && c.startTimestamp.value <= t1 ==>
      CurrentTotal(c, t1) >= c.accumulatedMinutes
  {
    if !c.isPaused && c.startTimestamp.Some? {
      SpanMonotone(c.startTimestamp.value, t1, t2);
    }
  }
}
