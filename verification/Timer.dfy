/** The single-timer state machine of app.js: `startTimer`, `pauseTimer`,
    `resumeTimer`, `stopTimer` and `restoreActiveTimer`. The clock reading
    `now`, the id of an entry a stop may create and that entry's workday key
    are parameters. */
module Timer {

  import opened Wrappers
  import opened TimeArithmetic
  import opened TrackerState

  /** `stopTimer`. Idle: nothing happens. Otherwise the timer's total at
      `now` becomes one new entry, attributed to the task and project the
      timer captured, exactly when it reaches the one-minute threshold;
      shorter sessions vanish without trace. The timer is idle afterwards
      and the catalogs are untouched. */
  function Stop(s: State, now: int, entryId: string, workdayKey: string): (r: State)
    ensures r.active.None?
    ensures r == s.(entries := r.entries, active := None)
    ensures s.active.None? ==> r == s
    ensures s.active.Some? ==>
      var c := s.active.value;
      var total := CurrentTotal(c, now);
      && (total >= MinDurationThreshold ==>
            r.entries == s.entries + [TimeEntry(entryId, c.taskId, c.projId, total, workdayKey, now)])
      && (total < MinDurationThreshold ==> r.entries == s.entries)
  {
    match s.active
    case None => s
    case Some(c) =>
      var total := CurrentTotal(c, now);
      if total >= MinDurationThreshold then
        s.(entries := s.entries + [TimeEntry(entryId, c.taskId, c.projId, total, workdayKey, now)],
           active := None)
      else s.(active := None)
  }

  /** `pauseTimer`. Only a running timer is affected: the whole minutes since
      its start are banked, so the paused timer shows the same total it
      showed at `now`, and its start timestamp is dropped. With the clock at
      or past the start, the banked minutes do not decrease. A running
      record without a start timestamp can only come from a malformed saved
      state; JavaScript arithmetic then reads the missing start as 0. */
  function Pause(s: State, now: int): (r: State)
    ensures PhaseOf(s) != Running ==> r == s
    ensures r == s.(active := r.active)
    ensures PhaseOf(s) == Running ==>
      var c := s.active.value;
      && r.active.Some?
      && PhaseOf(r) == Paused && r.active.value.startTimestamp.None?
      && r.active.value.taskId == c.taskId && r.active.value.projId == c.projId
      && (c.startTimestamp.Some? ==> r.active.value.accumulatedMinutes == CurrentTotal(c, now))
      && (c.startTimestamp.None? ==>
            r.active.value.accumulatedMinutes == c.accumulatedMinutes + MinuteSpan(0, now))
      && (c.startTimestamp.Some? && c.startTimestamp.value <= now ==>
            r.active.value.accumulatedMinutes >= c.accumulatedMinutes)
  {
    match s.active
    case None => s
    case Some(c) =>
      if c.isPaused then s
      else
        var elapsed := MinuteSpan(c.startTimestamp.GetOr(0), now);
        s.(active := Some(c.(accumulatedMinutes := c.accumulatedMinutes + elapsed,
                             isPaused := true,
                             startTimestamp := None)))
  }

  /** `resumeTimer`. Only a paused timer is affected: it runs again from
      `now`, keeping its task, project and banked minutes, so at `now` it
      shows the same total as while paused. */
  function Resume(s: State, now: int): (r: State)
    ensures PhaseOf(s) != Paused ==> r == s
    ensures r == s.(active := r.active)
    ensures PhaseOf(s) == Paused ==>
      var c := s.active.value;
      && r.active.Some? && PhaseOf(r) == Running
      && r.active.value.startTimestamp == Some(now)
      && r.active.value.taskId == c.taskId && r.active.value.projId == c.projId
      && r.active.value.accumulatedMinutes == c.accumulatedMinutes
      && CurrentTotal(r.active.value, now) == CurrentTotal(c, now)
  {
    match s.active
    case None => s
    case Some(c) =>
      if !c.isPaused then s
      else s.(active := Some(c.(startTimestamp := Some(now), isPaused := false)))
  }

  /** `startTimer`. Any active timer is first stopped in full (its entry,
      if it qualifies, is recorded), even when `taskId` names no task. Then,
      if the task exists, a fresh running timer starts at `now` with no
      banked minutes and the project the task belongs to at this moment;
      otherwise the tracker is left idle. */
  function Start(s: State, taskId: string, now: int, entryId: string, workdayKey: string): (r: State)
    ensures r.entries == Stop(s, now, entryId, workdayKey).entries
    ensures r == s.(entries := r.entries, active := r.active)
    ensures !HasTask(s.tasks, taskId) ==> PhaseOf(r) == Idle
    ensures HasTask(s.tasks, taskId) ==>
      && PhaseOf(r) == Running
      && r.active.value == TimerContext(taskId, FindTask(s.tasks, taskId).value.projId, Some(now), 0, false)
  {
    var stopped := Stop(s, now, entryId, workdayKey);
    match FindTask(stopped.tasks, taskId)
    case None => stopped
    case Some(task) =>
      stopped.(active := Some(TimerContext(taskId, task.projId, Some(now), 0, false)))
  }

  /** `restoreActiveTimer`: adopts the saved timer record as it was saved
      (a running timer keeps its original start, so the downtime counts),
      unless there is none or its task is no longer catalogued, in which
      case the state is left alone. */
  function Restore(s: State, saved: Option<TimerContext>): (r: State)
    ensures r == s.(active := r.active)
    ensures r.active != s.active ==> saved.Some? && r.active == saved && HasTask(s.tasks, saved.value.taskId)
    ensures saved.Some? && HasTask(s.tasks, saved.value.taskId) ==> r.active == saved
  {
    match saved
    case None => s
    case Some(c) =>
      if FindTask(s.tasks, c.taskId).None? then s
      else s.(active := saved)
  }

  // ---------------------------------------------------------------------
  // Invariant preservation

  /** The clock reading `now` is not before the running timer's start. */
  predicate ClockNotBeforeStart(s: State, now: int) {
    s.active.Some? && s.active.value.startTimestamp.Some? ==> s.active.value.startTimestamp.value <= now
  }

  lemma StopPreservesValid(s: State, now: int, entryId: string, workdayKey: string)
    requires Valid(s) && !HasEntry(s.entries, entryId)
    ensures Valid(Stop(s, now, entryId, workdayKey))
  {
    var r := Stop(s, now, entryId, workdayKey);
    if |r.entries| != |s.entries| {
      forall i, j | 0 <= i < j < |r.entries|
        ensures r.entries[i].id != r.entries[j].id
      {
        if j == |s.entries| {
          assert r.entries[i] in s.entries;
        }
      }
    }
  }

  lemma PausePreservesValid(s: State, now: int)
    requires Valid(s) && ClockNotBeforeStart(s, now)
    ensures Valid(Pause(s, now))
  {
  }

  lemma ResumePreservesValid(s: State, now: int)
    requires Valid(s)
    ensures Valid(Resume(s, now))
  {
  }

  lemma StartPreservesValid(s: State, taskId: string, now: int, entryId: string, workdayKey: string)
    requires Valid(s) && !HasEntry(s.entries, entryId)
    ensures Valid(Start(s, taskId, now, entryId, workdayKey))
  {
    StopPreservesValid(s, now, entryId, workdayKey);
  }

  lemma RestorePreservesValid(s: State, saved: Option<TimerContext>)
    requires Valid(s) && (saved.Some? ==> TimerWellFormed(saved.value))
    ensures Valid(Restore(s, saved))
  {
  }

  // ---------------------------------------------------------------------
  // Round trips and bounds

  /** Pausing loses nothing at the instant it happens: pausing and then
      stopping at the same `now` records exactly what stopping alone would. */
  lemma PauseThenStop(s: State, now: int, entryId: string, workdayKey: string)
    requires Valid(s)
    ensures Stop(Pause(s, now), now, entryId, workdayKey) == Stop(s, now, entryId, workdayKey)
  {
  }

  /** Resuming a paused timer and stopping it at the same `now` records its
      banked minutes exactly (and nothing when fewer than one). */
  lemma ResumeThenStop(s: State, now: int, entryId: string, workdayKey: string)
    requires PhaseOf(s) == Paused
    ensures Stop(Resume(s, now), now, entryId, workdayKey) == Stop(s, now, entryId, workdayKey)
    ensures var c := s.active.value;
      c.accumulatedMinutes >= MinDurationThreshold ==>
        Stop(Resume(s, now), now, entryId, workdayKey).entries
          == s.entries + [TimeEntry(entryId, c.taskId, c.projId, c.accumulatedMinutes, workdayKey, now)]
  {
  }

  /** Pause, resume and stop with no time passing in between record what a
      plain stop would: a timer started at that very instant records only
      the minutes banked before the pause. */
  lemma PauseResumeStopSameInstant(s: State, now: int, entryId: string, workdayKey: string)
    requires Valid(s) && PhaseOf(s) == Running
    ensures Stop(Resume(Pause(s, now), now), now, entryId, workdayKey) == Stop(s, now, entryId, workdayKey)
    ensures s.active.value.startTimestamp == Some(now) ==>
      CurrentTotal(Resume(Pause(s, now), now).active.value, now) == s.active.value.accumulatedMinutes
  {
    ResumeThenStop(Pause(s, now), now, entryId, workdayKey);
  }

  /** A timer paused at `b`, resumed at `b2` and read at `c` counts no more
      than the same timer left running until `c`; it falls short by at most
      the paused minutes plus one minute lost to rounding at each of the two
      cuts. */
  lemma PauseResumeBound(s: State, b: int, b2: int, c: int)
    requires Valid(s) && PhaseOf(s) == Running
    requires s.active.value.startTimestamp.value <= b <= b2 <= c
    ensures var before := CurrentTotal(s.active.value, c);
      var after := CurrentTotal(Resume(Pause(s, b), b2).active.value, c);
      before - MinuteSpan(b, b2) - 2 <= after <= before
  {
    var a := s.active.value.startTimestamp.value;
    SplitSpan(a, b, c);
    SplitSpan(b, b2, c);
  }

  // ---------------------------------------------------------------------
  // Banked minutes over a run of pauses and resumes

  datatype TimerCommand = PauseAt(at: int) | ResumeAt(at: int)

  function Apply(s: State, cmd: TimerCommand): State {
    match cmd
    case PauseAt(t) => Pause(s, t)
    case ResumeAt(t) => Resume(s, t)
  }

  /** The state after the commands in order. */
  function Replay(s: State, cmds: seq<TimerCommand>): State
    decreases |cmds|
  {
    if cmds == [] then s else Replay(Apply(s, cmds[0]), cmds[1..])
  }

  /** Commands come with a clock that never runs backwards and never reads
      earlier than the running timer's start. */
  predicate ClockOrdered(s: State, cmds: seq<TimerCommand>) {
    && (forall i, j :: 0 <= i < j < |cmds| ==> cmds[i].at <= cmds[j].at)
    && (|cmds| > 0 ==> ClockNotBeforeStart(s, cmds[0].at))
  }

  /** While a timer is alive its banked minutes never decrease, it stays on
      the same task and project, and it stays well formed, whatever pauses
      and resumes happen under a forward-running clock. */
  lemma {:induction false} AccumulationNeverDecreases(s: State, cmds: seq<TimerCommand>)
    requires s.active.Some? && TimerWellFormed(s.active.value)
    requires ClockOrdered(s, cmds)
    ensures Replay(s, cmds).active.Some?
    ensures TimerWellFormed(Replay(s, cmds).active.value)
    ensures Replay(s, cmds).active.value.accumulatedMinutes >= s.active.value.accumulatedMinutes
    ensures Replay(s, cmds).active.value.taskId == s.active.value.taskId
    ensures Replay(s, cmds).active.value.projId == s.active.value.projId
    decreases |cmds|
  {
    if cmds != [] {
      var s1 := Apply(s, cmds[0]);
      var rest := cmds[1..];
      assert forall i, j :: 0 <= i < j < |rest| ==> rest[i].at == cmds[i + 1].at && rest[j].at == cmds[j + 1].at;
      if |rest| > 0 {
        assert cmds[0].at <= cmds[1].at;
      }
      AccumulationNeverDecreases(s1, rest);
    }
  }
}
