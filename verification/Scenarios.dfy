/** End-to-end runs of the tracker on concrete inputs. */
module Scenarios {

  import opened Wrappers
  import opened Labels
  import opened TrackerState
  import opened Catalog
  import opened Timer
  import opened Tallies
  import opened Summary

  const Day: string := "2024-03-04"

  /** The session's start: 09:00 UTC on `Day`, in milliseconds since the
      epoch. A start of 0 would be read as "not running" by the source's
      truthiness tests, so the runs start at a real clock reading. */
  const T0: int := 1709542800000

  /** A fresh install: no data but the system project. */
  const Installed: State := State([SystemProject], [], [], None, None)

  /** Start-up on empty storage creates exactly the system project. */
  lemma FreshInstall()
    ensures EnsureSystemProject(State([], [], [], None, None)) == Installed
  {
  }

  /** Fresh install, project "Work" (id p1), task "Email" (id t1) under it,
      and the task's timer running since `T0`. */
  const EmailRunning: State := State(
    [SystemProject, Project("p1", "Work", false)],
    [Task("t1", "Email", "p1")],
    [],
    Some(TimerContext("t1", "p1", Some(T0), 0, false)),
    Some("p1"))

  const WithWork: State := State([SystemProject, Project("p1", "Work", false)], [], [], None, None)

  const WithEmail: State := State(
    [SystemProject, Project("p1", "Work", false)], [Task("t1", "Email", "p1")], [], None, Some("p1"))

  /** A short label with no surrounding whitespace is accepted unchanged. */
  lemma AcceptedAsIs(name: string)
    requires 1 <= |name| <= NameLimit
    requires !IsJsWhitespace(name[0]) && !IsJsWhitespace(name[|name| - 1])
    ensures ValidateLabel(name) == Ok(name)
  {
    TrimUntouched(name);
  }

  /** Creating project "Work" (id p1) on a fresh install. */
  lemma CreateWork()
    ensures CreateProject(Installed, "Work", "p1") == Ok(WithWork)
  {
    AcceptedAsIs("Work");
    assert [SystemProject] + [Project("p1", "Work", false)] == WithWork.projects;
  }

  /** Creating task "Email" (id t1) under it. */
  lemma CreateEmail()
    ensures CreateTask(WithWork, "Email", "p1", "t1") == Ok(WithEmail)
  {
    AcceptedAsIs("Email");
    assert [] + [Task("t1", "Email", "p1")] == WithEmail.tasks;
  }

  /** Starting the task's timer at `T0` reaches `EmailRunning`. */
  lemma StartEmail()
    ensures Start(WithEmail, "t1", T0, "e0", Day) == EmailRunning
  {
    assert HasTask(WithEmail.tasks, "t1") by { assert WithEmail.tasks[0] in WithEmail.tasks; }
    assert FindTask(WithEmail.tasks, "t1") == Some(Task("t1", "Email", "p1"));
  }

  /** Ninety minutes later the stop files one 90-minute entry under the
      task's project, and the by-project summary reads Work: 90. */
  lemma NinetyMinuteSession()
    ensures Stop(EmailRunning, T0 + 90 * 60000, "e1", Day).entries
      == [TimeEntry("e1", "t1", "p1", 90, Day, T0 + 90 * 60000)]
    ensures Summarize(Stop(EmailRunning, T0 + 90 * 60000, "e1", Day)).byProject == [("Work", 90)]
  {
    assert CurrentTotal(EmailRunning.active.value, T0 + 90 * 60000) == 90;
    var s := Stop(EmailRunning, T0 + 90 * 60000, "e1", Day);
    assert s.entries == [TimeEntry("e1", "t1", "p1", 90, Day, T0 + 90 * 60000)];
    assert FindProject(s.projects, "p1") == Some(Project("p1", "Work", false));
    assert ProjectLabel(s, "p1") == "Work";
    assert ByProjectPairs(s) == [("Work", 90)];
    assert Accumulate(ByProjectPairs(s)) == AddMinutes([], "Work", 90);
  }

  /** Thirty seconds is under the threshold: stopping files nothing. */
  lemma ThirtySecondSession()
    ensures Stop(EmailRunning, T0 + 30000, "e1", Day).entries == []
    ensures Stop(EmailRunning, T0 + 30000, "e1", Day).active.None?
  {
    assert CurrentTotal(EmailRunning.active.value, T0 + 30000) == 0;
  }

  /** Deleting the running task's project reassigns the task but not the
      timer: the entry filed at stop keeps the project captured at start,
      which no longer resolves and is summarised as "Deleted Project". The
      task dialog meanwhile defaults to that deleted project. */
  lemma ProjectDeletedWhileRunning()
    ensures var s := DeleteProject(EmailRunning, "p1", true);
      && s.tasks == [Task("t1", "Email", SystemProjectId)]
      && DefaultProject(s) == "p1" && !HasProject(s.projects, "p1")
      && Stop(s, T0 + 60 * 60000, "e1", Day).entries == [TimeEntry("e1", "t1", "p1", 60, Day, T0 + 60 * 60000)]
      && Summarize(Stop(s, T0 + 60 * 60000, "e1", Day)).byProject == [(DeletedProjectLabel, 60)]
  {
    var s := DeleteProject(EmailRunning, "p1", true);
    assert EmailRunning.projects[1..] == [Project("p1", "Work", false)];
    assert WithoutProject([Project("p1", "Work", false)], "p1") == [];
    assert s.projects == [SystemProject];
    assert s.tasks == [Task("t1", "Email", SystemProjectId)];
    assert !LastSelectedUsable(s);
    assert CurrentTotal(s.active.value, T0 + 60 * 60000) == 60;
    var t := Stop(s, T0 + 60 * 60000, "e1", Day);
    assert t.entries == [TimeEntry("e1", "t1", "p1", 60, Day, T0 + 60 * 60000)];
    assert !HasProject(t.projects, "p1");
    assert ProjectLabel(t, "p1") == DeletedProjectLabel;
    assert ByProjectPairs(t) == [(DeletedProjectLabel, 60)];
    assert Accumulate(ByProjectPairs(t)) == AddMinutes([], DeletedProjectLabel, 60);
  }

  /** The running task cannot be deleted; once stopped, it can. */
  lemma RunningTaskIsProtected()
    ensures DeleteTask(EmailRunning, "t1", true) == Err(TimerActiveOnTask)
    ensures DeleteTask(Stop(EmailRunning, T0 + 60000, "e1", Day), "t1", true).Ok?
  {
  }

  /** Cutting a session loses rounding: 59.999 s before a pause and 59.999 s
      after the resume file nothing, while the same 119.998 s unbroken file
      one minute. */
  lemma PauseLosesRounding()
    ensures Stop(Resume(Pause(EmailRunning, T0 + 59999), T0 + 59999), T0 + 119998, "e1", Day).entries == []
    ensures Stop(EmailRunning, T0 + 119998, "e1", Day).entries == [TimeEntry("e1", "t1", "p1", 1, Day, T0 + 119998)]
  {
    var p := Pause(EmailRunning, T0 + 59999);
    assert p.active.value.accumulatedMinutes == 0;
    var q := Resume(p, T0 + 59999);
    assert CurrentTotal(q.active.value, T0 + 119998) == 0;
    assert CurrentTotal(EmailRunning.active.value, T0 + 119998) == 1;
  }
}
