/** The summary computation of app.js: the accumulation loop of
    `refreshSummaryView`, folding the entry archive into three label → minutes
    tables, and the descending order `renderSummarySection` shows them in. */
module Summary {

  import opened Wrappers
  import opened TrackerState
  import opened Tallies

  const DeletedProjectLabel: string := "Deleted Project"
  const DeletedTaskLabel: string := "Deleted Task"

  // ---------------------------------------------------------------------
  // Label resolution

  /** The label an entry's project id is shown under: that of the first
      project with the id, as `find` returns it. */
  function ProjectLabel(s: State, projId: string): (r: string)
    ensures !HasProject(s.projects, projId) ==> r == DeletedProjectLabel
    ensures HasProject(s.projects, projId) ==>
      exists i :: 0 <= i < |s.projects| && s.projects[i].id == projId && r == s.projects[i].name
        && forall j :: 0 <= j < i ==> s.projects[j].id != projId
  {
    match FindProject(s.projects, projId)
    case Some(p) => p.name
    case None => DeletedProjectLabel
  }

  /** The label an entry's task id is shown under: that of the first task
      with the id, as `find` returns it. */
  function TaskLabel(s: State, taskId: string): (r: string)
    ensures !HasTask(s.tasks, taskId) ==> r == DeletedTaskLabel
    ensures HasTask(s.tasks, taskId) ==>
      exists i :: 0 <= i < |s.tasks| && s.tasks[i].id == taskId && r == s.tasks[i].name
        && forall j :: 0 <= j < i ==> s.tasks[j].id != taskId
  {
    match FindTask(s.tasks, taskId)
    case Some(t) => t.name
    case None => DeletedTaskLabel
  }

  /** The key of the project-and-task table: `"<project> > <task>"`. */
  function CombinedLabel(s: State, e: TimeEntry): (r: string)
    ensures var p, t := ProjectLabel(s, e.projId), TaskLabel(s, e.taskId);
      && |r| == |p| + 3 + |t|
      && r[..|p|] == p && r[|p|..|p| + 3] == " > " && r[|p| + 3..] == t
  {
    ProjectLabel(s, e.projId) + " > " + TaskLabel(s, e.taskId)
  }

  /** Each entry paired with one of its labels, in archive order. */
  function ByProjectPairs(s: State): (r: seq<(string, int)>)
    ensures |r| == |s.entries|
    ensures forall i :: 0 <= i < |r| ==> r[i] == (ProjectLabel(s, s.entries[i].projId), s.entries[i].durationMinutes)
  {
    seq(|s.entries|, i requires 0 <= i < |s.entries| =>
      (ProjectLabel(s, s.entries[i].projId), s.entries[i].durationMinutes))
  }

  function ByTaskPairs(s: State): (r: seq<(string, int)>)
    ensures |r| == |s.entries|
    ensures forall i :: 0 <= i < |r| ==> r[i] == (TaskLabel(s, s.entries[i].taskId), s.entries[i].durationMinutes)
  {
    seq(|s.entries|, i requires 0 <= i < |s.entries| =>
      (TaskLabel(s, s.entries[i].taskId), s.entries[i].durationMinutes))
  }

  function ByTaskInProjectPairs(s: State): (r: seq<(string, int)>)
    ensures |r| == |s.entries|
    ensures forall i :: 0 <= i < |r| ==> r[i] == (CombinedLabel(s, s.entries[i]), s.entries[i].durationMinutes)
  {
    seq(|s.entries|, i requires 0 <= i < |s.entries| =>
      (CombinedLabel(s, s.entries[i]), s.entries[i].durationMinutes))
  }

  /** Total minutes of an archive. */
  function TotalMinutes(es: seq<TimeEntry>): int {
    if es == [] then 0 else TotalMinutes(es[..|es| - 1]) + es[|es| - 1].durationMinutes
  }

  /** Labelling entries keeps their minutes. */
  lemma {:induction false} LabelledTotal<K>(es: seq<TimeEntry>, pairs: seq<(K, int)>)
    requires |pairs| == |es|
    requires forall i :: 0 <= i < |es| ==> pairs[i].1 == es[i].durationMinutes
    ensures PairsTotal(pairs) == TotalMinutes(es)
    decreases |es|
  {
    if es != [] {
      LabelledTotal(es[..|es| - 1], pairs[..|pairs| - 1]);
    }
  }

  /** The table accumulated from an archive's labelled entries: one row per
      label, each row holding exactly its label's minutes, all rows summing
      to the archive's total. */
  lemma TableFacts(es: seq<TimeEntry>, pairs: seq<(string, int)>)
    requires |pairs| == |es|
    requires forall i :: 0 <= i < |es| ==> pairs[i].1 == es[i].durationMinutes
    ensures KeysDistinct(Accumulate(pairs))
    ensures SumValues(Accumulate(pairs)) == TotalMinutes(es)
    ensures forall k :: Lookup(Accumulate(pairs), k) == KeyTotal(pairs, k)
  {
    AccumulateConservesSum(pairs);
    LabelledTotal(es, pairs);
    forall k
      ensures Lookup(Accumulate(pairs), k) == KeyTotal(pairs, k)
    {
      AccumulateLookup(pairs, k);
    }
  }

  datatype Summaries = Summaries(byProject: Totals<string>, byTask: Totals<string>, byTaskInProject: Totals<string>)

  /** The pure half of `refreshSummaryView`. Each table has one row per
      label that some entry resolves to, in the order the labels first occur
      in the archive, and no other row; each row holds exactly the minutes of the entries resolving to
      that label; and each table sums to the archive's total minutes. */
  function Summarize(s: State): (r: Summaries)
    ensures KeysDistinct(r.byProject) && KeysDistinct(r.byTask) && KeysDistinct(r.byTaskInProject)
    ensures SumValues(r.byProject) == TotalMinutes(s.entries)
    ensures SumValues(r.byTask) == TotalMinutes(s.entries)
    ensures SumValues(r.byTaskInProject) == TotalMinutes(s.entries)
    ensures forall k :: Lookup(r.byProject, k) == KeyTotal(ByProjectPairs(s), k)
    ensures forall k :: Lookup(r.byTask, k) == KeyTotal(ByTaskPairs(s), k)
    ensures forall k :: Lookup(r.byTaskInProject, k) == KeyTotal(ByTaskInProjectPairs(s), k)
    ensures Keys(r.byProject) == FirstOccurrences(Keys(ByProjectPairs(s)))
    ensures Keys(r.byTask) == FirstOccurrences(Keys(ByTaskPairs(s)))
    ensures Keys(r.byTaskInProject) == FirstOccurrences(Keys(ByTaskInProjectPairs(s)))
  {
    TableFacts(s.entries, ByProjectPairs(s));
    TableFacts(s.entries, ByTaskPairs(s));
    TableFacts(s.entries, ByTaskInProjectPairs(s));
    AccumulateKeyOrder(ByProjectPairs(s));
    AccumulateKeyOrder(ByTaskPairs(s));
    AccumulateKeyOrder(ByTaskInProjectPairs(s));
    Summaries(Accumulate(ByProjectPairs(s)), Accumulate(ByTaskPairs(s)),
              Accumulate(ByTaskInProjectPairs(s)))
  }

  /** What the summary panels show: each table sorted by minutes, largest
      first, with the same rows. */
  function RenderedSummaries(s: State): (r: Summaries)
    ensures NonIncreasing(r.byProject) && NonIncreasing(r.byTask) && NonIncreasing(r.byTaskInProject)
    ensures multiset(r.byProject) == multiset(Summarize(s).byProject)
    ensures multiset(r.byTask) == multiset(Summarize(s).byTask)
    ensures multiset(r.byTaskInProject) == multiset(Summarize(s).byTaskInProject)
  {
    var t := Summarize(s);
    Summaries(SortByMinutesDesc(t.byProject), SortByMinutesDesc(t.byTask),
              SortByMinutesDesc(t.byTaskInProject))
  }
}
