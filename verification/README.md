# Time tracker core, modelled in Dafny

A model of the engine of a single-user, browser-based time tracker. Users
keep a catalog of projects and tasks, run one timer at a time on a task,
pause and resume it, and stop it to file a time entry. Summaries then total
the filed minutes by project, by task and by project-and-task.

The model covers three parts.

- **Minute arithmetic** (`timeUtils.js`): floor conversion of milliseconds
  to whole minutes, the minute span between two timestamps, and the
  `HH:MM` display.
- **Timer state machine** (`app.js`): `startTimer`, `pauseTimer`,
  `resumeTimer`, `stopTimer` and `restoreActiveTimer`. The timer is Idle
  (no context), Running (not paused; normally with a start timestamp) or
  Paused (no start timestamp,
  minutes banked).
- **Catalog and summaries** (`app.js`):
  - creating projects and tasks with label validation;
  - the always-present system project `NO_PROJECT`;
  - deleting a project, with its tasks and entries reassigned to the system
    project;
  - deleting a task, refused while its timer is active;
  - the default project offered for a new task;
  - the three summary tables of `refreshSummaryView` and their descending
    order in `renderSummarySection`.

Everything is a pure function on an immutable `State` record: the project,
task and entry catalogs, the optional active timer and the last selected
project. Inputs the program reads from the environment are parameters:

- the clock reading `now`;
- the fresh id of a created record;
- the workday key of a new entry;
- the user's answer to a confirmation dialog.

Modules:

| module | file | contents |
|---|---|---|
| `Wrappers` | Wrappers.dfy | `Option` and `Result` |
| `TimeArithmetic` | TimeArithmetic.dfy | minutes, spans, decimal digits, `HH:MM` display and its read-back |
| `Labels` | Labels.dfy | JavaScript `trim` and the 1..50 label rule |
| `TrackerState` | TrackerState.dfy | records, lookups by id, the state invariant `Valid`, a timer's current total |
| `Catalog` | Catalog.dfy | system project, creation, deletion, default project |
| `Timer` | Timer.dfy | the timer transitions and their invariants |
| `Tallies` | Tallies.dfy | label → minutes association lists in first-insertion order, accumulation, stable descending sort |
| `Summary` | Summary.dfy | label resolution and the three summary tables |
| `Scenarios` | Scenarios.dfy | concrete end-to-end runs |

Three behaviours of the code are worth knowing before reading the model.

- `deleteProject` has no guard against the system project id. The project
  list just shows no delete button for it (app.js:189-195).
  `Catalog.DeleteProject` therefore accepts any id, and
  `Catalog.DeletingSystemProjectBreaksValid` shows what deleting the system
  project would do to the state invariant.
- `saveTask` stores the selected project id without checking it, and so
  does `Catalog.CreateTask`.
- `stopTimer` reads the clock up to three times: for the span, for the
  workday key and for the entry's timestamp (app.js:361, app.js:369,
  app.js:377). The model uses one `now` for the span and the timestamp, and
  takes the workday key as a parameter.

## Model

| member | source | states |
|---|---|---|
| TimeArithmetic.MsToMinutes | timeUtils.js:22-24 | the result is the floor of ms / 60000: the largest r with r·60000 ≤ ms, also for negative ms |
| TimeArithmetic.MinuteSpan | timeUtils.js:34-36 | the span is the floor of the elapsed ms in minutes; it is non-negative exactly when the end is not before the start; an interval shorter than a minute gives 0 |
| TimeArithmetic.ClockRegression | timeUtils.js:34-36 | a zero-length span is 0 minutes; a clock that went back 1 ms gives -1, because spans are not clamped |
| TimeArithmetic.SplitSpan | timeUtils.js:34-36 | cutting an interval at an inner point: the two spans sum to at most the whole span and at most one minute less |
| TimeArithmetic.SpanMonotone | timeUtils.js:34-36 | a later end never gives fewer minutes |
| TimeArithmetic.DecimalString | timeUtils.js:29 | `String(n)` of a non-negative integer is a digit string denoting n, with no leading zero except for 0 itself, one digit exactly when n < 10 |
| TimeArithmetic.PadTwo | timeUtils.js:29 | `padStart(2, '0')` leaves strings of two or more characters alone and left-pads shorter ones with zeros to length 2 |
| TimeArithmetic.PadTwoValue | timeUtils.js:29 | zero padding keeps a digit string's value |
| TimeArithmetic.FormatMinutes | timeUtils.js:26-30 | the display is `H:MM`: H is a digit field of at least two characters, with no leading zero once it is wider than two; MM is exactly two digits below 60; H·60 + MM equals the input |
| TimeArithmetic.FormatRoundTrip | timeUtils.js:26-30 | reading the display back gives the original minute count |
| TimeArithmetic.FormatSixtyFive | timeUtils.js:26-30 | 65 renders as `01:05` |
| TimeArithmetic.FormatZero | timeUtils.js:26-30 | 0 renders as `00:00` |
| TimeArithmetic.FormatPastOneDay | timeUtils.js:27 | hours are not wrapped at 24: 1505 renders as `25:05` |
| Labels.TrimStart | app.js:66 | the input is a whitespace run followed by the result, and the result does not start with whitespace |
| Labels.TrimEnd | app.js:66 | the input is the result followed by a whitespace run, and the result does not end with whitespace |
| Labels.Trim | app.js:66 | `trim()`: the input is whitespace, then the result, then whitespace; the result neither starts nor ends with whitespace; it is empty exactly when the input is all whitespace |
| Labels.TrimUntouched | app.js:66 | a string with no whitespace at either end is its own trim |
| Labels.TrimIdempotent | app.js:66 | trimming twice equals trimming once |
| Labels.ValidateLabel | app.js:66-76 | a label is accepted exactly when its trim has 1 to 50 characters, and the accepted value is the trim; it is refused as empty exactly when the input is all whitespace, and as too long exactly when the trim exceeds 50 |
| Labels.AcceptedLabelIsStable | app.js:66-76 | an accepted label is accepted again, unchanged |
| TrackerState.PhaseOf | app.js:327 | the timer is Idle exactly when there is no context and Paused exactly when the context says paused, the two tests of `pauseTimer` here and of `resumeTimer` (app.js:345) |
| TrackerState.FindProject | app.js:33 | `find` by id: none exactly when no project has the id; otherwise a project with that id, and no earlier project has it |
| TrackerState.FindTask | app.js:310 | `find` by id: none exactly when no task has the id; otherwise a task with that id, and no earlier task has it |
| TrackerState.CurrentTotal | app.js:436-444 | a paused timer (or one without a start) shows its banked minutes; a running one adds the minute span from its start to `now` |
| TrackerState.CurrentTotalMonotone | app.js:436-444 | the shown total never decreases as the clock advances, and from the start on it is at least the banked minutes |
| Catalog.EnsureSystemProject | app.js:32-41 | afterwards the system project is present; if it already was, nothing changes; otherwise it is put at the front and nothing else changes |
| Catalog.EnsureSystemProjectIdempotent | app.js:32-41 | running the start-up step twice equals running it once |
| Catalog.StartupEstablishesValid | app.js:32-41 | loaded data with unique ids, qualifying entries and no timer becomes a valid state once the system project is ensured |
| Catalog.CreateProject | app.js:65-84 | succeeds exactly when the label's trim has 1..50 characters; then exactly one non-system project with the trimmed label is appended and nothing else changes; on refusal, the reason is the validation error |
| Catalog.CreateTask | app.js:132-154 | succeeds exactly when the label's trim has 1..50 characters; then exactly one task with the trimmed label and the chosen project is appended, that project becomes the last selected one, and nothing else changes; on refusal, the reason is the validation error |
| Catalog.AppendKeepsProjectIdsUnique | app.js:84 | appending a project with an unused id keeps project ids unique |
| Catalog.AppendKeepsTaskIdsUnique | app.js:152 | appending a task with an unused id keeps task ids unique |
| Catalog.CreateProjectPreservesValid | app.js:78-84 | creating a project with an unused id keeps the state valid |
| Catalog.CreateTaskPreservesValid | app.js:146-154 | creating a task with an unused id keeps the state valid |
| Catalog.WithoutProject | app.js:204 | the filter keeps exactly the projects whose id differs, and keeps ids unique |
| Catalog.WithoutProjectAppend | app.js:204 | the filter of a concatenation is the concatenation of the filters, so kept projects stay in order |
| Catalog.WithoutProjectSingle | app.js:204 | a single project is kept exactly when its id differs; with the previous row this pins the filter's result, order and repetitions included |
| Catalog.ReassignTasks | app.js:206-210 | same length, ids and labels; each task of the deleted project now belongs to the system project and every other task keeps its project |
| Catalog.ReassignEntries | app.js:212-216 | same length and all fields except the project; each entry of the deleted project now belongs to the system project and every other entry keeps its project |
| Catalog.DeleteProject | app.js:201-216 | when declined, nothing changes; when confirmed, no project has the id, the remaining projects are the order-preserving filter of the catalog (exactly the others), tasks and entries are reassigned as above, and (for any project but the system one) none refers to the deleted id; the active timer and last selection are untouched |
| Catalog.DeleteProjectPreservesValid | app.js:201-216 | deleting any project but the system project keeps the state valid |
| Catalog.DeletingSystemProjectBreaksValid | app.js:189-204 | without the UI's missing button, a confirmed deletion of the system project leaves a state without it |
| Catalog.WithoutTask | app.js:299 | the filter keeps exactly the tasks whose id differs, and keeps ids unique |
| Catalog.WithoutTaskAppend | app.js:299 | the filter of a concatenation is the concatenation of the filters, so kept tasks stay in order |
| Catalog.WithoutTaskSingle | app.js:299 | a single task is kept exactly when its id differs; with the previous row this pins the filter's result, order and repetitions included |
| Catalog.DeleteTask | app.js:291-299 | refused while the active timer (running or paused) is on the task, before any confirmation; otherwise refused when not confirmed; it succeeds exactly when confirmed and the timer is elsewhere, and then the task catalog is its order-preserving filter, so only tasks with that id leave it, and entries stay unchanged |
| Catalog.DeleteTaskPreservesValid | app.js:291-299 | a task deletion that goes through keeps the state valid, the active timer's task included |
| Catalog.DefaultProject | app.js:115-130 | priority: a set, catalogued last selection wins; else the active timer's project when set; else the newest entry's project; else the system project. The answer is always a usable last selection, the timer's project, some entry's project or the system project |
| Catalog.DefaultProjectCatalogued | app.js:115-130 | when the timer and all entries refer to catalogued projects, the default is catalogued |
| Timer.Stop | app.js:355-384 | idle: no change. Otherwise exactly one entry with the timer's task, project and current total is appended when that total is at least 1, and none otherwise; the timer is idle afterwards and catalogs are untouched |
| Timer.Pause | app.js:326-337 | affects only a running timer: it becomes paused without a start, on the same task and project, banking exactly the total it showed at `now` when it has a start; a record without a start banks the minutes since the epoch, as JavaScript reads `null` as 0; banked minutes do not decrease when `now` is not before the start |
| Timer.Resume | app.js:344-348 | affects only a paused timer: it runs from `now` on the same task and project with the same banked minutes, showing the same total at `now` |
| Timer.Start | app.js:305-319 | the entries are those a full stop would leave, whether or not the task exists; an unknown task leaves the timer idle; a known one gets a fresh running timer at `now` with 0 banked minutes and the task's project |
| Timer.Restore | app.js:391-401 | the saved timer is adopted exactly when there is one and its task is catalogued; otherwise nothing changes |
| Timer.StopPreservesValid | app.js:355-384 | stopping, with an unused entry id, keeps the state valid |
| Timer.PausePreservesValid | app.js:326-337 | pausing with the clock not before the start keeps the state valid |
| Timer.ResumePreservesValid | app.js:344-348 | resuming keeps the state valid |
| Timer.StartPreservesValid | app.js:305-319 | starting, with an unused entry id, keeps the state valid |
| Timer.RestorePreservesValid | app.js:391-401 | restoring a well-formed saved timer keeps the state valid |
| Timer.PauseThenStop | app.js:326-366 | pausing and stopping at the same instant records exactly what stopping alone records |
| Timer.ResumeThenStop | app.js:344-366 | resuming and stopping at the same instant records exactly the banked minutes (nothing under one minute) |
| Timer.PauseResumeStopSameInstant | app.js:326-366 | pause, resume and stop at one instant record what a plain stop records |
| Timer.PauseResumeBound | app.js:326-348 | a pause at b and resume at b2 count no more than running straight through to c, and at most the paused minutes plus two rounding minutes less |
| Timer.AccumulationNeverDecreases | app.js:326-348 | over any run of pauses and resumes under a forward clock, the timer stays alive and well formed on the same task and project, and its banked minutes never decrease |
| Tallies.Lookup | app.js:462 | reading a row with a default of 0: 0 for a label with no row; otherwise the minutes of the first row with that label |
| Tallies.AddMinutes | app.js:462 | `map[k] = (map[k] || 0) + m` adds exactly m to the table's sum |
| Tallies.AddMinutesKeys | app.js:462 | a known label keeps its row position; a new label is appended at the end |
| Tallies.AddMinutesKeepsKeysDistinct | app.js:462 | labels stay one row each |
| Tallies.AddMinutesLookup | app.js:462 | only the bumped label's minutes change, by exactly m |
| Tallies.Accumulate | app.js:455-467 | the `forEach` fold yields one row per label |
| Tallies.AccumulateConservesSum | app.js:455-467 | the table's rows sum to the total of all pairs |
| Tallies.AccumulateLookup | app.js:455-467 | each label's row holds the sum of that label's pairs, and an unseen label reads 0 |
| Tallies.AccumulateKeyOrder | app.js:455-467 | rows appear in order of each label's first occurrence |
| Tallies.InsertSorted | app.js:478 | inserting into a table ordered by descending minutes keeps it ordered |
| Tallies.SortByMinutesDesc | app.js:478 | the sorted table is a permutation of the input in non-increasing order of minutes |
| Tallies.SortStable | app.js:478 | rows with equal minutes keep their relative order, as the stable `Array.prototype.sort` guarantees |
| Summary.ProjectLabel | app.js:456-459 | an entry's project id resolves, as `find` does, to the label of the first catalogued project with that id, or to "Deleted Project" when none has it |
| Summary.TaskLabel | app.js:457-460 | an entry's task id resolves, as `find` does, to the label of the first catalogued task with that id, or to "Deleted Task" when none has it |
| Summary.CombinedLabel | app.js:465 | the project-and-task key is the entry's project label, then ` > `, then its task label |
| Summary.ByProjectPairs | app.js:455-459 | one (label, minutes) pair per entry, in archive order: the entry's resolved project label and its duration |
| Summary.ByTaskPairs | app.js:455-460 | one (label, minutes) pair per entry, in archive order: the entry's resolved task label and its duration |
| Summary.ByTaskInProjectPairs | app.js:455-466 | one (label, minutes) pair per entry, in archive order: the entry's combined key and its duration |
| Summary.LabelledTotal | app.js:455-467 | labelling entries keeps their total minutes |
| Summary.TableFacts | app.js:455-467 | a table built from labelled entries has distinct labels, sums to the entries' total and holds each label's exact minutes |
| Summary.Summarize | app.js:450-467 | each of the by-project, by-task and by-project-and-task tables has one row per label that some entry resolves to, in the order the labels first occur in the archive, and no other row; sums to the archive's total minutes, and holds for each label exactly the minutes of the entries resolving to it |
| Summary.RenderedSummaries | app.js:469-478 | each shown table holds the same rows as its summary table, in non-increasing order of minutes |
| Scenarios.FreshInstall | app.js:32-41 | start-up on empty storage yields exactly the system project |
| Scenarios.AcceptedAsIs | app.js:66-76 | a 1..50-character label without surrounding whitespace is accepted unchanged |
| Scenarios.CreateWork | app.js:65-84 | creating "Work" on a fresh install appends it after the system project |
| Scenarios.CreateEmail | app.js:132-154 | creating task "Email" under "Work" appends it and remembers "Work" |
| Scenarios.StartEmail | app.js:305-319 | starting "Email" at a clock reading T0 > 0 runs a fresh timer on project "Work" |
| Scenarios.NinetyMinuteSession | app.js:355-384 | with the timer started at T0 > 0, stopping 90 minutes later files one 90-minute entry, and the by-project summary reads Work: 90 |
| Scenarios.ThirtySecondSession | app.js:355-384 | with the timer started at T0 > 0, stopping 30 seconds later files nothing and leaves the timer idle |
| Scenarios.ProjectDeletedWhileRunning | app.js:201-216 | deleting the running task's project reassigns the task but not the timer; with the timer started at T0 > 0, the entry filed an hour later keeps the deleted project id and is summarised under "Deleted Project"; the default project is then the deleted one |
| Scenarios.RunningTaskIsProtected | app.js:291-299 | the running task cannot be deleted, and after a stop it can |
| Scenarios.PauseLosesRounding | app.js:326-366 | with the timer started at T0 > 0, two 59.999 s halves around a pause file nothing, while the same 119.998 s unbroken files one minute |

## Left out

- Persistence (`storage.js`): localStorage reads and writes and JSON
  (de)serialisation are I/O. The loaded catalogs and the saved timer record
  are inputs instead (`Catalog.StartupEstablishesValid`, `Timer.Restore`).
- DOM rendering, dialogs and event wiring: they only display state. This
  covers `renderTaskTable`, `renderProjectDropdowns`,
  `renderProjectManagementList`, the DOM half of `renderSummarySection` and
  the text of `updateTimerDisplay`. Only the total shown by
  `updateTimerDisplay` is modelled, as `TrackerState.CurrentTotal`.
- The display ticker (`startClockTicker`, `stopClockTicker`): it only
  refreshes the display and never changes durations.
- `alert` and `confirm`: a refusal is an `Err` result, and the user's answer
  to a confirmation is the `confirmed` parameter.
- `generateUniqueId`: it depends on the clock and on randomness. Fresh ids
  are parameters, and the invariant lemmas require them to be unused.
- `deriveWorkdayAnchor`: it depends on local-time `Date` methods and the
  time zone. An entry's workday key is a parameter of `Timer.Stop` and
  `Timer.Start`.
- `extractCurrentTimestamp` (`Date.now`): the clock reading is the parameter
  `now`.
- Timer.Stop: the source reads the clock separately for the span, the
  workday key and the entry's timestamp; the model uses one `now` for the
  span and the timestamp.
- Timer.Start: the source's stop and its new timer's start read the clock
  separately; the model uses one `now` for both.
- Timer.Stop: JavaScript treats a start timestamp of 0 (the epoch) as "not
  running" (app.js:360); the start is an `Option<int>` here, so that
  truthiness quirk is not modelled.
- TrackerState.CurrentTotal: the same start-of-0 quirk in the live display
  (app.js:438) is not modelled, for the same reason.
- TimeArithmetic.FormatMinutes: negative minute counts are not modelled
  (JavaScript's `%` would give a negative minute field); the function takes
  a `nat`.
- Labels.ValidateLabel: JavaScript's `length` counts UTF-16 code units, so
  a character outside the Basic Multilingual Plane counts twice there; the
  model counts Unicode characters.
- Summary.RenderedSummaries: JavaScript's `Object.entries` lists integer-like
  keys (such as a project named "42") first, in numeric order. This changes
  the order of rows with equal minutes. The model keeps pure first-insertion
  order.
- Summary.Summarize: the source's tables are plain `{}` objects, so a label
  that names an `Object.prototype` member misbehaves there. A label
  `__proto__` reads the prototype and the assignment is ignored, so its
  minutes vanish from the table. A label such as `constructor`, `toString`,
  `valueOf` or `hasOwnProperty` starts from an inherited function, so its
  value becomes a string. For those labels the conservation and per-label
  totals proved here do not hold of the source; the model treats every
  label as an ordinary key.
- Floating-point arithmetic: all durations are integers here. In JavaScript
  they stay exact below 2^53 ms, which covers any realistic clock.
