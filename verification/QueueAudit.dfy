/** Counting merged runs and sorting their jobs into lists. */
module QueueAudit {
  import opened LabelCounts
  import opened QueueMerge
  import opened Text
  import opened Wrappers

  const LOCAL_LABELS: seq<string> := ["self-hosted", "flexnetos", "nix"]

  /** A job as reported, with what it takes over from its run. */
  datatype JobSummary = JobSummary(
    repository: string, workflow: string, runId: string, runStatus: string, event: string,
    displayTitle: string, headBranch: string, job: string, status: string, conclusion: string,
    runnerName: string, runnerGroupName: string, labels: seq<string>, url: string)

  predicate IsLocal(job: JobSummary) {
    forall required | required in LOCAL_LABELS :: exists tag | tag in job.labels :: EqualsIgnoringCase(tag, required)
  }

  predicate IsActive(job: JobSummary) {
    Lower(job.status) in {"in_progress", "running"}
  }

  predicate IsQueued(job: JobSummary) {
    Lower(job.status) in {"queued", "pending", "waiting", "requested"}
  }

  /** The three lists a job can be reported in. */
  datatype Lane = ActiveLocal | QueuedLocal | QueuedElsewhere

  predicate InLane(job: JobSummary, lane: Lane) {
    match lane
    case ActiveLocal => IsLocal(job) && IsActive(job)
    case QueuedLocal => IsLocal(job) && IsQueued(job)
    case QueuedElsewhere => !IsLocal(job) && IsQueued(job)
  }

  // ----- the audit's counts

  function Repositories(runs: seq<Run>): seq<string> {
    if runs == [] then [] else Repositories(runs[..|runs| - 1]) + [runs[|runs| - 1].repository]
  }

  datatype Field = Event | Workflow

  function ValueOf(run: Run, field: Field): string {
    if field == Event then run.event else run.workflow
  }

  /** Whether a run belongs to the repository, when one is named. */
  predicate Belongs(run: Run, repository: Option<string>) {
    repository == None || repository == Some(run.repository)
  }

  /** The non-empty values of a field over the runs of one repository, or of all. */
  function Values(runs: seq<Run>, field: Field, repository: Option<string>): seq<string> {
    if runs == [] then []
    else
      var last := runs[|runs| - 1];
      Values(runs[..|runs| - 1], field, repository)
      + if Belongs(last, repository) && ValueOf(last, field) != "" then [ValueOf(last, field)] else []
  }

  type Table = map<string, map<string, nat>>

  function Row(table: Table, repository: string): map<string, nat> {
    if repository in table then table[repository] else map[]
  }

  ghost predicate TableCounts(table: Table, runs: seq<Run>, field: Field) {
    forall repository :: Counts(Row(table, repository), Values(runs, field, Some(repository)))
  }

  lemma ValuesOneMore(runs: seq<Run>, run: Run, field: Field, repository: Option<string>)
    ensures Values(runs + [run], field, repository)
            == if Belongs(run, repository) && ValueOf(run, field) != "" then Values(runs, field, repository) + [ValueOf(run, field)]
               else Values(runs, field, repository)
  {
    assert (runs + [run])[..|runs|] == runs;
  }

  function BumpRow(table: Table, run: Run, field: Field): Table {
    if ValueOf(run, field) == "" then table
    else table[run.repository := Bump(Row(table, run.repository), ValueOf(run, field))]
  }

  lemma TableBump(table: Table, runs: seq<Run>, run: Run, field: Field)
    requires TableCounts(table, runs, field)
    ensures TableCounts(BumpRow(table, run, field), runs + [run], field)
  {
    forall repository
      ensures Counts(Row(BumpRow(table, run, field), repository), Values(runs + [run], field, Some(repository)))
    {
      ValuesOneMore(runs, run, field, Some(repository));
      assert Counts(Row(table, repository), Values(runs, field, Some(repository)));
      if repository == run.repository {
        CountsBump(Row(table, repository), Values(runs, field, Some(repository)), ValueOf(run, field));
      }
    }
  }

  lemma EventBump(counts: map<string, nat>, runs: seq<Run>, run: Run)
    requires Counts(counts, Values(runs, Event, None))
    ensures Counts(if run.event == "" then counts else Bump(counts, run.event), Values(runs + [run], Event, None))
  {
    ValuesOneMore(runs, run, Event, None);
    CountsBump(counts, Values(runs, Event, None), run.event);
  }

  lemma RepositoryBump(counts: map<string, nat>, runs: seq<Run>, run: Run)
    requires Counts(counts, Repositories(runs))
    ensures Counts(Bump(counts, run.repository), Repositories(runs + [run]))
  {
    assert (runs + [run])[..|runs|] == runs;
    CountsBump(counts, Repositories(runs), run.repository);
  }

  function SummaryOf(run: Run, job: Job): JobSummary {
    JobSummary(run.repository, run.workflow, run.runId, run.runStatus, run.event, run.displayTitle, run.headBranch,
               job.name, job.status, job.conclusion, job.runnerName, job.runnerGroupName, job.labels,
               if job.url == "" then run.url else job.url)
  }

  function RunSummaries(run: Run, jobs: seq<Job>): seq<JobSummary> {
    if jobs == [] then [] else RunSummaries(run, jobs[..|jobs| - 1]) + [SummaryOf(run, jobs[|jobs| - 1])]
  }

  /** Every job of every run, in order. */
  function Summaries(runs: seq<Run>): seq<JobSummary> {
    if runs == [] then []
    else Summaries(runs[..|runs| - 1]) + RunSummaries(runs[|runs| - 1], runs[|runs| - 1].jobs)
  }

  lemma SummariesOneMore(runs: seq<Run>, run: Run)
    ensures Summaries(runs + [run]) == Summaries(runs) + RunSummaries(run, run.jobs)
  {
    assert (runs + [run])[..|runs|] == runs;
  }

  method SummarizeJobs(run: Run) returns (jobs: seq<JobSummary>)
    ensures jobs == RunSummaries(run, run.jobs)
  {
    jobs := [];
    for i := 0 to |run.jobs|
      invariant jobs == RunSummaries(run, run.jobs[..i])
    {
      assert run.jobs[..i + 1][..i] == run.jobs[..i];
      jobs := jobs + [SummaryOf(run, run.jobs[i])];
    }
    assert run.jobs[..|run.jobs|] == run.jobs;
  }

  lemma NothingCounted()
    ensures Counts(map[], Repositories([])) && Counts(map[], Values([], Event, None)) && Summaries([]) == []
    ensures TableCounts(map[], [], Event) && TableCounts(map[], [], Workflow)
  {
  }

  method CountRuns(runs: seq<Run>)
    returns (repositoryRuns: map<string, nat>, triggerEvents: map<string, nat>, events: Table, workflows: Table, jobs: seq<JobSummary>)
    ensures Counts(repositoryRuns, Repositories(runs))
    ensures Counts(triggerEvents, Values(runs, Event, None))
    ensures TableCounts(events, runs, Event)
    ensures TableCounts(workflows, runs, Workflow)
    ensures jobs == Summaries(runs)
  {
    hide Counts, TableCounts, Values, Repositories, Summaries, RunSummaries;
    repositoryRuns, triggerEvents, events, workflows, jobs := map[], map[], map[], map[], [];
    NothingCounted();
    assert runs[..0] == [];
    for i := 0 to |runs|
      invariant Counts(repositoryRuns, Repositories(runs[..i]))
      invariant Counts(triggerEvents, Values(runs[..i], Event, None))
      invariant TableCounts(events, runs[..i], Event)
      invariant TableCounts(workflows, runs[..i], Workflow)
      invariant jobs == Summaries(runs[..i])
    {
      var run := runs[i];
      assert runs[..i + 1] == runs[..i] + [run];
      RepositoryBump(repositoryRuns, runs[..i], run);
      EventBump(triggerEvents, runs[..i], run);
      TableBump(events, runs[..i], run, Event);
      TableBump(workflows, runs[..i], run, Workflow);
      SummariesOneMore(runs[..i], run);
      repositoryRuns := Bump(repositoryRuns, run.repository);
      if run.event != "" {
        triggerEvents := Bump(triggerEvents, run.event);
        events := events[run.repository := Bump(Row(events, run.repository), run.event)];
      }
      if run.workflow != "" {
        workflows := workflows[run.repository := Bump(Row(workflows, run.repository), run.workflow)];
      }
      var added := SummarizeJobs(run);
      jobs := jobs + added;
    }
    assert runs[..|runs|] == runs;
  }

  /** The per-repository run counts add up to the runs scanned. */
  lemma RepositoryCountsAddUp(runs: seq<Run>, counts: map<string, nat>)
    requires Counts(counts, Repositories(runs))
    ensures Sum(counts.Keys, repository => At(counts, repository)) == |runs|
  {
    var labels := Repositories(runs);
    CountsSumToTotal(labels, counts.Keys);
    SumAlike(counts.Keys, tag => CountOf(labels, tag), repository => At(counts, repository));
    RepositoriesLength(runs);
  }

  lemma {:induction false} RepositoriesLength(runs: seq<Run>)
    ensures |Repositories(runs)| == |runs|
  {
    if runs != [] {
      RepositoriesLength(runs[..|runs| - 1]);
    }
  }

  /** The number of runs of a repository whose field has the value. */
  function RowCount(runs: seq<Run>, field: Field, value: string): string -> nat {
    repository => CountOf(Values(runs, field, Some(repository)), value)
  }

  lemma CountOneMore(runs: seq<Run>, run: Run, field: Field, repository: Option<string>, value: string)
    ensures CountOf(Values(runs + [run], field, repository), value)
            == CountOf(Values(runs, field, repository), value)
               + if Belongs(run, repository) && ValueOf(run, field) == value && value != "" then 1 else 0
  {
    ValuesOneMore(runs, run, field, repository);
    var before := Values(runs, field, repository);
    assert (before + [ValueOf(run, field)])[..|before|] == before;
  }

  /** Each event's counts over the repositories add up to its count over all runs; likewise for
      workflows. */
  lemma {:induction false} TableColumnsAddUp(runs: seq<Run>, field: Field, value: string, repositories: set<string>)
    requires repositories == set r | r in Repositories(runs)
    ensures Sum(repositories, RowCount(runs, field, value)) == CountOf(Values(runs, field, None), value)
  {
    if runs != [] {
      var front, run := runs[..|runs| - 1], runs[|runs| - 1];
      var before := set r | r in Repositories(front);
      assert runs == front + [run];
      TableColumnsAddUp(front, field, value, before);
      assert repositories == before + {run.repository};
      CountOneMore(front, run, field, None, value);
      RaiseRow(front, run, field, value, before);
    }
  }

  lemma RaiseRow(front: seq<Run>, run: Run, field: Field, value: string, before: set<string>)
    requires before == set r | r in Repositories(front)
    ensures Sum(before + {run.repository}, RowCount(front + [run], field, value))
            == Sum(before, RowCount(front, field, value)) + if ValueOf(run, field) == value && value != "" then 1 else 0
  {
    var f, g := RowCount(front, field, value), RowCount(front + [run], field, value);
    forall repository: string
      ensures g(repository) == f(repository) + if repository == run.repository && ValueOf(run, field) == value && value != "" then 1 else 0
    {
      CountOneMore(front, run, field, Some(repository), value);
    }
    if run.repository !in before {
      AbsentRepository(front, field, run.repository);
    }
    SumRaise(before, run.repository, f, g, if ValueOf(run, field) == value && value != "" then 1 else 0);
  }

  lemma {:induction false} AbsentRepository(runs: seq<Run>, field: Field, repository: string)
    requires repository !in Repositories(runs)
    ensures Values(runs, field, Some(repository)) == []
  {
    if runs != [] {
      AbsentRepository(runs[..|runs| - 1], field, repository);
    }
  }

  // ----- the job lists

  function Select(jobs: seq<JobSummary>, lane: Lane): seq<JobSummary> {
    if jobs == [] then []
    else Select(jobs[..|jobs| - 1], lane) + if InLane(jobs[|jobs| - 1], lane) then [jobs[|jobs| - 1]] else []
  }

  predicate Unlisted(job: JobSummary) {
    !IsQueued(job) && !(IsActive(job) && IsLocal(job))
  }

  function CountUnlisted(jobs: seq<JobSummary>): nat {
    if jobs == [] then 0 else CountUnlisted(jobs[..|jobs| - 1]) + if Unlisted(jobs[|jobs| - 1]) then 1 else 0
  }

  /** No job is in two lists, and every job is in one or is idle, finished, or active elsewhere. */
  lemma {:induction false} ListsAreDisjointAndComplete(jobs: seq<JobSummary>)
    ensures |Select(jobs, ActiveLocal)| + |Select(jobs, QueuedLocal)| + |Select(jobs, QueuedElsewhere)| + CountUnlisted(jobs) == |jobs|
    ensures forall a, b: Lane, job | a != b && job in Select(jobs, a) :: job !in Select(jobs, b)
  {
    if jobs != [] {
      var front, job := jobs[..|jobs| - 1], jobs[|jobs| - 1];
      ListsAreDisjointAndComplete(front);
      forall lane: Lane ensures forall j | j in Select(front, lane) :: InLane(j, lane) {
        SelectedAreInLane(front, lane);
      }
      LanesExclude(job);
    }
  }

  lemma LanesExclude(job: JobSummary)
    ensures forall a, b: Lane | a != b && InLane(job, a) :: !InLane(job, b)
    ensures Unlisted(job) <==> forall lane: Lane :: !InLane(job, lane)
  {
    assert InLane(job, ActiveLocal) || InLane(job, QueuedLocal) || InLane(job, QueuedElsewhere) || Unlisted(job);
  }

  lemma {:induction false} SelectedAreInLane(jobs: seq<JobSummary>, lane: Lane)
    ensures forall job :: job in Select(jobs, lane) <==> job in jobs && InLane(job, lane)
  {
    if jobs != [] {
      SelectedAreInLane(jobs[..|jobs| - 1], lane);
      assert jobs == jobs[..|jobs| - 1] + [jobs[|jobs| - 1]];
    }
  }

  // ----- the report

  /** The repositories the jobs belong to, in order. */
  function JobRepositories(jobs: seq<JobSummary>): seq<string> {
    if jobs == [] then [] else JobRepositories(jobs[..|jobs| - 1]) + [jobs[|jobs| - 1].repository]
  }

  method CountJobsByRepository(jobs: seq<JobSummary>) returns (counts: map<string, nat>)
    ensures Counts(counts, JobRepositories(jobs))
  {
    counts := map[];
    for i := 0 to |jobs|
      invariant Counts(counts, JobRepositories(jobs[..i]))
    {
      assert jobs[..i + 1][..i] == jobs[..i];
      CountsBump(counts, JobRepositories(jobs[..i]), jobs[i].repository);
      counts := Bump(counts, jobs[i].repository);
    }
    assert jobs[..|jobs|] == jobs;
  }

  /** One row of the report. */
  datatype RepositorySummary = RepositorySummary(
    active: nat, queued: nat, elsewhere: nat, events: map<string, nat>, workflows: map<string, nat>)
  {
    function CountIn(lane: Lane): nat {
      match lane case ActiveLocal => active case QueuedLocal => queued case QueuedElsewhere => elsewhere
    }
  }

  datatype Report = Report(
    scannedRepositories: nat, scannedRuns: nat, scannedJobs: nat,
    active: seq<JobSummary>, queued: seq<JobSummary>, elsewhere: seq<JobSummary>,
    repositories: map<string, RepositorySummary>, triggerEvents: map<string, nat>, queueReady: bool)
  {
    function ListOf(lane: Lane): seq<JobSummary> {
      match lane case ActiveLocal => active case QueuedLocal => queued case QueuedElsewhere => elsewhere
    }
  }

  /** What the report says about the merged runs. */
  ghost predicate Describes(r: Report, runs: seq<Run>, maxQueued: nat) {
    && r.scannedRuns == |runs| && r.scannedJobs == |Summaries(runs)|
    && r.scannedRepositories == |r.repositories|
    && (forall lane: Lane :: r.ListOf(lane) == Select(Summaries(runs), lane))
    && (forall repository :: repository in r.repositories <==> repository in Repositories(runs))
    && (forall repository | repository in r.repositories :: DescribesRow(r.repositories[repository], repository, runs))
    && Counts(r.triggerEvents, Values(runs, Event, None))
    && (r.queueReady <==> runs != [] && |Select(Summaries(runs), QueuedLocal)| <= maxQueued)
  }

  ghost predicate DescribesRow(row: RepositorySummary, repository: string, runs: seq<Run>) {
    && (forall lane: Lane :: row.CountIn(lane) == CountOf(JobRepositories(Select(Summaries(runs), lane)), repository))
    && Counts(row.events, Values(runs, Event, Some(repository)))
    && Counts(row.workflows, Values(runs, Workflow, Some(repository)))
  }

  method RunnerQueueAudit(snapshots: seq<Run>, maxQueued: nat) returns (r: Report)
    ensures Describes(r, DedupeRuns(snapshots), maxQueued)
  {
    hide Counts, TableCounts, DescribesRow, Values, Repositories, Summaries, Select, JobRepositories, DedupeRuns, Rows;
    var runs := DedupeRunnerQueueRuns(snapshots);
    var repositoryRuns, triggerEvents, events, workflows, jobs := CountRuns(runs);
    var active, queued, elsewhere := Select(jobs, ActiveLocal), Select(jobs, QueuedLocal), Select(jobs, QueuedElsewhere);
    var busy := CountJobsByRepository(active);
    var waiting := CountJobsByRepository(queued);
    var nonlocal := CountJobsByRepository(elsewhere);
    var rows := Rows(repositoryRuns, busy, waiting, nonlocal, events, workflows);
    RowsAreDescribed(runs, repositoryRuns, busy, waiting, nonlocal, events, workflows);
    r := Report(|repositoryRuns|, |runs|, |jobs|, active, queued, elsewhere, rows, triggerEvents,
                runs != [] && |queued| <= maxQueued);
  }

  /** One row for each repository with a run. */
  function Rows(
    repositoryRuns: map<string, nat>, busy: map<string, nat>, waiting: map<string, nat>, nonlocal: map<string, nat>,
    events: Table, workflows: Table): map<string, RepositorySummary>
  {
    map repository | repository in repositoryRuns ::
      RepositorySummary(At(busy, repository), At(waiting, repository), At(nonlocal, repository),
                        Row(events, repository), Row(workflows, repository))
  }

  lemma RowsAreDescribed(
    runs: seq<Run>, repositoryRuns: map<string, nat>, busy: map<string, nat>, waiting: map<string, nat>,
    nonlocal: map<string, nat>, events: Table, workflows: Table)
    requires Counts(repositoryRuns, Repositories(runs))
    requires Counts(busy, JobRepositories(Select(Summaries(runs), ActiveLocal)))
    requires Counts(waiting, JobRepositories(Select(Summaries(runs), QueuedLocal)))
    requires Counts(nonlocal, JobRepositories(Select(Summaries(runs), QueuedElsewhere)))
    requires TableCounts(events, runs, Event) && TableCounts(workflows, runs, Workflow)
    ensures var rows := Rows(repositoryRuns, busy, waiting, nonlocal, events, workflows);
            && |rows| == |repositoryRuns|
            && (forall repository :: repository in rows <==> repository in Repositories(runs))
            && (forall repository | repository in rows :: DescribesRow(rows[repository], repository, runs))
  {
    hide Counts, TableCounts, DescribesRow, Values, Repositories, Summaries, Select, JobRepositories;
    var rows := Rows(repositoryRuns, busy, waiting, nonlocal, events, workflows);
    CountsKeys(repositoryRuns, Repositories(runs));
    assert rows.Keys == repositoryRuns.Keys;
    forall repository | repository in rows
      ensures DescribesRow(rows[repository], repository, runs)
    {
      RowIsDescribed(runs, repository, busy, waiting, nonlocal, events, workflows);
    }
  }

  lemma CountsKeys(counts: map<string, nat>, labels: seq<string>)
    requires Counts(counts, labels)
    ensures forall tag :: tag in counts <==> tag in labels
  {
  }

  lemma RowIsDescribed(
    runs: seq<Run>, repository: string, busy: map<string, nat>, waiting: map<string, nat>, nonlocal: map<string, nat>,
    events: Table, workflows: Table)
    requires Counts(busy, JobRepositories(Select(Summaries(runs), ActiveLocal)))
    requires Counts(waiting, JobRepositories(Select(Summaries(runs), QueuedLocal)))
    requires Counts(nonlocal, JobRepositories(Select(Summaries(runs), QueuedElsewhere)))
    requires TableCounts(events, runs, Event) && TableCounts(workflows, runs, Workflow)
    ensures DescribesRow(
              RepositorySummary(At(busy, repository), At(waiting, repository), At(nonlocal, repository),
                                Row(events, repository), Row(workflows, repository)),
              repository, runs)
  {
    hide Counts, Values, Summaries, Select, JobRepositories;
    CountIsAt(busy, JobRepositories(Select(Summaries(runs), ActiveLocal)), repository);
    CountIsAt(waiting, JobRepositories(Select(Summaries(runs), QueuedLocal)), repository);
    CountIsAt(nonlocal, JobRepositories(Select(Summaries(runs), QueuedElsewhere)), repository);
    assert Counts(Row(events, repository), Values(runs, Event, Some(repository)));
    assert Counts(Row(workflows, repository), Values(runs, Workflow, Some(repository)));
  }

  lemma CountIsAt(counts: map<string, nat>, labels: seq<string>, tag: string)
    requires Counts(counts, labels)
    ensures At(counts, tag) == CountOf(labels, tag)
  {
  }

  /** A report row's job count in a lane. */
  function CountsIn(r: Report, lane: Lane): string -> nat {
    repository => if repository in r.repositories then r.repositories[repository].CountIn(lane) else 0
  }

  /** The report adds up: in each lane the rows' job counts add up to the length of the lane's list,
      so no listed job lacks a row, and the lists and the unlisted jobs make up the jobs scanned. */
  lemma ReportAddsUp(r: Report, runs: seq<Run>, maxQueued: nat, lane: Lane)
    requires Describes(r, runs, maxQueued)
    ensures Sum(r.repositories.Keys, CountsIn(r, lane)) == |r.ListOf(lane)|
    ensures |r.active| + |r.queued| + |r.elsewhere| + CountUnlisted(Summaries(runs)) == r.scannedJobs
  {
    var labels := JobRepositories(Select(Summaries(runs), lane));
    ListedHaveRows(runs, lane);
    CountsSumToTotal(labels, r.repositories.Keys);
    SumAlike(r.repositories.Keys, tag => CountOf(labels, tag), CountsIn(r, lane));
    ListsAreDisjointAndComplete(Summaries(runs));
    assert r.active == r.ListOf(ActiveLocal) && r.queued == r.ListOf(QueuedLocal) && r.elsewhere == r.ListOf(QueuedElsewhere);
  }

  lemma ListedHaveRows(runs: seq<Run>, lane: Lane)
    ensures var listed := Select(Summaries(runs), lane);
            |JobRepositories(listed)| == |listed| && forall r | r in JobRepositories(listed) :: r in Repositories(runs)
  {
    var listed := Select(Summaries(runs), lane);
    SelectedAreInLane(Summaries(runs), lane);
    JobRepositoriesAreTheirs(listed);
    SummariesAreOfRuns(runs);
  }

  lemma {:induction false} JobRepositoriesAreTheirs(jobs: seq<JobSummary>)
    ensures |JobRepositories(jobs)| == |jobs|
    ensures forall k | 0 <= k < |jobs| :: JobRepositories(jobs)[k] == jobs[k].repository
  {
    if jobs != [] {
      JobRepositoriesAreTheirs(jobs[..|jobs| - 1]);
    }
  }

  lemma {:induction false} SummariesAreOfRuns(runs: seq<Run>)
    ensures forall job | job in Summaries(runs) :: job.repository in Repositories(runs)
  {
    if runs != [] {
      SummariesAreOfRuns(runs[..|runs| - 1]);
      SummariesAreOfRun(runs[|runs| - 1], runs[|runs| - 1].jobs);
    }
  }

  lemma {:induction false} SummariesAreOfRun(run: Run, jobs: seq<Job>)
    ensures forall job | job in RunSummaries(run, jobs) :: job.repository == run.repository
  {
    if jobs != [] {
      SummariesAreOfRun(run, jobs[..|jobs| - 1]);
    }
  }
}
