/** What the queue audit lists and counts, told from the runs' and jobs' own fields. */
module QueueListing {
  import opened Wrappers
  import opened Text
  import opened LabelCounts
  import opened QueueMerge
  import opened QueueAudit

  // ----- the listed jobs

  /** The summary repeats what its run and its job say; a job without a url takes its run's. */
  predicate Tells(summary: JobSummary, run: Run, job: Job) {
    && summary.repository == run.repository && summary.workflow == run.workflow && summary.runId == run.runId
    && summary.runStatus == run.runStatus && summary.event == run.event
    && summary.displayTitle == run.displayTitle && summary.headBranch == run.headBranch
    && summary.job == job.name && summary.status == job.status && summary.conclusion == job.conclusion
    && summary.runnerName == job.runnerName && summary.runnerGroupName == job.runnerGroupName
    && summary.labels == job.labels
    && (job.url != "" ==> summary.url == job.url) && (job.url == "" ==> summary.url == run.url)
  }

  function TotalJobs(runs: seq<Run>): nat {
    if runs == [] then 0 else TotalJobs(runs[..|runs| - 1]) + |runs[|runs| - 1].jobs|
  }

  lemma {:induction false} RunSummariesTell(run: Run, jobs: seq<Job>)
    ensures |RunSummaries(run, jobs)| == |jobs|
    ensures forall k | 0 <= k < |jobs| :: Tells(RunSummaries(run, jobs)[k], run, jobs[k])
  {
    if jobs != [] {
      RunSummariesTell(run, jobs[..|jobs| - 1]);
    }
  }

  /** The summaries are one for each job of each run, and each tells its run and job. */
  lemma {:induction false} SummariesTell(runs: seq<Run>)
    ensures |Summaries(runs)| == TotalJobs(runs)
    ensures forall summary | summary in Summaries(runs) :: IsTold(summary, runs)
    ensures forall run, job | run in runs && job in run.jobs :: TellsOf(Summaries(runs), run, job)
  {
    hide Tells, IsTold, TellsOf, RunSummaries;
    if runs != [] {
      var front, last := runs[..|runs| - 1], runs[|runs| - 1];
      assert runs == front + [last];
      SummariesTell(front);
      OneRunTells(front, last);
    }
  }

  /** Some run and one of its jobs say what the summary does. */
  predicate IsTold(summary: JobSummary, runs: seq<Run>) {
    exists run | run in runs :: exists job | job in run.jobs :: Tells(summary, run, job)
  }

  predicate TellsOf(summaries: seq<JobSummary>, run: Run, job: Job) {
    exists summary | summary in summaries :: Tells(summary, run, job)
  }

  lemma OneRunTells(front: seq<Run>, last: Run)
    ensures var added := RunSummaries(last, last.jobs);
            && |added| == |last.jobs|
            && (forall summary | summary in added :: IsTold(summary, front + [last]))
            && (forall summary | IsTold(summary, front) :: IsTold(summary, front + [last]))
            && (forall before: seq<JobSummary>, job | job in last.jobs :: TellsOf(before + added, last, job))
            && (forall before: seq<JobSummary>, run, job | TellsOf(before, run, job) :: TellsOf(before + added, run, job))
  {
    hide Tells;
    var added := RunSummaries(last, last.jobs);
    RunSummariesTell(last, last.jobs);
    forall summary | summary in added ensures IsTold(summary, front + [last]) {
      var k :| 0 <= k < |added| && added[k] == summary;
      assert last in front + [last] && last.jobs[k] in last.jobs && Tells(summary, last, last.jobs[k]);
    }
    forall summary | IsTold(summary, front) ensures IsTold(summary, front + [last]) {
      var run :| run in front && exists job | job in run.jobs :: Tells(summary, run, job);
      assert run in front + [last];
    }
    forall before: seq<JobSummary>, job | job in last.jobs ensures TellsOf(before + added, last, job) {
      var k :| 0 <= k < |last.jobs| && last.jobs[k] == job;
      assert added[k] in before + added && Tells(added[k], last, job);
    }
    forall before: seq<JobSummary>, run, job | TellsOf(before, run, job) ensures TellsOf(before + added, run, job) {
      var summary :| summary in before && Tells(summary, run, job);
      assert summary in before + added;
    }
  }

  // ----- the lists

  predicate HasLabel(job: JobSummary, wanted: string) {
    exists tag | tag in job.labels :: EqualsIgnoringCase(tag, wanted)
  }

  predicate OnLocalRunner(job: JobSummary) {
    HasLabel(job, "self-hosted") && HasLabel(job, "flexnetos") && HasLabel(job, "nix")
  }

  predicate Waiting(job: JobSummary) {
    || EqualsIgnoringCase(job.status, "queued") || EqualsIgnoringCase(job.status, "pending")
    || EqualsIgnoringCase(job.status, "waiting") || EqualsIgnoringCase(job.status, "requested")
  }

  predicate GoingOn(job: JobSummary) {
    EqualsIgnoringCase(job.status, "in_progress") || EqualsIgnoringCase(job.status, "running")
  }

  lemma StatusWordsAreLower()
    ensures Lower("queued") == "queued" && Lower("pending") == "pending" && Lower("waiting") == "waiting"
    ensures Lower("requested") == "requested" && Lower("in_progress") == "in_progress" && Lower("running") == "running"
  {
  }

  lemma LocalExactly(job: JobSummary)
    ensures IsLocal(job) <==> OnLocalRunner(job)
  {
    hide Lower;
    assert LOCAL_LABELS == ["self-hosted", "flexnetos", "nix"];
    assert "self-hosted" in LOCAL_LABELS && "flexnetos" in LOCAL_LABELS && "nix" in LOCAL_LABELS;
    assert forall required :: required in LOCAL_LABELS <==> required == "self-hosted" || required == "flexnetos" || required == "nix";
  }

  /** Each list holds exactly the jobs of its kind: going on or waiting for a local runner, or waiting
      for another one. */
  lemma ListedExactly(jobs: seq<JobSummary>, job: JobSummary)
    ensures job in Select(jobs, ActiveLocal) <==> job in jobs && OnLocalRunner(job) && GoingOn(job)
    ensures job in Select(jobs, QueuedLocal) <==> job in jobs && OnLocalRunner(job) && Waiting(job)
    ensures job in Select(jobs, QueuedElsewhere) <==> job in jobs && !OnLocalRunner(job) && Waiting(job)
  {
    hide IsLocal, OnLocalRunner, Lower;
    SelectedAreInLane(jobs, ActiveLocal);
    SelectedAreInLane(jobs, QueuedLocal);
    SelectedAreInLane(jobs, QueuedElsewhere);
    LocalExactly(job);
    StatusWordsAreLower();
  }

  // ----- the counts

  function FieldText(run: Run, field: Field): string {
    match field
    case Event => run.event
    case Workflow => run.workflow
  }

  /** The places of the runs that say `value`, of one repository or of all. */
  function PlacesOf(runs: seq<Run>, field: Field, repository: Option<string>, value: string): set<nat> {
    set i: nat | i < |runs| && Says(runs[i], field, repository, value)
  }

  predicate Says(run: Run, field: Field, repository: Option<string>, value: string) {
    FieldText(run, field) == value && (repository.Some? ==> run.repository == repository.value)
  }

  lemma OneMorePlace(front: seq<Run>, run: Run, field: Field, repository: Option<string>, value: string)
    ensures |PlacesOf(front + [run], field, repository, value)|
            == |PlacesOf(front, field, repository, value)| + if Says(run, field, repository, value) then 1 else 0
  {
    var before, after := PlacesOf(front, field, repository, value), PlacesOf(front + [run], field, repository, value);
    if Says(run, field, repository, value) {
      assert after == before + {|front|};
    } else {
      assert after == before;
    }
  }

  /** A counted label's number is the number of runs that say it. */
  lemma {:induction false} CountsAreRuns(runs: seq<Run>, field: Field, repository: Option<string>, value: string)
    requires value != ""
    ensures CountOf(Values(runs, field, repository), value) == |PlacesOf(runs, field, repository, value)|
  {
    hide PlacesOf;
    if runs == [] {
      NoPlaces(field, repository, value);
    } else {
      var front, last := runs[..|runs| - 1], runs[|runs| - 1];
      assert runs == front + [last];
      CountsAreRuns(front, field, repository, value);
      CountOneMore(front, last, field, repository, value);
      OneMorePlace(front, last, field, repository, value);
    }
  }

  lemma NoPlaces(field: Field, repository: Option<string>, value: string)
    ensures PlacesOf([], field, repository, value) == {}
  {
  }
}
