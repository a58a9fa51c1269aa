/** Merging repeated snapshots of workflow runs and their jobs. */
module QueueMerge {
  import opened Wrappers
  import opened OrderedMap

  datatype Job = Job(
    name: string, status: string, conclusion: string, runnerName: string, runnerGroupName: string,
    labels: seq<string>, url: string)

  datatype Run = Run(
    repository: string, runId: string, workflow: string, runStatus: string, event: string,
    displayTitle: string, headBranch: string, url: string, jobs: seq<Job>)

  function JobKey(job: Job): Key {
    [job.name, job.status, job.runnerName, job.url]
  }

  function KeepFirst(existing: Job, job: Job): Job {
    existing
  }

  function DedupeJobs(jobs: seq<Job>): seq<Job> {
    Collect(jobs, JobKey, KeepFirst)
  }

  function RunKey(run: Run): Key {
    [run.repository, run.runId]
  }

  function Fill(existing: string, later: string): string {
    if existing == "" then later else existing
  }

  /** Empty text fields are filled from the later snapshot; the job lists are joined and de-duplicated. */
  function FillRun(existing: Run, run: Run): Run {
    Run(existing.repository, existing.runId,
        Fill(existing.workflow, run.workflow), Fill(existing.runStatus, run.runStatus), Fill(existing.event, run.event),
        Fill(existing.displayTitle, run.displayTitle), Fill(existing.headBranch, run.headBranch), Fill(existing.url, run.url),
        DedupeJobs(existing.jobs + run.jobs))
  }

  function DedupeRuns(runs: seq<Run>): seq<Run> {
    Collect(runs, RunKey, FillRun)
  }

  method DedupeRunnerQueueJobs(jobs: seq<Job>) returns (deduped: seq<Job>)
    ensures deduped == DedupeJobs(jobs)
  {
    deduped := [];
    for i := 0 to |jobs|
      invariant deduped == DedupeJobs(jobs[..i])
    {
      assert jobs[..i + 1][..i] == jobs[..i];
      deduped := Upsert(deduped, jobs[i], JobKey, KeepFirst);
    }
    assert jobs[..|jobs|] == jobs;
  }

  method DedupeRunnerQueueRuns(runs: seq<Run>) returns (deduped: seq<Run>)
    ensures deduped == DedupeRuns(runs)
  {
    deduped := [];
    for i := 0 to |runs|
      invariant deduped == DedupeRuns(runs[..i])
    {
      assert runs[..i + 1][..i] == runs[..i];
      deduped := Upsert(deduped, runs[i], RunKey, FillRun);
    }
    assert runs[..|runs|] == runs;
  }

  // ----- what a merged list holds

  lemma {:induction false} MergedKeepFirst(group: seq<Job>)
    requires group != []
    ensures Merged(group, KeepFirst) == group[0]
  {
    if |group| != 1 {
      MergedKeepFirst(group[..|group| - 1]);
    }
  }

  /** De-duplicated jobs are in strictly ascending key order, and each is the first input with its key. */
  lemma JobsAreFirstOfTheirKey(jobs: seq<Job>, k: Key)
    ensures Ascending(DedupeJobs(jobs), JobKey)
    ensures var group := Group(jobs, k, JobKey);
            Lookup(DedupeJobs(jobs), k, JobKey) == if group == [] then None else Some(group[0])
  {
    CollectIsGroupwise(jobs, JobKey, KeepFirst, k);
    if Group(jobs, k, JobKey) != [] {
      MergedKeepFirst(Group(jobs, k, JobKey));
    }
  }

  lemma {:induction false} GroupJoin<E>(a: seq<E>, b: seq<E>, k: Key, key: E -> Key)
    ensures Group(a + b, k, key) == Group(a, k, key) + Group(b, k, key)
  {
    if b == [] {
      assert a + b == a;
    } else {
      assert (a + b)[..|a + b| - 1] == a + b[..|b| - 1];
      GroupJoin(a, b[..|b| - 1], k, key);
    }
  }

  lemma {:induction false} GroupOfAscending<E>(es: seq<E>, k: Key, key: E -> Key)
    requires Ascending(es, key)
    ensures var found := Lookup(es, k, key);
            Group(es, k, key) == if found.None? then [] else [found.value]
  {
    if es != [] {
      var head, rest := es[0], es[1..];
      assert es == [head] + rest;
      GroupOfAscending(rest, k, key);
      GroupJoin([head], rest, k, key);
      assert [head][..0] == [];
      assert Group([head], k, key) == if key(head) == k then [head] else [];
      if key(head) == k {
        LookupBelowHead(rest, k, key);
      }
    }
  }

  /** De-duplicating early makes no difference: joining onto an already de-duplicated list gives the
      same as joining first. */
  lemma DedupeEarlyOrLate(a: seq<Job>, b: seq<Job>)
    ensures DedupeJobs(DedupeJobs(a) + b) == DedupeJobs(a + b)
  {
    var early, late := DedupeJobs(DedupeJobs(a) + b), DedupeJobs(a + b);
    forall k ensures Lookup(early, k, JobKey) == Lookup(late, k, JobKey) {
      JobsAreFirstOfTheirKey(a, k);
      JobsAreFirstOfTheirKey(a + b, k);
      JobsAreFirstOfTheirKey(DedupeJobs(a) + b, k);
      GroupOfAscending(DedupeJobs(a), k, JobKey);
      GroupJoin(DedupeJobs(a), b, k, JobKey);
      GroupJoin(a, b, k, JobKey);
    }
    JobsAreFirstOfTheirKey(a + b, []);
    JobsAreFirstOfTheirKey(DedupeJobs(a) + b, []);
    SameLookupsSameList(early, late, JobKey);
  }

  /** The first text of the group that is not empty. */
  function FirstText(group: seq<Run>, field: Run -> string): string {
    if group == [] then "" else if field(group[0]) != "" then field(group[0]) else FirstText(group[1..], field)
  }

  lemma {:induction false} FirstTextOneMore(group: seq<Run>, run: Run)
    ensures forall field: Run -> string :: FirstText(group + [run], field) == Fill(FirstText(group, field), field(run))
  {
    if group == [] {
      assert group + [run] == [run] && [run][1..] == [];
    } else {
      FirstTextOneMore(group[1..], run);
      assert (group + [run])[1..] == group[1..] + [run];
    }
  }

  function AllJobs(group: seq<Run>): seq<Job> {
    if group == [] then [] else AllJobs(group[..|group| - 1]) + group[|group| - 1].jobs
  }

  /** The reference for one key: the first non-empty text of each field in input order... */
  predicate HasFirstTexts(run: Run, group: seq<Run>)
    requires group != []
  {
    && run.repository == group[0].repository && run.runId == group[0].runId
    && run.workflow == FirstText(group, (r: Run) => r.workflow)
    && run.runStatus == FirstText(group, (r: Run) => r.runStatus)
    && run.event == FirstText(group, (r: Run) => r.event)
    && run.displayTitle == FirstText(group, (r: Run) => r.displayTitle)
    && run.headBranch == FirstText(group, (r: Run) => r.headBranch)
    && run.url == FirstText(group, (r: Run) => r.url)
  }

  /** ...and the jobs of every snapshot, de-duplicated once. A key seen once keeps its jobs as they came. */
  predicate HasAllJobs(run: Run, group: seq<Run>)
    requires group != []
  {
    run.jobs == if |group| == 1 then group[0].jobs else DedupeJobs(AllJobs(group))
  }

  lemma TextsOfOne(run: Run)
    ensures HasFirstTexts(run, [run])
  {
    assert [run][1..] == [];
  }

  lemma TextsFill(existing: Run, run: Run, group: seq<Run>)
    requires group != [] && HasFirstTexts(existing, group)
    ensures HasFirstTexts(FillRun(existing, run), group + [run])
  {
    FirstTextOneMore(group, run);
  }

  lemma JobsJoin(existing: Run, run: Run, group: seq<Run>)
    requires group != [] && HasAllJobs(existing, group)
    ensures HasAllJobs(FillRun(existing, run), group + [run])
  {
    assert (group + [run])[..|group|] == group;
    assert AllJobs(group + [run]) == AllJobs(group) + run.jobs;
    if |group| == 1 {
      assert group[..0] == [];
      assert AllJobs(group) == group[0].jobs;
    } else {
      DedupeEarlyOrLate(AllJobs(group), run.jobs);
    }
  }

  lemma {:induction false} MergedFillRun(group: seq<Run>)
    requires group != []
    ensures HasFirstTexts(Merged(group, FillRun), group) && HasAllJobs(Merged(group, FillRun), group)
  {
    if |group| == 1 {
      assert group == [group[0]];
      TextsOfOne(group[0]);
    } else {
      var front, last := group[..|group| - 1], group[|group| - 1];
      assert group == front + [last];
      MergedFillRun(front);
      TextsFill(Merged(front, FillRun), last, front);
      JobsJoin(Merged(front, FillRun), last, front);
    }
  }

  /** Merged runs are in strictly ascending (repository, run) order, one for each key that occurs, and
      each is the merge of exactly the snapshots with its key. */
  lemma RunsAreMergedByKey(runs: seq<Run>, k: Key)
    ensures Ascending(DedupeRuns(runs), RunKey)
    ensures var group := Group(runs, k, RunKey);
            var found := Lookup(DedupeRuns(runs), k, RunKey);
            if group == [] then found.None? else found.Some? && HasFirstTexts(found.value, group) && HasAllJobs(found.value, group)
  {
    CollectIsGroupwise(runs, RunKey, FillRun, k);
    if Group(runs, k, RunKey) != [] {
      MergedFillRun(Group(runs, k, RunKey));
    }
  }

  /** Merging twice is merging once. */
  lemma MergingIsIdempotent(runs: seq<Run>, jobs: seq<Job>)
    ensures DedupeRuns(DedupeRuns(runs)) == DedupeRuns(runs)
    ensures DedupeJobs(DedupeJobs(jobs)) == DedupeJobs(jobs)
  {
    RunsAreMergedByKey(runs, []);
    CollectSorted(DedupeRuns(runs), RunKey, FillRun);
    JobsAreFirstOfTheirKey(jobs, []);
    CollectSorted(DedupeJobs(jobs), JobKey, KeepFirst);
  }

  function JobKeys(jobs: seq<Job>): set<Key> {
    set job | job in jobs :: JobKey(job)
  }

  lemma {:induction false} LookupFindsMembers<E>(es: seq<E>, k: Key, key: E -> Key)
    ensures Lookup(es, k, key).Some? <==> exists e | e in es :: key(e) == k
  {
    if es != [] {
      LookupFindsMembers(es[1..], k, key);
      assert es == [es[0]] + es[1..];
    }
  }

  lemma {:induction false} GroupFindsMembers<E>(es: seq<E>, k: Key, key: E -> Key)
    ensures Group(es, k, key) != [] <==> exists e | e in es :: key(e) == k
  {
    if es != [] {
      var front, last := es[..|es| - 1], es[|es| - 1];
      GroupFindsMembers(front, k, key);
      assert es == front + [last];
    }
  }

  /** No job key is lost or invented: the keys of the de-duplicated jobs are the keys of the input. */
  lemma JobKeysAreTheUnion(jobs: seq<Job>)
    ensures JobKeys(DedupeJobs(jobs)) == JobKeys(jobs)
  {
    forall k: Key ensures k in JobKeys(DedupeJobs(jobs)) <==> k in JobKeys(jobs) {
      JobsAreFirstOfTheirKey(jobs, k);
      LookupFindsMembers(DedupeJobs(jobs), k, JobKey);
      GroupFindsMembers(jobs, k, JobKey);
    }
  }
}
