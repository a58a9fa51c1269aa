/** Which snapshots and jobs end in one entry, told from their own fields. */
module QueueKeys {
  import opened Wrappers
  import opened OrderedMap
  import opened QueueMerge
  import FleetMerge

  /** In an ascending list, entries at different places have different keys. */
  lemma KeysDiffer<E>(es: seq<E>, key: E -> Key, i: int, j: int)
    requires Ascending(es, key) && 0 <= i < j < |es|
    ensures key(es[i]) != key(es[j])
  {
    KeyLessIsOrder(key(es[i]), key(es[i]), key(es[i]));
  }

  /** Entries that share a key are the same entry. */
  lemma SameKeySameEntry<E>(es: seq<E>, key: E -> Key, i: int, j: int)
    requires Ascending(es, key) && 0 <= i < |es| && 0 <= j < |es| && key(es[i]) == key(es[j])
    ensures i == j
  {
    if i < j {
      KeysDiffer(es, key, i, j);
    } else if j < i {
      KeysDiffer(es, key, j, i);
    }
  }

  predicate SameRun(a: Run, b: Run) {
    a.repository == b.repository && a.runId == b.runId
  }

  lemma RunKeysAgree(a: Run, b: Run)
    ensures RunKey(a) == RunKey(b) <==> SameRun(a, b)
  {
    assert RunKey(a)[0] == a.repository && RunKey(a)[1] == a.runId;
    assert RunKey(b)[0] == b.repository && RunKey(b)[1] == b.runId;
  }

  lemma RunKeysAreKept(runs: seq<Run>, k: Key)
    ensures (exists m | m in DedupeRuns(runs) :: RunKey(m) == k) <==> exists run | run in runs :: RunKey(run) == k
  {
    hide RunKey, DedupeRuns;
    RunsAreMergedByKey(runs, k);
    LookupFindsMembers(DedupeRuns(runs), k, RunKey);
    GroupFindsMembers(runs, k, RunKey);
  }

  /** There is exactly one merged run for each pair of repository and run id among the snapshots. */
  lemma OneRunPerPair(runs: seq<Run>)
    ensures var merged := DedupeRuns(runs);
            && (forall run | run in runs :: exists m | m in merged :: SameRun(m, run))
            && (forall m | m in merged :: exists run | run in runs :: SameRun(m, run))
            && (forall i, j | 0 <= i < j < |merged| :: !SameRun(merged[i], merged[j]))
  {
    hide SameRun, RunKey, DedupeRuns;
    var merged := DedupeRuns(runs);
    RunsAreMergedByKey(runs, []);
    forall run | run in runs ensures exists m | m in merged :: SameRun(m, run) {
      RunKeysAreKept(runs, RunKey(run));
      var m :| m in merged && RunKey(m) == RunKey(run);
      RunKeysAgree(m, run);
    }
    forall m | m in merged ensures exists run | run in runs :: SameRun(m, run) {
      RunKeysAreKept(runs, RunKey(m));
      var run :| run in runs && RunKey(run) == RunKey(m);
      RunKeysAgree(m, run);
    }
    forall i, j | 0 <= i < j < |merged| ensures !SameRun(merged[i], merged[j]) {
      KeysDiffer(merged, RunKey, i, j);
      RunKeysAgree(merged[i], merged[j]);
    }
  }

  predicate SameJob(a: Job, b: Job) {
    a.name == b.name && a.status == b.status && a.runnerName == b.runnerName && a.url == b.url
  }

  lemma JobKeysAgree(a: Job, b: Job)
    ensures JobKey(a) == JobKey(b) <==> SameJob(a, b)
  {
    assert JobKey(a)[0] == a.name && JobKey(a)[1] == a.status && JobKey(a)[2] == a.runnerName && JobKey(a)[3] == a.url;
    assert JobKey(b)[0] == b.name && JobKey(b)[1] == b.status && JobKey(b)[2] == b.runnerName && JobKey(b)[3] == b.url;
  }

  /** There is exactly one de-duplicated job for each combination of name, status, runner and url, and
      it is one of the inputs. */
  lemma OneJobPerCombination(jobs: seq<Job>)
    ensures var deduped := DedupeJobs(jobs);
            && (forall job | job in jobs :: exists d | d in deduped :: SameJob(d, job))
            && (forall d | d in deduped :: d in jobs)
            && (forall i, j | 0 <= i < j < |deduped| :: !SameJob(deduped[i], deduped[j]))
  {
    hide SameJob, JobKey, DedupeJobs;
    var deduped := DedupeJobs(jobs);
    JobsAreFirstOfTheirKey(jobs, []);
    forall job | job in jobs ensures exists d | d in deduped :: SameJob(d, job) {
      JobsAreFirstOfTheirKey(jobs, JobKey(job));
      GroupFindsMembers(jobs, JobKey(job), JobKey);
      LookupFindsMembers(deduped, JobKey(job), JobKey);
      var d :| d in deduped && JobKey(d) == JobKey(job);
      JobKeysAgree(d, job);
    }
    forall i | 0 <= i < |deduped| ensures deduped[i] in jobs {
      DedupedIsInput(jobs, i);
    }
    forall i, j | 0 <= i < j < |deduped| ensures !SameJob(deduped[i], deduped[j]) {
      KeysDiffer(deduped, JobKey, i, j);
      JobKeysAgree(deduped[i], deduped[j]);
    }
  }

  lemma DedupedIsInput(jobs: seq<Job>, i: int)
    requires 0 <= i < |DedupeJobs(jobs)|
    ensures DedupeJobs(jobs)[i] in jobs
  {
    var deduped := DedupeJobs(jobs);
    var k := JobKey(deduped[i]);
    JobsAreFirstOfTheirKey(jobs, k);
    LookupFindsMembers(deduped, k, JobKey);
    LookupIsAt(deduped, k, JobKey);
    var found :| 0 <= found < |deduped| && deduped[found] == Lookup(deduped, k, JobKey).value && JobKey(deduped[found]) == k;
    SameKeySameEntry(deduped, JobKey, found, i);
    GroupIsInput(jobs, k, JobKey);
  }

  lemma {:induction false} LookupIsAt<E>(es: seq<E>, k: Key, key: E -> Key)
    ensures var found := Lookup(es, k, key);
            found.Some? ==> exists i | 0 <= i < |es| :: es[i] == found.value && key(es[i]) == k
  {
    if es != [] && key(es[0]) != k {
      LookupIsAt(es[1..], k, key);
      if Lookup(es[1..], k, key).Some? {
        var i :| 0 <= i < |es[1..]| && es[1..][i] == Lookup(es, k, key).value && key(es[1..][i]) == k;
        assert es[i + 1] == Lookup(es, k, key).value;
      }
    }
  }

  lemma {:induction false} GroupIsInput<E>(es: seq<E>, k: Key, key: E -> Key)
    ensures forall e | e in Group(es, k, key) :: e in es
  {
    if es != [] {
      GroupIsInput(es[..|es| - 1], k, key);
    }
  }

  predicate SameFleetJob(a: FleetMerge.FleetJob, b: FleetMerge.FleetJob) {
    a.repository == b.repository && a.runId == b.runId && a.job == b.job && a.workspace == b.workspace
  }

  lemma FleetKeysAgree(a: FleetMerge.FleetJob, b: FleetMerge.FleetJob)
    ensures FleetMerge.FleetKey(a) == FleetMerge.FleetKey(b) <==> SameFleetJob(a, b)
  {
    var k, l := FleetMerge.FleetKey(a), FleetMerge.FleetKey(b);
    assert k[0] == a.repository && k[1] == a.runId && k[2] == a.job && k[3] == a.workspace;
    assert l[0] == b.repository && l[1] == b.runId && l[2] == b.job && l[3] == b.workspace;
  }

  /** There is exactly one merged fleet job for each combination of repository, run, job and workspace. */
  lemma OneFleetJobPerCombination(jobs: seq<FleetMerge.FleetJob>)
    ensures var deduped := Collect(jobs, FleetMerge.FleetKey, FleetMerge.MergePids);
            && (forall job | job in jobs :: exists d | d in deduped :: SameFleetJob(d, job))
            && (forall i, j | 0 <= i < j < |deduped| :: !SameFleetJob(deduped[i], deduped[j]))
  {
    hide SameFleetJob, FleetMerge.FleetKey;
    var deduped := Collect(jobs, FleetMerge.FleetKey, FleetMerge.MergePids);
    FleetMerge.FleetJobsAreUnions(jobs, []);
    forall job | job in jobs ensures exists d | d in deduped :: SameFleetJob(d, job) {
      var k := FleetMerge.FleetKey(job);
      FleetMerge.FleetJobsAreUnions(jobs, k);
      GroupFindsMembers(jobs, k, FleetMerge.FleetKey);
      LookupFindsMembers(deduped, k, FleetMerge.FleetKey);
      var d :| d in deduped && FleetMerge.FleetKey(d) == k;
      FleetKeysAgree(d, job);
    }
    forall i, j | 0 <= i < j < |deduped| ensures !SameFleetJob(deduped[i], deduped[j]) {
      KeysDiffer(deduped, FleetMerge.FleetKey, i, j);
      FleetKeysAgree(deduped[i], deduped[j]);
    }
  }
}
