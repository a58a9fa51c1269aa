/** Merging the processes of one runner job that were seen more than once. */
module FleetMerge {
  import opened Wrappers
  import opened OrderedMap

  datatype FleetJob = FleetJob(repository: string, runId: string, job: string, workspace: string, pids: seq<nat>)

  function FleetKey(job: FleetJob): Key {
    [job.repository, job.runId, job.job, job.workspace]
  }

  function InsertPid(sorted: seq<nat>, pid: nat): seq<nat> {
    if sorted == [] || pid < sorted[0] then [pid] + sorted
    else if pid == sorted[0] then sorted
    else [sorted[0]] + InsertPid(sorted[1..], pid)
  }

  /** The process ids sorted, each once. */
  function SortUnique(pids: seq<nat>): seq<nat> {
    if pids == [] then [] else InsertPid(SortUnique(pids[..|pids| - 1]), pids[|pids| - 1])
  }

  function MergePids(existing: FleetJob, job: FleetJob): FleetJob {
    existing.(pids := SortUnique(existing.pids + job.pids))
  }

  method DedupeRunnerFleetJobs(jobs: seq<FleetJob>) returns (deduped: seq<FleetJob>)
    ensures deduped == Collect(jobs, FleetKey, MergePids)
  {
    deduped := [];
    for i := 0 to |jobs|
      invariant deduped == Collect(jobs[..i], FleetKey, MergePids)
    {
      assert jobs[..i + 1][..i] == jobs[..i];
      deduped := Upsert(deduped, jobs[i], FleetKey, MergePids);
    }
    assert jobs[..|jobs|] == jobs;
  }

  predicate StrictlyAscending(pids: seq<nat>) {
    forall i, j | 0 <= i < j < |pids| :: pids[i] < pids[j]
  }

  lemma {:induction false} InsertPidKeeps(sorted: seq<nat>, pid: nat)
    requires StrictlyAscending(sorted)
    ensures StrictlyAscending(InsertPid(sorted, pid))
    ensures forall x :: x in InsertPid(sorted, pid) <==> x == pid || x in sorted
  {
    if sorted != [] && sorted[0] < pid {
      var rest := InsertPid(sorted[1..], pid);
      InsertPidKeeps(sorted[1..], pid);
      assert sorted == [sorted[0]] + sorted[1..];
      forall k | 0 <= k < |rest| ensures sorted[0] < rest[k] {
        assert rest[k] in rest;
      }
    }
  }

  lemma {:induction false} SortUniqueMembers(pids: seq<nat>)
    ensures StrictlyAscending(SortUnique(pids))
    ensures forall x :: x in SortUnique(pids) <==> x in pids
  {
    if pids != [] {
      var front, last := pids[..|pids| - 1], pids[|pids| - 1];
      SortUniqueMembers(front);
      InsertPidKeeps(SortUnique(front), last);
      assert pids == front + [last];
    }
  }

  ghost predicate SeenBy(group: seq<FleetJob>, pid: nat) {
    exists job | job in group :: pid in job.pids
  }

  lemma {:induction false} MergedPids(group: seq<FleetJob>)
    requires group != []
    ensures var merged := Merged(group, MergePids);
            && (forall pid :: pid in merged.pids <==> SeenBy(group, pid))
            && (1 < |group| ==> StrictlyAscending(merged.pids))
            && merged == group[0].(pids := merged.pids)
  {
    if |group| == 1 {
      assert group == [group[0]];
    } else {
      var front, last := group[..|group| - 1], group[|group| - 1];
      MergedPids(front);
      assert group == front + [last];
      SortUniqueMembers(Merged(front, MergePids).pids + last.pids);
    }
  }

  /** One entry per key in ascending order, holding exactly the process ids of every sighting; when
      there was more than one sighting they are sorted and distinct. */
  lemma FleetJobsAreUnions(jobs: seq<FleetJob>, k: Key)
    ensures var group := Group(jobs, k, FleetKey);
            var deduped := Collect(jobs, FleetKey, MergePids);
            var found := Lookup(deduped, k, FleetKey);
            && Ascending(deduped, FleetKey)
            && (group == [] <==> found.None?)
            && (found.Some? ==> (forall pid :: pid in found.value.pids <==> SeenBy(group, pid)))
            && (1 < |group| ==> found.Some? && StrictlyAscending(found.value.pids))
  {
    CollectIsGroupwise(jobs, FleetKey, MergePids, k);
    if Group(jobs, k, FleetKey) != [] {
      MergedPids(Group(jobs, k, FleetKey));
    }
  }
}
