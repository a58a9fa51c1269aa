/** What the audit's event and workflow counts add up to. A run whose event or workflow is empty is
    scanned but counted under no label, so a total falls short by exactly those runs. */
module QueueTotals {
  import opened LabelCounts
  import opened OrderedMap
  import opened QueueAudit
  import opened QueueMerge
  import opened Wrappers

  ghost function Total(counts: map<string, nat>): nat {
    Sum(counts.Keys, tag => At(counts, tag))
  }

  /** How many runs the repository has, or how many there are if none is named. */
  function RunsOf(runs: seq<Run>, repository: Option<string>): nat {
    if runs == [] then 0
    else RunsOf(runs[..|runs| - 1], repository) + if Belongs(runs[|runs| - 1], repository) then 1 else 0
  }

  /** How many of those leave the field empty. */
  function Blank(runs: seq<Run>, field: Field, repository: Option<string>): nat {
    if runs == [] then 0
    else
      var last := runs[|runs| - 1];
      Blank(runs[..|runs| - 1], field, repository) + if Belongs(last, repository) && ValueOf(last, field) == "" then 1 else 0
  }

  predicate AllFilled(runs: seq<Run>, field: Field, repository: Option<string>) {
    forall run | run in runs && Belongs(run, repository) :: ValueOf(run, field) != ""
  }

  lemma CountsTotal(counts: map<string, nat>, labels: seq<string>)
    requires Counts(counts, labels)
    ensures Total(counts) == |labels|
  {
    CountsSumToTotal(labels, counts.Keys);
    SumAlike(counts.Keys, tag => CountOf(labels, tag), tag => At(counts, tag));
  }

  lemma {:induction false} ValuesAndBlanks(runs: seq<Run>, field: Field, repository: Option<string>)
    ensures |Values(runs, field, repository)| + Blank(runs, field, repository) == RunsOf(runs, repository)
    ensures Blank(runs, field, repository) == 0 <==> AllFilled(runs, field, repository)
  {
    if runs != [] {
      var front, last := runs[..|runs| - 1], runs[|runs| - 1];
      ValuesAndBlanks(front, field, repository);
      assert runs == front + [last];
    }
  }

  lemma {:induction false} RunsOfAreCounted(runs: seq<Run>, repository: string)
    ensures RunsOf(runs, None) == |runs|
    ensures RunsOf(runs, Some(repository)) == CountOf(Repositories(runs), repository)
  {
    if runs != [] {
      var front, last := runs[..|runs| - 1], runs[|runs| - 1];
      RunsOfAreCounted(front, repository);
      assert Repositories(runs)[..|Repositories(front)|] == Repositories(front);
    }
  }

  /** The counts of a field and the runs that leave it empty make up the runs, so the counts alone do
      if and only if no run leaves it empty. */
  lemma FieldCountsAddUp(counts: map<string, nat>, runs: seq<Run>, field: Field, repository: Option<string>)
    requires Counts(counts, Values(runs, field, repository))
    ensures Total(counts) + Blank(runs, field, repository) == RunsOf(runs, repository)
    ensures Total(counts) == RunsOf(runs, repository) <==> AllFilled(runs, field, repository)
  {
    CountsTotal(counts, Values(runs, field, repository));
    ValuesAndBlanks(runs, field, repository);
  }

  // ----- in the report

  function FieldOf(row: RepositorySummary, field: Field): map<string, nat> {
    if field == Event then row.events else row.workflows
  }

  ghost function RowTotal(r: Report, field: Field): string -> nat {
    repository => if repository in r.repositories then Total(FieldOf(r.repositories[repository], field)) else 0
  }

  /** In one repository's row, both tables' counts and the runs they skip make up the repository's runs. */
  lemma RowAddsUp(r: Report, runs: seq<Run>, maxQueued: nat, repository: string, field: Field)
    requires Describes(r, runs, maxQueued) && repository in r.repositories
    ensures var total, scanned := Total(FieldOf(r.repositories[repository], field)), CountOf(Repositories(runs), repository);
            && total + Blank(runs, field, Some(repository)) == scanned
            && (total == scanned <==> AllFilled(runs, field, Some(repository)))
  {
    assert DescribesRow(r.repositories[repository], repository, runs);
    FieldCountsAddUp(FieldOf(r.repositories[repository], field), runs, field, Some(repository));
    RunsOfAreCounted(runs, repository);
  }

  /** The trigger events and the runs without one make up the runs scanned; they total the runs
      scanned if and only if no merged run has an empty event. */
  lemma TriggerEventsAddUp(r: Report, runs: seq<Run>, maxQueued: nat)
    requires Describes(r, runs, maxQueued)
    ensures Total(r.triggerEvents) + Blank(runs, Event, None) == r.scannedRuns
    ensures Total(r.triggerEvents) == r.scannedRuns <==> forall run | run in runs :: run.event != ""
  {
    FieldCountsAddUp(r.triggerEvents, runs, Event, None);
    RunsOfAreCounted(runs, "");
  }

  /** So do the rows' event counts all together, and the rows' workflow counts. */
  lemma RowTotalsAddUp(r: Report, runs: seq<Run>, maxQueued: nat, field: Field)
    requires Describes(r, runs, maxQueued)
    ensures var total := Sum(r.repositories.Keys, RowTotal(r, field));
            && total + Blank(runs, field, None) == r.scannedRuns
            && (total == r.scannedRuns <==> forall run | run in runs :: ValueOf(run, field) != "")
  {
    var repositories := r.repositories.Keys;
    forall repository | repository in repositories
      ensures RowTotal(r, field)(repository) == |Values(runs, field, Some(repository))|
    {
      assert DescribesRow(r.repositories[repository], repository, runs);
      CountsTotal(FieldOf(r.repositories[repository], field), Values(runs, field, Some(repository)));
    }
    SumAlike(repositories, RowTotal(r, field), RowLength(runs, field));
    RowLengthsAddUp(runs, field, repositories);
    ValuesAndBlanks(runs, field, None);
    RunsOfAreCounted(runs, "");
  }

  function RowLength(runs: seq<Run>, field: Field): string -> nat {
    repository => |Values(runs, field, Some(repository))|
  }

  lemma {:induction false} RowLengthsAddUp(runs: seq<Run>, field: Field, repositories: set<string>)
    requires forall repository | repository in Repositories(runs) :: repository in repositories
    ensures Sum(repositories, RowLength(runs, field)) == |Values(runs, field, None)|
  {
    if runs == [] {
      SumAlike(repositories, RowLength(runs, field), tag => CountOf([], tag));
      SumZero(repositories);
    } else {
      var front, last := runs[..|runs| - 1], runs[|runs| - 1];
      RowLengthsAddUp(front, field, repositories);
      assert Repositories(runs)[|Repositories(front)|] == last.repository;
      assert repositories + {last.repository} == repositories;
      SumRaise(repositories, last.repository, RowLength(front, field), RowLength(runs, field), if ValueOf(last, field) == "" then 0 else 1);
    }
  }

  // ----- when no merged run is blank, told from the snapshots

  predicate KeyFilled(snapshots: seq<Run>, k: Key, field: Field) {
    exists s | s in snapshots :: RunKey(s) == k && ValueOf(s, field) != ""
  }

  /** No merged run leaves the field empty, so the counts total the runs scanned, if and only if every
      run has a snapshot that fills it. */
  lemma FilledExactlyWhenSomeSnapshotIs(snapshots: seq<Run>, field: Field)
    ensures AllFilled(DedupeRuns(snapshots), field, None) <==> forall s | s in snapshots :: KeyFilled(snapshots, RunKey(s), field)
  {
    var merged := DedupeRuns(snapshots);
    forall s | s in snapshots ensures exists run | run in merged :: RunKey(run) == RunKey(s) {
      RunsAreMergedByKey(snapshots, RunKey(s));
      GroupFindsMembers(snapshots, RunKey(s), RunKey);
      LookupFindsMembers(merged, RunKey(s), RunKey);
    }
    forall run | run in merged ensures ValueOf(run, field) != "" <==> KeyFilled(snapshots, RunKey(run), field) {
      MergedRunIsFilled(snapshots, run, field);
    }
    forall run | run in merged ensures exists s | s in snapshots :: RunKey(s) == RunKey(run) {
      MergedRunHasSnapshots(snapshots, run);
    }
  }

  lemma MergedRunHasSnapshots(snapshots: seq<Run>, run: Run)
    requires run in DedupeRuns(snapshots)
    ensures exists s | s in snapshots :: RunKey(s) == RunKey(run)
  {
    RunsAreMergedByKey(snapshots, RunKey(run));
    LookupFindsMembers(DedupeRuns(snapshots), RunKey(run), RunKey);
    GroupFindsMembers(snapshots, RunKey(run), RunKey);
  }

  lemma MergedRunIsFilled(snapshots: seq<Run>, run: Run, field: Field)
    requires run in DedupeRuns(snapshots)
    ensures ValueOf(run, field) != "" <==> KeyFilled(snapshots, RunKey(run), field)
  {
    hide DedupeRuns, Group, Lookup, FirstText, HasAllJobs, Ascending, RunKey;
    var k := RunKey(run);
    RunsAreMergedByKey(snapshots, k);
    LookupOfMember(DedupeRuns(snapshots), run);
    var group := Group(snapshots, k, RunKey);
    GroupMembers(snapshots, k);
    if field == Event {
      FirstTextFound(group, (r: Run) => r.event);
    } else {
      FirstTextFound(group, (r: Run) => r.workflow);
    }
  }

  lemma {:induction false} LookupOfMember(runs: seq<Run>, run: Run)
    requires Ascending(runs, RunKey) && run in runs
    ensures Lookup(runs, RunKey(run), RunKey) == Some(run)
  {
    KeyLessIsOrder(RunKey(run), RunKey(run), RunKey(run));
    if run != runs[0] {
      assert runs == [runs[0]] + runs[1..];
      var i :| 0 < i < |runs| && runs[i] == run;
      assert KeyLess(RunKey(runs[0]), RunKey(runs[i]));
      LookupOfMember(runs[1..], run);
    }
  }

  lemma {:induction false} GroupMembers(runs: seq<Run>, k: Key)
    ensures forall run :: run in Group(runs, k, RunKey) <==> run in runs && RunKey(run) == k
  {
    if runs != [] {
      GroupMembers(runs[..|runs| - 1], k);
      assert runs == runs[..|runs| - 1] + [runs[|runs| - 1]];
    }
  }

  lemma {:induction false} FirstTextFound(group: seq<Run>, field: Run -> string)
    ensures FirstText(group, field) != "" <==> exists run | run in group :: field(run) != ""
  {
    if group != [] {
      FirstTextFound(group[1..], field);
      assert group == [group[0]] + group[1..];
    }
  }
}
