/** The idle-gap report over workflow runs and merged pull requests. */
module IdleReport {
  import opened Wrappers
  import opened Text
  import opened Timestamps
  import opened CheckHealth
  import opened IdleGaps
  import opened GapSummary

  datatype WorkflowRun = WorkflowRun(
    status: string, conclusion: string, event: string, displayTitle: string, name: string,
    createdAt: Option<string>, updatedAt: Option<string>)

  datatype PullRequest = PullRequest(state: string, title: string, mergedAt: Option<string>, checks: seq<CheckEntry>)

  function ParseOptional(value: Option<string>): Option<int> {
    if value.None? then None else ParseUtcSeconds(value.value)
  }

  // ----- which runs are productive, and when

  predicate IsForgeLoopName(name: string) {
    name == "Codex Forge Loop" || name == ".github/workflows/codex-forge-loop.yml" || StartsWith(name, "Codex Forge Loop (")
  }

  predicate IsWatchName(name: string) {
    name == "Runner Black Factor Watch" || StartsWith(name, "Runner Black Factor Watch (")
  }

  predicate Succeeded(run: WorkflowRun) {
    EqualsIgnoringCase(run.status, "completed") && EqualsIgnoringCase(run.conclusion, "success")
  }

  predicate IsSuccessfulSustain(run: WorkflowRun) {
    run.name == "Runner Sustain" && Succeeded(run)
  }

  /** A successful sustain run whose timestamps show at least the required whole minutes. */
  predicate SustainedLongEnough(run: WorkflowRun, minMinutes: nat) {
    var created, updated := ParseOptional(run.createdAt), ParseOptional(run.updatedAt);
    && IsSuccessfulSustain(run)
    && created.Some? && updated.Some? && created.value <= updated.value
    && minMinutes <= (updated.value - created.value) / 60
  }

  function ProductiveInterval(run: WorkflowRun, minMinutes: nat): (interval: Option<Interval>)
    ensures interval.Some? ==> interval.value.start <= interval.value.end
  {
    var start := ParseOptional(run.createdAt);
    if start.None? then None
    else
      var updated := ParseOptional(run.updatedAt);
      var end := if updated.None? then start.value else Max(updated.value, start.value);
      var counts :=
        if run.name == "Runner Sustain" then
          || EqualsIgnoringCase(run.status, "queued")
          || EqualsIgnoringCase(run.status, "in_progress")
          || SustainedLongEnough(run, minMinutes)
        else
          run.name in {"CI", "Semantic PR Title"} || IsForgeLoopName(run.name);
      if counts then Some(Interval(start.value, end)) else None
  }

  /** A finished sustain run counts only if it succeeded and lasted the required minutes, so its
      interval is at least that long. */
  lemma SustainRunsMustLast(run: WorkflowRun, minMinutes: nat)
    requires run.name == "Runner Sustain"
    requires !EqualsIgnoringCase(run.status, "queued") && !EqualsIgnoringCase(run.status, "in_progress")
    ensures ProductiveInterval(run, minMinutes).Some? <==> SustainedLongEnough(run, minMinutes)
    ensures var iv := ProductiveInterval(run, minMinutes);
            iv.Some? ==> Succeeded(run) && 60 * minMinutes <= iv.value.end - iv.value.start
  {
  }

  function ProductiveIntervals(runs: seq<WorkflowRun>, minMinutes: nat): (ivs: seq<Interval>)
    ensures WellFormed(ivs)
  {
    if runs == [] then []
    else
      var iv := ProductiveInterval(runs[0], minMinutes);
      (if iv.Some? then [iv.value] else []) + ProductiveIntervals(runs[1..], minMinutes)
  }

  // ----- which gaps are recovered

  predicate IsRecoveryTitle(title: string) {
    var lower := Lower(title);
    && (Contains(lower, "rehydrat") || Contains(lower, "idle") || Contains(lower, "sustain"))
    && (Contains(lower, "runner") || Contains(lower, "codex") || Contains(lower, "completion"))
  }

  function RecoveryMergedAt(pr: PullRequest): Option<int> {
    if EqualsIgnoringCase(pr.state, "MERGED") && IsRecoveryTitle(pr.title) && HealthOf(pr.checks).failed == []
    then ParseOptional(pr.mergedAt)
    else None
  }

  predicate IsWatchRehydration(run: WorkflowRun) {
    && IsWatchName(run.name) && Succeeded(run)
    && (|| EqualsIgnoringCase(run.event, "workflow_run")
        || (&& EqualsIgnoringCase(run.event, "workflow_dispatch")
            && (Contains(run.displayTitle, "sustain_completion") || Contains(run.displayTitle, "codex_completion"))))
  }

  predicate RehydratedAfter(mergedAt: int, runs: seq<WorkflowRun>) {
    exists run | run in runs ::
      var created := ParseOptional(run.createdAt);
      && created.Some? && mergedAt <= created.value && created.value - mergedAt <= 60 * 60
      && (IsWatchRehydration(run) || IsSuccessfulSustain(run))
  }

  predicate HasRecovery(gapEnd: int, runs: seq<WorkflowRun>, prs: seq<PullRequest>) {
    exists pr | pr in prs ::
      var mergedAt := RecoveryMergedAt(pr);
      && mergedAt.Some? && gapEnd <= mergedAt.value && mergedAt.value - gapEnd <= 90 * 60
      && RehydratedAfter(mergedAt.value, runs)
  }

  // ----- the report

  function RecoveredBy(runs: seq<WorkflowRun>, prs: seq<PullRequest>): int -> bool {
    gapEnd => HasRecovery(gapEnd, runs, prs)
  }

  /** The gaps of a window, from the runs alone. */
  function RunGaps(runs: seq<WorkflowRun>, windowStart: int, windowEnd: int, minMinutes: nat): seq<Interval> {
    Gaps(ProductiveIntervals(runs, minMinutes), windowStart, windowEnd)
  }

  function Report(runs: seq<WorkflowRun>, prs: seq<PullRequest>, windowStart: int, windowEnd: int, minMinutes: nat): Summary {
    SummaryOf(RunGaps(runs, windowStart, windowEnd, minMinutes), RecoveredBy(runs, prs))
  }

  method LocalRunnerIdleGapRecovery(
      runs: seq<WorkflowRun>, prs: seq<PullRequest>, windowStart: int, windowEnd: int, minMinutes: nat)
    returns (summary: Summary)
    ensures summary == Report(runs, prs, windowStart, windowEnd, minMinutes)
  {
    if windowEnd <= windowStart {
      summary := Summary(0, 0, 0, 0);
    } else {
      var intervals := Sort(Clip(ProductiveIntervals(runs, minMinutes), windowStart, windowEnd));
      summary := Sweep(intervals, windowStart, windowEnd, RecoveredBy(runs, prs));
    }
  }

  // ----- what the report means

  /** `minutes` is the length of the longest of the stretches, rounded up, or 0 when there are none. */
  ghost predicate IsLongest(minutes: nat, stretches: iset<Interval>) {
    && (forall g | g in stretches :: Minutes(g) <= minutes)
    && (minutes == 0 || exists g | g in stretches :: Minutes(g) == minutes)
  }

  ghost function IdleStretches(runs: seq<WorkflowRun>, windowStart: int, windowEnd: int, minMinutes: nat): iset<Interval> {
    iset g: Interval | Idle(ProductiveIntervals(runs, minMinutes), windowStart, windowEnd, g.start, g.end)
  }

  ghost function MaximalStretches(
      runs: seq<WorkflowRun>, prs: seq<PullRequest>, windowStart: int, windowEnd: int, minMinutes: nat, recovered: bool): iset<Interval>
  {
    iset g: Interval | && IsGap(ProductiveIntervals(runs, minMinutes), windowStart, windowEnd, g.start, g.end)
                       && RecoveredBy(runs, prs)(g.end) == recovered
  }

  /** The observed maximum is the longest idle stretch of the window, found by brute force over all
      stretches. */
  lemma ObservedIsBruteForce(runs: seq<WorkflowRun>, prs: seq<PullRequest>, windowStart: int, windowEnd: int, minMinutes: nat)
    ensures IsLongest(Report(runs, prs, windowStart, windowEnd, minMinutes).maxObserved,
                      IdleStretches(runs, windowStart, windowEnd, minMinutes))
  {
    var raw := ProductiveIntervals(runs, minMinutes);
    var gaps := Gaps(raw, windowStart, windowEnd);
    GapsAreExact(raw, windowStart, windowEnd);
    LongestIsAMaximum(gaps);
    forall g | g in IdleStretches(runs, windowStart, windowEnd, minMinutes) ensures Minutes(g) <= LongestMinutes(gaps) {
      var around := IdleLiesInAGap(raw, windowStart, windowEnd, g.start, g.end);
    }
    if LongestMinutes(gaps) != 0 {
      var g :| g in gaps && Minutes(g) == LongestMinutes(gaps);
      assert g in IdleStretches(runs, windowStart, windowEnd, minMinutes);
    }
  }

  /** The other two maxima are the longest maximal idle stretch without and with a recovery, the
      larger of them is the observed maximum, and each recovered stretch is counted once. */
  lemma RecoveryTotalsAreBruteForce(runs: seq<WorkflowRun>, prs: seq<PullRequest>, windowStart: int, windowEnd: int, minMinutes: nat)
    ensures var r := Report(runs, prs, windowStart, windowEnd, minMinutes);
            && IsLongest(r.maxUnrecovered, MaximalStretches(runs, prs, windowStart, windowEnd, minMinutes, false))
            && IsLongest(r.maxRecovered, MaximalStretches(runs, prs, windowStart, windowEnd, minMinutes, true))
            && r.maxObserved == Max(r.maxUnrecovered, r.maxRecovered)
            && r.recoveredGaps == |RecoveredSet(RunGaps(runs, windowStart, windowEnd, minMinutes), RecoveredBy(runs, prs))|
  {
    var gaps, recovered := RunGaps(runs, windowStart, windowEnd, minMinutes), RecoveredBy(runs, prs);
    GapsAreExact(ProductiveIntervals(runs, minMinutes), windowStart, windowEnd);
    forall wanted: bool
      ensures IsLongest(LongestMinutes(Select(gaps, recovered, wanted)),
                        MaximalStretches(runs, prs, windowStart, windowEnd, minMinutes, wanted))
    {
      var stretches := MaximalStretches(runs, prs, windowStart, windowEnd, minMinutes, wanted);
      InSelect(gaps, recovered, wanted);
      LongestIsAMaximum(Select(gaps, recovered, wanted));
      assert forall g :: g in stretches <==> g in Select(gaps, recovered, wanted);
    }
    SplitMaximum(gaps, recovered);
    SelectCounts(gaps, recovered);
  }

  lemma {:induction false} InProductiveIntervals(runs: seq<WorkflowRun>, minMinutes: nat, iv: Interval)
    ensures iv in ProductiveIntervals(runs, minMinutes)
            <==> exists run | run in runs :: ProductiveInterval(run, minMinutes) == Some(iv)
  {
    hide ProductiveInterval;
    if runs != [] {
      InProductiveIntervals(runs[1..], minMinutes, iv);
      assert runs == [runs[0]] + runs[1..];
    }
  }

  lemma MoreRunsMoreIntervals(runs: seq<WorkflowRun>, moreRuns: seq<WorkflowRun>, minMinutes: nat, iv: Interval)
    requires forall run :: run in runs ==> run in moreRuns
    requires iv in ProductiveIntervals(runs, minMinutes)
    ensures iv in ProductiveIntervals(moreRuns, minMinutes)
  {
    InProductiveIntervals(runs, minMinutes, iv);
    InProductiveIntervals(moreRuns, minMinutes, iv);
    var run :| run in runs && ProductiveInterval(run, minMinutes) == Some(iv);
    assert run in moreRuns;
  }

  lemma MoreHistoryMoreRecovery(t: int, runs: seq<WorkflowRun>, moreRuns: seq<WorkflowRun>, prs: seq<PullRequest>, morePrs: seq<PullRequest>)
    requires forall run :: run in runs ==> run in moreRuns
    requires forall pr :: pr in prs ==> pr in morePrs
    requires HasRecovery(t, runs, prs)
    ensures HasRecovery(t, moreRuns, morePrs)
  {
    var pr :| pr in prs && (var mergedAt := RecoveryMergedAt(pr);
      && mergedAt.Some? && t <= mergedAt.value && mergedAt.value - t <= 90 * 60
      && RehydratedAfter(mergedAt.value, runs));
    assert RehydratedAfter(RecoveryMergedAt(pr).value, moreRuns);
    assert pr in morePrs;
  }

  /** The report depends only on which runs and pull requests occur, so it is the same for every
      permutation of the inputs and for repeated entries. */
  lemma SameEntriesSameReport(
      runs: seq<WorkflowRun>, otherRuns: seq<WorkflowRun>, prs: seq<PullRequest>, otherPrs: seq<PullRequest>,
      windowStart: int, windowEnd: int, minMinutes: nat)
    requires forall run :: run in runs <==> run in otherRuns
    requires forall pr :: pr in prs <==> pr in otherPrs
    ensures Report(runs, prs, windowStart, windowEnd, minMinutes) == Report(otherRuns, otherPrs, windowStart, windowEnd, minMinutes)
  {
    var raw, other := ProductiveIntervals(runs, minMinutes), ProductiveIntervals(otherRuns, minMinutes);
    forall iv: Interval ensures iv in raw <==> iv in other {
      if iv in raw {
        MoreRunsMoreIntervals(runs, otherRuns, minMinutes, iv);
      }
      if iv in other {
        MoreRunsMoreIntervals(otherRuns, runs, minMinutes, iv);
      }
    }
    SameIntervalsSameGaps(raw, other, windowStart, windowEnd);
    forall t: int ensures RecoveredBy(runs, prs)(t) == RecoveredBy(otherRuns, otherPrs)(t) {
      if HasRecovery(t, runs, prs) {
        MoreHistoryMoreRecovery(t, runs, otherRuns, prs, otherPrs);
      }
      if HasRecovery(t, otherRuns, otherPrs) {
        MoreHistoryMoreRecovery(t, otherRuns, runs, otherPrs, prs);
      }
    }
    SelectAlike(Gaps(raw, windowStart, windowEnd), RecoveredBy(runs, prs), RecoveredBy(otherRuns, otherPrs), true);
    SelectAlike(Gaps(raw, windowStart, windowEnd), RecoveredBy(runs, prs), RecoveredBy(otherRuns, otherPrs), false);
  }

  lemma {:induction false} SelectAlike(gaps: seq<Interval>, recovered: int -> bool, other: int -> bool, wanted: bool)
    requires forall t :: recovered(t) == other(t)
    ensures Select(gaps, recovered, wanted) == Select(gaps, other, wanted)
  {
    if gaps != [] {
      SelectAlike(gaps[..|gaps| - 1], recovered, other, wanted);
    }
  }

  /** With the window fixed, more runs never lengthen the longest observed gap. */
  lemma MoreRunsNeverMoreIdle(
      runs: seq<WorkflowRun>, moreRuns: seq<WorkflowRun>, prs: seq<PullRequest>, windowStart: int, windowEnd: int, minMinutes: nat)
    requires forall run :: run in runs ==> run in moreRuns
    ensures Report(moreRuns, prs, windowStart, windowEnd, minMinutes).maxObserved
            <= Report(runs, prs, windowStart, windowEnd, minMinutes).maxObserved
  {
    ObservedIsBruteForce(runs, prs, windowStart, windowEnd, minMinutes);
    ObservedIsBruteForce(moreRuns, prs, windowStart, windowEnd, minMinutes);
    forall g | g in IdleStretches(moreRuns, windowStart, windowEnd, minMinutes)
      ensures g in IdleStretches(runs, windowStart, windowEnd, minMinutes)
    {
      forall iv | iv in ProductiveIntervals(runs, minMinutes) ensures iv in ProductiveIntervals(moreRuns, minMinutes) {
        MoreRunsMoreIntervals(runs, moreRuns, minMinutes, iv);
      }
    }
  }

  /** More merged-pull-request history never lengthens the longest unrecovered gap, and leaves the
      observed maximum alone. */
  lemma MorePullRequestsNeverMoreUnrecovered(
      runs: seq<WorkflowRun>, prs: seq<PullRequest>, morePrs: seq<PullRequest>, windowStart: int, windowEnd: int, minMinutes: nat)
    requires forall pr :: pr in prs ==> pr in morePrs
    ensures var before, after := Report(runs, prs, windowStart, windowEnd, minMinutes), Report(runs, morePrs, windowStart, windowEnd, minMinutes);
            after.maxUnrecovered <= before.maxUnrecovered && after.maxObserved == before.maxObserved
  {
    RecoveryTotalsAreBruteForce(runs, prs, windowStart, windowEnd, minMinutes);
    RecoveryTotalsAreBruteForce(runs, morePrs, windowStart, windowEnd, minMinutes);
    forall g | g in MaximalStretches(runs, morePrs, windowStart, windowEnd, minMinutes, false)
      ensures g in MaximalStretches(runs, prs, windowStart, windowEnd, minMinutes, false)
    {
      if HasRecovery(g.end, runs, prs) {
        MoreHistoryMoreRecovery(g.end, runs, runs, prs, morePrs);
      }
    }
  }
}
