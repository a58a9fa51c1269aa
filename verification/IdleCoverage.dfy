/** What the idle-gap report says in terms of the runs' own names, states and timestamps. */
module IdleCoverage {
  import opened Wrappers
  import opened Text
  import opened Timestamps
  import opened CheckHealth
  import opened IdleGaps
  import opened GapSummary
  import opened IdleReport

  // ----- when a run is under way

  predicate ReadsAs(value: Option<string>, seconds: int) {
    value.Some? && ParseUtcSeconds(value.value) == Some(seconds)
  }

  /** The runs that count: sustain runs that are waiting, going on or finished well after the required
      minutes, and every run of the other local workflows. */
  predicate Counts(run: WorkflowRun, minMinutes: nat) {
    if run.name == "Runner Sustain" then
      || EqualsIgnoringCase(run.status, "queued")
      || EqualsIgnoringCase(run.status, "in_progress")
      || (&& EqualsIgnoringCase(run.status, "completed") && EqualsIgnoringCase(run.conclusion, "success")
          && Lasted(run, 60 * minMinutes))
    else
      || run.name == "CI" || run.name == "Semantic PR Title"
      || run.name == "Codex Forge Loop" || run.name == ".github/workflows/codex-forge-loop.yml"
      || "Codex Forge Loop (" <= run.name
  }

  predicate Lasted(run: WorkflowRun, seconds: nat) {
    var created, updated := ParseOptional(run.createdAt), ParseOptional(run.updatedAt);
    created.Some? && updated.Some? && created.value + seconds <= updated.value
  }

  /** The run was created at `created` and last updated at `end`; a missing, unreadable or earlier
      update leaves it without length. */
  ghost predicate Spans(run: WorkflowRun, created: int, end: int) {
    && ReadsAs(run.createdAt, created)
    && created <= end
    && (created < end ==> ReadsAs(run.updatedAt, end))
    && (created == end ==> forall later | created < later :: !ReadsAs(run.updatedAt, later))
  }

  ghost predicate UnderWay(run: WorkflowRun, t: int) {
    exists created, updated :: ReadsAs(run.createdAt, created) && ReadsAs(run.updatedAt, updated) && created <= t < updated
  }

  lemma SpansExactly(run: WorkflowRun, start: int, end: int)
    ensures var updated := ParseOptional(run.updatedAt);
            Spans(run, start, end) <==>
              ParseOptional(run.createdAt) == Some(start) && end == if updated.None? then start else Max(updated.value, start)
  {
    hide ParseUtcSeconds;
    var updated := ParseOptional(run.updatedAt);
    assert forall later :: ReadsAs(run.updatedAt, later) <==> updated == Some(later);
  }

  lemma LastedExactly(run: WorkflowRun, minMinutes: nat)
    ensures SustainedLongEnough(run, minMinutes) <==> IsSuccessfulSustain(run) && Lasted(run, 60 * minMinutes)
  {
    hide ParseUtcSeconds, EqualsIgnoringCase;
  }

  lemma IntervalSpans(run: WorkflowRun, minMinutes: nat, iv: Interval)
    ensures ProductiveInterval(run, minMinutes) == Some(iv) <==> Counts(run, minMinutes) && Spans(run, iv.start, iv.end)
  {
    hide ParseUtcSeconds, EqualsIgnoringCase, Spans, Lasted, SustainedLongEnough;
    SpansExactly(run, iv.start, iv.end);
    LastedExactly(run, minMinutes);
  }

  lemma IntervalsAreRuns(runs: seq<WorkflowRun>, minMinutes: nat, iv: Interval)
    ensures iv in ProductiveIntervals(runs, minMinutes)
            <==> exists run | run in runs :: Counts(run, minMinutes) && Spans(run, iv.start, iv.end)
  {
    InProductiveIntervals(runs, minMinutes, iv);
    forall run: WorkflowRun
      ensures ProductiveInterval(run, minMinutes) == Some(iv) <==> Counts(run, minMinutes) && Spans(run, iv.start, iv.end)
    {
      IntervalSpans(run, minMinutes, iv);
    }
  }

  /** Some counted run was under way at second `t`. */
  ghost predicate Busy(runs: seq<WorkflowRun>, minMinutes: nat, t: int) {
    exists run | run in runs :: Counts(run, minMinutes) && UnderWay(run, t)
  }

  /** The intervals cover exactly the seconds at which some counted run was under way. */
  lemma CoveredIsBusy(runs: seq<WorkflowRun>, minMinutes: nat, t: int)
    ensures Covers(ProductiveIntervals(runs, minMinutes), t) <==> Busy(runs, minMinutes, t)
  {
    var ivs := ProductiveIntervals(runs, minMinutes);
    if Covers(ivs, t) {
      var iv :| iv in ivs && iv.start <= t < iv.end;
      IntervalsAreRuns(runs, minMinutes, iv);
      var run :| run in runs && Counts(run, minMinutes) && Spans(run, iv.start, iv.end);
      assert UnderWay(run, t);
    }
    if Busy(runs, minMinutes, t) {
      var run :| run in runs && Counts(run, minMinutes) && UnderWay(run, t);
      var created, updated :| ReadsAs(run.createdAt, created) && ReadsAs(run.updatedAt, updated) && created <= t < updated;
      assert Spans(run, created, updated);
      IntervalsAreRuns(runs, minMinutes, Interval(created, updated));
    }
  }

  /** A second of the window lies in a recorded gap if and only if no counted run was under way at it. */
  lemma GapsAreTheIdleSeconds(runs: seq<WorkflowRun>, windowStart: int, windowEnd: int, minMinutes: nat, t: int)
    requires windowStart <= t < windowEnd
    ensures (exists g | g in RunGaps(runs, windowStart, windowEnd, minMinutes) :: g.start <= t < g.end)
            <==> !Busy(runs, minMinutes, t)
  {
    var ivs, gaps := ProductiveIntervals(runs, minMinutes), RunGaps(runs, windowStart, windowEnd, minMinutes);
    CoveredIsBusy(runs, minMinutes, t);
    GapsAreExact(ivs, windowStart, windowEnd);
    if g :| g in gaps && g.start <= t < g.end {
      assert IsGap(ivs, windowStart, windowEnd, g.start, g.end);
    }
    if !Covers(ivs, t) {
      assert Idle(ivs, windowStart, windowEnd, t, t + 1);
      var g := IdleLiesInAGap(ivs, windowStart, windowEnd, t, t + 1);
    }
  }

  /** Nor was any counted run created strictly inside a gap, not even one without length. */
  lemma GapsHoldNoStart(runs: seq<WorkflowRun>, windowStart: int, windowEnd: int, minMinutes: nat, g: Interval, run: WorkflowRun)
    requires g in RunGaps(runs, windowStart, windowEnd, minMinutes) && run in runs && Counts(run, minMinutes)
    ensures forall created | ReadsAs(run.createdAt, created) :: !(g.start < created < g.end)
  {
    var ivs := ProductiveIntervals(runs, minMinutes);
    GapsAreExact(ivs, windowStart, windowEnd);
    forall created | ReadsAs(run.createdAt, created) ensures !(g.start < created < g.end) {
      var end := EndOf(run, created);
      IntervalsAreRuns(runs, minMinutes, Interval(created, end));
      assert Interval(created, end) in ivs;
    }
  }

  lemma EndOf(run: WorkflowRun, created: int) returns (end: int)
    requires ReadsAs(run.createdAt, created)
    ensures Spans(run, created, end)
  {
    end := if exists later | created < later :: ReadsAs(run.updatedAt, later) then
             var later :| created < later && ReadsAs(run.updatedAt, later); later
           else created;
  }

  // ----- when a gap is recovered

  /** A merged pull request about idle or sustained runners, none of whose required checks has entries
      that all failed. */
  ghost predicate ClaimsRecovery(pr: PullRequest) {
    && EqualsIgnoringCase(pr.state, "merged")
    && (Mentions(pr.title, "rehydrat") || Mentions(pr.title, "idle") || Mentions(pr.title, "sustain"))
    && (Mentions(pr.title, "runner") || Mentions(pr.title, "codex") || Mentions(pr.title, "completion"))
    && forall name :: !AllFailed(pr.checks, name)
  }

  predicate Mentions(title: string, word: string) {
    exists i | 0 <= i <= |title| :: MentionsAt(title, word, i)
  }

  predicate MentionsAt(title: string, word: string, i: nat) {
    i + |word| <= |title| && EqualsIgnoringCase(title[i..i + |word|], word)
  }

  predicate AllFailed(checks: seq<CheckEntry>, name: string) {
    && (name == "Local Linux CI" || name == "Semantic PR Title")
    && (exists c | c in checks :: c.name == name)
    && forall c | c in checks && c.name == name :: Fails(c)
  }

  predicate Fails(c: CheckEntry) {
    && !EqualsIgnoringCase(c.status, "queued") && !EqualsIgnoringCase(c.status, "pending")
    && !EqualsIgnoringCase(c.status, "in_progress")
    && c.conclusion != "" && !EqualsIgnoringCase(c.conclusion, "success")
  }

  /** A successful run that brings the runner back. */
  predicate Rehydrates(run: WorkflowRun) {
    && EqualsIgnoringCase(run.status, "completed") && EqualsIgnoringCase(run.conclusion, "success")
    && (|| run.name == "Runner Sustain"
        || (&& (run.name == "Runner Black Factor Watch" || "Runner Black Factor Watch (" <= run.name)
            && (|| EqualsIgnoringCase(run.event, "workflow_run")
                || (&& EqualsIgnoringCase(run.event, "workflow_dispatch")
                    && (Contains(run.displayTitle, "sustain_completion") || Contains(run.displayTitle, "codex_completion"))))))
  }

  /** The gap's end is followed within ninety minutes by such a merge, and the merge within an hour by
      such a run. */
  ghost predicate Recovered(gapEnd: int, runs: seq<WorkflowRun>, prs: seq<PullRequest>) {
    exists pr, run, merged: int, created: int ::
      && pr in prs && run in runs && ClaimsRecovery(pr) && Rehydrates(run)
      && ReadsAs(pr.mergedAt, merged) && ReadsAs(run.createdAt, created)
      && gapEnd <= merged <= gapEnd + 5400 && merged <= created <= merged + 3600
  }

  lemma MentionsIsContains(title: string, word: string)
    requires Lower(word) == word
    ensures Contains(Lower(title), word) <==> Mentions(title, word)
  {
    forall i: nat | i <= |title| ensures OccursAt(Lower(title), word, i) <==> MentionsAt(title, word, i) {
      if i + |word| <= |title| {
        assert Lower(title)[i..i + |word|] == Lower(title[i..i + |word|]);
      }
    }
  }

  lemma WordsAreLower()
    ensures Lower("rehydrat") == "rehydrat" && Lower("idle") == "idle" && Lower("sustain") == "sustain"
    ensures Lower("runner") == "runner" && Lower("codex") == "codex" && Lower("completion") == "completion"
  {
  }

  lemma TitleMentions(title: string)
    ensures IsRecoveryTitle(title) <==>
              && (Mentions(title, "rehydrat") || Mentions(title, "idle") || Mentions(title, "sustain"))
              && (Mentions(title, "runner") || Mentions(title, "codex") || Mentions(title, "completion"))
  {
    hide Mentions, Contains, Lower;
    WordsAreLower();
    MentionsIsContains(title, "rehydrat");
    MentionsIsContains(title, "idle");
    MentionsIsContains(title, "sustain");
    MentionsIsContains(title, "runner");
    MentionsIsContains(title, "codex");
    MentionsIsContains(title, "completion");
  }

  lemma FailsIsFailed(c: CheckEntry)
    ensures StateOf(c).Failed? <==> Fails(c)
  {
    StatusWordsAreLower();
  }

  lemma StatusWordsAreLower()
    ensures Lower("queued") == "queued" && Lower("pending") == "pending" && Lower("in_progress") == "in_progress"
    ensures Lower("success") == "success" && Lower("merged") == Lower("MERGED")
  {
  }

  lemma NoneAllFailed(checks: seq<CheckEntry>)
    ensures HealthOf(checks).failed == [] <==> forall name :: !AllFailed(checks, name)
  {
    forall name: string ensures name in HealthOf(checks).failed <==> AllFailed(checks, name) {
      ListsPartitionRequiredChecks(checks, name);
      forall c: CheckEntry ensures StateOf(c).Failed? <==> Fails(c) {
        FailsIsFailed(c);
      }
    }
    if HealthOf(checks).failed != [] {
      assert AllFailed(checks, HealthOf(checks).failed[0]);
    }
  }

  lemma ClaimIsMergedAt(pr: PullRequest, merged: int)
    ensures RecoveryMergedAt(pr) == Some(merged) <==> ClaimsRecovery(pr) && ReadsAs(pr.mergedAt, merged)
  {
    hide IsRecoveryTitle, HealthOf, Mentions, AllFailed, Lower, ParseUtcSeconds;
    StatusWordsAreLower();
    TitleMentions(pr.title);
    NoneAllFailed(pr.checks);
  }

  lemma RehydratesExactly(run: WorkflowRun)
    ensures Rehydrates(run) <==> IsWatchRehydration(run) || IsSuccessfulSustain(run)
  {
    hide Lower, Contains;
  }

  /** The report's recovery test, in the runs' and pull requests' own terms. */
  lemma RecoveryIsExact(gapEnd: int, runs: seq<WorkflowRun>, prs: seq<PullRequest>)
    ensures RecoveredBy(runs, prs)(gapEnd) <==> Recovered(gapEnd, runs, prs)
  {
    hide ParseUtcSeconds, ClaimsRecovery, Rehydrates, RecoveryMergedAt, IsWatchRehydration, IsSuccessfulSustain;
    forall pr: PullRequest, merged: int
      ensures RecoveryMergedAt(pr) == Some(merged) <==> ClaimsRecovery(pr) && ReadsAs(pr.mergedAt, merged)
    {
      ClaimIsMergedAt(pr, merged);
    }
    forall run: WorkflowRun ensures Rehydrates(run) <==> IsWatchRehydration(run) || IsSuccessfulSustain(run) {
      RehydratesExactly(run);
    }
    if HasRecovery(gapEnd, runs, prs) {
      FindsRecovery(gapEnd, runs, prs);
    }
    if Recovered(gapEnd, runs, prs) {
      var pr, run, merged: int, created: int :|
        && pr in prs && run in runs && ClaimsRecovery(pr) && Rehydrates(run)
        && ReadsAs(pr.mergedAt, merged) && ReadsAs(run.createdAt, created)
        && gapEnd <= merged <= gapEnd + 5400 && merged <= created <= merged + 3600;
      assert RecoveryMergedAt(pr) == Some(merged);
      assert ParseOptional(run.createdAt) == Some(created);
      assert RehydratedAfter(merged, runs);
    }
  }

  lemma FindsRecovery(gapEnd: int, runs: seq<WorkflowRun>, prs: seq<PullRequest>)
    requires HasRecovery(gapEnd, runs, prs)
    ensures Recovered(gapEnd, runs, prs)
  {
    hide ParseUtcSeconds, ClaimsRecovery, Rehydrates, RecoveryMergedAt, IsWatchRehydration, IsSuccessfulSustain;
    var pr :| pr in prs && (var mergedAt := RecoveryMergedAt(pr);
      && mergedAt.Some? && gapEnd <= mergedAt.value && mergedAt.value - gapEnd <= 90 * 60
      && RehydratedAfter(mergedAt.value, runs));
    var merged := RecoveryMergedAt(pr).value;
    var run :| run in runs && (var created := ParseOptional(run.createdAt);
      && created.Some? && merged <= created.value && created.value - merged <= 60 * 60
      && (IsWatchRehydration(run) || IsSuccessfulSustain(run)));
    var created := ParseOptional(run.createdAt).value;
    ClaimIsMergedAt(pr, merged);
    RehydratesExactly(run);
    assert ReadsAs(run.createdAt, created);
  }

  // ----- minutes

  /** Minutes are seconds rounded up. */
  lemma MinutesRoundUp(g: Interval)
    requires g.start < g.end
    ensures 60 * (Minutes(g) - 1) < g.end - g.start <= 60 * Minutes(g)
  {
  }
}
