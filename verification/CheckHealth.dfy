/** Classifying the required local checks from a rollup that may list a check many times. */
module CheckHealth {
  import opened Text
  import opened Wrappers

  /** In ascending order, which is also the order of the sorted map the classifier iterates. */
  const REQUIRED_LOCAL_CHECKS: seq<string> := ["Local Linux CI", "Semantic PR Title"]

  datatype CheckEntry = CheckEntry(name: string, status: string, conclusion: string)

  datatype CheckState = Pending | Passed | Failed {
    function MergedWith(other: CheckState): CheckState {
      if this.Pending? || other.Pending? then Pending
      else if this.Passed? || other.Passed? then Passed
      else Failed
    }
  }

  function StateOf(check: CheckEntry): CheckState {
    var status, conclusion := Lower(check.status), Lower(check.conclusion);
    if status in {"queued", "pending", "in_progress"} || conclusion == "" then Pending
    else if conclusion == "success" then Passed
    else Failed
  }

  predicate IsLocal(name: string) {
    name in REQUIRED_LOCAL_CHECKS
  }

  datatype HealthReport = HealthReport(
    pending: seq<string>, passed: seq<string>, failed: seq<string>, missing: seq<string>, runnerPressure: bool)

  // ----- what the classification means, with no merging and no order

  predicate Reported(checks: seq<CheckEntry>, name: string) {
    exists c | c in checks :: c.name == name
  }

  predicate ReportedAs(checks: seq<CheckEntry>, name: string, state: CheckState) {
    exists c | c in checks :: c.name == name && StateOf(c) == state
  }

  /** A check is pending when any entry is, failed when it has entries and all of them failed. */
  function Verdict(checks: seq<CheckEntry>, name: string): Option<CheckState> {
    if !Reported(checks, name) then None
    else if ReportedAs(checks, name, Pending) then Some(Pending)
    else if ReportedAs(checks, name, Passed) then Some(Passed)
    else Some(Failed)
  }

  /** The first `n` required checks with the given verdict, in order. */
  function WithVerdict(checks: seq<CheckEntry>, verdict: Option<CheckState>, n: nat := |REQUIRED_LOCAL_CHECKS|): seq<string>
    requires n <= |REQUIRED_LOCAL_CHECKS|
  {
    if n == 0 then []
    else
      var name := REQUIRED_LOCAL_CHECKS[n - 1];
      WithVerdict(checks, verdict, n - 1) + if Verdict(checks, name) == verdict then [name] else []
  }

  function HealthOf(checks: seq<CheckEntry>): HealthReport {
    var pending := WithVerdict(checks, Some(Pending));
    HealthReport(
      pending, WithVerdict(checks, Some(Passed)), WithVerdict(checks, Some(Failed)), WithVerdict(checks, None),
      pending != [])
  }

  // ----- the classifier

  lemma OneMoreEntry(checks: seq<CheckEntry>, check: CheckEntry, name: string)
    ensures Verdict(checks + [check], name) ==
            if check.name != name then Verdict(checks, name)
            else if Verdict(checks, name).None? then Some(StateOf(check))
            else Some(Verdict(checks, name).value.MergedWith(StateOf(check)))
  {
    var more := checks + [check];
    assert forall c :: c in more <==> c in checks || c == check;
    forall state: CheckState
      ensures ReportedAs(more, name, state) <==>
              ReportedAs(checks, name, state) || (check.name == name && StateOf(check) == state)
    {
      if ReportedAs(checks, name, state) {
        var c :| c in checks && c.name == name && StateOf(c) == state;
        assert c in more;
      }
      if check.name == name && StateOf(check) == state {
        assert check in more;
      }
    }
    if Reported(checks, name) {
      var c :| c in checks && c.name == name;
      assert c in more;
      assert ReportedAs(checks, name, StateOf(c));
    }
    if check.name == name {
      assert check in more;
    }
  }

  method MergeStates(checks: seq<CheckEntry>) returns (states: map<string, CheckState>)
    ensures forall name :: name in states <==> IsLocal(name) && Reported(checks, name)
    ensures forall name | name in states :: Verdict(checks, name) == Some(states[name])
  {
    states := map[];
    for i := 0 to |checks|
      invariant forall name :: name in states <==> IsLocal(name) && Reported(checks[..i], name)
      invariant forall name | name in states :: Verdict(checks[..i], name) == Some(states[name])
    {
      var check := checks[i];
      assert checks[..i + 1] == checks[..i] + [check];
      forall name {
        OneMoreEntry(checks[..i], check, name);
      }
      if IsLocal(check.name) {
        if check.name in states {
          states := states[check.name := states[check.name].MergedWith(StateOf(check))];
        } else {
          states := states[check.name := StateOf(check)];
        }
      }
    }
    assert checks[..|checks|] == checks;
  }

  method ClassifyRunnerHealth(checks: seq<CheckEntry>) returns (report: HealthReport)
    ensures report == HealthOf(checks)
  {
    var states := MergeStates(checks);
    var pending, passed, failed, missing: seq<string> := [], [], [], [];
    for i := 0 to |REQUIRED_LOCAL_CHECKS|
      invariant pending == WithVerdict(checks, Some(Pending), i)
      invariant passed == WithVerdict(checks, Some(Passed), i)
      invariant failed == WithVerdict(checks, Some(Failed), i)
      invariant missing == WithVerdict(checks, None, i)
    {
      var name := REQUIRED_LOCAL_CHECKS[i];
      assert IsLocal(name);
      if name !in states {
        missing := missing + [name];
      } else {
        match states[name] {
          case Pending => pending := pending + [name];
          case Passed => passed := passed + [name];
          case Failed => failed := failed + [name];
        }
      }
    }
    report := HealthReport(pending, passed, failed, missing, pending != []);
  }

  // ----- what callers rely on

  lemma {:induction false} InWithVerdict(checks: seq<CheckEntry>, verdict: Option<CheckState>, n: nat, name: string)
    requires n <= |REQUIRED_LOCAL_CHECKS|
    ensures name in WithVerdict(checks, verdict, n) <==> name in REQUIRED_LOCAL_CHECKS[..n] && Verdict(checks, name) == verdict
  {
    if n != 0 {
      InWithVerdict(checks, verdict, n - 1, name);
      assert REQUIRED_LOCAL_CHECKS[..n] == REQUIRED_LOCAL_CHECKS[..n - 1] + [REQUIRED_LOCAL_CHECKS[n - 1]];
    }
  }

  /** Every required check is in exactly one list. It is failed exactly when it has entries and all
      of them failed, and pending exactly when some entry is pending. */
  lemma ListsPartitionRequiredChecks(checks: seq<CheckEntry>, name: string)
    ensures var r := HealthOf(checks);
            && (name in r.failed <==> IsLocal(name) && Reported(checks, name)
                                      && forall c | c in checks && c.name == name :: StateOf(c).Failed?)
            && (name in r.pending <==> IsLocal(name) && exists c | c in checks :: c.name == name && StateOf(c).Pending?)
            && (name in r.missing <==> IsLocal(name) && forall c | c in checks :: c.name != name)
            && (name in r.passed <==> IsLocal(name) && name !in r.failed && name !in r.pending && name !in r.missing)
            && (name in r.pending ==> name !in r.failed && name !in r.missing)
            && (name in r.failed ==> name !in r.missing)
            && (r.runnerPressure <==> exists c | c in checks :: IsLocal(c.name) && StateOf(c).Pending?)
  {
    var n := |REQUIRED_LOCAL_CHECKS|;
    assert REQUIRED_LOCAL_CHECKS[..n] == REQUIRED_LOCAL_CHECKS;
    InWithVerdict(checks, Some(Pending), n, name);
    InWithVerdict(checks, Some(Passed), n, name);
    InWithVerdict(checks, Some(Failed), n, name);
    InWithVerdict(checks, None, n, name);
    PressureIsAPendingEntry(checks);
    if Verdict(checks, name) == Some(Failed) {
      forall c | c in checks && c.name == name ensures StateOf(c).Failed? {
        assert ReportedAs(checks, name, StateOf(c));
      }
    }
  }

  lemma PressureIsAPendingEntry(checks: seq<CheckEntry>)
    ensures HealthOf(checks).runnerPressure <==> exists c | c in checks :: IsLocal(c.name) && StateOf(c).Pending?
  {
    var n := |REQUIRED_LOCAL_CHECKS|;
    assert REQUIRED_LOCAL_CHECKS[..n] == REQUIRED_LOCAL_CHECKS;
    if HealthOf(checks).runnerPressure {
      var name := WithVerdict(checks, Some(Pending), n)[0];
      InWithVerdict(checks, Some(Pending), n, name);
    }
    forall c | c in checks && IsLocal(c.name) && StateOf(c).Pending? ensures HealthOf(checks).runnerPressure {
      assert ReportedAs(checks, c.name, Pending);
      InWithVerdict(checks, Some(Pending), n, c.name);
    }
  }

  lemma {:induction false} SameEntriesSameVerdict(a: seq<CheckEntry>, b: seq<CheckEntry>, name: string)
    requires forall c :: c in a <==> c in b
    ensures Verdict(a, name) == Verdict(b, name)
  {
  }

  /** Reordering or repeating entries changes nothing: only which entries occur matters. */
  lemma {:induction false} OrderAndRepetitionDoNotMatter(a: seq<CheckEntry>, b: seq<CheckEntry>)
    requires forall c :: c in a <==> c in b
    ensures HealthOf(a) == HealthOf(b)
  {
    forall v: Option<CheckState> ensures WithVerdict(a, v) == WithVerdict(b, v) {
      SameVerdictsSameList(a, b, v, |REQUIRED_LOCAL_CHECKS|);
    }
  }

  lemma {:induction false} SameVerdictsSameList(a: seq<CheckEntry>, b: seq<CheckEntry>, v: Option<CheckState>, n: nat)
    requires n <= |REQUIRED_LOCAL_CHECKS|
    requires forall c :: c in a <==> c in b
    ensures WithVerdict(a, v, n) == WithVerdict(b, v, n)
  {
    if n != 0 {
      SameVerdictsSameList(a, b, v, n - 1);
      SameEntriesSameVerdict(a, b, REQUIRED_LOCAL_CHECKS[n - 1]);
    }
  }

  // ----- the verdicts told from the entries' own words

  predicate LooksPending(c: CheckEntry) {
    || EqualsIgnoringCase(c.status, "queued") || EqualsIgnoringCase(c.status, "pending")
    || EqualsIgnoringCase(c.status, "in_progress") || c.conclusion == ""
  }

  predicate LooksPassed(c: CheckEntry) {
    !LooksPending(c) && EqualsIgnoringCase(c.conclusion, "success")
  }

  lemma CheckWordsAreLower()
    ensures Lower("queued") == "queued" && Lower("pending") == "pending" && Lower("in_progress") == "in_progress"
    ensures Lower("success") == "success"
  {
  }

  lemma StatesAreRead(c: CheckEntry)
    ensures StateOf(c).Pending? <==> LooksPending(c)
    ensures StateOf(c).Passed? <==> LooksPassed(c)
  {
    CheckWordsAreLower();
  }

  /** A required check is pending when some entry looks pending, passed when none does and some entry
      succeeded, failed when it has entries and none of them does either, and missing without entries. */
  lemma VerdictsAreRead(checks: seq<CheckEntry>, name: string)
    requires name == "Local Linux CI" || name == "Semantic PR Title"
    ensures var r := HealthOf(checks);
            var pending := exists c | c in checks :: c.name == name && LooksPending(c);
            var passed := exists c | c in checks :: c.name == name && LooksPassed(c);
            && (name in r.pending <==> pending)
            && (name in r.passed <==> !pending && passed)
            && (name in r.failed <==> !pending && !passed && exists c | c in checks :: c.name == name)
            && (name in r.missing <==> forall c | c in checks :: c.name != name)
  {
    hide StateOf, LooksPending, LooksPassed;
    assert REQUIRED_LOCAL_CHECKS[0] == "Local Linux CI" && REQUIRED_LOCAL_CHECKS[1] == "Semantic PR Title";
    ListsPartitionRequiredChecks(checks, name);
    forall c: CheckEntry
      ensures (StateOf(c).Pending? <==> LooksPending(c)) && (StateOf(c).Passed? <==> LooksPassed(c))
    {
      StatesAreRead(c);
    }
  }
}
