/** At most one job in flight per target, the older one winning.

    Sequence numbers are unsigned 64-bit and stop at their maximum. The guarantees hold for every lease
    numbered below it, however long the run; a lease with the maximum number itself can come back. */
module SingleFlight {
  import opened Numbers
  import opened Text

  function TargetKey(raw: string): string {
    Lower(Trim(raw))
  }

  datatype Flight = Flight(jobId: string, sequence: nat)

  datatype Lease = Lease(target: string, jobId: string, sequence: nat)

  datatype Denial = Denial(target: string, holderJobId: string, holderSequence: nat, incomingJobId: string, incomingSequence: nat) {
    function Holder(): Lease {
      Lease(target, holderJobId, holderSequence)
    }
  }

  datatype Outcome = Acquired(lease: Lease) | Denied(denial: Denial)

  datatype Ledger = Ledger(active: map<string, Flight>, nextSequence: nat)

  const EMPTY := Ledger(map[], 0)

  function Next(sequence: nat): nat {
    SatAdd(sequence, 1)
  }

  function TryAcquire(l: Ledger, jobId: string, repo: string): (Ledger, Outcome) {
    var target := TargetKey(repo);
    if target in l.active then
      var holder := l.active[target];
      (l.(nextSequence := Next(l.nextSequence)),
       Denied(Denial(target, holder.jobId, holder.sequence, jobId, l.nextSequence)))
    else
      (Ledger(l.active[target := Flight(jobId, l.nextSequence)], Next(l.nextSequence)),
       Acquired(Lease(target, jobId, l.nextSequence)))
  }

  predicate Holds(l: Ledger, lease: Lease) {
    lease.target in l.active && l.active[lease.target] == Flight(lease.jobId, lease.sequence)
  }

  function Release(l: Ledger, lease: Lease): (Ledger, bool) {
    if Holds(l, lease) then (l.(active := l.active - {lease.target}), true) else (l, false)
  }

  // ----- runs, in any interleaving

  datatype Event = Try(jobId: string, repo: string) | Free(lease: Lease)

  function Apply(l: Ledger, e: Event): Ledger {
    match e
    case Try(jobId, repo) => TryAcquire(l, jobId, repo).0
    case Free(lease) => Release(l, lease).0
  }

  function Run(events: seq<Event>): Ledger {
    if events == [] then EMPTY else Apply(Run(events[..|events| - 1]), events[|events| - 1])
  }

  /** The leases handed out and not yet given back, kept by no map and no target. */
  function Outstanding(events: seq<Event>): set<Lease> {
    if events == [] then {}
    else
      var front, e := events[..|events| - 1], events[|events| - 1];
      match e
      case Try(jobId, repo) =>
        var outcome := TryAcquire(Run(front), jobId, repo).1;
        if outcome.Acquired? then Outstanding(front) + {outcome.lease} else Outstanding(front)
      case Free(lease) =>
        if Release(Run(front), lease).1 then Outstanding(front) - {lease} else Outstanding(front)
  }

  /** Successful acquires minus successful releases. */
  function Balance(events: seq<Event>): int {
    if events == [] then 0
    else
      var front, e := events[..|events| - 1], events[|events| - 1];
      match e
      case Try(jobId, repo) => Balance(front) + if TryAcquire(Run(front), jobId, repo).1.Acquired? then 1 else 0
      case Free(lease) => Balance(front) - if Release(Run(front), lease).1 then 1 else 0
  }

  // ----- the ledger

  class SingleFlightLedger {
    var active: map<string, Flight>
    var nextSequence: nat
    ghost var history: seq<Event>

    ghost predicate Valid()
      reads this
    {
      Ledger(active, nextSequence) == Run(history)
    }

    constructor ()
      ensures Valid() && history == []
    {
      active, nextSequence, history := map[], 0, [];
    }

    /** Acquires exactly when no lease on the target is outstanding, and then exactly the new lease
        becomes outstanding; otherwise names the outstanding lease and hands out nothing. */
    method Acquire(jobId: string, repo: string) returns (outcome: Outcome)
      requires Valid()
      modifies this
      ensures Valid() && history == old(history) + [Try(jobId, repo)]
      ensures outcome == TryAcquire(Run(old(history)), jobId, repo).1
      ensures outcome.Acquired? <==> forall held | held in Outstanding(old(history)) :: held.target != TargetKey(repo)
      ensures outcome.Acquired? ==> Outstanding(history) == Outstanding(old(history)) + {outcome.lease}
      ensures outcome.Acquired? ==> outcome.lease.target == TargetKey(repo) && outcome.lease.jobId == jobId
      ensures outcome.Denied? ==> Outstanding(history) == Outstanding(old(history))
      ensures outcome.Denied? ==> outcome.denial.Holder() in Outstanding(history) && outcome.denial.target == TargetKey(repo)
    {
      AcquireIsFair(history, jobId, repo);
      history := history + [Try(jobId, repo)];
      var target := TargetKey(repo);
      var incoming := nextSequence;
      nextSequence := Next(nextSequence);
      if target in active {
        var holder := active[target];
        return Denied(Denial(target, holder.jobId, holder.sequence, jobId, incoming));
      }
      active := active[target := Flight(jobId, incoming)];
      return Acquired(Lease(target, jobId, incoming));
    }

    /** Frees the target exactly when the lease is outstanding, and then that lease alone is no longer. */
    method ReleaseLease(lease: Lease) returns (released: bool)
      requires Valid()
      modifies this
      ensures Valid() && history == old(history) + [Free(lease)]
      ensures released <==> lease in Outstanding(old(history))
      ensures Outstanding(history) == Outstanding(old(history)) - {lease}
    {
      ReleaseIsExact(history, lease);
      history := history + [Free(lease)];
      if lease.target !in active {
        return false;
      }
      var flight := active[lease.target];
      if flight.jobId == lease.jobId && flight.sequence == lease.sequence {
        active := active - {lease.target};
        return true;
      }
      return false;
    }
  }

  // ----- what holds after every run

  /** Every number the ledger holds was issued below `nextSequence`, and no two are equal, except that
      the maximum number may be issued again. */
  predicate Sound(l: Ledger) {
    && l.nextSequence <= U64_MAX
    && (forall t | t in l.active :: l.active[t].sequence < l.nextSequence || l.active[t].sequence == l.nextSequence == U64_MAX)
    && (forall t, u | t in l.active && u in l.active && t != u ::
          l.active[t].sequence != l.active[u].sequence || l.active[t].sequence == U64_MAX)
  }

  lemma {:induction false} RunIsSound(events: seq<Event>)
    ensures Sound(Run(events))
  {
    if events != [] {
      RunIsSound(events[..|events| - 1]);
    }
  }

  /** The ledger holds exactly the outstanding leases. */
  lemma {:induction false} LedgerIsOutstanding(events: seq<Event>, lease: Lease)
    ensures lease in Outstanding(events) <==> Holds(Run(events), lease)
  {
    if events != [] {
      LedgerIsOutstanding(events[..|events| - 1], lease);
    }
  }

  lemma ExtendedRun(events: seq<Event>, e: Event)
    ensures Run(events + [e]) == Apply(Run(events), e)
    ensures (events + [e])[..|events|] == events && (events + [e])[|events|] == e
  {
    assert (events + [e])[..|events|] == events;
  }

  lemma AcquireIsFair(events: seq<Event>, jobId: string, repo: string)
    ensures var (l, outcome) := TryAcquire(Run(events), jobId, repo);
            var later := events + [Try(jobId, repo)];
            && Run(later) == l
            && (outcome.Acquired? <==> forall held | held in Outstanding(events) :: held.target != TargetKey(repo))
            && Outstanding(later) == (if outcome.Acquired? then Outstanding(events) + {outcome.lease} else Outstanding(events))
            && (outcome.Denied? ==> outcome.denial.Holder() in Outstanding(events))
  {
    ExtendedRun(events, Try(jobId, repo));
    forall lease: Lease ensures lease in Outstanding(events) <==> Holds(Run(events), lease) {
      LedgerIsOutstanding(events, lease);
    }
    var l, target := Run(events), TargetKey(repo);
    if target in l.active {
      assert Holds(l, Lease(target, l.active[target].jobId, l.active[target].sequence));
    }
  }

  lemma ReleaseIsExact(events: seq<Event>, lease: Lease)
    ensures var (l, released) := Release(Run(events), lease);
            && Run(events + [Free(lease)]) == l
            && (released <==> lease in Outstanding(events))
            && Outstanding(events + [Free(lease)]) == Outstanding(events) - {lease}
  {
    ExtendedRun(events, Free(lease));
    LedgerIsOutstanding(events, lease);
  }

  lemma {:induction false} BalanceIsActive(events: seq<Event>)
    ensures |Run(events).active| == Balance(events)
  {
    if events != [] {
      var front, e := events[..|events| - 1], events[|events| - 1];
      BalanceIsActive(front);
      var before := Run(front).active;
      if e.Free? && Holds(Run(front), e.lease) {
        assert (before - {e.lease.target}).Keys == before.Keys - {e.lease.target};
        assert |(before - {e.lease.target}).Keys| == |before.Keys| - 1;
      }
    }
  }

  /** After any run: no two outstanding leases share a target, nor a number below the maximum; all
      numbers below the maximum are below the next one; the active count is acquires minus releases;
      and a lease can be released exactly while it is outstanding. */
  lemma OneLeasePerTarget(events: seq<Event>, lease: Lease, other: Lease)
    ensures var l := Run(events);
            && (lease in Outstanding(events) && other in Outstanding(events) && lease != other ==>
                  lease.target != other.target && (lease.sequence != other.sequence || lease.sequence == U64_MAX))
            && (lease in Outstanding(events) ==> lease.sequence < l.nextSequence || lease.sequence == l.nextSequence == U64_MAX)
            && |l.active| == Balance(events)
            && (Release(l, lease).1 <==> lease in Outstanding(events))
  {
    RunIsSound(events);
    LedgerIsOutstanding(events, lease);
    LedgerIsOutstanding(events, other);
    BalanceIsActive(events);
  }

  /** A job is refused exactly when a lease on its target is outstanding, and the refusal names that
      lease, which is strictly older unless it has the maximum number. */
  lemma OlderWins(events: seq<Event>, jobId: string, repo: string)
    ensures match TryAcquire(Run(events), jobId, repo).1
            case Acquired(lease) =>
              && lease !in Outstanding(events)
              && forall held | held in Outstanding(events) :: held.target != TargetKey(repo)
            case Denied(d) =>
              && d.Holder() in Outstanding(events)
              && d.target == TargetKey(repo) && d.incomingJobId == jobId
              && d.incomingSequence == Run(events).nextSequence
              && (d.holderSequence < d.incomingSequence || d.holderSequence == U64_MAX)
  {
    RunIsSound(events);
    forall lease: Lease ensures lease in Outstanding(events) <==> Holds(Run(events), lease) {
      LedgerIsOutstanding(events, lease);
    }
  }

  /** Once a lease issued earlier is no longer outstanding, it never frees anything again, also after
      the numbers have run out: later numbers are never below those already issued. */
  lemma {:induction false} StaleLeaseFreesNothing(events: seq<Event>, later: seq<Event>, lease: Lease)
    requires lease !in Outstanding(events) && lease.sequence < Run(events).nextSequence
    ensures lease !in Outstanding(events + later)
    ensures !Release(Run(events + later), lease).1
    ensures Run(events).nextSequence <= Run(events + later).nextSequence
    decreases |later|
  {
    hide Outstanding, TargetKey;
    LedgerIsOutstanding(events + later, lease);
    if later == [] {
      assert events + later == events;
    } else {
      var front := later[..|later| - 1];
      assert events + later == (events + front) + [later[|front|]];
      ExtendedRun(events + front, later[|front|]);
      StaleLeaseFreesNothing(events, front, lease);
      RunIsSound(events);
    }
  }

  // ----- which leases can come back

  /** Whether some acquire of the run returned the lease. */
  predicate HandedOut(events: seq<Event>, lease: Lease) {
    events != [] &&
    var front, e := events[..|events| - 1], events[|events| - 1];
    || HandedOut(front, lease)
    || (e.Try? && TryAcquire(Run(front), e.jobId, e.repo).1 == Acquired(lease))
  }

  lemma {:induction false} HandedOutFacts(events: seq<Event>, lease: Lease)
    requires HandedOut(events, lease)
    ensures TargetKey(lease.target) == lease.target
    ensures lease.sequence < Run(events).nextSequence || lease.sequence == Run(events).nextSequence == U64_MAX
  {
    var front, e := events[..|events| - 1], events[|events| - 1];
    RunIsSound(front);
    if HandedOut(front, lease) {
      HandedOutFacts(front, lease);
    } else {
      TargetSpelling(e.repo);
    }
  }

  /** A lease that was handed out and is no longer outstanding can become outstanding again, and then
      free a flight it was not handed out for, if and only if it has the maximum number. */
  lemma StaleLeaseReturnsExactly(events: seq<Event>, lease: Lease)
    requires HandedOut(events, lease) && lease !in Outstanding(events)
    ensures (exists later :: lease in Outstanding(events + later)) <==> lease.sequence == U64_MAX
  {
    HandedOutFacts(events, lease);
    RunIsSound(events);
    if lease.sequence == U64_MAX {
      var later := BringBack(events, lease);
    } else {
      forall later ensures lease !in Outstanding(events + later) {
        StaleLeaseFreesNothing(events, later, lease);
      }
    }
  }

  /** Its present holder releases the target, if there is one, and a job of the same name acquires it. */
  lemma BringBack(events: seq<Event>, lease: Lease) returns (later: seq<Event>)
    requires TargetKey(lease.target) == lease.target && lease.sequence == Run(events).nextSequence == U64_MAX
    ensures lease in Outstanding(events + later)
  {
    var active, again := Run(events).active, Try(lease.jobId, lease.target);
    if lease.target in active {
      var held := active[lease.target];
      var release := Free(Lease(lease.target, held.jobId, held.sequence));
      later := [release, again];
      ExtendedRun(events, release);
      ExtendedRun(events + [release], again);
      assert events + later == events + [release] + [again];
    } else {
      later := [again];
      ExtendedRun(events, again);
    }
    LedgerIsOutstanding(events + later, lease);
  }

  // ----- where the numbers stop

  /** Whether a job that acquires its target, releases it and acquires it again gets its first lease
      back, which is then stale and yet frees the second flight. */
  predicate StaleLeaseWouldFree(l: Ledger, jobId: string, repo: string) {
    var (held, first) := TryAcquire(l, jobId, repo);
    first.Acquired? &&
    var freed := Release(held, first.lease).0;
    var (again, second) := TryAcquire(freed, jobId, repo);
    second.Acquired? && Release(again, first.lease).1
  }

  /** A stale lease can free a later flight of the same job if and only if the numbers have run out. */
  lemma StaleLeaseWouldFreeExactly(l: Ledger, jobId: string, repo: string)
    requires TargetKey(repo) !in l.active
    ensures StaleLeaseWouldFree(l, jobId, repo) <==> l.nextSequence == U64_MAX
  {
  }

  /** `n` times over, the job acquires its target and releases it. */
  function Rounds(jobId: string, repo: string, n: nat): seq<Event> {
    if n == 0 then []
    else Rounds(jobId, repo, n - 1) + [Try(jobId, repo), Free(Lease(TargetKey(repo), jobId, n - 1))]
  }

  lemma {:induction false} RoundsCount(jobId: string, repo: string, n: nat)
    requires n <= U64_MAX
    ensures Run(Rounds(jobId, repo, n)) == Ledger(map[], n)
  {
    if n != 0 {
      var before, target := Rounds(jobId, repo, n - 1), TargetKey(repo);
      var acquire, release := Try(jobId, repo), Free(Lease(target, jobId, n - 1));
      RoundsCount(jobId, repo, n - 1);
      ExtendedRun(before, acquire);
      ExtendedRun(before + [acquire], release);
      assert before + [acquire, release] == before + [acquire] + [release];
      assert map[target := Flight(jobId, n - 1)] - {target} == map[];
    }
  }

  /** Such a state is reached: after acquiring and releasing as often as there are numbers, the ledger
      is empty and the stale lease frees the later flight. */
  lemma SaturatedSequenceRepeats(jobId: string, repo: string)
    ensures exists events :: Run(events) == Ledger(map[], U64_MAX) && StaleLeaseWouldFree(Run(events), jobId, repo)
  {
    RoundsCount(jobId, repo, U64_MAX);
    StaleLeaseWouldFreeExactly(Run(Rounds(jobId, repo, U64_MAX)), jobId, repo);
  }

  /** A normalised target stays as it is. */
  lemma TargetSpelling(raw: string)
    ensures TargetKey(TargetKey(raw)) == TargetKey(raw)
  {
    NormaliseIdempotent(raw);
  }

  /** Two spellings share a target if and only if, up to white space around them, they differ in letter
      case only. */
  lemma TargetsShared(a: string, b: string)
    ensures TargetKey(a) == TargetKey(b) <==>
              exists before, core, after, before', core', after' ::
                && Framed(a, before, core, after) && Framed(b, before', core', after') && SameLetters(core, core')
  {
    if TargetKey(a) == TargetKey(b) {
      var before, after := TrimParts(a);
      var before', after' := TrimParts(b);
      FoldsTogetherExactly(Trim(a), Trim(b));
      assert Framed(a, before, Trim(a), after) && Framed(b, before', Trim(b), after');
    }
    if before, core, after, before', core', after' :|
      Framed(a, before, core, after) && Framed(b, before', core', after') && SameLetters(core, core')
    {
      TargetOfFramed(a, before, core, after);
      TargetOfFramed(b, before', core', after');
      FoldsTogetherExactly(core, core');
    }
  }

  /** `core` with white space around it. */
  predicate Framed(s: string, before: string, core: string, after: string) {
    Blank(before) && Blank(after) && s == before + core + after
  }

  lemma TargetOfFramed(s: string, before: string, core: string, after: string)
    requires Framed(s, before, core, after)
    ensures TargetKey(s) == Trim(Lower(core))
  {
    var first, last := TrimParts(core);
    var kernel := Trim(core);
    assert s == (before + first) + kernel + (last + after);
    TrimIs(before + first, kernel, last + after);
    FoldKeepsFrame(first, kernel, last);
    TrimIs(Lower(first), Lower(kernel), Lower(last));
  }

  lemma FoldKeepsFrame(before: string, core: string, after: string)
    requires Blank(before) && Blank(after) && Trimmed(core)
    ensures Blank(Lower(before)) && Blank(Lower(after)) && Trimmed(Lower(core))
    ensures Lower(before + core + after) == Lower(before) + Lower(core) + Lower(after)
  {
    LowerJoins(before + core, after);
    LowerJoins(before, core);
    forall s: string | Blank(s) ensures Blank(Lower(s)) {
      forall c | c in Lower(s) ensures IsWhitespace(c) {
        var i :| 0 <= i < |s| && Lower(s)[i] == c;
        assert s[i] in s;
        LowerKeepsWhitespace(s[i]);
      }
    }
    if core != [] {
      LowerKeepsWhitespace(core[0]);
      LowerKeepsWhitespace(core[|core| - 1]);
    }
  }

  function Tries(events: seq<Event>): nat {
    if events == [] then 0 else Tries(events[..|events| - 1]) + if events[|events| - 1].Try? then 1 else 0
  }

  /** Every attempt uses up a number, a refused one too; releases use none. */
  lemma {:induction false} NumbersCountTries(events: seq<Event>)
    ensures Run(events).nextSequence == Clip(Tries(events))
  {
    if events != [] {
      NumbersCountTries(events[..|events| - 1]);
    }
  }
}
