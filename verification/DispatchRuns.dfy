/** What the dispatch pipeline guarantees over every sequence of frames. */
module DispatchRuns {
  import opened Numbers
  import opened Wrappers
  import opened Dispatch
  import RateLimit
  import SingleFlight
  import LoopGuard
  import Governor
  import Recovery
  import Quarantine

  function Run(cfg: Config, p: Plane, frames: seq<Frame>): Plane {
    if frames == [] then p else Handle(cfg, Run(cfg, p, frames[..|frames| - 1]), frames[|frames| - 1]).0
  }

  /** The reply to the last frame. */
  function LastReply(cfg: Config, p: Plane, frames: seq<Frame>): Reply
    requires frames != []
  {
    Handle(cfg, Run(cfg, p, frames[..|frames| - 1]), frames[|frames| - 1]).1
  }

  predicate Screened(frames: seq<Frame>) {
    forall f | f in frames :: f.screening.Valid()
  }

  // ----- which gate answers

  /** Whether a gate on its own would refuse the frame, judged on the plane before the frame. */
  predicate Refuses(gate: Gate, cfg: Config, p: Plane, f: Frame) {
    match gate
    case ScreeningGate => !f.screening.Cleared?
    case QuarantineGate => Quarantine.IsQuarantined(cfg.quarantineThreshold, p.quarantine, f.job.fingerprint)
    case TargetGate => !f.targetAllowed
    case StateGate =>
      && f.job.route in cfg.worstTier
      && cfg.worstTier[f.job.route].Rank() < Governor.TierNow(cfg.budget, p.spent).Rank()
    case FlightGate => SingleFlight.TargetKey(f.job.repo) in p.flights.active
    case RateGate => cfg.rate.IsActive() && RateLimit.Check(cfg.rate, p.rate, f.job.route, f.now).1.Denied?
    case LoopGate => LoopGuard.VerdictOn(cfg.limits, p.observed + [f.job.fingerprint]).Trip?
    case BudgetGate => Governor.AdmitOne(cfg.budget, p.spent).1.Denied?
    case Kernel => !f.delegation.Delivered?
  }

  /** The documented order of the gates. */
  function Place(gate: Gate): nat {
    match gate
    case ScreeningGate => 0
    case QuarantineGate => 1
    case TargetGate => 2
    case StateGate => 3
    case FlightGate => 4
    case RateGate => 5
    case LoopGate => 6
    case BudgetGate => 7
    case Kernel => 8
  }

  /** Every gate placed before this one lets the frame pass. */
  predicate PassesBefore(place: nat, cfg: Config, p: Plane, f: Frame) {
    forall gate: Gate | Place(gate) < place :: !Refuses(gate, cfg, p, f)
  }

  /** The first gate in the documented order that would refuse the frame on its own is the one that
      answers, and a frame is accepted exactly when none would: no gate's doing changes the verdict of
      a later one within a frame. */
  lemma FirstRefusalDecides(cfg: Config, p: Plane, f: Frame)
    ensures var reply := Handle(cfg, p, f).1;
            && (forall gate: Gate :: reply.RefusedAt(gate) <==> Refuses(gate, cfg, p, f) && PassesBefore(Place(gate), cfg, p, f))
            && (reply.Accepted? <==> PassesBefore(9, cfg, p, f))
  {
    hide WhileHeld, PassesBefore, Quarantine.IsQuarantined, Governor.TierNow, LoopGuard.VerdictOn, RateLimit.Check, Governor.AdmitOne;
    var (flights, outcome) := SingleFlight.TryAcquire(p.flights, f.job.id, f.job.repo);
    PassesBeforeNext(cfg, p, f);
    LateGatesInOrder(cfg, p.(flights := flights), f);
  }

  lemma PassesBeforeNext(cfg: Config, p: Plane, f: Frame)
    ensures PassesBefore(0, cfg, p, f)
    ensures PassesBefore(1, cfg, p, f) <==> !Refuses(ScreeningGate, cfg, p, f)
    ensures PassesBefore(2, cfg, p, f) <==> PassesBefore(1, cfg, p, f) && !Refuses(QuarantineGate, cfg, p, f)
    ensures PassesBefore(3, cfg, p, f) <==> PassesBefore(2, cfg, p, f) && !Refuses(TargetGate, cfg, p, f)
    ensures PassesBefore(4, cfg, p, f) <==> PassesBefore(3, cfg, p, f) && !Refuses(StateGate, cfg, p, f)
    ensures PassesBefore(5, cfg, p, f) <==> PassesBefore(4, cfg, p, f) && !Refuses(FlightGate, cfg, p, f)
    ensures PassesBefore(6, cfg, p, f) <==> PassesBefore(5, cfg, p, f) && !Refuses(RateGate, cfg, p, f)
    ensures PassesBefore(7, cfg, p, f) <==> PassesBefore(6, cfg, p, f) && !Refuses(LoopGate, cfg, p, f)
    ensures PassesBefore(8, cfg, p, f) <==> PassesBefore(7, cfg, p, f) && !Refuses(BudgetGate, cfg, p, f)
    ensures PassesBefore(9, cfg, p, f) <==> PassesBefore(8, cfg, p, f) && !Refuses(Kernel, cfg, p, f)
  {
    hide Refuses;
    GateAt();
  }

  lemma GateAt()
    ensures forall gate: Gate :: Place(gate) < 9
    ensures forall gate, other: Gate :: Place(gate) == Place(other) ==> gate == other
  {
  }

  lemma PastRateInOrder(cfg: Config, p: Plane, f: Frame)
    ensures var reply := PastRate(cfg, p, f).1;
            var trips, spent := Refuses(LoopGate, cfg, p, f), Refuses(BudgetGate, cfg, p, f);
            && (reply.RefusedAt(LoopGate) <==> trips)
            && (reply.RefusedAt(BudgetGate) <==> !trips && spent)
            && (reply.RefusedAt(Kernel) <==> !trips && !spent && !f.delegation.Delivered?)
            && (reply.Accepted? <==> !trips && !spent && f.delegation.Delivered?)
            && (reply.Rejected? ==> 6 <= Place(reply.gate))
  {
    hide LoopGuard.VerdictOn, Governor.AdmitOne, Governor.TierNow, RateLimit.Check;
  }

  lemma LateGatesInOrder(cfg: Config, p: Plane, f: Frame)
    ensures var reply := WhileHeld(cfg, p, f).1;
            var rate, trips, spent := Refuses(RateGate, cfg, p, f), Refuses(LoopGate, cfg, p, f), Refuses(BudgetGate, cfg, p, f);
            && (reply.RefusedAt(RateGate) <==> rate)
            && (reply.RefusedAt(LoopGate) <==> !rate && trips)
            && (reply.RefusedAt(BudgetGate) <==> !rate && !trips && spent)
            && (reply.RefusedAt(Kernel) <==> !rate && !trips && !spent && !f.delegation.Delivered?)
            && (reply.Accepted? <==> !rate && !trips && !spent && f.delegation.Delivered?)
            && (reply.Rejected? ==> 5 <= Place(reply.gate))
  {
    hide PastRate, LoopGuard.VerdictOn, Governor.AdmitOne, Governor.TierNow, RateLimit.Check;
    PastRateInOrder(cfg, p, f);
    PastRateInOrder(cfg, p.(rate := RateLimit.Check(cfg.rate, p.rate, f.job.route, f.now).0), f);
  }

  // ----- what each stage changes, innermost first

  predicate BreakerPasses(cfg: Config, observed: seq<string>) {
    observed != [] && LoopGuard.VerdictOn(cfg.limits, observed).Pass?
  }

  /** The parts of the plane a reply depends on, when a job gets past the rate gate. */
  predicate PastRateEffect(cfg: Config, p: Plane, f: Frame, after: Plane, reply: Reply) {
    var fp := f.job.fingerprint;
    && after.flights == p.flights && after.rate.slots == p.rate.slots
    && after.observed == p.observed + [fp]
    && (reply.Rejected? ==> reply.gate in {LoopGate, BudgetGate, Kernel})
    && (reply.ReachedKernel() ==> KernelEffect(cfg, p, f, after, reply) && BreakerPasses(cfg, after.observed))
    && (!reply.ReachedKernel() ==> after.rate == p.rate && SpendsNothing(p, after))
    && (reply.RefusedAt(BudgetGate) ==> after.retry == p.retry)
  }

  /** The ledgers after a kernel run: a delivery charges its cost and resets the fingerprint and the
      route; a failure is recorded against both. */
  predicate KernelEffect(cfg: Config, p: Plane, f: Frame, after: Plane, reply: Reply) {
    var fp := f.job.fingerprint;
    var (spent, admission) := Governor.AdmitOne(cfg.budget, p.spent);
    && admission.Admit? && spent.jobs == p.spent.jobs + 1
    && (reply.Accepted? <==> f.delegation.Delivered?)
    && (f.delegation.Delivered? ==>
          && after.spent == Governor.Charge(spent, f.delegation.cost)
          && after.quarantine == p.quarantine + [Quarantine.Clear(fp)]
          && after.retry == p.retry + [Recovery.Cleared(fp)]
          && f.job.route !in after.rate.cooldown)
    && (!f.delegation.Delivered? ==>
          && after.spent == spent
          && after.quarantine == (if 0 < cfg.quarantineThreshold then p.quarantine + [Quarantine.Failure(fp)] else p.quarantine)
          && after.retry == p.retry + [Recovery.Decided(fp, FailureOf(f.delegation))]
          && (cfg.rate.cooldownSecs.Some? ==>
                f.job.route in after.rate.cooldown
                && after.rate.cooldown[f.job.route] == SatAdd(f.now, cfg.rate.cooldownSecs.value)))
  }

  /** The retry history grew by nothing, or by a failure that is not retryable. */
  predicate NoRetryUsed(before: seq<Recovery.Event>, after: seq<Recovery.Event>) {
    || after == before
    || (&& |after| == |before| + 1 && after[..|before|] == before
        && after[|before|].Decided? && !after[|before|].kind.IsRetryable())
  }

  predicate SpendsNothing(p: Plane, after: Plane) {
    after.spent == p.spent && after.quarantine == p.quarantine && NoRetryUsed(p.retry, after.retry)
  }

  lemma PastRateStage(cfg: Config, p: Plane, f: Frame)
    ensures var (after, reply) := PastRate(cfg, p, f); PastRateEffect(cfg, p, f, after, reply)
  {
  }

  /** What a job that holds its target changes. */
  predicate HeldEffect(cfg: Config, p: Plane, f: Frame, after: Plane, reply: Reply) {
    && after.flights == p.flights
    && (reply.Rejected? ==> reply.gate in {RateGate, LoopGate, BudgetGate, Kernel})
    && (reply.ReachedKernel() ==> KernelEffect(cfg, p, f, after, reply) && BreakerPasses(cfg, after.observed))
    && (!reply.ReachedKernel() ==> SpendsNothing(p, after))
    && (reply.RefusedAt(BudgetGate) ==> after.retry == p.retry)
    && after.observed == (if reply.RefusedAt(RateGate) then p.observed else p.observed + [f.job.fingerprint])
    && (reply.RefusedAt(RateGate) ==>
          && after.rate.slots == p.rate.slots && after.retry == p.retry
          && reply.directive.Some? && reply.directive.value.action == Recovery.Retry && reply.directive.value.attempt == 0)
    && (cfg.rate.maxPerWindow.Some? && !reply.RefusedAt(RateGate) ==> after.rate.slots == p.rate.slots + [f.now])
  }

  lemma HeldStage(cfg: Config, p: Plane, f: Frame)
    ensures var (after, reply) := WhileHeld(cfg, p, f); HeldEffect(cfg, p, f, after, reply)
  {
    hide PastRate;
    var (rate, decision) := RateLimit.Check(cfg.rate, p.rate, f.job.route, f.now);
    PastRateStage(cfg, p, f);
    PastRateStage(cfg, p.(rate := rate), f);
  }

  /** What a whole frame changes: before the target is taken nothing but a recovery record, and after
      that what the held job changes, with the target given back. */
  predicate FrameEffect(cfg: Config, p: Plane, f: Frame, after: Plane, reply: Reply) {
    && after.flights.active == p.flights.active
    && (reply.ReachedKernel() ==>
          && KernelEffect(cfg, p, f, after, reply)
          && BreakerPasses(cfg, after.observed)
          && !Quarantine.IsQuarantined(cfg.quarantineThreshold, p.quarantine, f.job.fingerprint))
    && (!reply.ReachedKernel() ==> SpendsNothing(p, after))
    && (reply.Rejected? ==> ReachOf(reply.gate, p, f, after, reply))
    && (reply.Accepted? ==> after.observed == p.observed + [f.job.fingerprint])
    && (cfg.rate.maxPerWindow.Some? ==>
          after.rate.slots == if reply.Accepted? || reply.gate in {LoopGate, BudgetGate, Kernel} then p.rate.slots + [f.now] else p.rate.slots)
  }

  /** How far a refusal at each gate reaches. */
  predicate ReachOf(gate: Gate, p: Plane, f: Frame, after: Plane, reply: Reply)
    requires reply.Rejected?
  {
    match gate
    case ScreeningGate => after.rate == p.rate && after.observed == p.observed
    case QuarantineGate => after.rate == p.rate && after.observed == p.observed
    case TargetGate => after.rate == p.rate && after.observed == p.observed
    case StateGate => after == p
    case FlightGate => after.rate == p.rate && after.observed == p.observed
    case RateGate =>
      && after.rate.slots == p.rate.slots && after.observed == p.observed && after.retry == p.retry
      && reply.directive.Some? && reply.directive.value.action == Recovery.Retry && reply.directive.value.attempt == 0
    case BudgetGate => after.observed == p.observed + [f.job.fingerprint] && after.retry == p.retry
    case _ => after.observed == p.observed + [f.job.fingerprint]
  }

  lemma TargetTakenAndGivenBack(l: SingleFlight.Ledger, jobId: string, repo: string)
    ensures var (held, outcome) := SingleFlight.TryAcquire(l, jobId, repo);
            && (outcome.Acquired? ==> SingleFlight.Release(held, outcome.lease).0.active == l.active)
            && (outcome.Denied? ==> held.active == l.active)
  {
    var (held, outcome) := SingleFlight.TryAcquire(l, jobId, repo);
    if outcome.Acquired? {
      assert held.active - {outcome.lease.target} == l.active;
    }
  }

  lemma TargetStage(cfg: Config, p: Plane, f: Frame)
    requires !Quarantine.IsQuarantined(cfg.quarantineThreshold, p.quarantine, f.job.fingerprint)
    ensures var (after, reply) := WithTarget(cfg, p, f); FrameEffect(cfg, p, f, after, reply)
  {
    hide WhileHeld, Governor.AdmitOne, Governor.Charge, LoopGuard.VerdictOn, Recovery.Attempts, Quarantine.Failures, FailureOf;
    var (flights, outcome) := SingleFlight.TryAcquire(p.flights, f.job.id, f.job.repo);
    TargetTakenAndGivenBack(p.flights, f.job.id, f.job.repo);
    HeldStage(cfg, p.(flights := flights), f);
  }

  /** Each frame changes only what its reply says it may. A frame refused before the kernel spends no
      budget, counts towards no quarantine, uses up no retry and holds no target; it is observed by
      the breaker only past the rate gate, takes a rate slot only past the target lock, and if it is
      deferred it changes nothing at all. */
  lemma FrameStage(cfg: Config, p: Plane, f: Frame)
    requires f.screening.Valid()
    ensures var (after, reply) := Handle(cfg, p, f); FrameEffect(cfg, p, f, after, reply)
  {
    hide WithTarget;
    if !Quarantine.IsQuarantined(cfg.quarantineThreshold, p.quarantine, f.job.fingerprint) {
      TargetStage(cfg, p, f);
    }
  }

  // ----- every exit gives the target back

  /** Serving one frame at a time, no target is ever held between frames, so none is refused as busy. */
  lemma {:induction false} SequentialServerIsNeverBusy(cfg: Config, frames: seq<Frame>)
    requires Screened(frames)
    ensures Run(cfg, IDLE, frames).flights.active == map[]
    ensures frames != [] ==> !LastReply(cfg, IDLE, frames).RefusedAt(FlightGate)
  {
    hide Handle;
    if frames != [] {
      assert frames[|frames| - 1] in frames;
      var front := frames[..|frames| - 1];
      SequentialServerIsNeverBusy(cfg, front);
      FrameStage(cfg, Run(cfg, IDLE, front), frames[|frames| - 1]);
      NotBusyWhenFree(cfg, Run(cfg, IDLE, front), frames[|frames| - 1]);
    }
  }

  lemma NotBusyWhenFree(cfg: Config, p: Plane, f: Frame)
    requires p.flights.active == map[]
    ensures !Handle(cfg, p, f).1.RefusedAt(FlightGate)
  {
  }

  // ----- a refused job consumes nothing it should not

  lemma NoRetryUsedKeepsAttempts(before: seq<Recovery.Event>, after: seq<Recovery.Event>, fp: string)
    requires NoRetryUsed(before, after)
    ensures Recovery.Attempts(after, fp) == Recovery.Attempts(before, fp)
  {
  }

  /** A frame that does not reach the kernel spends no budget, counts towards no quarantine, uses up
      no retry of any fingerprint and holds no target. */
  lemma RefusalSpendsNothing(cfg: Config, p: Plane, f: Frame, fp: string)
    requires f.screening.Valid() && !Handle(cfg, p, f).1.ReachedKernel()
    ensures var after := Handle(cfg, p, f).0;
            && after.spent == p.spent
            && after.quarantine == p.quarantine
            && Recovery.Attempts(after.retry, fp) == Recovery.Attempts(p.retry, fp)
            && after.flights.active == p.flights.active
  {
    hide Handle;
    FrameStage(cfg, p, f);
    NoRetryUsedKeepsAttempts(p.retry, Handle(cfg, p, f).0.retry, fp);
  }

  /** A clean delivery resets the fingerprint's retries and failures and ends its route's cooldown. */
  lemma CleanDeliveryResets(cfg: Config, p: Plane, f: Frame)
    requires f.screening.Valid() && Handle(cfg, p, f).1.Accepted?
    ensures var after, fp := Handle(cfg, p, f).0, f.job.fingerprint;
            && Recovery.Attempts(after.retry, fp) == 0
            && Quarantine.Failures(after.quarantine, fp) == 0
            && f.job.route !in after.rate.cooldown
  {
    hide Handle;
    FrameStage(cfg, p, f);
    var fp := f.job.fingerprint;
    assert (p.retry + [Recovery.Cleared(fp)])[..|p.retry|] == p.retry;
    assert (p.quarantine + [Quarantine.Clear(fp)])[..|p.quarantine|] == p.quarantine;
  }

  // ----- the budget bounds the kernel runs

  /** How many frames reached the kernel. */
  function KernelRuns(cfg: Config, p: Plane, frames: seq<Frame>): nat {
    if frames == [] then 0
    else KernelRuns(cfg, p, frames[..|frames| - 1]) + if LastReply(cfg, p, frames).ReachedKernel() then 1 else 0
  }

  /** Over any run the kernel is reached at most as often as the job cap and the grace allow. */
  lemma {:induction false} KernelRunsAreBudgeted(cfg: Config, frames: seq<Frame>)
    requires Screened(frames)
    ensures var s := Run(cfg, IDLE, frames).spent;
            && s.jobs == KernelRuns(cfg, IDLE, frames)
            && s.graceUsed <= cfg.budget.grace
            && (cfg.budget.jobs.Some? ==> KernelRuns(cfg, IDLE, frames) <= cfg.budget.jobs.value + s.graceUsed)
  {
    hide Handle;
    if frames != [] {
      assert frames[|frames| - 1] in frames;
      var front := frames[..|frames| - 1];
      KernelRunsAreBudgeted(cfg, front);
      FrameStage(cfg, Run(cfg, IDLE, front), frames[|frames| - 1]);
    }
  }

  /** Once the budget denies, the kernel is never reached again, whatever is sent. */
  lemma {:induction false} BudgetDenialIsFinal(cfg: Config, p: Plane, frames: seq<Frame>)
    requires Screened(frames)
    requires Governor.AdmitOne(cfg.budget, p.spent).1.Denied?
    ensures KernelRuns(cfg, p, frames) == 0 && Run(cfg, p, frames).spent == p.spent
  {
    hide Handle;
    if frames != [] {
      assert frames[|frames| - 1] in frames;
      var front := frames[..|frames| - 1];
      BudgetDenialIsFinal(cfg, p, front);
      FrameStage(cfg, Run(cfg, p, front), frames[|frames| - 1]);
    }
  }

  // ----- quarantine is for good

  /** Nothing in the pipeline releases a quarantined fingerprint: it is never handed to the kernel
      again, so it can never succeed its way out. */
  lemma {:induction false} QuarantineIsForGood(cfg: Config, p: Plane, frames: seq<Frame>, fp: string)
    requires Screened(frames)
    requires Quarantine.IsQuarantined(cfg.quarantineThreshold, p.quarantine, fp)
    ensures Quarantine.IsQuarantined(cfg.quarantineThreshold, Run(cfg, p, frames).quarantine, fp)
    ensures frames != [] && frames[|frames| - 1].job.fingerprint == fp ==> !LastReply(cfg, p, frames).ReachedKernel()
  {
    hide Handle;
    if frames != [] {
      assert frames[|frames| - 1] in frames;
      var front := frames[..|frames| - 1];
      var before, f := Run(cfg, p, front), frames[|frames| - 1];
      QuarantineIsForGood(cfg, p, front, fp);
      FrameStage(cfg, before, f);
      Quarantine.CountsAfter(before.quarantine, f.job.fingerprint);
    }
  }

  /** A fingerprint never fails at the kernel more than threshold times between two clean deliveries. */
  lemma {:induction false} FailuresStopAtThreshold(cfg: Config, frames: seq<Frame>, fp: string)
    requires Screened(frames)
    ensures Quarantine.Failures(Run(cfg, IDLE, frames).quarantine, fp) <= cfg.quarantineThreshold
  {
    hide Handle;
    if frames != [] {
      assert frames[|frames| - 1] in frames;
      var front := frames[..|frames| - 1];
      var before, f := Run(cfg, IDLE, front), frames[|frames| - 1];
      FailuresStopAtThreshold(cfg, front, fp);
      FrameStage(cfg, before, f);
      Quarantine.CountsAfter(before.quarantine, f.job.fingerprint);
    }
  }

  // ----- the rate cap bounds the kernel runs in any window

  /** The frames carry a clock that never goes back and never reaches its last value. */
  predicate Timely(frames: seq<Frame>) {
    && (forall i, j | 0 <= i < j < |frames| :: frames[i].now <= frames[j].now)
    && (forall i | 0 <= i < |frames| :: frames[i].now < U64_MAX)
  }

  function ClockAfter(frames: seq<Frame>): nat {
    if frames == [] then 0 else frames[|frames| - 1].now
  }

  /** When the kernel was reached. */
  function KernelTimes(cfg: Config, p: Plane, frames: seq<Frame>): seq<nat> {
    if frames == [] then []
    else
      KernelTimes(cfg, p, frames[..|frames| - 1])
      + if LastReply(cfg, p, frames).ReachedKernel() then [frames[|frames| - 1].now] else []
  }

  ghost predicate RateReachable(cfg: Config, p: Plane, clock: nat) {
    RateLimit.Reachable(cfg.rate, p.rate, clock)
  }

  lemma TimePassesReachable(policy: RateLimit.Policy, s: RateLimit.State, clock: nat, now: nat)
    requires RateLimit.Reachable(policy, s, clock) && clock <= now
    ensures RateLimit.Reachable(policy, s, now)
  {
  }

  lemma AfterKernelRate(cfg: Config, p: Plane, f: Frame)
    requires RateReachable(cfg, p, f.now) && f.now < U64_MAX
    ensures RateReachable(cfg, AfterKernel(cfg, p, f).0, f.now)
    ensures AfterKernel(cfg, p, f).0.rate.slots == p.rate.slots
  {
    if f.delegation.Delivered? {
      RateLimit.ApplyKeepsReachable(cfg.rate, p.rate, RateLimit.Cleared(f.job.route), f.now);
    } else {
      RateLimit.ApplyKeepsReachable(cfg.rate, p.rate, RateLimit.FailedAt(f.job.route, f.now), f.now);
    }
  }

  lemma PastRateRate(cfg: Config, p: Plane, f: Frame)
    requires RateReachable(cfg, p, f.now) && f.now < U64_MAX
    ensures RateReachable(cfg, PastRate(cfg, p, f).0, f.now)
    ensures PastRate(cfg, p, f).0.rate.slots == p.rate.slots
  {
    var seen := p.(observed := p.observed + [f.job.fingerprint]);
    AfterKernelRate(cfg, seen.(spent := Governor.AdmitOne(cfg.budget, p.spent).0), f);
  }

  lemma WhileHeldRate(cfg: Config, p: Plane, f: Frame)
    requires RateReachable(cfg, p, f.now) && f.now < U64_MAX
    ensures RateReachable(cfg, WhileHeld(cfg, p, f).0, f.now)
  {
    hide PastRate;
    var (rate, decision) := RateLimit.Check(cfg.rate, p.rate, f.job.route, f.now);
    RateLimit.CheckKeepsReachable(cfg.rate, p.rate, f.job.route, f.now, f.now);
    PastRateRate(cfg, p, f);
    PastRateRate(cfg, p.(rate := rate), f);
  }

  lemma OneFrameRate(cfg: Config, p: Plane, f: Frame, clock: nat)
    requires RateReachable(cfg, p, clock) && clock <= f.now < U64_MAX
    ensures RateReachable(cfg, Handle(cfg, p, f).0, f.now)
  {
    hide WhileHeld;
    TimePassesReachable(cfg.rate, p.rate, clock, f.now);
    var (flights, outcome) := SingleFlight.TryAcquire(p.flights, f.job.id, f.job.repo);
    WhileHeldRate(cfg, p.(flights := flights), f);
  }

  lemma {:induction false} RunKeepsRate(cfg: Config, frames: seq<Frame>)
    requires cfg.Valid() && Timely(frames)
    ensures RateReachable(cfg, Run(cfg, IDLE, frames), ClockAfter(frames))
  {
    hide Handle;
    if frames != [] {
      var front, f := frames[..|frames| - 1], frames[|frames| - 1];
      RunKeepsRate(cfg, front);
      OneFrameRate(cfg, Run(cfg, IDLE, front), f, ClockAfter(front));
    }
  }

  /** Every frame that reached the kernel took a rate slot at its own time. */
  lemma {:induction false} KernelTimesHaveSlots(cfg: Config, frames: seq<Frame>, lo: nat, hi: nat)
    requires Screened(frames) && cfg.rate.maxPerWindow.Some?
    ensures RateLimit.CountBetween(KernelTimes(cfg, IDLE, frames), lo, hi)
            <= RateLimit.CountBetween(Run(cfg, IDLE, frames).rate.slots, lo, hi)
  {
    hide Handle, RateLimit.CountBetween;
    if frames != [] {
      assert frames[|frames| - 1] in frames;
      var front, f := frames[..|frames| - 1], frames[|frames| - 1];
      var times, slots := KernelTimes(cfg, IDLE, front), Run(cfg, IDLE, front).rate.slots;
      KernelTimesHaveSlots(cfg, front, lo, hi);
      FrameStage(cfg, Run(cfg, IDLE, front), f);
      assert times + [] == times;
      RateLimit.CountOneMore(times, f.now, lo, hi);
      RateLimit.CountOneMore(slots, f.now, lo, hi);
    }
  }

  /** In any span of the window's width, wherever it starts, the kernel is reached at most as often as
      the rate cap allows. */
  lemma KernelRunsAreRateCapped(cfg: Config, frames: seq<Frame>, from: nat)
    requires Screened(frames)
    requires cfg.Valid() && cfg.rate.maxPerWindow.Some? && Timely(frames)
    ensures RateLimit.CountBetween(KernelTimes(cfg, IDLE, frames), from, from + cfg.rate.windowSecs) <= cfg.rate.maxPerWindow.value
  {
    RunKeepsRate(cfg, frames);
    KernelTimesHaveSlots(cfg, frames, from, from + cfg.rate.windowSecs);
    RateLimit.SpacedCount(Run(cfg, IDLE, frames).rate.slots, cfg.rate.maxPerWindow.value, cfg.rate.windowSecs, from);
  }

  // ----- the breaker bounds repeats

  /** For each observation of the breaker, whether that frame reached the kernel. */
  function Marks(cfg: Config, p: Plane, frames: seq<Frame>): seq<bool> {
    if frames == [] then []
    else
      var front := frames[..|frames| - 1];
      Marks(cfg, p, front)
      + if Handle(cfg, Run(cfg, p, front), frames[|frames| - 1]).0.observed == Run(cfg, p, front).observed then []
        else [LastReply(cfg, p, frames).ReachedKernel()]
  }

  /** Every frame that reached the kernel was let through by the breaker. */
  lemma {:induction false} MarkedWerePassed(cfg: Config, frames: seq<Frame>)
    requires Screened(frames)
    ensures var observed, marks := Run(cfg, IDLE, frames).observed, Marks(cfg, IDLE, frames);
            && |marks| == |observed|
            && forall i | 0 <= i < |marks| :: marks[i] ==> LoopGuard.Passed(cfg.limits, observed, i)
  {
    hide Handle, LoopGuard.VerdictOn, LoopGuard.Recent, KernelEffect;
    if frames != [] {
      assert frames[|frames| - 1] in frames;
      var front, f := frames[..|frames| - 1], frames[|frames| - 1];
      var before := Run(cfg, IDLE, front);
      MarkedWerePassed(cfg, front);
      FrameStage(cfg, before, f);
      var observed, marks := Run(cfg, IDLE, frames).observed, Marks(cfg, IDLE, frames);
      forall i | 0 <= i < |marks| && marks[i] ensures LoopGuard.Passed(cfg.limits, observed, i) {
        if i < |before.observed| {
          assert Marks(cfg, IDLE, front)[i];
          assert observed[..i + 1] == before.observed[..i + 1];
        } else {
          assert observed[..i + 1] == observed;
        }
      }
    }
  }

  /** How many observations of `fp` at positions in [lo, hi) reached the kernel. */
  function MarkedCount(observed: seq<string>, marks: seq<bool>, fp: string, lo: nat, hi: nat): nat
    requires lo <= hi <= |observed| == |marks|
    decreases hi
  {
    if lo == hi then 0
    else MarkedCount(observed, marks, fp, lo, hi - 1) + if observed[hi - 1] == fp && marks[hi - 1] then 1 else 0
  }

  lemma {:induction false} MarkedAtMostPassed(limits: LoopGuard.Limits, observed: seq<string>, marks: seq<bool>, fp: string, lo: nat, hi: nat)
    requires lo <= hi <= |observed| == |marks|
    requires forall i | 0 <= i < |marks| :: marks[i] ==> LoopGuard.Passed(limits, observed, i)
    ensures MarkedCount(observed, marks, fp, lo, hi) <= LoopGuard.PassedCount(limits, observed, fp, lo, hi)
    decreases hi
  {
    if lo < hi {
      MarkedAtMostPassed(limits, observed, marks, fp, lo, hi - 1);
    }
  }

  /** Among any `window` consecutive observations of a run, fewer than the threshold of one
      fingerprint reached the kernel. */
  lemma KernelRepeatsAreBounded(cfg: Config, frames: seq<Frame>, fp: string, lo: nat, hi: nat)
    requires Screened(frames)
    requires cfg.Valid() && lo <= hi <= |Run(cfg, IDLE, frames).observed| && hi - lo <= cfg.limits.window
    ensures |Marks(cfg, IDLE, frames)| == |Run(cfg, IDLE, frames).observed|
    ensures MarkedCount(Run(cfg, IDLE, frames).observed, Marks(cfg, IDLE, frames), fp, lo, hi) < cfg.limits.threshold
  {
    MarkedWerePassed(cfg, frames);
    MarkedAtMostPassed(cfg.limits, Run(cfg, IDLE, frames).observed, Marks(cfg, IDLE, frames), fp, lo, hi);
    LoopGuard.FewPassInAnyWindow(cfg.limits, Run(cfg, IDLE, frames).observed, fp, lo, hi);
  }
}
