/** What refusals advise, and whether following the advice helps. */
module DispatchAdvice {
  import opened Numbers
  import opened Wrappers
  import opened Dispatch
  import opened DispatchRuns
  import RateLimit
  import SingleFlight
  import Governor
  import Recovery
  import Quarantine
  import LoopGuard

  /** The advice each refusal carries: the state and rate gates say to retry later without counting an
      attempt, the budget gate says nothing, the kernel's failures are answered by the fingerprint's
      retry count, and every other gate escalates. */
  predicate Advises(cfg: Config, p: Plane, f: Frame, gate: Gate, directive: Option<Recovery.Directive>) {
    match gate
    case BudgetGate => directive.None?
    case ScreeningGate => directive.Some? ==> Escalates(directive.value)
    case StateGate => directive == Some(Recovery.Directive(Recovery.Retry, 0, cfg.recovery.maxRetries, cfg.deferSecs))
    case RateGate => directive == Some(Recovery.Directive(Recovery.Retry, 0, cfg.recovery.maxRetries, RetryHint(cfg, p, f)))
    case Kernel =>
      !f.delegation.Delivered?
      && directive == Some(cfg.recovery.DirectiveAfter(Recovery.Attempts(p.retry, f.job.fingerprint), FailureOf(f.delegation)))
    case _ => directive.Some? && Escalates(directive.value)
  }

  predicate Escalates(directive: Recovery.Directive) {
    directive.action == Recovery.Escalate && directive.attempt == 0 && directive.backoffSecs == 0
  }

  function RetryHint(cfg: Config, p: Plane, f: Frame): nat {
    var decision := RateLimit.Check(cfg.rate, p.rate, f.job.route, f.now).1;
    if decision.Denied? then decision.retryAfter else 0
  }

  lemma RefusalsAdvise(cfg: Config, p: Plane, f: Frame)
    requires f.screening.Valid()
    ensures var reply := Handle(cfg, p, f).1; reply.Rejected? ==> Advises(cfg, p, f, reply.gate, reply.directive)
  {
    hide WhileHeld;
    var (flights, outcome) := SingleFlight.TryAcquire(p.flights, f.job.id, f.job.repo);
    HeldAdvises(cfg, p.(flights := flights), f);
  }

  lemma HeldAdvises(cfg: Config, p: Plane, f: Frame)
    ensures var reply := WhileHeld(cfg, p, f).1; reply.Rejected? ==> Advises(cfg, p, f, reply.gate, reply.directive)
  {
  }

  // ----- waiting out the rate gate

  lemma HeldRateRefusal(cfg: Config, p: Plane, f: Frame)
    ensures var (after, reply) := WhileHeld(cfg, p, f);
            var (rate, decision) := RateLimit.Check(cfg.rate, p.rate, f.job.route, f.now);
            && (reply.RefusedAt(RateGate) <==> cfg.rate.IsActive() && decision.Denied?)
            && (reply.RefusedAt(RateGate) ==> after == p.(rate := rate) && reply.directive == Some(RetryLater(cfg, decision.retryAfter)))
  {
    hide PastRate;
    PastRateStage(cfg, p, f);
    PastRateStage(cfg, p.(rate := RateLimit.Check(cfg.rate, p.rate, f.job.route, f.now).0), f);
  }

  lemma FrameRateRefusal(cfg: Config, p: Plane, f: Frame)
    ensures var (after, reply) := Handle(cfg, p, f);
            var (rate, decision) := RateLimit.Check(cfg.rate, p.rate, f.job.route, f.now);
            reply.RefusedAt(RateGate) ==>
              && cfg.rate.IsActive() && decision.Denied? && after.rate == rate
              && reply.directive == Some(RetryLater(cfg, decision.retryAfter))
  {
    hide WhileHeld;
    var (flights, outcome) := SingleFlight.TryAcquire(p.flights, f.job.id, f.job.repo);
    HeldRateRefusal(cfg, p.(flights := flights), f);
  }

  /** The gates before the rate gate look only at the frame, the quarantine, the spend and the targets
      held. */
  lemma EarlyGatesAgree(cfg: Config, p: Plane, f: Frame, after: Plane, again: Frame)
    requires again == f.(now := again.now)
    requires after.quarantine == p.quarantine && after.spent == p.spent && after.flights.active == p.flights.active
    ensures PassesBefore(5, cfg, p, f) ==> PassesBefore(5, cfg, after, again)
  {
    hide Governor.TierNow;
    if PassesBefore(5, cfg, p, f) {
      forall gate: Gate | Place(gate) < 5 ensures !Refuses(gate, cfg, after, again) {
        assert !Refuses(gate, cfg, p, f);
      }
    }
  }

  /** A job refused by the rate gate and sent again as the next frame, exactly when advised, is refused
      by it again if and only if its route was cooling and the window is full when the cooldown ends.
      After a refusal for a full window the advice always suffices. */
  lemma AdvisedWaitExactly(cfg: Config, p: Plane, f: Frame, clock: nat)
    requires f.screening.Valid() && RateReachable(cfg, p, clock) && clock <= f.now < U64_MAX
    requires Handle(cfg, p, f).1.RefusedAt(RateGate)
    ensures var (after, reply) := Handle(cfg, p, f);
            && reply.directive.Some?
            && var again := f.(now := f.now + reply.directive.value.backoffSecs);
               Handle(cfg, after, again).1.RefusedAt(RateGate) <==>
                 RateLimit.IsCooling(p.rate, f.job.route, f.now) && RateLimit.WindowFullAt(cfg.rate, p.rate, again.now)
  {
    hide Handle, PassesBefore;
    FrameRateRefusal(cfg, p, f);
    FirstRefusalDecides(cfg, p, f);
    FrameStage(cfg, p, f);
    var (after, reply) := Handle(cfg, p, f);
    var again := f.(now := f.now + reply.directive.value.backoffSecs);
    EarlyGatesAgree(cfg, p, f, after, again);
    FirstRefusalDecides(cfg, after, again);
    RateLimit.AdviceSuffices(cfg.rate, p.rate, f.job.route, clock, f.now);
  }

  // ----- waiting out a kernel failure

  /** The rate ledger after a frame that the kernel failed. */
  ghost predicate FailureRecorded(cfg: Config, p: Plane, f: Frame, after: Plane) {
    var checked := if cfg.rate.IsActive() then RateLimit.Check(cfg.rate, p.rate, f.job.route, f.now).0 else p.rate;
    && after.rate == RateLimit.RecordFailure(cfg.rate, checked, f.job.route, f.now)
    && (cfg.rate.IsActive() ==> RateLimit.Check(cfg.rate, p.rate, f.job.route, f.now).1.Admit?)
  }

  lemma PastRateFailure(cfg: Config, p: Plane, f: Frame)
    ensures var (after, reply) := PastRate(cfg, p, f);
            reply.RefusedAt(Kernel) ==> after.rate == RateLimit.RecordFailure(cfg.rate, p.rate, f.job.route, f.now)
  {
  }

  lemma HeldFailure(cfg: Config, p: Plane, f: Frame)
    ensures var (after, reply) := WhileHeld(cfg, p, f); reply.RefusedAt(Kernel) ==> FailureRecorded(cfg, p, f, after)
  {
    hide PastRate, RateLimit.Check;
    PastRateFailure(cfg, p, f);
    PastRateFailure(cfg, p.(rate := RateLimit.Check(cfg.rate, p.rate, f.job.route, f.now).0), f);
  }

  lemma FrameFailure(cfg: Config, p: Plane, f: Frame)
    ensures var (after, reply) := Handle(cfg, p, f); reply.RefusedAt(Kernel) ==> FailureRecorded(cfg, p, f, after)
  {
    hide WhileHeld;
    var (flights, outcome) := SingleFlight.TryAcquire(p.flights, f.job.id, f.job.repo);
    HeldFailure(cfg, p.(flights := flights), f);
  }

  /** A frame the kernel failed passed every earlier gate, and of the gates before the rate gate only
      quarantine and the state gate look at anything the failure changed. */
  lemma EarlyGatesAfterFailure(cfg: Config, p: Plane, f: Frame, after: Plane, again: Frame)
    requires PassesBefore(8, cfg, p, f) && again == f.(now := again.now) && after.flights.active == p.flights.active
    ensures PassesBefore(5, cfg, after, again) <==>
              && !Quarantine.IsQuarantined(cfg.quarantineThreshold, after.quarantine, f.job.fingerprint)
              && !DefersRoute(cfg, after, f.job.route)
  {
    hide PassesBefore, Quarantine.IsQuarantined, Governor.TierNow, RateLimit.Check, LoopGuard.VerdictOn, Governor.AdmitOne;
    PassesBeforeNext(cfg, p, f);
    PassesBeforeNext(cfg, after, again);
  }

  /** The kernel gate's advice does not look at the cooldown the failure starts: sent again as the next
      frame after exactly the advised backoff, a job that is neither quarantined nor deferred by then is
      refused by the rate gate if and only if the cooldown outlasts the backoff or the window is full. */
  lemma KernelAdviceExactly(cfg: Config, p: Plane, f: Frame)
    requires f.screening.Valid() && Handle(cfg, p, f).1.RefusedAt(Kernel)
    ensures var (after, reply) := Handle(cfg, p, f);
            && reply.directive.Some?
            && var again := f.(now := f.now + reply.directive.value.backoffSecs);
               Handle(cfg, after, again).1.RefusedAt(RateGate) <==>
                 && !Quarantine.IsQuarantined(cfg.quarantineThreshold, after.quarantine, f.job.fingerprint)
                 && !DefersRoute(cfg, after, f.job.route)
                 && (RateLimit.HeldBack(cfg.rate, f.now, again.now) || RateLimit.WindowFullAt(cfg.rate, after.rate, again.now))
  {
    hide Handle, PassesBefore, Refuses, Quarantine.IsQuarantined, DefersRoute, RateLimit.Check, RateLimit.RecordFailure;
    KernelRefusalLeaves(cfg, p, f);
    var (after, reply) := Handle(cfg, p, f);
    var again := f.(now := f.now + reply.directive.value.backoffSecs);
    EarlyGatesAfterFailure(cfg, p, f, after, again);
    RateGateAnswers(cfg, after, again);
    if cfg.rate.IsActive() {
      RateLimit.AfterFailure(cfg.rate, p.rate, f.job.route, f.now, again.now);
    }
  }

  lemma KernelRefusalLeaves(cfg: Config, p: Plane, f: Frame)
    requires f.screening.Valid() && Handle(cfg, p, f).1.RefusedAt(Kernel)
    ensures var (after, reply) := Handle(cfg, p, f);
            && reply.directive.Some? && after.flights.active == p.flights.active
            && FailureRecorded(cfg, p, f, after) && PassesBefore(8, cfg, p, f)
  {
    hide Handle, PassesBefore, Refuses, FailureRecorded, KernelEffect;
    RefusalsAdvise(cfg, p, f);
    FirstRefusalDecides(cfg, p, f);
    FrameStage(cfg, p, f);
    FrameFailure(cfg, p, f);
  }

  lemma RateGateAnswers(cfg: Config, p: Plane, f: Frame)
    ensures Handle(cfg, p, f).1.RefusedAt(RateGate) <==>
              && PassesBefore(5, cfg, p, f) && cfg.rate.IsActive()
              && RateLimit.Check(cfg.rate, p.rate, f.job.route, f.now).1.Denied?
  {
    hide Handle, PassesBefore, RateLimit.Check;
    FirstRefusalDecides(cfg, p, f);
  }

  // ----- waiting at the state gate

  /** A deferred route stays deferred for good: the tier never falls, so no frame of the route ever
      reaches the kernel again, although each is told to retry later. */
  lemma {:induction false} DeferralIsForGood(cfg: Config, p: Plane, frames: seq<Frame>, route: string)
    requires Screened(frames) && Governor.Representable(p.spent)
    requires DefersRoute(cfg, p, route)
    ensures var after := Run(cfg, p, frames); DefersRoute(cfg, after, route) && Governor.Representable(after.spent)
    ensures frames != [] && frames[|frames| - 1].job.route == route ==> !LastReply(cfg, p, frames).ReachedKernel()
  {
    hide Handle, Governor.TierNow;
    if frames != [] {
      assert frames[|frames| - 1] in frames;
      var front, f := frames[..|frames| - 1], frames[|frames| - 1];
      DeferralIsForGood(cfg, p, front, route);
      var before := Run(cfg, p, front);
      FrameSpends(cfg, before, f);
      Governor.TierFollowsSpend(cfg.budget, before.spent, Handle(cfg, before, f).0.spent);
      DeferredIsRefused(cfg, before, f);
    }
  }

  lemma FrameSpends(cfg: Config, p: Plane, f: Frame)
    requires f.screening.Valid() && Governor.Representable(p.spent)
    ensures var after := Handle(cfg, p, f).0; Governor.NoLess(p.spent, after.spent) && Governor.Representable(after.spent)
  {
    hide Handle;
    FrameStage(cfg, p, f);
  }

  lemma DeferredIsRefused(cfg: Config, p: Plane, f: Frame)
    ensures DefersRoute(cfg, p, f.job.route) ==> !Handle(cfg, p, f).1.ReachedKernel()
  {
    hide WithTarget, Governor.TierNow;
  }

  // ----- which kernel failures are retried

  /** The reply to a failed kernel run: a time-out or an error that is not fatal is retried while the
      fingerprint has retries left, after its attempt's wait; a fatal error never is. */
  lemma KernelFailuresAnswered(cfg: Config, p: Plane, f: Frame)
    requires f.screening.Valid() && cfg.Valid() && Handle(cfg, p, f).1.RefusedAt(Kernel)
    ensures Handle(cfg, p, f).1.directive.Some?
    ensures var directive, n := Handle(cfg, p, f).1.directive.value, Recovery.Attempts(p.retry, f.job.fingerprint);
            var transient := f.delegation.TimedOut? || f.delegation.IdleTimedOut?
                             || (f.delegation.Failed? && Recovery.ClassifyKernelError(f.delegation.message).KernelFailed?);
            if transient && n < cfg.recovery.maxRetries then
              directive == Recovery.Directive(
                Recovery.Retry, n + 1, cfg.recovery.maxRetries, Recovery.WaitFor(cfg.recovery.baseBackoffSecs, n + 1))
            else
              directive.action == Recovery.Escalate && directive.backoffSecs == 0
              && directive.attempt == if transient then n + 1 else 0
  {
    hide Handle, Recovery.WaitFor, Recovery.Attempts;
    RefusalsAdvise(cfg, p, f);
    Recovery.DirectiveSaysRight(cfg.recovery, FailureOf(f.delegation), Recovery.Attempts(p.retry, f.job.fingerprint));
  }
}
