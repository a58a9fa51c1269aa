/** The dispatch pipeline: every ledger behind one ordered list of gates, serving one frame at a
    time. What each ledger guarantees alone is proved in its own module; here it is proved of the
    pipeline, whose promise is that a refused job consumes nothing it should not. */
module Dispatch {
  import opened Numbers
  import opened Wrappers
  import RateLimit
  import SingleFlight
  import LoopGuard
  import Governor
  import Recovery
  import Quarantine

  /** The fingerprint stands for the digest of the job's semantics. */
  datatype Job = Job(id: string, repo: string, route: string, fingerprint: string)

  /** The verdict of the gates that keep no state: the sealed constitution, frame parsing, signatures
      and fork isolation refuse outright; authority, lint, content scan and approval refuse with a
      recovery directive. */
  datatype Screening = Cleared | RefusedOutright | RefusedFor(kind: Recovery.FailureKind) {
    predicate Valid() {
      RefusedFor? ==> kind in {Recovery.AuthorityDenied, Recovery.Malformed, Recovery.ContentRejected, Recovery.ApprovalRequired}
    }
  }

  datatype Delegation = Delivered(cost: Governor.JobCost) | Failed(message: string) | TimedOut | IdleTimedOut

  /** One request, with what the outside world answers if it gets that far. */
  datatype Frame = Frame(job: Job, screening: Screening, targetAllowed: bool, now: nat, delegation: Delegation)

  datatype Config = Config(
    rate: RateLimit.Policy, limits: LoopGuard.Limits, budget: Governor.Budget, recovery: Recovery.Policy,
    quarantineThreshold: nat, worstTier: map<string, Governor.Tier>, deferSecs: nat)
  {
    predicate Valid() {
      rate.Valid() && limits.Valid() && recovery.Valid() && quarantineThreshold <= U32_MAX
    }
  }

  datatype Plane = Plane(
    rate: RateLimit.State, observed: seq<string>, spent: Governor.Spend, flights: SingleFlight.Ledger,
    retry: seq<Recovery.Event>, quarantine: seq<Quarantine.Event>)

  const IDLE := Plane(RateLimit.FRESH, [], Governor.UNSPENT, SingleFlight.EMPTY, [], [])

  datatype Gate =
    | ScreeningGate | QuarantineGate | TargetGate | StateGate | FlightGate | RateGate | LoopGate | BudgetGate | Kernel

  datatype Reply = Accepted | Rejected(gate: Gate, directive: Option<Recovery.Directive>) {
    predicate ReachedKernel() {
      Accepted? || gate == Kernel
    }

    predicate RefusedAt(where: Gate) {
      Rejected? && gate == where
    }
  }

  // ----- the pipeline

  /** Asks recovery for a directive, which also records the failure. */
  function Decide(cfg: Config, p: Plane, job: Job, kind: Recovery.FailureKind): (Plane, Recovery.Directive) {
    (p.(retry := p.retry + [Recovery.Decided(job.fingerprint, kind)]),
     cfg.recovery.DirectiveAfter(Recovery.Attempts(p.retry, job.fingerprint), kind))
  }

  function RefuseFor(cfg: Config, p: Plane, job: Job, gate: Gate, kind: Recovery.FailureKind): (Plane, Reply) {
    var (after, directive) := Decide(cfg, p, job, kind);
    (after, Rejected(gate, Some(directive)))
  }

  /** Back-pressure: a plain retry that counts as no attempt. */
  function RetryLater(cfg: Config, secs: nat): Recovery.Directive {
    Recovery.Directive(Recovery.Retry, 0, cfg.recovery.maxRetries, secs)
  }

  predicate DefersRoute(cfg: Config, p: Plane, route: string) {
    route in cfg.worstTier && cfg.worstTier[route].Rank() < Governor.TierNow(cfg.budget, p.spent).Rank()
  }

  function FailureOf(delegation: Delegation): Recovery.FailureKind
    requires !delegation.Delivered?
  {
    match delegation
    case Failed(message) => Recovery.ClassifyKernelError(message)
    case TimedOut => Recovery.DeadlineExceeded
    case IdleTimedOut => Recovery.IdleTimeout
  }

  /** The kernel has run: a clean delivery charges its cost and resets the fingerprint and the route;
      a failure is decided on, counted towards quarantine, and starts the route's cooldown. */
  function AfterKernel(cfg: Config, p: Plane, f: Frame): (Plane, Reply) {
    var fp := f.job.fingerprint;
    match f.delegation
    case Delivered(cost) =>
      (p.(spent := Governor.Charge(p.spent, cost),
          retry := p.retry + [Recovery.Cleared(fp)],
          quarantine := p.quarantine + [Quarantine.Clear(fp)],
          rate := RateLimit.ClearRoute(p.rate, f.job.route)),
       Accepted)
    case _ =>
      var (decided, directive) := Decide(cfg, p, f.job, FailureOf(f.delegation));
      (decided.(quarantine := if 0 < cfg.quarantineThreshold then p.quarantine + [Quarantine.Failure(fp)] else p.quarantine,
                rate := RateLimit.RecordFailure(cfg.rate, p.rate, f.job.route, f.now)),
       Rejected(Kernel, Some(directive)))
  }

  /** The breaker, then the budget, then the kernel. */
  function PastRate(cfg: Config, p: Plane, f: Frame): (Plane, Reply) {
    var seen := p.(observed := p.observed + [f.job.fingerprint]);
    if LoopGuard.VerdictOn(cfg.limits, seen.observed).Trip? then RefuseFor(cfg, seen, f.job, LoopGate, Recovery.LoopTripped)
    else
      var (spent, admission) := Governor.AdmitOne(cfg.budget, p.spent);
      if admission.Denied? then (seen, Rejected(BudgetGate, None)) else AfterKernel(cfg, seen.(spent := spent), f)
  }

  /** Everything that happens while the job holds its target. */
  function WhileHeld(cfg: Config, p: Plane, f: Frame): (Plane, Reply) {
    if cfg.rate.IsActive() then
      var (rate, decision) := RateLimit.Check(cfg.rate, p.rate, f.job.route, f.now);
      if decision.Denied? then (p.(rate := rate), Rejected(RateGate, Some(RetryLater(cfg, decision.retryAfter))))
      else PastRate(cfg, p.(rate := rate), f)
    else PastRate(cfg, p, f)
  }

  /** Acquires the target, serves the job, and gives the target back on every path. */
  function WithTarget(cfg: Config, p: Plane, f: Frame): (Plane, Reply) {
    var (flights, outcome) := SingleFlight.TryAcquire(p.flights, f.job.id, f.job.repo);
    var acquired := p.(flights := flights);
    if outcome.Denied? then RefuseFor(cfg, acquired, f.job, FlightGate, Recovery.SingleFlightDenied)
    else
      var (after, reply) := WhileHeld(cfg, acquired, f);
      (after.(flights := SingleFlight.Release(after.flights, outcome.lease).0), reply)
  }

  function Handle(cfg: Config, p: Plane, f: Frame): (Plane, Reply) {
    if f.screening.RefusedOutright? then (p, Rejected(ScreeningGate, None))
    else if f.screening.RefusedFor? then RefuseFor(cfg, p, f.job, ScreeningGate, f.screening.kind)
    else if Quarantine.IsQuarantined(cfg.quarantineThreshold, p.quarantine, f.job.fingerprint) then
      RefuseFor(cfg, p, f.job, QuarantineGate, Recovery.Quarantined)
    else if !f.targetAllowed then RefuseFor(cfg, p, f.job, TargetGate, Recovery.TargetDenied)
    else if DefersRoute(cfg, p, f.job.route) then (p, Rejected(StateGate, Some(RetryLater(cfg, cfg.deferSecs))))
    else WithTarget(cfg, p, f)
  }

  // ----- an active quarantine keeps the counters small

  /** With quarantine on, every fingerprint has at most as many counted retries as counted failures, and
      at most the threshold of those. */
  ghost predicate CountersBounded(cfg: Config, p: Plane) {
    0 < cfg.quarantineThreshold ==> forall fp ::
      Recovery.Attempts(p.retry, fp) <= Quarantine.Failures(p.quarantine, fp) <= cfg.quarantineThreshold
  }

  lemma IdleIsBounded(cfg: Config)
    ensures CountersBounded(cfg, IDLE)
  {
  }

  lemma AfterKernelKeepsBounds(cfg: Config, p: Plane, f: Frame)
    requires CountersBounded(cfg, p)
    requires !Quarantine.IsQuarantined(cfg.quarantineThreshold, p.quarantine, f.job.fingerprint)
    ensures CountersBounded(cfg, AfterKernel(cfg, p, f).0)
  {
    hide Recovery.Attempts, Quarantine.Failures;
    Recovery.CountsAfter(p.retry, f.job.fingerprint);
    Quarantine.CountsAfter(p.quarantine, f.job.fingerprint);
  }

  lemma RefusalKeepsBounds(cfg: Config, p: Plane, job: Job, gate: Gate, kind: Recovery.FailureKind)
    requires CountersBounded(cfg, p) && !kind.IsRetryable()
    ensures CountersBounded(cfg, RefuseFor(cfg, p, job, gate, kind).0)
  {
    hide Recovery.Attempts, Quarantine.Failures;
    Recovery.CountsAfter(p.retry, job.fingerprint);
  }

  lemma PastRateKeepsBounds(cfg: Config, p: Plane, f: Frame)
    requires CountersBounded(cfg, p)
    requires !Quarantine.IsQuarantined(cfg.quarantineThreshold, p.quarantine, f.job.fingerprint)
    ensures CountersBounded(cfg, PastRate(cfg, p, f).0)
  {
    hide AfterKernel, RefuseFor;
    var seen := p.(observed := p.observed + [f.job.fingerprint]);
    RefusalKeepsBounds(cfg, seen, f.job, LoopGate, Recovery.LoopTripped);
    AfterKernelKeepsBounds(cfg, seen.(spent := Governor.AdmitOne(cfg.budget, p.spent).0), f);
  }

  lemma WhileHeldKeepsBounds(cfg: Config, p: Plane, f: Frame)
    requires CountersBounded(cfg, p)
    requires !Quarantine.IsQuarantined(cfg.quarantineThreshold, p.quarantine, f.job.fingerprint)
    ensures CountersBounded(cfg, WhileHeld(cfg, p, f).0)
  {
    hide PastRate;
    PastRateKeepsBounds(cfg, p, f);
    PastRateKeepsBounds(cfg, p.(rate := RateLimit.Check(cfg.rate, p.rate, f.job.route, f.now).0), f);
  }

  /** Every frame keeps the bounds. */
  lemma HandleKeepsBounds(cfg: Config, p: Plane, f: Frame)
    requires CountersBounded(cfg, p) && f.screening.Valid()
    ensures CountersBounded(cfg, Handle(cfg, p, f).0)
  {
    hide WhileHeld, RefuseFor;
    if f.screening.RefusedFor? {
      RefusalKeepsBounds(cfg, p, f.job, ScreeningGate, f.screening.kind);
    }
    RefusalKeepsBounds(cfg, p, f.job, QuarantineGate, Recovery.Quarantined);
    RefusalKeepsBounds(cfg, p, f.job, TargetGate, Recovery.TargetDenied);
    var acquired := p.(flights := SingleFlight.TryAcquire(p.flights, f.job.id, f.job.repo).0);
    RefusalKeepsBounds(cfg, acquired, f.job, FlightGate, Recovery.SingleFlightDenied);
    if !Quarantine.IsQuarantined(cfg.quarantineThreshold, p.quarantine, f.job.fingerprint) {
      WhileHeldKeepsBounds(cfg, acquired, f);
    }
  }

  // ----- the dispatcher

  class Dispatcher {
    const cfg: Config
    const rate: RateLimit.RateLimiter
    const guard: LoopGuard.Guard
    const governor: Governor.BudgetGovernor
    const flights: SingleFlight.SingleFlightLedger
    const retry: Recovery.RetryLedger
    const quarantine: Quarantine.QuarantineLedger

    ghost const Repr: set<object> := {rate, guard, governor, flights, retry, quarantine}

    ghost predicate LedgersValid()
      reads Repr
    {
      && cfg.Valid()
      && rate.Valid() && rate.policy == cfg.rate
      && guard.Valid() && guard.limits == cfg.limits
      && governor.Valid() && governor.budget == cfg.budget
      && flights.Valid()
      && retry.Valid()
      && quarantine.Valid() && quarantine.threshold == cfg.quarantineThreshold
    }

    ghost predicate Valid()
      reads Repr
    {
      LedgersValid() && CountersBounded(cfg, Abs())
    }

    ghost function Abs(): Plane
      reads Repr
    {
      Plane(rate.Abs(), guard.history, governor.spent, SingleFlight.Run(flights.history), retry.history, quarantine.history)
    }

    constructor (cfg: Config, window: nat, threshold: nat)
      requires cfg.Valid() && cfg.limits == LoopGuard.NewLimits(window, threshold)
      ensures Valid() && Abs() == IDLE && this.cfg == cfg && fresh(Repr)
    {
      hide CountersBounded;
      IdleIsBounded(cfg);
      this.cfg := cfg;
      rate := new RateLimit.RateLimiter(cfg.rate);
      guard := new LoopGuard.Guard(window, threshold);
      governor := new Governor.BudgetGovernor(cfg.budget);
      flights := new SingleFlight.SingleFlightLedger();
      retry := new Recovery.RetryLedger();
      quarantine := new Quarantine.QuarantineLedger(cfg.quarantineThreshold);
    }

    /** The ledgers' 32-bit counters can count one more failure of this job. */
    ghost predicate HasRoom(fp: string)
      reads Repr
    {
      && Recovery.Attempts(retry.history, fp) < U32_MAX
      && (0 < cfg.quarantineThreshold ==> Quarantine.Failures(quarantine.history, fp) < U32_MAX)
    }

    method Refuse(job: Job, gate: Gate, kind: Recovery.FailureKind) returns (reply: Reply)
      requires LedgersValid() && !kind.IsRetryable()
      modifies retry
      ensures LedgersValid() && (Abs(), reply) == RefuseFor(cfg, old(Abs()), job, gate, kind)
    {
      var directive := retry.Decide(cfg.recovery, job.fingerprint, kind);
      reply := Rejected(gate, Some(directive));
    }

    method RunKernel(f: Frame) returns (reply: Reply)
      requires LedgersValid() && HasRoom(f.job.fingerprint) && rate.clock <= f.now <= U64_MAX
      modifies rate, governor, retry, quarantine
      ensures LedgersValid() && (Abs(), reply) == AfterKernel(cfg, old(Abs()), f)
      ensures rate.clock <= f.now
    {
      var fp := f.job.fingerprint;
      if f.delegation.Delivered? {
        Governor.ExtendedRun(cfg.budget, governor.history, Governor.Cost(f.delegation.cost));
        governor.ChargeCost(f.delegation.cost);
        retry.Clear(fp);
        quarantine.ClearFingerprint(fp);
        rate.Clear(f.job.route);
        return Accepted;
      }
      var directive := retry.Decide(cfg.recovery, fp, FailureOf(f.delegation));
      var latched := quarantine.OnFailure(fp);
      rate.Failed(f.job.route, f.now);
      reply := Rejected(Kernel, Some(directive));
    }

    method ServePastRate(f: Frame) returns (reply: Reply)
      requires LedgersValid() && HasRoom(f.job.fingerprint) && rate.clock <= f.now <= U64_MAX
      modifies rate, guard, governor, retry, quarantine
      ensures LedgersValid() && (Abs(), reply) == PastRate(cfg, old(Abs()), f)
      ensures rate.clock <= f.now
    {
      hide AfterKernel, RefuseFor, Governor.AdmitOne, Governor.NextAnswer, LoopGuard.VerdictOn;
      var verdict := guard.Observe(f.job.fingerprint);
      if verdict.Trip? {
        reply := Refuse(f.job, LoopGate, Recovery.LoopTripped);
        return;
      }
      Governor.SpendIsHistory(cfg.budget, governor.history);
      Governor.ExtendedRun(cfg.budget, governor.history, Governor.Ask);
      var admission := governor.TryAdmit();
      if admission.Denied? {
        return Rejected(BudgetGate, None);
      }
      reply := RunKernel(f);
    }

    method ServeHeld(f: Frame) returns (reply: Reply)
      requires LedgersValid() && HasRoom(f.job.fingerprint) && rate.clock <= f.now <= U64_MAX
      modifies rate, guard, governor, retry, quarantine
      ensures LedgersValid() && (Abs(), reply) == WhileHeld(cfg, old(Abs()), f)
      ensures rate.clock <= f.now
    {
      if cfg.rate.IsActive() {
        var decision := rate.CheckRoute(f.job.route, f.now);
        if decision.Denied? {
          return Rejected(RateGate, Some(RetryLater(cfg, decision.retryAfter)));
        }
      }
      reply := ServePastRate(f);
    }

    method ServeWithTarget(f: Frame) returns (reply: Reply)
      requires LedgersValid() && HasRoom(f.job.fingerprint) && rate.clock <= f.now <= U64_MAX
      modifies Repr
      ensures LedgersValid() && (Abs(), reply) == WithTarget(cfg, old(Abs()), f)
      ensures rate.clock <= f.now
    {
      SingleFlight.ExtendedRun(flights.history, SingleFlight.Try(f.job.id, f.job.repo));
      var outcome := flights.Acquire(f.job.id, f.job.repo);
      if outcome.Denied? {
        reply := Refuse(f.job, FlightGate, Recovery.SingleFlightDenied);
        return;
      }
      reply := ServeHeld(f);
      SingleFlight.ExtendedRun(flights.history, SingleFlight.Free(outcome.lease));
      var released := flights.ReleaseLease(outcome.lease);
    }

    /** The counters of an active quarantine bound those of recovery; with quarantine off the retry
        counter is 32 bits wide and must stay below its maximum. */
    method HandleRequest(f: Frame) returns (reply: Reply)
      requires Valid() && f.screening.Valid()
      requires cfg.quarantineThreshold == 0 ==> Recovery.Attempts(retry.history, f.job.fingerprint) < U32_MAX
      requires rate.clock <= f.now <= U64_MAX
      modifies Repr
      ensures Valid() && (Abs(), reply) == Handle(cfg, old(Abs()), f)
      ensures rate.clock <= f.now
    {
      HandleKeepsBounds(cfg, Abs(), f);
      match f.screening {
        case RefusedOutright =>
          return Rejected(ScreeningGate, None);
        case RefusedFor(kind) =>
          reply := Refuse(f.job, ScreeningGate, kind);
          return;
        case Cleared =>
      }
      if 0 < cfg.quarantineThreshold && f.job.fingerprint in quarantine.quarantined {
        reply := Refuse(f.job, QuarantineGate, Recovery.Quarantined);
        return;
      }
      if !f.targetAllowed {
        reply := Refuse(f.job, TargetGate, Recovery.TargetDenied);
        return;
      }
      if f.job.route in cfg.worstTier
         && cfg.worstTier[f.job.route].Rank() < Governor.TierNow(cfg.budget, governor.spent).Rank() {
        return Rejected(StateGate, Some(RetryLater(cfg, cfg.deferSecs)));
      }
      reply := ServeWithTarget(f);
    }
  }
}
