/** The lifetime dispatch budget: a cap on jobs, tokens and dollars, with a bounded grace past it. */
module Governor {
  import opened Doubles
  import opened Numbers
  import opened Wrappers

  datatype JobCost = JobCost(tokens: nat, usdMicros: nat) {
    function SaturatingAdd(other: JobCost): JobCost {
      JobCost(SatAdd(tokens, other.tokens), SatAdd(usdMicros, other.usdMicros))
    }
  }

  datatype Budget = Budget(jobs: Option<nat>, tokens: Option<nat>, usdMicros: Option<nat>, grace: nat) {
    predicate Caps(holds: nat -> bool) {
      && (jobs.Some? ==> holds(jobs.value))
      && (tokens.Some? ==> holds(tokens.value))
      && (usdMicros.Some? ==> holds(usdMicros.value))
    }
  }

  datatype Spend = Spend(jobs: nat, cost: JobCost, graceUsed: nat)

  const UNSPENT := Spend(0, JobCost(0, 0), 0)

  datatype Dimension = Jobs | Tokens | Usd

  datatype Admission = Admit | Denied(exhausted: Dimension)

  /** The first capped dimension already met: jobs, then tokens, then dollars. */
  function ExhaustedReason(b: Budget, s: Spend): Option<Dimension> {
    if b.jobs.Some? && b.jobs.value <= s.jobs then Some(Jobs)
    else if b.tokens.Some? && b.tokens.value <= s.cost.tokens then Some(Tokens)
    else if b.usdMicros.Some? && b.usdMicros.value <= s.cost.usdMicros then Some(Usd)
    else None
  }

  function AdmitOne(b: Budget, s: Spend): (Spend, Admission) {
    var reason := ExhaustedReason(b, s);
    if reason.None? then (s.(jobs := s.jobs + 1), Admit)
    else if s.graceUsed < b.grace then (s.(jobs := s.jobs + 1, graceUsed := s.graceUsed + 1), Admit)
    else (s, Denied(reason.value))
  }

  function Charge(s: Spend, cost: JobCost): Spend {
    s.(cost := s.cost.SaturatingAdd(cost))
  }

  datatype Tier = Full | Conserving | Distress | Halted {
    function Rank(): nat {
      match this
      case Full => 0
      case Conserving => 1
      case Distress => 2
      case Halted => 3
    }
  }

  /** The tier of an exact quotient of doubles, as read after rounding to a double. It is compared with
      1, 0.75 and the double nearest to 0.9, so each level is reached from half a step below it, where
      a step is a 2^53rd; exactly half a step below, 1 and 0.75 are reached and 0.9 is not, since ties
      go to the even double. */
  function TierOf(fraction: real): Tier {
    if HALTED_AT <= STEPS * fraction then Halted
    else if DISTRESS_ABOVE < STEPS * fraction then Distress
    else if CONSERVING_AT <= STEPS * fraction then Conserving
    else Full
  }

  /** Half steps in the unit interval, and the levels counted in them. */
  const STEPS: real := 18_014_398_509_481_984.0
  const HALTED_AT: real := 18_014_398_509_481_983.0
  const DISTRESS_ABOVE: real := 16_212_958_658_533_785.0
  const CONSERVING_AT: real := 13_510_798_882_111_487.0

  /** Both amounts are converted to doubles before they are divided; a zero cap counts as none. */
  function Fraction(used: nat, cap: Option<nat>): real {
    if cap.Some? && 0 < cap.value then
      PositiveStaysPositive(cap.value);
      ToDouble(used) as real / ToDouble(cap.value) as real
    else 0.0
  }

  function MaxReal(a: real, b: real): real {
    if a < b then b else a
  }

  function TierNow(b: Budget, s: Spend): Tier {
    TierOf(MaxReal(MaxReal(Fraction(s.jobs, b.jobs), Fraction(s.cost.tokens, b.tokens)), Fraction(s.cost.usdMicros, b.usdMicros)))
  }

  // ----- runs

  datatype Event = Ask | Cost(cost: JobCost)

  function Apply(b: Budget, s: Spend, e: Event): Spend {
    match e
    case Ask => AdmitOne(b, s).0
    case Cost(cost) => Charge(s, cost)
  }

  function Run(b: Budget, s: Spend, events: seq<Event>): Spend {
    if events == [] then s else Apply(b, Run(b, s, events[..|events| - 1]), events[|events| - 1])
  }

  function Admitted(b: Budget, s: Spend, events: seq<Event>): nat {
    if events == [] then 0
    else
      var front := events[..|events| - 1];
      Admitted(b, s, front)
      + if events[|events| - 1].Ask? && AdmitOne(b, Run(b, s, front)).1.Admit? then 1 else 0
  }

  function Asked(events: seq<Event>): nat {
    if events == [] then 0 else Asked(events[..|events| - 1]) + if events[|events| - 1].Ask? then 1 else 0
  }

  function TotalTokens(events: seq<Event>): nat {
    if events == [] then 0
    else TotalTokens(events[..|events| - 1]) + if events[|events| - 1].Cost? then events[|events| - 1].cost.tokens else 0
  }

  function TotalUsd(events: seq<Event>): nat {
    if events == [] then 0
    else TotalUsd(events[..|events| - 1]) + if events[|events| - 1].Cost? then events[|events| - 1].cost.usdMicros else 0
  }

  // ----- the budget's state, told from the history alone

  /** The first capped dimension that the admissions and the costs so far have met. */
  function CapMet(b: Budget, history: seq<Event>): Option<Dimension> {
    if b.jobs.Some? && b.jobs.value <= Admitted(b, UNSPENT, history) then Some(Jobs)
    else if b.tokens.Some? && b.tokens.value <= Clip(TotalTokens(history)) then Some(Tokens)
    else if b.usdMicros.Some? && b.usdMicros.value <= Clip(TotalUsd(history)) then Some(Usd)
    else None
  }

  /** How many requests were let in on grace: made with a cap met, while grace was left. */
  function OnGrace(b: Budget, history: seq<Event>): nat {
    if history == [] then 0
    else
      var front := history[..|history| - 1];
      OnGrace(b, front)
      + if history[|history| - 1].Ask? && CapMet(b, front).Some? && OnGrace(b, front) < b.grace then 1 else 0
  }

  /** Whether the next request would be admitted, and if not, why. */
  function NextAnswer(b: Budget, history: seq<Event>): Admission {
    if CapMet(b, history).Some? && b.grace <= OnGrace(b, history) then Denied(CapMet(b, history).value) else Admit
  }

  /** The stored counters are those of the history, and decide the next request as it does. */
  lemma {:induction false} SpendIsHistory(b: Budget, history: seq<Event>)
    ensures var s := Run(b, UNSPENT, history);
            && s == Spend(Admitted(b, UNSPENT, history), JobCost(Clip(TotalTokens(history)), Clip(TotalUsd(history))), OnGrace(b, history))
            && AdmitOne(b, s).1 == NextAnswer(b, history)
            && s.graceUsed <= b.grace
  {
    if history != [] {
      SpendIsHistory(b, history[..|history| - 1]);
    }
  }

  lemma ExtendedRun(b: Budget, history: seq<Event>, e: Event)
    ensures (history + [e])[..|history|] == history && (history + [e])[|history|] == e
    ensures Run(b, UNSPENT, history + [e]) == Apply(b, Run(b, UNSPENT, history), e)
  {
    assert (history + [e])[..|history|] == history;
  }

  /** Over any run, the jobs spent are the admissions, grace is never overdrawn, and admissions past
      the job cap are paid for by grace. */
  lemma {:induction false} AdmissionsAreBounded(b: Budget, events: seq<Event>)
    ensures var s := Run(b, UNSPENT, events);
            && s.jobs == Admitted(b, UNSPENT, events)
            && s.graceUsed <= b.grace
            && (b.jobs.Some? ==> s.jobs <= b.jobs.value + s.graceUsed)
  {
    if events != [] {
      AdmissionsAreBounded(b, events[..|events| - 1]);
    }
  }

  /** The accumulated cost is the exact sum, clipped once at the end: saturating on the way loses nothing. */
  lemma CostIsClippedSum(b: Budget, events: seq<Event>)
    ensures Run(b, UNSPENT, events).cost == JobCost(Clip(TotalTokens(events)), Clip(TotalUsd(events)))
  {
    SpendIsHistory(b, events);
  }

  // ----- the governor

  class BudgetGovernor {
    const budget: Budget
    var spent: Spend
    ghost var history: seq<Event>

    ghost predicate Valid()
      reads this
    {
      spent == Run(budget, UNSPENT, history)
    }

    constructor (budget: Budget)
      ensures Valid() && this.budget == budget && history == []
    {
      this.budget := budget;
      spent, history := UNSPENT, [];
    }

    /** Denies exactly when what was admitted and charged before has met a cap and the grace is used
        up, naming that cap; the jobs spent stay the admissions, never more than the job cap and the
        grace used. */
    method TryAdmit() returns (admission: Admission)
      requires Valid()
      modifies this
      ensures Valid() && history == old(history) + [Ask]
      ensures admission == NextAnswer(budget, old(history))
      ensures admission.Denied? ==> spent == old(spent)
      ensures spent.jobs == Admitted(budget, UNSPENT, history) && spent.graceUsed == OnGrace(budget, history) <= budget.grace
      ensures budget.jobs.Some? ==> spent.jobs <= budget.jobs.value + spent.graceUsed
    {
      SpendIsHistory(budget, history);
      SpendIsHistory(budget, history + [Ask]);
      AdmissionsAreBounded(budget, history + [Ask]);
      ExtendedRun(budget, history, Ask);
      history := history + [Ask];
      var reason := ExhaustedReason(budget, spent);
      if reason.Some? {
        if spent.graceUsed < budget.grace {
          spent := spent.(graceUsed := spent.graceUsed + 1);
          spent := spent.(jobs := spent.jobs + 1);
          return Admit;
        }
        return Denied(reason.value);
      }
      spent := spent.(jobs := spent.jobs + 1);
      return Admit;
    }

    /** The accumulated cost stays the exact sum of all costs charged, clipped once. */
    method ChargeCost(cost: JobCost)
      requires Valid()
      modifies this
      ensures Valid() && history == old(history) + [Cost(cost)]
      ensures spent.cost == JobCost(Clip(TotalTokens(history)), Clip(TotalUsd(history)))
      ensures spent.jobs == old(spent.jobs) && spent.graceUsed == old(spent.graceUsed)
    {
      CostIsClippedSum(budget, history + [Cost(cost)]);
      ExtendedRun(budget, history, Cost(cost));
      history := history + [Cost(cost)];
      spent := spent.(cost := spent.cost.SaturatingAdd(cost));
    }
  }

  // ----- what a run can no longer undo

  predicate NoLess(s: Spend, later: Spend) {
    && s.jobs <= later.jobs && s.graceUsed <= later.graceUsed
    && s.cost.tokens <= later.cost.tokens && s.cost.usdMicros <= later.cost.usdMicros
  }

  predicate Representable(s: Spend) {
    s.cost.tokens <= U64_MAX && s.cost.usdMicros <= U64_MAX
  }

  lemma {:induction false} SpendOnlyGrows(b: Budget, s: Spend, events: seq<Event>)
    requires Representable(s)
    ensures NoLess(s, Run(b, s, events)) && Representable(Run(b, s, events))
  {
    if events != [] {
      SpendOnlyGrows(b, s, events[..|events| - 1]);
    }
  }

  /** The kill switch latches: after one denial nothing is admitted again, whatever is charged. */
  lemma {:induction false} DenialLatches(b: Budget, s: Spend, events: seq<Event>)
    requires Representable(s) && AdmitOne(b, s).1.Denied?
    ensures Admitted(b, s, events) == 0 && AdmitOne(b, Run(b, s, events)).1.Denied?
    ensures Run(b, s, events).jobs == s.jobs
  {
    if events != [] {
      var front := events[..|events| - 1];
      DenialLatches(b, s, front);
      SpendOnlyGrows(b, s, front);
    }
  }

  /** With only a job cap, exactly the cap and the grace are admitted, no matter what is charged. */
  lemma {:induction false} JobCapIsExact(cap: nat, grace: nat, events: seq<Event>)
    ensures var b := Budget(Some(cap), None, None, grace);
            Admitted(b, UNSPENT, events) == if Asked(events) <= cap + grace then Asked(events) else cap + grace
  {
    var b := Budget(Some(cap), None, None, grace);
    JobCapCounts(cap, grace, events);
  }

  lemma {:induction false} JobCapCounts(cap: nat, grace: nat, events: seq<Event>)
    ensures var b := Budget(Some(cap), None, None, grace);
            var s := Run(b, UNSPENT, events);
            && s.jobs == Admitted(b, UNSPENT, events)
            && s.jobs == (if Asked(events) <= cap + grace then Asked(events) else cap + grace)
            && s.graceUsed == (if s.jobs <= cap then 0 else s.jobs - cap)
  {
    if events != [] {
      JobCapCounts(cap, grace, events[..|events| - 1]);
    }
  }

  // ----- the tier

  lemma PositiveStaysPositive(n: nat)
    requires 0 < n
    ensures 0 < ToDouble(n)
  {
    SmallIsExact(1);
    ToDoubleOrdered(1, n);
  }

  lemma FractionIsMonotone(used: nat, more: nat, cap: Option<nat>)
    requires used <= more
    ensures Fraction(used, cap) <= Fraction(more, cap)
  {
    if cap.Some? && 0 < cap.value {
      ToDoubleOrdered(used, more);
      PositiveStaysPositive(cap.value);
      DivideOrdered(ToDouble(used) as real, ToDouble(more) as real, ToDouble(cap.value) as real);
    }
  }

  lemma DivideOrdered(x: real, y: real, c: real)
    requires 0.0 < c && x <= y
    ensures x / c <= y / c
  {
    assert (y - x) / c >= 0.0;
    assert y / c - x / c == (y - x) / c;
  }

  /** The tier never falls over a run. */
  lemma TierNeverFalls(b: Budget, s: Spend, events: seq<Event>)
    requires Representable(s)
    ensures TierNow(b, s).Rank() <= TierNow(b, Run(b, s, events)).Rank()
  {
    SpendOnlyGrows(b, s, events);
    TierFollowsSpend(b, s, Run(b, s, events));
  }

  lemma TierFollowsSpend(b: Budget, s: Spend, later: Spend)
    requires NoLess(s, later)
    ensures TierNow(b, s).Rank() <= TierNow(b, later).Rank()
  {
    FractionIsMonotone(s.jobs, later.jobs, b.jobs);
    FractionIsMonotone(s.cost.tokens, later.cost.tokens, b.tokens);
    FractionIsMonotone(s.cost.usdMicros, later.cost.usdMicros, b.usdMicros);
  }

  /** The nearest whole number, ties to even. */
  function NearestWhole(x: real): int {
    var q := x.Floor;
    var r := x - q as real;
    if r < 0.5 || (r == 0.5 && q % 2 == 0) then q else q + 1
  }

  lemma NearestReaches(x: real, k: int)
    ensures k % 2 == 0 ==> (k <= NearestWhole(x) <==> k as real - 0.5 <= x)
    ensures k % 2 != 0 ==> (k <= NearestWhole(x) <==> k as real - 0.5 < x)
  {
  }

  /** The levels are those of the rounded quotient: from one half on, doubles below one are the
      multiples of 2^-53, and 0.9 is read as the nearest of them, 8106479329266893 * 2^-53. */
  lemma LevelsAreRounded(fraction: real)
    requires 0.5 <= fraction
    ensures var rounded := NearestWhole(fraction * 9_007_199_254_740_992.0);
            TierOf(fraction)
            == if 9_007_199_254_740_992 <= rounded then Halted
               else if 8_106_479_329_266_893 <= rounded then Distress
               else if 6_755_399_441_055_744 <= rounded then Conserving
               else Full
    ensures NearestWhole(0.9 * 9_007_199_254_740_992.0) == 8_106_479_329_266_893
  {
    var scaled := fraction * 9_007_199_254_740_992.0;
    NearestReaches(scaled, 9_007_199_254_740_992);
    NearestReaches(scaled, 8_106_479_329_266_893);
    NearestReaches(scaled, 6_755_399_441_055_744);
  }

  lemma RatioReaches(level: real, used: real, cap: real)
    requires 0.0 < cap
    ensures level <= STEPS * (used / cap) <==> level * cap <= STEPS * used
    ensures level < STEPS * (used / cap) <==> level * cap < STEPS * used
  {
    var scaled := STEPS * (used / cap);
    assert used / cap * cap == used;
    assert scaled * cap == STEPS * used;
    ProductOrder(level, scaled, cap);
  }

  /** The levels in whole numbers. */
  function TierOfQuotient(used: nat, cap: nat): Tier {
    if 18_014_398_509_481_983 * cap <= 18_014_398_509_481_984 * used then Halted
    else if 16_212_958_658_533_785 * cap < 18_014_398_509_481_984 * used then Distress
    else if 13_510_798_882_111_487 * cap <= 18_014_398_509_481_984 * used then Conserving
    else Full
  }

  lemma TierOfDoubles(used: nat, cap: nat)
    requires 0 < cap
    ensures TierOf(used as real / cap as real) == TierOfQuotient(used, cap)
  {
    RatioReaches(HALTED_AT, used as real, cap as real);
    RatioReaches(DISTRESS_ABOVE, used as real, cap as real);
    RatioReaches(CONSERVING_AT, used as real, cap as real);
  }

  lemma TierOfDimension(used: nat, cap: nat)
    requires 0 < cap
    ensures TierOf(Fraction(used, Some(cap))) == TierOfQuotient(ToDouble(used), ToDouble(cap))
  {
    hide TierOf, TierOfQuotient, ToDouble;
    PositiveStaysPositive(cap);
    TierOfDoubles(ToDouble(used), ToDouble(cap));
  }

  lemma ProductOrder(x: real, y: real, c: real)
    requires 0.0 < c
    ensures x <= y <==> x * c <= y * c
    ensures x < y <==> x * c < y * c
  {
    assert (y - x) * c == y * c - x * c;
    assert x < y ==> 0.0 < (y - x) * c;
    assert y < x ==> 0.0 < (x - y) * c == x * c - y * c;
  }

  // ----- when the tier says Halted

  predicate TierShowsExhaustion(b: Budget, s: Spend) {
    TierNow(b, s).Halted? <==> ExhaustedReason(b, s).Some?
  }

  /** A cap that is positive and a different double from the number before it. */
  predicate ToldApart(cap: nat) {
    0 < cap && ToDouble(cap - 1) < ToDouble(cap)
  }

  predicate ReadsHalted(used: nat, cap: nat) {
    TierOf(Fraction(used, Some(cap))).Halted?
  }

  /** One dimension reads Halted exactly from its cap on, if the cap can be told apart from the number
      before it. */
  lemma ReadsHaltedAtCap(cap: nat, used: nat)
    requires ToldApart(cap)
    ensures ReadsHalted(used, cap) <==> cap <= used
  {
    hide ToDouble, Fraction, TierOf;
    TierOfDimension(used, cap);
    if cap <= used {
      ToDoubleOrdered(cap, used);
    } else {
      ToDoubleOrdered(used, cap - 1);
      DistinctNeighbours(cap);
    }
  }

  lemma ReadsHaltedEarly(cap: nat)
    requires 0 < cap && !ToldApart(cap)
    ensures ReadsHalted(cap - 1, cap)
  {
    hide ToDouble, Fraction, TierOf;
    ToDoubleOrdered(cap - 1, cap);
    TierOfDimension(cap - 1, cap);
  }

  lemma WorstDimensionDecides(b: Budget, s: Spend)
    ensures TierNow(b, s).Halted? <==>
              || TierOf(Fraction(s.jobs, b.jobs)).Halted?
              || TierOf(Fraction(s.cost.tokens, b.tokens)).Halted?
              || TierOf(Fraction(s.cost.usdMicros, b.usdMicros)).Halted?
  {
  }

  lemma ToldApartCapsShow(b: Budget, s: Spend)
    requires b.Caps(ToldApart)
    ensures TierShowsExhaustion(b, s)
  {
    WorstDimensionDecides(b, s);
    if b.jobs.Some? {
      ReadsHaltedAtCap(b.jobs.value, s.jobs);
    }
    if b.tokens.Some? {
      ReadsHaltedAtCap(b.tokens.value, s.cost.tokens);
    }
    if b.usdMicros.Some? {
      ReadsHaltedAtCap(b.usdMicros.value, s.cost.usdMicros);
    }
  }

  /** The tier reads Halted exactly when some cap is met, in every state, if and only if every cap is
      positive and a different double from the number before it. A zero cap denies everything while the
      tier reads Full; a large cap that rounds like its predecessor reads Halted one short of it. */
  lemma HaltedExactly(b: Budget)
    ensures (forall s :: TierShowsExhaustion(b, s)) <==> b.Caps(ToldApart)
  {
    if b.Caps(ToldApart) {
      forall s ensures TierShowsExhaustion(b, s) {
        ToldApartCapsShow(b, s);
      }
    } else {
      var s := MisreadState(b);
    }
  }

  lemma MisreadState(b: Budget) returns (s: Spend)
    requires !b.Caps(ToldApart)
    ensures !TierShowsExhaustion(b, s)
  {
    hide ToDouble, Fraction, TierOf, TierNow;
    s := UNSPENT;
    if !b.Caps(cap => 0 < cap) {
      NothingSpentReadsFull(b);
    } else {
      if b.jobs.Some? && !ToldApart(b.jobs.value) {
        s := UNSPENT.(jobs := b.jobs.value - 1);
        ReadsHaltedEarly(b.jobs.value);
      } else if b.tokens.Some? && !ToldApart(b.tokens.value) {
        s := UNSPENT.(cost := JobCost(b.tokens.value - 1, 0));
        ReadsHaltedEarly(b.tokens.value);
      } else {
        s := UNSPENT.(cost := JobCost(0, b.usdMicros.value - 1));
        ReadsHaltedEarly(b.usdMicros.value);
      }
      WorstDimensionDecides(b, s);
    }
  }

  lemma NothingSpentReadsFull(b: Budget)
    ensures TierNow(b, UNSPENT).Full?
  {
    hide Fraction;
    NothingReadsNothing(b.jobs);
    NothingReadsNothing(b.tokens);
    NothingReadsNothing(b.usdMicros);
  }

  lemma NothingReadsNothing(cap: Option<nat>)
    ensures Fraction(0, cap) == 0.0
  {
    SmallIsExact(0);
    if cap.Some? && 0 < cap.value {
      PositiveStaysPositive(cap.value);
      assert 0.0 / ToDouble(cap.value) as real == 0.0;
    }
  }

  /** Every positive cap up to 2^53 can be told apart, and the next one cannot. */
  lemma SmallCapsAreToldApart(cap: nat)
    ensures 0 < cap <= 9_007_199_254_740_992 ==> ToldApart(cap)
    ensures !ToldApart(9_007_199_254_740_993)
  {
    if 0 < cap <= EXACT {
      SmallIsExact(cap);
      SmallIsExact(cap - 1);
    }
    SmallIsExact(EXACT);
    assert Unit(EXACT + 1) == 2 && RoundTo(EXACT + 1, 2) == EXACT;
  }

  // ----- the tier in whole numbers

  /** The tier the documentation promises: three quarters, nine tenths, all of the cap. */
  function Promised(used: nat, cap: nat): Tier {
    if cap <= used then Halted
    else if 9 * cap <= 10 * used then Distress
    else if 3 * cap <= 4 * used then Conserving
    else Full
  }

  ghost predicate KeepsPromise(cap: nat) {
    forall used: nat :: TierOf(Fraction(used, Some(cap))) == Promised(used, cap)
  }

  /** The least cap for which rounding shows: one short of nine tenths, it already reads Distress. */
  const LEAST_MISREAD: nat := 3_002_399_751_580_339

  lemma PromiseKept(cap: nat, used: nat)
    requires 0 < cap < LEAST_MISREAD
    ensures TierOf(Fraction(used, Some(cap))) == Promised(used, cap)
  {
    hide ToDouble, Fraction, TierOf;
    SmallIsExact(cap);
    SmallCapsAreToldApart(cap);
    ReadsHaltedAtCap(cap, used);
    if used < cap {
      SmallIsExact(used);
      TierOfDimension(used, cap);
      TenthsApart(used, cap);
    }
  }

  /** The double levels separate the same whole numbers as the decimal ones. */
  lemma TenthsApart(used: nat, cap: nat)
    requires used < cap < LEAST_MISREAD
    ensures 16_212_958_658_533_785 * cap < 18_014_398_509_481_984 * used <==> 9 * cap <= 10 * used
    ensures 13_510_798_882_111_487 * cap <= 18_014_398_509_481_984 * used <==> 3 * cap <= 4 * used
  {
    assert 9 * cap == 10 * used + 1 ==> cap % 10 == 9;
  }

  /** Every positive cap up to `n` keeps the promise, whatever is used, if and only if `n` is below the
      least cap that does not. */
  lemma TierThresholds(n: nat)
    ensures (forall cap: nat | 0 < cap <= n :: KeepsPromise(cap)) <==> n < LEAST_MISREAD
  {
    if n < LEAST_MISREAD {
      forall cap: nat, used: nat | 0 < cap <= n
        ensures TierOf(Fraction(used, Some(cap))) == Promised(used, cap)
      {
        PromiseKept(cap, used);
      }
    } else {
      var used: nat := 2_702_159_776_422_305;
      SmallIsExact(LEAST_MISREAD);
      SmallIsExact(used);
      TierOfDimension(used, LEAST_MISREAD);
      assert TierOf(Fraction(used, Some(LEAST_MISREAD))) != Promised(used, LEAST_MISREAD);
      assert 0 < LEAST_MISREAD <= n && !KeepsPromise(LEAST_MISREAD);
    }
  }
}
