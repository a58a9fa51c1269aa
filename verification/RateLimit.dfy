/** The rolling window cap and the per-route failure cooldown.

    The specification keeps the time of every slot ever reserved and counts the ones still in the
    window; the limiter keeps a pruned queue. Times are unsigned 64-bit seconds and their sums
    saturate, so the last representable second ends every window. */
module RateLimit {
  import opened Numbers
  import opened Wrappers

  datatype Policy = Policy(maxPerWindow: Option<nat>, windowSecs: nat, cooldownSecs: Option<nat>) {
    predicate Valid() {
      && 1 <= windowSecs <= U64_MAX
      && (maxPerWindow.Some? ==> 1 <= maxPerWindow.value <= U32_MAX)
      && (cooldownSecs.Some? ==> 1 <= cooldownSecs.value <= U64_MAX)
    }

    predicate IsActive() {
      maxPerWindow.Some? || cooldownSecs.Some?
    }
  }

  /** Zero turns a dimension off; a window is at least one second wide. */
  function NewPolicy(maxPerWindow: nat, windowSecs: nat, cooldownSecs: nat): (policy: Policy)
    requires maxPerWindow <= U32_MAX && windowSecs <= U64_MAX && cooldownSecs <= U64_MAX
    ensures policy.Valid()
    ensures policy.IsActive() <==> maxPerWindow != 0 || cooldownSecs != 0
    ensures policy.maxPerWindow.None? <==> maxPerWindow == 0
    ensures policy.maxPerWindow.Some? ==> policy.maxPerWindow.value == maxPerWindow
    ensures policy.cooldownSecs.None? <==> cooldownSecs == 0
    ensures policy.cooldownSecs.Some? ==> policy.cooldownSecs.value == cooldownSecs
    ensures 0 < windowSecs ==> policy.windowSecs == windowSecs
    ensures windowSecs == 0 ==> policy.windowSecs == 1
  {
    Policy(
      if maxPerWindow == 0 then None else Some(maxPerWindow),
      if windowSecs == 0 then 1 else windowSecs,
      if cooldownSecs == 0 then None else Some(cooldownSecs))
  }

  datatype Cause = Cooling | WindowFull

  datatype Decision = Admit | Denied(cause: Cause, retryAfter: nat)

  // ----- the specification: a history of slots

  datatype State = State(slots: seq<nat>, cooldown: map<string, nat>)

  const FRESH := State([], map[])

  function Live(slots: seq<nat>, window: nat, now: nat): seq<nat> {
    if slots == [] then []
    else (if SatAdd(slots[0], window) <= now then [] else [slots[0]]) + Live(slots[1..], window, now)
  }

  predicate IsCooling(s: State, route: string, now: nat) {
    route in s.cooldown && now < s.cooldown[route]
  }

  /** The window's answer, and the slots after it. */
  function Reserve(policy: Policy, slots: seq<nat>, now: nat): (seq<nat>, Decision) {
    if policy.maxPerWindow.None? then (slots, Admit)
    else
      var live := Live(slots, policy.windowSecs, now);
      if policy.maxPerWindow.value <= |live| then
        (slots, Denied(WindowFull, if live == [] then policy.windowSecs else RetryAfter(SatAdd(live[0], policy.windowSecs), now)))
      else
        (slots + [now], Admit)
  }

  function Check(policy: Policy, s: State, route: string, now: nat): (State, Decision) {
    if IsCooling(s, route, now) then (s, Denied(Cooling, s.cooldown[route] - now))
    else
      var (slots, decision) := Reserve(policy, s.slots, now);
      (State(slots, s.cooldown - {route}), decision)
  }

  function RetryAfter(expiry: nat, now: nat): nat {
    if expiry <= now then 1 else expiry - now
  }

  function RecordFailure(policy: Policy, s: State, route: string, now: nat): State {
    if policy.cooldownSecs.None? then s
    else s.(cooldown := s.cooldown[route := SatAdd(now, policy.cooldownSecs.value)])
  }

  function ClearRoute(s: State, route: string): State {
    s.(cooldown := s.cooldown - {route})
  }

  predicate Ascending(slots: seq<nat>) {
    forall i, j | 0 <= i < j < |slots| :: slots[i] <= slots[j]
  }

  lemma {:induction false} LiveSkipsExpired(slots: seq<nat>, window: nat, now: nat, n: nat)
    requires n <= |slots| && forall i | 0 <= i < n :: SatAdd(slots[i], window) <= now
    ensures Live(slots, window, now) == Live(slots[n..], window, now)
  {
    if n != 0 {
      LiveSkipsExpired(slots[1..], window, now, n - 1);
      assert slots[1..][n - 1..] == slots[n..];
    } else {
      assert slots[0..] == slots;
    }
  }

  lemma {:induction false} LiveKeepsUnexpired(slots: seq<nat>, window: nat, now: nat)
    requires Ascending(slots) && (slots == [] || now < SatAdd(slots[0], window))
    ensures Live(slots, window, now) == slots
  {
    if slots != [] {
      LiveKeepsUnexpired(slots[1..], window, now);
    }
  }

  /** Slots oldest first, none after `clock`. */
  predicate InOrder(slots: seq<nat>, clock: nat) {
    Ascending(slots) && forall i | 0 <= i < |slots| :: slots[i] <= clock
  }

  predicate Expired(slots: seq<nat>, window: nat, now: nat) {
    forall i | 0 <= i < |slots| :: SatAdd(slots[i], window) <= now
  }

  lemma AppendKeepsOrder(slots: seq<nat>, now: nat)
    requires InOrder(slots, now)
    ensures InOrder(slots + [now], now)
  {
  }

  lemma TimePasses(slots: seq<nat>, expired: seq<nat>, window: nat, clock: nat, now: nat)
    requires clock <= now && InOrder(slots, clock) && Expired(expired, window, clock)
    ensures InOrder(slots, now) && Expired(expired, window, now)
  {
  }

  lemma OneMoreExpired(slots: seq<nat>, n: nat, window: nat, now: nat)
    requires n < |slots| && Expired(slots[..n], window, now) && SatAdd(slots[n], window) <= now
    ensures Expired(slots[..n + 1], window, now)
    ensures slots[n..][1..] == slots[n + 1..]
  {
    assert slots[..n + 1] == slots[..n] + [slots[n]];
  }

  /** Dropping an expired prefix and stopping at an unexpired slot leaves exactly the live slots. */
  lemma PrunedIsLive(slots: seq<nat>, n: nat, window: nat, clock: nat, now: nat)
    requires n <= |slots| && InOrder(slots, clock) && Expired(slots[..n], window, now)
    requires n == |slots| || now < SatAdd(slots[n], window)
    ensures Live(slots, window, now) == slots[n..]
  {
    forall i | 0 <= i < n ensures SatAdd(slots[i], window) <= now {
      assert slots[..n][i] == slots[i];
    }
    LiveSkipsExpired(slots, window, now, n);
    LiveKeepsUnexpired(slots[n..], window, now);
  }

  lemma CastKeeps(n: nat)
    requires n <= U32_MAX
    ensures n % (U32_MAX + 1) == n
  {
  }

  // ----- the limiter

  class RateLimiter {
    const policy: Policy
    /** Slot times still counted, oldest first; pruned only when the window is consulted. */
    var recent: seq<nat>
    var cooldownUntil: map<string, nat>
    ghost var slots: seq<nat>
    ghost var dropped: nat
    ghost var clock: nat

    /** The queue is the history without a prefix that has expired, and fits the cap. */
    ghost predicate Valid()
      reads this
    {
      && policy.Valid() && clock <= U64_MAX
      && InOrder(slots, clock)
      && dropped <= |slots| && recent == slots[dropped..]
      && Expired(slots[..dropped], policy.windowSecs, clock)
      && |recent| <= (if policy.maxPerWindow.Some? then policy.maxPerWindow.value else 0)
    }

    ghost function Abs(): State
      reads this
    {
      State(slots, cooldownUntil)
    }

    constructor (policy: Policy)
      requires policy.Valid()
      ensures Valid() && this.policy == policy && Abs() == FRESH && clock == 0
    {
      this.policy := policy;
      recent, cooldownUntil := [], map[];
      slots, dropped, clock := [], 0, 0;
    }

    method Prune(now: nat)
      requires Valid() && clock <= now <= U64_MAX
      modifies this`recent, this`dropped, this`clock
      ensures Valid() && clock == now
      ensures recent == Live(slots, policy.windowSecs, now)
    {
      TimePasses(slots, slots[..dropped], policy.windowSecs, clock, now);
      clock := now;
      while recent != []
        invariant Valid() && clock == now
        decreases |recent|
      {
        if SatAdd(recent[0], policy.windowSecs) <= now {
          OneMoreExpired(slots, dropped, policy.windowSecs, now);
          recent, dropped := recent[1..], dropped + 1;
        } else {
          break;
        }
      }
      PrunedIsLive(slots, dropped, policy.windowSecs, clock, now);
    }

    method CheckRoute(route: string, now: nat) returns (decision: Decision)
      requires Valid() && clock <= now <= U64_MAX
      modifies this
      ensures Valid() && clock == now
      ensures (Abs(), decision) == Check(policy, old(Abs()), route, now)
    {
      if route in cooldownUntil {
        var until := cooldownUntil[route];
        if now < until {
          TimePasses(slots, slots[..dropped], policy.windowSecs, clock, now);
          clock := now;
          return Denied(Cooling, until - now);
        }
        cooldownUntil := cooldownUntil - {route};
      } else {
        assert cooldownUntil - {route} == cooldownUntil;
      }
      decision := ReserveSlot(now);
    }

    method ReserveSlot(now: nat) returns (decision: Decision)
      requires Valid() && clock <= now <= U64_MAX
      modifies this`recent, this`dropped, this`clock, this`slots
      ensures Valid() && clock == now
      ensures (slots, decision) == Reserve(policy, old(slots), now)
    {
      if policy.maxPerWindow.None? {
        TimePasses(slots, slots[..dropped], policy.windowSecs, clock, now);
        clock := now;
        return Admit;
      }
      Prune(now);
      CastKeeps(|recent|);
      // The length is cast to 32 bits before the comparison.
      if policy.maxPerWindow.value <= |recent| % (U32_MAX + 1) {
        return Denied(WindowFull, RetryAfter(SatAdd(recent[0], policy.windowSecs), now));
      }
      AppendKeepsOrder(slots, now);
      assert (slots + [now])[dropped..] == recent + [now];
      assert (slots + [now])[..dropped] == slots[..dropped];
      recent := recent + [now];
      slots := slots + [now];
      return Admit;
    }

    method Failed(route: string, now: nat)
      requires Valid() && clock <= now <= U64_MAX
      modifies this`cooldownUntil, this`clock
      ensures Valid() && clock == now
      ensures Abs() == RecordFailure(policy, old(Abs()), route, now)
    {
      TimePasses(slots, slots[..dropped], policy.windowSecs, clock, now);
      clock := now;
      if policy.cooldownSecs.Some? {
        cooldownUntil := cooldownUntil[route := SatAdd(now, policy.cooldownSecs.value)];
      }
    }

    method Clear(route: string)
      requires Valid()
      modifies this`cooldownUntil
      ensures Valid() && Abs() == ClearRoute(old(Abs()), route)
    {
      cooldownUntil := cooldownUntil - {route};
    }

    method CountInWindow(now: nat) returns (count: nat)
      requires Valid() && clock <= now <= U64_MAX
      modifies this`recent, this`dropped, this`clock
      ensures Valid() && clock == now
      ensures count == |Live(slots, policy.windowSecs, now)| && Abs() == old(Abs())
    {
      Prune(now);
      count := |recent|;
    }
  }

  // ----- runs

  datatype Event =
    | CheckAt(route: string, now: nat)
    | FailedAt(route: string, now: nat)
    | Cleared(route: string)
    | Counted(now: nat)

  function Apply(policy: Policy, s: State, e: Event): State {
    match e
    case CheckAt(route, now) => Check(policy, s, route, now).0
    case FailedAt(route, now) => RecordFailure(policy, s, route, now)
    case Cleared(route) => ClearRoute(s, route)
    case Counted(now) => s
  }

  function Run(policy: Policy, s: State, events: seq<Event>): State {
    if events == [] then s else Apply(policy, Run(policy, s, events[..|events| - 1]), events[|events| - 1])
  }

  /** The clock after the event, when it was `clock` before. */
  function ClockAfter(e: Event, clock: nat): nat {
    if e.Cleared? then clock else e.now
  }

  function FinalClock(events: seq<Event>, clock: nat): nat {
    if events == [] then clock else ClockAfter(events[|events| - 1], FinalClock(events[..|events| - 1], clock))
  }

  /** The event reads a clock that has not gone back and has not reached `limit`. */
  predicate InTime(e: Event, clock: nat, limit: nat) {
    clock <= ClockAfter(e, clock) < limit
  }

  predicate Timely(events: seq<Event>, clock: nat, limit: nat) {
    events == [] || (&& Timely(events[..|events| - 1], clock, limit)
                     && InTime(events[|events| - 1], FinalClock(events[..|events| - 1], clock), limit))
  }

  /** The times at which a run's checks were admitted. */
  function Admits(policy: Policy, s: State, events: seq<Event>): seq<nat> {
    if events == [] then []
    else
      var front, e := events[..|events| - 1], events[|events| - 1];
      Admits(policy, s, front)
      + if e.CheckAt? && Check(policy, Run(policy, s, front), e.route, e.now).1.Admit? then [e.now] else []
  }

  /** How many of the times fall in [from, to). */
  function CountBetween(times: seq<nat>, from: nat, to: nat): nat {
    if times == [] then 0
    else CountBetween(times[..|times| - 1], from, to) + if from <= times[|times| - 1] < to then 1 else 0
  }

  // ----- at most the cap in any window

  /** Any `cap` slots in a row are followed by one at least a window later than the first of them. */
  predicate Spaced(slots: seq<nat>, cap: nat, window: nat) {
    forall i | 0 <= i && i + cap < |slots| :: slots[i] + window <= slots[i + cap]
  }

  ghost predicate Reachable(policy: Policy, s: State, clock: nat) {
    && policy.Valid()
    && InOrder(s.slots, clock)
    && (policy.maxPerWindow.Some? ==> Spaced(s.slots, policy.maxPerWindow.value, policy.windowSecs))
    && (forall route | route in s.cooldown :: policy.cooldownSecs.Some? && s.cooldown[route] <= SatAdd(clock, policy.cooldownSecs.value))
  }

  /** How many slots are live, for slots in order: the last ones. */
  lemma {:induction false} LiveIsSuffix(slots: seq<nat>, window: nat, now: nat)
    requires Ascending(slots)
    ensures var n := |Live(slots, window, now)|;
            && n <= |slots| && Live(slots, window, now) == slots[|slots| - n..]
            && forall i | 0 <= i < |slots| - n :: SatAdd(slots[i], window) <= now
  {
    if slots != [] {
      if SatAdd(slots[0], window) <= now {
        LiveIsSuffix(slots[1..], window, now);
        var n := |Live(slots[1..], window, now)|;
        assert slots[1..][|slots| - 1 - n..] == slots[|slots| - n..];
        forall i | 0 <= i < |slots| - n ensures SatAdd(slots[i], window) <= now {
          assert i == 0 || slots[i] == slots[1..][i - 1];
        }
      } else {
        LiveKeepsUnexpired(slots, window, now);
      }
    }
  }

  lemma ReserveKeepsSpacing(policy: Policy, slots: seq<nat>, clock: nat, now: nat)
    requires policy.Valid() && InOrder(slots, clock) && clock <= now < U64_MAX
    requires policy.maxPerWindow.Some? && Spaced(slots, policy.maxPerWindow.value, policy.windowSecs)
    ensures Spaced(Reserve(policy, slots, now).0, policy.maxPerWindow.value, policy.windowSecs)
  {
    var cap, window, after := policy.maxPerWindow.value, policy.windowSecs, Reserve(policy, slots, now).0;
    LiveIsSuffix(slots, window, now);
    forall i | 0 <= i && i + cap < |after| ensures after[i] + window <= after[i + cap] {
      if after != slots && i + cap == |slots| {
        assert SatAdd(slots[i], window) <= now;
      }
    }
  }

  lemma CheckKeepsReachable(policy: Policy, s: State, route: string, clock: nat, now: nat)
    requires Reachable(policy, s, clock) && clock <= now < U64_MAX
    ensures Reachable(policy, Check(policy, s, route, now).0, now)
  {
    AppendKeepsOrder(s.slots, now);
    if policy.maxPerWindow.Some? {
      ReserveKeepsSpacing(policy, s.slots, clock, now);
    }
  }

  lemma ApplyKeepsReachable(policy: Policy, s: State, e: Event, clock: nat)
    requires Reachable(policy, s, clock) && InTime(e, clock, U64_MAX)
    ensures Reachable(policy, Apply(policy, s, e), ClockAfter(e, clock))
  {
    match e
    case CheckAt(route, now) => CheckKeepsReachable(policy, s, route, clock, now);
    case FailedAt(route, now) =>
    case Cleared(route) =>
    case Counted(now) =>
  }

  lemma {:induction false} RunKeepsReachable(policy: Policy, s: State, events: seq<Event>, clock: nat)
    requires Reachable(policy, s, clock) && Timely(events, clock, U64_MAX)
    ensures Reachable(policy, Run(policy, s, events), FinalClock(events, clock))
  {
    if events != [] {
      var front := events[..|events| - 1];
      RunKeepsReachable(policy, s, front, clock);
      ApplyKeepsReachable(policy, Run(policy, s, front), events[|events| - 1], FinalClock(front, clock));
    }
  }

  lemma {:induction false} SlotsAreAdmits(policy: Policy, s: State, events: seq<Event>)
    requires policy.maxPerWindow.Some?
    ensures Run(policy, s, events).slots == s.slots + Admits(policy, s, events)
  {
    if events != [] {
      SlotsAreAdmits(policy, s, events[..|events| - 1]);
    }
  }

  lemma {:induction false} CountAfterPrefix(times: seq<nat>, from: nat, to: nat, n: nat)
    requires n <= |times| && forall i | 0 <= i < n :: times[i] < from
    ensures CountBetween(times, from, to) <= |times| - n
  {
    if n < |times| {
      CountAfterPrefix(times[..|times| - 1], from, to, n);
    } else if n != 0 {
      CountAfterPrefix(times[..|times| - 1], from, to, n - 1);
    }
  }

  lemma {:induction false} SpacedCount(slots: seq<nat>, cap: nat, window: nat, from: nat)
    requires Ascending(slots) && Spaced(slots, cap, window)
    ensures CountBetween(slots, from, from + window) <= cap
  {
    if slots != [] {
      var front, last := slots[..|slots| - 1], slots[|slots| - 1];
      if from <= last < from + window {
        if cap < |slots| {
          var i := |slots| - 1 - cap;
          assert slots[i] + window <= slots[i + cap];
          CountAfterPrefix(slots, from, from + window, i + 1);
        } else {
          CountAfterPrefix(slots, from, from + window, 0);
        }
      } else {
        SpacedCount(front, cap, window, from);
      }
    }
  }

  /** Over any run with a clock that never goes back, at most the cap is admitted in any span of the
      window's width, wherever the span starts. */
  lemma NeverMoreThanCapInAnyWindow(policy: Policy, events: seq<Event>, from: nat)
    requires policy.Valid() && policy.maxPerWindow.Some? && Timely(events, 0, U64_MAX)
    ensures CountBetween(Admits(policy, FRESH, events), from, from + policy.windowSecs) <= policy.maxPerWindow.value
  {
    AdmitsAreSpaced(policy, events);
    SpacedCount(Admits(policy, FRESH, events), policy.maxPerWindow.value, policy.windowSecs, from);
  }

  lemma AdmitsAreSpaced(policy: Policy, events: seq<Event>)
    requires policy.Valid() && policy.maxPerWindow.Some? && Timely(events, 0, U64_MAX)
    ensures var admits := Admits(policy, FRESH, events);
            Ascending(admits) && Spaced(admits, policy.maxPerWindow.value, policy.windowSecs)
  {
    RunKeepsReachable(policy, FRESH, events, 0);
    SlotsAreAdmits(policy, FRESH, events);
    assert [] + Admits(policy, FRESH, events) == Admits(policy, FRESH, events);
  }

  // ----- the last second of the clock

  /** A run on a 64-bit clock that never goes back. */
  predicate Clocked(events: seq<Event>) {
    Timely(events, 0, U64_MAX + 1)
  }

  lemma {:induction false} ClockedBelow(events: seq<Event>)
    requires Clocked(events) && FinalClock(events, 0) < U64_MAX
    ensures Timely(events, 0, U64_MAX)
  {
    if events != [] {
      ClockedBelow(events[..|events| - 1]);
    }
  }

  lemma {:induction false} SpanBeforeLastSecond(policy: Policy, events: seq<Event>, from: nat)
    requires policy.Valid() && policy.maxPerWindow.Some? && Clocked(events) && from + policy.windowSecs <= U64_MAX
    ensures CountBetween(Admits(policy, FRESH, events), from, from + policy.windowSecs) <= policy.maxPerWindow.value
  {
    if FinalClock(events, 0) < U64_MAX {
      ClockedBelow(events);
      NeverMoreThanCapInAnyWindow(policy, events, from);
    } else if events != [] {
      var front, e := events[..|events| - 1], events[|events| - 1];
      SpanBeforeLastSecond(policy, front, from);
      var admits := Admits(policy, FRESH, front);
      assert admits + [] == admits;
      if !e.Cleared? {
        CountOneMore(admits, e.now, from, from + policy.windowSecs);
      }
    }
  }

  lemma CountOneMore(times: seq<nat>, t: nat, lo: nat, hi: nat)
    ensures CountBetween(times + [t], lo, hi) == CountBetween(times, lo, hi) + if lo <= t < hi then 1 else 0
  {
    assert (times + [t])[..|times|] == times;
  }

  /** `n` checks in the last second. */
  function Burst(n: nat): seq<Event> {
    if n == 0 then [] else Burst(n - 1) + [CheckAt("", U64_MAX)]
  }

  predicate AllInLastSecond(s: State) {
    s.cooldown == map[] && forall t | t in s.slots :: t == U64_MAX
  }

  lemma LastSecondAdmits(policy: Policy, s: State)
    requires policy.Valid() && policy.maxPerWindow.Some? && AllInLastSecond(s)
    ensures var (after, decision) := Check(policy, s, "", U64_MAX); decision.Admit? && AllInLastSecond(after)
  {
    LiveSkipsExpired(s.slots, policy.windowSecs, U64_MAX, |s.slots|);
  }

  lemma OneMoreCheck(policy: Policy, events: seq<Event>)
    requires Clocked(events)
    ensures var (later, e) := (events + [CheckAt("", U64_MAX)], CheckAt("", U64_MAX));
            var (after, decision) := Check(policy, Run(policy, FRESH, events), "", U64_MAX);
            && Clocked(later)
            && Run(policy, FRESH, later) == after
            && Admits(policy, FRESH, later) == Admits(policy, FRESH, events) + if decision.Admit? then [U64_MAX] else []
  {
    hide Check;
    assert (events + [CheckAt("", U64_MAX)])[..|events|] == events;
    ClockWithin(events);
  }

  lemma {:induction false} ClockWithin(events: seq<Event>)
    requires Clocked(events)
    ensures FinalClock(events, 0) <= U64_MAX
  {
    if events != [] {
      ClockWithin(events[..|events| - 1]);
    }
  }

  lemma {:induction false} BurstIsAdmitted(policy: Policy, n: nat, from: nat, to: nat)
    requires policy.Valid() && policy.maxPerWindow.Some? && from <= U64_MAX < to
    ensures Clocked(Burst(n)) && AllInLastSecond(Run(policy, FRESH, Burst(n)))
    ensures CountBetween(Admits(policy, FRESH, Burst(n)), from, to) == n
  {
    hide Check, Run, Admits, Clocked, AllInLastSecond, CountBetween;
    if n == 0 {
      EmptyBurst(policy, from, to);
    } else {
      var front := Burst(n - 1);
      BurstIsAdmitted(policy, n - 1, from, to);
      OneMoreCheck(policy, front);
      LastSecondAdmits(policy, Run(policy, FRESH, front));
      CountOneMore(Admits(policy, FRESH, front), U64_MAX, from, to);
    }
  }

  lemma EmptyBurst(policy: Policy, from: nat, to: nat)
    ensures Clocked(Burst(0)) && AllInLastSecond(Run(policy, FRESH, Burst(0)))
    ensures CountBetween(Admits(policy, FRESH, Burst(0)), from, to) == 0
  {
  }

  /** On every 64-bit clock a span of the window's width is capped, whatever the run, if and only if it
      ends by the last second: in that second every window has already ended, and everything is admitted. */
  lemma CappedSpansExactly(policy: Policy, from: nat)
    requires policy.Valid() && policy.maxPerWindow.Some? && from <= U64_MAX
    ensures (forall events | Clocked(events) ::
               CountBetween(Admits(policy, FRESH, events), from, from + policy.windowSecs) <= policy.maxPerWindow.value)
            <==> from + policy.windowSecs <= U64_MAX
  {
    if from + policy.windowSecs <= U64_MAX {
      forall events | Clocked(events)
        ensures CountBetween(Admits(policy, FRESH, events), from, from + policy.windowSecs) <= policy.maxPerWindow.value
      {
        SpanBeforeLastSecond(policy, events, from);
      }
    } else {
      BurstIsAdmitted(policy, policy.maxPerWindow.value + 1, from, from + policy.windowSecs);
      assert Clocked(Burst(policy.maxPerWindow.value + 1));
    }
  }

  // ----- retry-after is exact

  /** A window denial reserves nothing, and its hint is the first moment a slot frees. */
  lemma WindowDenialHint(policy: Policy, s: State, route: string, clock: nat, now: nat)
    requires Reachable(policy, s, clock) && clock <= now
    requires Check(policy, s, route, now).1.Denied? && Check(policy, s, route, now).1.cause == WindowFull
    ensures var (after, denial) := Check(policy, s, route, now);
            var cap, n := policy.maxPerWindow.value, |s.slots|;
            && after.slots == s.slots && policy.maxPerWindow.Some? && cap <= n
            && now + denial.retryAfter == SatAdd(s.slots[n - cap], policy.windowSecs) && 1 <= denial.retryAfter
  {
    var cap, window, n := policy.maxPerWindow.value, policy.windowSecs, |s.slots|;
    LiveIsSuffix(s.slots, window, now);
    var live := |Live(s.slots, window, now)|;
    if cap < live {
      assert s.slots[n - live] + window <= s.slots[n - live + cap];
    }
    LiveHeadIsUnexpired(s.slots, window, now);
  }

  lemma {:induction false} LiveHeadIsUnexpired(slots: seq<nat>, window: nat, now: nat)
    ensures forall t | t in Live(slots, window, now) :: now < SatAdd(t, window)
  {
    if slots != [] {
      LiveHeadIsUnexpired(slots[1..], window, now);
    }
  }

  /** Every slot history whose slot `cap` places from the end is unexpired keeps the window full. */
  lemma FullUntilOldestExpires(policy: Policy, s: State, route: string, clock: nat, now: nat)
    requires Reachable(policy, s, clock) && policy.maxPerWindow.Some? && policy.maxPerWindow.value <= |s.slots|
    requires !IsCooling(s, route, now)
    ensures var oldest := s.slots[|s.slots| - policy.maxPerWindow.value];
            Check(policy, s, route, now).1.Admit? <==> SatAdd(oldest, policy.windowSecs) <= now
  {
    var cap, window, n := policy.maxPerWindow.value, policy.windowSecs, |s.slots|;
    var live := |Live(s.slots, window, now)|;
    LiveIsSuffix(s.slots, window, now);
    LiveHeadIsUnexpired(s.slots, window, now);
    if cap <= live {
      assert s.slots[n - cap] in Live(s.slots, window, now);
    }
  }

  lemma {:induction false} NoAdmitWhileFull(policy: Policy, s: State, events: seq<Event>, clock: nat, freesAt: nat)
    requires Reachable(policy, s, clock) && policy.maxPerWindow.Some? && policy.maxPerWindow.value <= |s.slots|
    requires freesAt <= SatAdd(s.slots[|s.slots| - policy.maxPerWindow.value], policy.windowSecs)
    requires freesAt <= U64_MAX && Timely(events, clock, freesAt)
    ensures Admits(policy, s, events) == []
    ensures Run(policy, s, events).slots == s.slots
    ensures Reachable(policy, Run(policy, s, events), FinalClock(events, clock))
  {
    if events != [] {
      var front, e := events[..|events| - 1], events[|events| - 1];
      NoAdmitWhileFull(policy, s, front, clock, freesAt);
      var before := Run(policy, s, front);
      ApplyKeepsReachable(policy, before, e, FinalClock(front, clock));
      if e.CheckAt? && !IsCooling(before, e.route, e.now) {
        FullUntilOldestExpires(policy, before, e.route, FinalClock(front, clock), e.now);
      }
    }
  }

  /** After a window denial with hint `r`, whatever happens in between, every check before `now + r`
      is denied, and a check of a route that is not cooling is admitted at `now + r`. */
  lemma WindowHintIsExact(policy: Policy, s: State, route: string, clock: nat, now: nat, events: seq<Event>, other: string)
    requires Reachable(policy, s, clock) && clock <= now < U64_MAX
    requires Check(policy, s, route, now).1.Denied? && Check(policy, s, route, now).1.cause == WindowFull
    requires Timely(events, now, now + Check(policy, s, route, now).1.retryAfter)
    ensures var (after, denial) := Check(policy, s, route, now);
            var freed := now + denial.retryAfter;
            && Admits(policy, after, events) == []
            && (IsCooling(Run(policy, after, events), other, freed)
                || Check(policy, Run(policy, after, events), other, freed).1.Admit?)
  {
    var (after, denial) := Check(policy, s, route, now);
    var freed := now + denial.retryAfter;
    WindowDenialHint(policy, s, route, clock, now);
    CheckKeepsReachable(policy, s, route, clock, now);
    NoAdmitWhileFull(policy, after, events, now, freed);
    var later := Run(policy, after, events);
    if !IsCooling(later, other, freed) {
      FullUntilOldestExpires(policy, later, other, FinalClock(events, now), freed);
    }
  }

  /** Whether the window alone would deny at `now`. */
  predicate WindowFullAt(policy: Policy, s: State, now: nat) {
    policy.maxPerWindow.Some? && policy.maxPerWindow.value <= |Live(s.slots, policy.windowSecs, now)|
  }

  /** A route checked again exactly as advised, with nothing in between, is denied if and only if it was
      cooling and the window is full when its cooldown ends: a cooldown's advice does not look at the
      window, while a full window's advice always suffices. */
  lemma AdviceSuffices(policy: Policy, s: State, route: string, clock: nat, now: nat)
    requires Reachable(policy, s, clock) && clock <= now < U64_MAX
    requires Check(policy, s, route, now).1.Denied?
    ensures var (after, denial) := Check(policy, s, route, now);
            var again := now + denial.retryAfter;
            Check(policy, after, route, again).1.Denied? <==> IsCooling(s, route, now) && WindowFullAt(policy, s, again)
  {
    if !IsCooling(s, route, now) {
      WindowHintIsExact(policy, s, route, clock, now, [], route);
    }
  }

  /** Whether a failure at `now` still holds its route back at `later`. */
  predicate HeldBack(policy: Policy, now: nat, later: nat) {
    policy.cooldownSecs.Some? && later < SatAdd(now, policy.cooldownSecs.value)
  }

  /** After an admitted check fails, the route is denied at a later moment if and only if the cooldown
      that the failure started is not over or the window is full then. */
  lemma AfterFailure(policy: Policy, s: State, route: string, now: nat, later: nat)
    requires Check(policy, s, route, now).1.Admit?
    ensures var failed := RecordFailure(policy, Check(policy, s, route, now).0, route, now);
            Check(policy, failed, route, later).1.Denied? <==> HeldBack(policy, now, later) || WindowFullAt(policy, failed, later)
  {
  }

  // ----- cooldowns

  /** A cooling route stays denied until its expiry, or until it is cleared. */
  lemma {:induction false} CoolingUntilExpiry(policy: Policy, s: State, route: string, clock: nat, events: seq<Event>)
    requires Reachable(policy, s, clock) && IsCooling(s, route, clock)
    requires Timely(events, clock, s.cooldown[route]) && Cleared(route) !in events
    ensures var after := Run(policy, s, events);
            && route in after.cooldown && s.cooldown[route] <= after.cooldown[route]
            && Reachable(policy, after, FinalClock(events, clock))
            && clock <= FinalClock(events, clock)
    ensures forall i | 0 <= i < |events| && events[i].CheckAt? && events[i].route == route ::
              Check(policy, Run(policy, s, events[..i]), route, events[i].now).1.Denied?
  {
    if events != [] {
      var front, e := events[..|events| - 1], events[|events| - 1];
      CoolingUntilExpiry(policy, s, route, clock, front);
      var before := Run(policy, s, front);
      ApplyKeepsReachable(policy, before, e, FinalClock(front, clock));
      assert e in events;
      forall i | 0 <= i < |events| && events[i].CheckAt? && events[i].route == route
        ensures Check(policy, Run(policy, s, events[..i]), route, events[i].now).1.Denied?
      {
        if i < |front| {
          assert front[i] == events[i] && front[..i] == events[..i];
        }
      }
    }
  }

  /** A cooldown denial leaves everything as it is, and its hint is exact: at least a second, with the
      route still cooling a second before it has passed and no longer once it has. */
  lemma CoolingHintIsExact(policy: Policy, s: State, route: string, now: nat)
    requires Check(policy, s, route, now).1.Denied? && Check(policy, s, route, now).1.cause == Cooling
    ensures var (after, denial) := Check(policy, s, route, now);
            && after == s && 1 <= denial.retryAfter
            && IsCooling(s, route, now + denial.retryAfter - 1) && !IsCooling(s, route, now + denial.retryAfter)
  {
  }

  /** After a cooldown denial with hint `r`, whatever happens in between, no check of the route before
      `now + r` is admitted without a clear. */
  lemma NoAdmitWhileCooling(policy: Policy, s: State, route: string, clock: nat, now: nat, events: seq<Event>)
    requires Reachable(policy, s, clock) && clock <= now
    requires Check(policy, s, route, now).1.Denied? && Check(policy, s, route, now).1.cause == Cooling
    requires Timely(events, now, now + Check(policy, s, route, now).1.retryAfter) && Cleared(route) !in events
    ensures forall i | 0 <= i < |events| && events[i].CheckAt? && events[i].route == route ::
              Check(policy, Run(policy, s, events[..i]), route, events[i].now).1.Denied?
  {
    CoolingUntilExpiry(policy, s, route, now, events);
  }

  /** The event neither fails nor clears the route. */
  predicate LeavesCooldown(e: Event, route: string) {
    match e
    case FailedAt(other, _) => other != route
    case Cleared(other) => other != route
    case _ => true
  }

  lemma {:induction false} ExpiryIsKept(policy: Policy, s: State, route: string, failedAt: nat, events: seq<Event>, now: nat)
    requires policy.cooldownSecs.Some? && forall e | e in events :: LeavesCooldown(e, route)
    ensures var expiry := SatAdd(failedAt, policy.cooldownSecs.value);
            var after := Run(policy, RecordFailure(policy, s, route, failedAt), events);
            && (route in after.cooldown ==> after.cooldown[route] == expiry)
            && (Timely(events, failedAt, now + 1) && now < expiry ==> route in after.cooldown)
  {
    if events != [] {
      var front, e := events[..|events| - 1], events[|events| - 1];
      assert e in events;
      ExpiryIsKept(policy, s, route, failedAt, front, now);
    }
  }

  /** Until the next failure or clear of a route that failed at `failedAt`, a check of it is denied for
      the cooldown exactly while the configured time since the failure has not passed, and the hint leads
      exactly to the moment it has. */
  lemma CooldownRunsFromFailure(policy: Policy, s: State, route: string, failedAt: nat, events: seq<Event>, now: nat)
    requires policy.cooldownSecs.Some? && forall e | e in events :: LeavesCooldown(e, route)
    requires Timely(events, failedAt, now + 1)
    ensures var expiry := SatAdd(failedAt, policy.cooldownSecs.value);
            var decision := Check(policy, Run(policy, RecordFailure(policy, s, route, failedAt), events), route, now).1;
            && (decision.Denied? && decision.cause == Cooling <==> now < expiry)
            && (decision.Denied? && decision.cause == Cooling ==> now + decision.retryAfter == expiry)
  {
    ExpiryIsKept(policy, s, route, failedAt, events, now);
  }
}
