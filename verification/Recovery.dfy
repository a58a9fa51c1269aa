/** What to do after a failed dispatch: retry after a backoff a bounded number of times, then hand
    over to a human. */
module Recovery {
  import opened Numbers
  import opened Text

  datatype FailureKind =
    | KernelFailed | KernelFatal | DeadlineExceeded | IdleTimeout | LoopTripped | Malformed | ContentRejected
    | ApprovalRequired | AuthorityDenied | TargetDenied | SingleFlightDenied | Quarantined
  {
    predicate IsRetryable() {
      KernelFailed? || DeadlineExceeded? || IdleTimeout?
    }
  }

  const FATAL_PATTERNS: seq<string> := [
    "unauthorized", "forbidden", "permission denied", "access denied", "authentication failed",
    "invalid credentials", "invalid api key", "missing api key", "no api key", "401", "403"]

  /** A message with any fatal pattern is fatal, whatever else it says. */
  function ClassifyKernelError(message: string): FailureKind {
    if exists p | p in FATAL_PATTERNS :: Contains(Lower(message), p) then KernelFatal else KernelFailed
  }

  /** Fatal takes precedence: nothing written around a fatal message, in any letter case, makes it
      retryable again. */
  lemma FatalStaysFatal(before: string, message: string, after: string)
    requires ClassifyKernelError(message).KernelFatal?
    ensures ClassifyKernelError(before + message + after).KernelFatal?
    ensures ClassifyKernelError(Lower(message)).KernelFatal?
  {
    var p :| p in FATAL_PATTERNS && Contains(Lower(message), p);
    LowerJoins(before, message);
    LowerJoins(before + message, after);
    OccursInPart(Lower(before), Lower(message), Lower(after), p);
    LowerTwice(message);
  }

  lemma LowerTwice(message: string)
    ensures Lower(Lower(message)) == Lower(message)
  {
    forall i | 0 <= i < |message| ensures LowerChar(LowerChar(message[i])) == LowerChar(message[i]) {
      LowerKeepsWhitespace(message[i]);
    }
  }

  datatype Verb = Retry | Escalate

  datatype Directive = Directive(action: Verb, attempt: nat, maxRetries: nat, backoffSecs: nat)

  function Pow2(n: nat): (p: nat)
    ensures 1 <= p
  {
    if n == 0 then 1 else 2 * Pow2(n - 1)
  }

  datatype Policy = Policy(maxRetries: nat, baseBackoffSecs: nat) {
    predicate Valid() {
      maxRetries <= U32_MAX && 1 <= baseBackoffSecs <= U64_MAX
    }

    /** The base doubled once per earlier attempt, at most sixteen times, saturating. */
    function BackoffFor(attempt: nat): nat {
      var shift := if attempt == 0 then 0 else if 16 < attempt - 1 then 16 else attempt - 1;
      Clip(baseBackoffSecs * Pow2(shift))
    }

    /** The directive for a failure that follows `attempts` retryable ones. */
    function DirectiveAfter(attempts: nat, kind: FailureKind): Directive {
      if !kind.IsRetryable() then Directive(Escalate, 0, maxRetries, 0)
      else if attempts + 1 <= maxRetries then Directive(Retry, attempts + 1, maxRetries, BackoffFor(attempts + 1))
      else Directive(Escalate, attempts + 1, maxRetries, 0)
    }
  }

  function NewPolicy(maxRetries: nat, baseBackoffSecs: nat): (policy: Policy)
    requires maxRetries <= U32_MAX && baseBackoffSecs <= U64_MAX
    ensures policy.Valid()
    ensures policy.maxRetries == maxRetries
    ensures 0 < baseBackoffSecs ==> policy.baseBackoffSecs == baseBackoffSecs
    ensures baseBackoffSecs == 0 ==> policy.baseBackoffSecs == 1
  {
    Policy(maxRetries, if baseBackoffSecs == 0 then 1 else baseBackoffSecs)
  }

  // ----- the history of one ledger

  datatype Event = Decided(fp: string, kind: FailureKind) | Cleared(fp: string)

  /** Retryable failures of `fp` since it was last cleared. */
  function Attempts(history: seq<Event>, fp: string): nat {
    if history == [] then 0
    else
      var before, last := Attempts(history[..|history| - 1], fp), history[|history| - 1];
      if last.fp != fp then before
      else
        match last
        case Cleared(_) => 0
        case Decided(_, kind) => if kind.IsRetryable() then before + 1 else before
  }

  lemma CountsAfter(history: seq<Event>, fp: string)
    ensures forall other :: Attempts(history + [Cleared(fp)], other) == if other == fp then 0 else Attempts(history, other)
    ensures forall other, kind :: Attempts(history + [Decided(fp, kind)], other)
                                  == Attempts(history, other) + if other == fp && kind.IsRetryable() then 1 else 0
  {
    assert (history + [Cleared(fp)])[..|history|] == history;
    assert forall kind :: (history + [Decided(fp, kind)])[..|history|] == history;
  }

  class RetryLedger {
    var attempts: map<string, nat>
    ghost var history: seq<Event>

    ghost predicate Valid()
      reads this
    {
      forall fp :: (if fp in attempts then attempts[fp] else 0) == Attempts(history, fp)
    }

    constructor ()
      ensures Valid() && history == []
    {
      attempts, history := map[], [];
    }

    /** The counter is 32 bits wide, so a fingerprint must stay below its maximum. */
    method Decide(policy: Policy, fp: string, kind: FailureKind) returns (directive: Directive)
      requires Valid() && (kind.IsRetryable() ==> Attempts(history, fp) < U32_MAX)
      modifies this
      ensures Valid() && history == old(history) + [Decided(fp, kind)]
      ensures directive == policy.DirectiveAfter(Attempts(old(history), fp), kind)
      ensures !kind.IsRetryable() ==> attempts == old(attempts)
    {
      ghost var before := history;
      history := history + [Decided(fp, kind)];
      assert history[..|history| - 1] == before;
      if !kind.IsRetryable() {
        return Directive(Escalate, 0, policy.maxRetries, 0);
      }
      var attempt := (if fp in attempts then attempts[fp] else 0) + 1;
      attempts := attempts[fp := attempt];
      if attempt <= policy.maxRetries {
        directive := Directive(Retry, attempt, policy.maxRetries, policy.BackoffFor(attempt));
      } else {
        directive := Directive(Escalate, attempt, policy.maxRetries, 0);
      }
    }

    method Clear(fp: string)
      requires Valid()
      modifies this
      ensures Valid() && history == old(history) + [Cleared(fp)]
    {
      ghost var before := history;
      history := history + [Cleared(fp)];
      assert history[..|history| - 1] == before;
      attempts := attempts - {fp};
    }
  }

  // ----- over any run

  /** Retry directives issued for `fp` since it was last cleared. */
  function RetriesIssued(policy: Policy, history: seq<Event>, fp: string): nat {
    if history == [] then 0
    else
      var front, last := history[..|history| - 1], history[|history| - 1];
      if last.fp != fp then RetriesIssued(policy, front, fp)
      else
        match last
        case Cleared(_) => 0
        case Decided(_, kind) =>
          RetriesIssued(policy, front, fp)
          + if policy.DirectiveAfter(Attempts(front, fp), kind).action == Retry then 1 else 0
  }

  /** Between clears exactly the first `maxRetries` retryable failures are retried; the rest, and
      every other kind of failure, escalate. */
  lemma {:induction false} RetriesAreTheFirstFailures(policy: Policy, history: seq<Event>, fp: string)
    ensures RetriesIssued(policy, history, fp)
            == if Attempts(history, fp) <= policy.maxRetries then Attempts(history, fp) else policy.maxRetries
  {
    if history != [] {
      RetriesAreTheFirstFailures(policy, history[..|history| - 1], fp);
    }
  }

  /** Once a retryable failure escalates, none is retried again until the fingerprint is cleared. */
  lemma {:induction false} EscalationIsFinal(policy: Policy, history: seq<Event>, later: seq<Event>, fp: string, kind: FailureKind)
    requires policy.maxRetries <= Attempts(history, fp) && Cleared(fp) !in later
    ensures policy.maxRetries <= Attempts(history + later, fp)
    ensures policy.DirectiveAfter(Attempts(history + later, fp), kind).action == Escalate
    decreases |later|
  {
    if later == [] {
      assert history + later == history;
    } else {
      var front := later[..|later| - 1];
      assert later[|later| - 1] in later;
      EscalationIsFinal(policy, history, front, fp, kind);
      assert (history + later)[..|history + later| - 1] == history + front;
    }
  }

  /** Events of other fingerprints never matter. */
  lemma {:induction false} FingerprintsAreIndependent(history: seq<Event>, others: seq<Event>, fp: string)
    requires forall e | e in others :: e.fp != fp
    ensures Attempts(history + others, fp) == Attempts(history, fp)
    decreases |others|
  {
    if others == [] {
      assert history + others == history;
    } else {
      assert others[|others| - 1] in others;
      FingerprintsAreIndependent(history, others[..|others| - 1], fp);
      assert (history + others)[..|history + others| - 1] == history + others[..|others| - 1];
    }
  }

  // ----- the backoff

  /** From one attempt to the next the wait doubles, up to saturation, until attempt 17, and then
      stays; the first wait is the base. */
  lemma BackoffDoublesThenStays(policy: Policy, attempt: nat)
    requires policy.Valid() && 1 <= attempt
    ensures policy.BackoffFor(1) == policy.baseBackoffSecs
    ensures attempt < 17 ==> policy.BackoffFor(attempt + 1)
                             == Clip(2 * policy.BackoffFor(attempt))
    ensures 17 <= attempt ==> policy.BackoffFor(attempt) == policy.BackoffFor(17)
    ensures policy.baseBackoffSecs <= policy.BackoffFor(attempt) <= policy.BackoffFor(attempt + 1) <= U64_MAX
  {
    var shift := if 16 < attempt - 1 then 16 else attempt - 1;
    ProductDoubles(policy.baseBackoffSecs, shift);
  }

  lemma ProductDoubles(base: nat, shift: nat)
    ensures base * Pow2(shift + 1) == 2 * (base * Pow2(shift))
    ensures base <= base * Pow2(shift)
  {
    var p := Pow2(shift);
    assert base * (2 * p) == 2 * (base * p);
    assert base * (p - 1) >= 0;
  }

  // ----- the directives of any run

  /** The directives issued for `fp` since it was last cleared, with the kinds they answered. */
  function Issued(policy: Policy, history: seq<Event>, fp: string): seq<(FailureKind, Directive)> {
    if history == [] then []
    else
      var front, last := history[..|history| - 1], history[|history| - 1];
      if last.fp != fp then Issued(policy, front, fp)
      else
        match last
        case Cleared(_) => []
        case Decided(_, kind) => Issued(policy, front, fp) + [(kind, policy.DirectiveAfter(Attempts(front, fp), kind))]
  }

  /** How many of the first `n` directives answered a retryable failure. */
  function RetryableBefore(issued: seq<(FailureKind, Directive)>, n: nat): nat
    requires n <= |issued|
  {
    if n == 0 then 0 else RetryableBefore(issued, n - 1) + if issued[n - 1].0.IsRetryable() then 1 else 0
  }

  /** The wait for each attempt: the base, then doubled once per attempt up to the seventeenth. */
  function WaitFor(base: nat, attempt: nat): nat
    requires 1 <= attempt
  {
    if attempt == 1 then base else if attempt <= 17 then Clip(2 * WaitFor(base, attempt - 1)) else WaitFor(base, 17)
  }

  lemma {:induction false} BackoffIsWait(policy: Policy, attempt: nat)
    requires policy.Valid() && 1 <= attempt
    ensures policy.BackoffFor(attempt) == WaitFor(policy.baseBackoffSecs, attempt)
    decreases attempt
  {
    BackoffDoublesThenStays(policy, attempt);
    if 1 < attempt <= 17 {
      BackoffIsWait(policy, attempt - 1);
      BackoffDoublesThenStays(policy, attempt - 1);
    } else if 17 < attempt {
      BackoffIsWait(policy, 17);
    }
  }

  /** What a directive says: a retryable failure carries its number; up to the maximum it is retried
      after that attempt's wait, later it escalates; any other failure escalates uncounted. */
  predicate SaysRight(policy: Policy, kind: FailureKind, n: nat, d: Directive) {
    && d.maxRetries == policy.maxRetries
    && (kind in {KernelFailed, DeadlineExceeded, IdleTimeout} ==>
          && d.attempt == n + 1
          && (if n < policy.maxRetries then d.action == Retry && d.backoffSecs == WaitFor(policy.baseBackoffSecs, n + 1)
              else d.action == Escalate && d.backoffSecs == 0))
    && (kind !in {KernelFailed, DeadlineExceeded, IdleTimeout} ==> d.action == Escalate && d.attempt == 0 && d.backoffSecs == 0)
  }

  lemma DirectiveSaysRight(policy: Policy, kind: FailureKind, n: nat)
    requires policy.Valid()
    ensures SaysRight(policy, kind, n, policy.DirectiveAfter(n, kind))
  {
    BackoffIsWait(policy, n + 1);
  }

  /** Over any run, every directive issued since the last clear says what its place among the retryable
      failures demands, so the waits issued start at the base and double. */
  lemma {:induction false} DirectivesFollowAttempts(policy: Policy, history: seq<Event>, fp: string)
    requires policy.Valid()
    ensures AllSayRight(policy, Issued(policy, history, fp), Attempts(history, fp))
  {
    hide AllSayRight;
    if history == [] {
      NoneSayRight(policy);
    } else {
      var front, last := history[..|history| - 1], history[|history| - 1];
      DirectivesFollowAttempts(policy, front, fp);
      NoneSayRight(policy);
      if last.Decided? && last.fp == fp {
        var n := Attempts(front, fp);
        DirectiveSaysRight(policy, last.kind, n);
        OneMoreSaysRight(policy, Issued(policy, front, fp), n, last.kind, policy.DirectiveAfter(n, last.kind));
      }
    }
  }

  /** The directives answered `n` retryable failures, and each says what its place demands. */
  predicate AllSayRight(policy: Policy, issued: seq<(FailureKind, Directive)>, n: nat) {
    && RetryableBefore(issued, |issued|) == n
    && forall i | 0 <= i < |issued| :: SaysRight(policy, issued[i].0, RetryableBefore(issued, i), issued[i].1)
  }

  lemma NoneSayRight(policy: Policy)
    ensures AllSayRight(policy, [], 0)
  {
  }

  lemma OneMoreSaysRight(policy: Policy, issued: seq<(FailureKind, Directive)>, n: nat, kind: FailureKind, d: Directive)
    requires AllSayRight(policy, issued, n) && SaysRight(policy, kind, n, d)
    ensures AllSayRight(policy, issued + [(kind, d)], if kind.IsRetryable() then n + 1 else n)
  {
    hide SaysRight, FailureKind.IsRetryable;
    var more := issued + [(kind, d)];
    CountOfOneMore(issued, (kind, d));
    forall i | 0 <= i < |more| ensures SaysRight(policy, more[i].0, RetryableBefore(more, i), more[i].1) {
      hide RetryableBefore;
      RetryableOfPrefix(issued, (kind, d), i);
      if i < |issued| {
        assert more[i] == issued[i];
      }
    }
  }

  lemma CountOfOneMore(issued: seq<(FailureKind, Directive)>, answer: (FailureKind, Directive))
    ensures RetryableBefore(issued + [answer], |issued| + 1)
            == RetryableBefore(issued, |issued|) + if answer.0.IsRetryable() then 1 else 0
  {
    RetryableOfPrefix(issued, answer, |issued|);
  }

  lemma {:induction false} RetryableOfPrefix(issued: seq<(FailureKind, Directive)>, answer: (FailureKind, Directive), n: nat)
    requires n <= |issued|
    ensures RetryableBefore(issued + [answer], n) == RetryableBefore(issued, n)
  {
    if n != 0 {
      RetryableOfPrefix(issued, answer, n - 1);
    }
  }

  // ----- which errors are fatal

  /** The word stands at position `i`, in any letter case. */
  predicate SaysAt(message: string, word: string, i: nat) {
    i + |word| <= |message| && EqualsIgnoringCase(message[i..i + |word|], word)
  }

  predicate Says(message: string, word: string) {
    exists i: nat | i <= |message| :: SaysAt(message, word, i)
  }

  lemma SaysIsContains(message: string, word: string)
    requires Lower(word) == word
    ensures Contains(Lower(message), word) <==> Says(message, word)
  {
    forall i: nat | i <= |message| ensures OccursAt(Lower(message), word, i) <==> SaysAt(message, word, i) {
      if i + |word| <= |message| {
        assert Lower(message)[i..i + |word|] == Lower(message[i..i + |word|]);
      }
    }
  }

  /** A text without capitals is its own lower case. */
  lemma NoCapitalsIsLower(s: string)
    requires forall c | c in s :: !('A' <= c <= 'Z')
    ensures Lower(s) == s
  {
    assert forall i | 0 <= i < |s| :: s[i] in s;
  }

  lemma AccessPatternsAreLower()
    ensures Lower("unauthorized") == "unauthorized" && Lower("forbidden") == "forbidden"
    ensures Lower("permission denied") == "permission denied" && Lower("access denied") == "access denied"
    ensures Lower("401") == "401" && Lower("403") == "403"
  {
    hide Lower;
    NoCapitalsIsLower("unauthorized");
    NoCapitalsIsLower("forbidden");
    NoCapitalsIsLower("permission denied");
    NoCapitalsIsLower("access denied");
    NoCapitalsIsLower("401");
    NoCapitalsIsLower("403");
  }

  lemma CredentialPatternsAreLower()
    ensures Lower("authentication failed") == "authentication failed" && Lower("invalid credentials") == "invalid credentials"
    ensures Lower("invalid api key") == "invalid api key" && Lower("missing api key") == "missing api key"
    ensures Lower("no api key") == "no api key"
  {
    hide Lower;
    NoCapitalsIsLower("authentication failed");
    NoCapitalsIsLower("invalid credentials");
    NoCapitalsIsLower("invalid api key");
    NoCapitalsIsLower("missing api key");
    NoCapitalsIsLower("no api key");
  }

  /** A message is fatal if and only if it says one of these, in any letter case; every other kernel
      error is transient. */
  lemma FatalExactly(message: string)
    ensures ClassifyKernelError(message).KernelFatal? <==>
              || Says(message, "unauthorized") || Says(message, "forbidden") || Says(message, "permission denied")
              || Says(message, "access denied") || Says(message, "authentication failed")
              || Says(message, "invalid credentials") || Says(message, "invalid api key")
              || Says(message, "missing api key") || Says(message, "no api key") || Says(message, "401") || Says(message, "403")
    ensures ClassifyKernelError(message).KernelFatal? || ClassifyKernelError(message).KernelFailed?
  {
    hide Says, Contains, Lower, FATAL_PATTERNS;
    AccessPatternsAreLower();
    CredentialPatternsAreLower();
    PatternsAreThese();
    forall p | p in FATAL_PATTERNS ensures Contains(Lower(message), p) <==> Says(message, p) {
      SaysIsContains(message, p);
    }
  }

  lemma PatternsAreThese()
    ensures forall p :: p in FATAL_PATTERNS <==>
              || p == "unauthorized" || p == "forbidden" || p == "permission denied" || p == "access denied"
              || p == "authentication failed" || p == "invalid credentials" || p == "invalid api key"
              || p == "missing api key" || p == "no api key" || p == "401" || p == "403"
  {
  }
}
