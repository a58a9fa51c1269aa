/** Latching a fingerprint that keeps failing, until it is cleared or everything is released. */
module Quarantine {
  import opened Numbers

  datatype Event = Failure(fp: string) | Clear(fp: string) | ReleaseAll

  /** Failures of `fp` since it was last cleared or released. */
  function Failures(history: seq<Event>, fp: string): nat {
    if history == [] then 0
    else
      var before := Failures(history[..|history| - 1], fp);
      match history[|history| - 1]
      case Failure(other) => if other == fp then before + 1 else before
      case Clear(other) => if other == fp then 0 else before
      case ReleaseAll => 0
  }

  lemma CountsAfter(history: seq<Event>, fp: string)
    ensures forall other :: Failures(history + [Failure(fp)], other) == Failures(history, other) + if other == fp then 1 else 0
    ensures forall other :: Failures(history + [Clear(fp)], other) == if other == fp then 0 else Failures(history, other)
  {
    assert (history + [Failure(fp)])[..|history|] == history;
    assert (history + [Clear(fp)])[..|history|] == history;
  }

  /** A threshold of zero turns quarantine off. */
  predicate IsQuarantined(threshold: nat, history: seq<Event>, fp: string) {
    0 < threshold && threshold <= Failures(history, fp)
  }

  /** The counts and the latched set of one ledger under one policy. A policy that is off records
      nothing. */
  class QuarantineLedger {
    const threshold: nat
    var failures: map<string, nat>
    var quarantined: set<string>
    ghost var history: seq<Event>

    ghost predicate Counted()
      reads this
    {
      forall fp :: (if fp in failures then failures[fp] else 0) == Failures(history, fp)
    }

    ghost predicate Latched()
      reads this
    {
      forall fp :: fp in quarantined <==> IsQuarantined(threshold, history, fp)
    }

    ghost predicate Valid()
      reads this
    {
      Counted() && Latched()
    }

    constructor (threshold: nat)
      ensures Valid() && history == [] && this.threshold == threshold
    {
      this.threshold := threshold;
      failures, quarantined, history := map[], {}, [];
    }

    /** The counter is 32 bits wide, so a fingerprint must stay below its maximum. */
    method RecordFailure(fp: string) returns (count: nat)
      requires Counted() && Failures(history, fp) < U32_MAX
      modifies this`failures, this`history
      ensures Counted() && history == old(history) + [Failure(fp)]
      ensures count == Failures(history, fp)
    {
      CountsAfter(history, fp);
      history := history + [Failure(fp)];
      count := (if fp in failures then failures[fp] else 0) + 1;
      failures := failures[fp := count];
    }

    /** True exactly when this failure is the one that latches. */
    method OnFailure(fp: string) returns (latched: bool)
      requires Valid() && (0 < threshold ==> Failures(history, fp) < U32_MAX)
      modifies this
      ensures Valid()
      ensures history == if 0 < threshold then old(history) + [Failure(fp)] else old(history)
      ensures latched <==> 0 < threshold && Failures(history, fp) == threshold
    {
      if threshold == 0 {
        return false;
      }
      CountsAfter(history, fp);
      var count := RecordFailure(fp);
      if threshold <= count && fp !in quarantined {
        quarantined := quarantined + {fp};
        return true;
      }
      return false;
    }

    method ClearFingerprint(fp: string)
      requires Valid()
      modifies this
      ensures Valid() && history == old(history) + [Clear(fp)]
    {
      CountsAfter(history, fp);
      history := history + [Clear(fp)];
      failures := failures - {fp};
      quarantined := quarantined - {fp};
    }

    method Release()
      requires Valid()
      modifies this
      ensures Valid() && history == old(history) + [ReleaseAll]
    {
      ghost var before := history;
      history := history + [ReleaseAll];
      assert history[..|history| - 1] == before;
      failures := map[];
      quarantined := {};
    }
  }

  predicate Resets(e: Event, fp: string) {
    e == Clear(fp) || e.ReleaseAll?
  }

  /** Without a reset the count only grows by the failures of this fingerprint, so a latched one
      stays latched. */
  lemma {:induction false} StaysQuarantined(threshold: nat, history: seq<Event>, later: seq<Event>, fp: string)
    requires forall e | e in later :: !Resets(e, fp)
    ensures Failures(history, fp) <= Failures(history + later, fp)
    ensures IsQuarantined(threshold, history, fp) ==> IsQuarantined(threshold, history + later, fp)
    decreases |later|
  {
    if later == [] {
      assert history + later == history;
    } else {
      assert later[|later| - 1] in later;
      StaysQuarantined(threshold, history, later[..|later| - 1], fp);
      assert (history + later)[..|history + later| - 1] == history + later[..|later| - 1];
    }
  }

  /** The failures that latch `fp` since its last reset. */
  function Latches(threshold: nat, history: seq<Event>, fp: string): nat {
    if history == [] then 0
    else
      var front, last := history[..|history| - 1], history[|history| - 1];
      if Resets(last, fp) then 0
      else Latches(threshold, front, fp) + if last == Failure(fp) && Failures(history, fp) == threshold then 1 else 0
  }

  /** The latching edge is reported once per period: exactly when the fingerprint is quarantined. */
  lemma {:induction false} LatchesOncePerPeriod(threshold: nat, history: seq<Event>, fp: string)
    ensures Latches(threshold, history, fp) == if IsQuarantined(threshold, history, fp) then 1 else 0
  {
    if history != [] {
      LatchesOncePerPeriod(threshold, history[..|history| - 1], fp);
    }
  }

  /** Events on other fingerprints, release aside, never matter. */
  lemma {:induction false} FingerprintsAreIndependent(history: seq<Event>, others: seq<Event>, fp: string)
    requires forall e | e in others :: !e.ReleaseAll? && e.fp != fp
    ensures Failures(history + others, fp) == Failures(history, fp)
    decreases |others|
  {
    if others == [] {
      assert history + others == history;
    } else {
      assert others[|others| - 1] in others;
      FingerprintsAreIndependent(history, others[..|others| - 1], fp);
      assert (history + others)[..|history + others| - 1] == history + others[..|others| - 1];
    }
  }
}
