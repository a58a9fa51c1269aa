/** The loop breaker: a bounded history that trips when one fingerprint recurs too often in it. */
module LoopGuard {
  import opened LabelCounts

  datatype Verdict = Pass | Trip(count: nat)

  datatype Limits = Limits(window: nat, threshold: nat) {
    predicate Valid() {
      1 <= threshold <= window
    }
  }

  /** The window is at least one, and the threshold is clamped into it. */
  function NewLimits(window: nat, threshold: nat): (limits: Limits)
    ensures limits.Valid()
    ensures 1 <= threshold <= window ==> limits == Limits(window, threshold)
  {
    var w := if window == 0 then 1 else window;
    Limits(w, if threshold == 0 then 1 else if w < threshold then w else threshold)
  }

  /** The last `window` fingerprints of the whole history. */
  function Recent(history: seq<string>, window: nat): seq<string> {
    if |history| <= window then history else history[|history| - window..]
  }

  /** The verdict on the newest fingerprint of a history. */
  function VerdictOn(limits: Limits, history: seq<string>): Verdict
    requires history != []
  {
    var count := CountOf(Recent(history, limits.window), history[|history| - 1]);
    if limits.threshold <= count then Trip(count) else Pass
  }

  /** One more fingerprint pushes at most the oldest one out. */
  lemma SlidesByOne(history: seq<string>, window: nat, fp: string)
    requires 1 <= window
    ensures var longer := Recent(history, window) + [fp];
            Recent(history + [fp], window) == if window < |longer| then longer[1..] else longer
  {
  }

  class Guard {
    const limits: Limits
    var recent: seq<string>
    ghost var history: seq<string>

    ghost predicate Valid()
      reads this
    {
      limits.Valid() && recent == Recent(history, limits.window)
    }

    constructor (window: nat, threshold: nat)
      ensures Valid() && history == [] && limits == NewLimits(window, threshold)
    {
      limits := NewLimits(window, threshold);
      recent, history := [], [];
    }

    /** Records the observation whatever the verdict, then counts it with the rest. */
    method Observe(fp: string) returns (verdict: Verdict)
      requires Valid()
      modifies this
      ensures Valid() && history == old(history) + [fp]
      ensures verdict == VerdictOn(limits, history)
    {
      SlidesByOne(history, limits.window, fp);
      recent := recent + [fp];
      if limits.window < |recent| {
        recent := recent[1..];
      }
      history := history + [fp];
      var count := 0;
      for i := 0 to |recent|
        invariant count == CountOf(recent[..i], fp)
      {
        assert recent[..i + 1][..i] == recent[..i];
        if recent[i] == fp {
          count := count + 1;
        }
      }
      assert recent[..|recent|] == recent;
      verdict := if limits.threshold <= count then Trip(count) else Pass;
    }
  }

  // ----- counting

  lemma {:induction false} CountJoin(a: seq<string>, b: seq<string>, fp: string)
    ensures CountOf(a + b, fp) == CountOf(a, fp) + CountOf(b, fp)
  {
    if b == [] {
      assert a + b == a;
    } else {
      assert (a + b)[..|a + b| - 1] == a + b[..|b| - 1];
      CountJoin(a, b[..|b| - 1], fp);
    }
  }

  lemma {:induction false} CountAbsent(fps: seq<string>, fp: string)
    requires fp !in fps
    ensures CountOf(fps, fp) == 0
  {
    if fps != [] {
      CountAbsent(fps[..|fps| - 1], fp);
    }
  }

  /** A longer stretch holds at least as many. */
  lemma CountInStretch(fps: seq<string>, lo: nat, hi: nat, wider: nat, fp: string)
    requires wider <= lo <= hi <= |fps|
    ensures CountOf(fps[lo..hi], fp) <= CountOf(fps[wider..hi], fp)
  {
    assert fps[wider..hi] == fps[wider..lo] + fps[lo..hi];
    CountJoin(fps[wider..lo], fps[lo..hi], fp);
  }

  // ----- what the breaker guarantees

  /** The observation at position `i` of a history was let through. */
  predicate Passed(limits: Limits, history: seq<string>, i: nat)
    requires i < |history|
  {
    VerdictOn(limits, history[..i + 1]).Pass?
  }

  /** How many observations of `fp` at positions in [lo, hi) were let through. */
  function PassedCount(limits: Limits, history: seq<string>, fp: string, lo: nat, hi: nat): nat
    requires lo <= hi <= |history|
    decreases hi
  {
    if lo == hi then 0
    else
      PassedCount(limits, history, fp, lo, hi - 1)
      + if history[hi - 1] == fp && Passed(limits, history, hi - 1) then 1 else 0
  }

  lemma {:induction false} PassedAreOccurrences(limits: Limits, history: seq<string>, fp: string, lo: nat, hi: nat)
    requires lo <= hi <= |history|
    ensures PassedCount(limits, history, fp, lo, hi) <= CountOf(history[lo..hi], fp)
    decreases hi
  {
    if lo < hi {
      PassedAreOccurrences(limits, history, fp, lo, hi - 1);
      assert history[lo..hi][..hi - lo - 1] == history[lo..hi - 1];
    }
  }

  /** Among any `window` consecutive observations, fewer than the threshold of one fingerprint pass. */
  lemma {:induction false} FewPassInAnyWindow(limits: Limits, history: seq<string>, fp: string, lo: nat, hi: nat)
    requires limits.Valid() && lo <= hi <= |history| && hi - lo <= limits.window
    ensures PassedCount(limits, history, fp, lo, hi) < limits.threshold
    decreases hi
  {
    if lo < hi {
      if history[hi - 1] == fp && Passed(limits, history, hi - 1) {
        var seen := history[..hi];
        var start := if hi <= limits.window then 0 else hi - limits.window;
        assert Recent(seen, limits.window) == seen[start..hi];
        CountInStretch(seen, lo, hi, start, fp);
        PassedAreOccurrences(limits, history, fp, lo, hi);
        assert seen[lo..hi] == history[lo..hi];
      } else {
        FewPassInAnyWindow(limits, history, fp, lo, hi - 1);
      }
    }
  }

  /** A fingerprint passes next exactly when the last `window - 1` observations hold fewer than
      `threshold - 1` of it, whether or not those were themselves let through. */
  lemma PassesNextExactly(limits: Limits, history: seq<string>, fp: string)
    requires limits.Valid()
    ensures VerdictOn(limits, history + [fp]).Pass?
            <==> CountOf(Recent(history, limits.window - 1), fp) + 1 < limits.threshold
  {
    var now := history + [fp];
    assert Recent(now, limits.window) == Recent(history, limits.window - 1) + [fp];
    CountJoin(Recent(history, limits.window - 1), [fp], fp);
    assert [fp][..0] == [];
    assert CountOf([fp], fp) == 1;
  }

  /** With a threshold above one, `window - 1` observations of other work make it pass again. */
  lemma OtherWorkResets(limits: Limits, history: seq<string>, others: seq<string>, fp: string)
    requires limits.Valid() && 1 < limits.threshold && limits.window <= |others| + 1 && fp !in others
    ensures VerdictOn(limits, history + others + [fp]).Pass?
  {
    var n := limits.window - 1;
    var before := history + others;
    assert forall i | 0 <= i < |Recent(before, n)| :: Recent(before, n)[i] in others;
    CountAbsent(Recent(before, n), fp);
    PassesNextExactly(limits, before, fp);
  }

  /** A trip reports how often the fingerprint occurs in the window, this observation included. */
  lemma TripCountIsExact(limits: Limits, history: seq<string>, fp: string)
    requires limits.Valid()
    ensures var count := CountOf(Recent(history, limits.window - 1), fp) + 1;
            VerdictOn(limits, history + [fp]) == if limits.threshold <= count then Trip(count) else Pass
  {
    var before := Recent(history, limits.window - 1);
    assert Recent(history + [fp], limits.window) == before + [fp];
    CountJoin(before, [fp], fp);
    assert [fp][..0] == [];
    assert CountOf([fp], fp) == 1;
  }

  function Distance(a: nat, b: nat): nat {
    if a < b then b - a else a - b
  }

  /** An empty window becomes one, and the threshold the nearest one there can be. */
  lemma LimitsAreClamped(window: nat, threshold: nat, other: nat)
    requires 1 <= other <= NewLimits(window, threshold).window
    ensures var limits := NewLimits(window, threshold);
            && limits.window == (if window == 0 then 1 else window)
            && 1 <= limits.threshold <= limits.window
            && Distance(limits.threshold, threshold) <= Distance(other, threshold)
  {
  }
}
