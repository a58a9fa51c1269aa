/** The sweep that finds idle stretches in a proof window, and why what it records is exact.

    Times are seconds since the epoch. A stretch of time is idle when no productive interval
    reaches into it; intervals that touch its ends, zero-length ones included, bound it. */
module IdleGaps {

  datatype Interval = Interval(start: int, end: int)

  function Max(a: int, b: int): int { if a < b then b else a }

  function Min(a: int, b: int): int { if a < b then a else b }

  /** Whole minutes, rounded up. */
  function MinutesUp(seconds: int): nat {
    (Max(seconds, 0) + 59) / 60
  }

  // ----- clipping and sorting

  /** The part of an interval inside the window; it may have no length. */
  function Clip(raw: seq<Interval>, windowStart: int, windowEnd: int): (clipped: seq<Interval>)
    ensures forall iv | iv in clipped :: windowStart <= iv.start && iv.start <= iv.end && iv.end <= windowEnd
  {
    if raw == [] then []
    else
      var start, end := Max(raw[0].start, windowStart), Min(raw[0].end, windowEnd);
      (if start <= end then [Interval(start, end)] else []) + Clip(raw[1..], windowStart, windowEnd)
  }

  predicate SortsBefore(a: Interval, b: Interval) {
    a.start < b.start || (a.start == b.start && a.end <= b.end)
  }

  function Insert(iv: Interval, sorted: seq<Interval>): seq<Interval> {
    if sorted == [] || SortsBefore(iv, sorted[0]) then [iv] + sorted
    else [sorted[0]] + Insert(iv, sorted[1..])
  }

  function Sort(ivs: seq<Interval>): seq<Interval> {
    if ivs == [] then [] else Insert(ivs[0], Sort(ivs[1..]))
  }

  predicate StartsAscend(ivs: seq<Interval>) {
    forall i, j | 0 <= i < j < |ivs| :: ivs[i].start <= ivs[j].start
  }

  lemma {:induction false} InsertSorts(iv: Interval, sorted: seq<Interval>)
    requires StartsAscend(sorted)
    ensures StartsAscend(Insert(iv, sorted))
    ensures forall x :: x in Insert(iv, sorted) <==> x == iv || x in sorted
  {
    if sorted != [] && !SortsBefore(iv, sorted[0]) {
      InsertSorts(iv, sorted[1..]);
      var rest := Insert(iv, sorted[1..]);
      forall k | 0 <= k < |rest| ensures sorted[0].start <= rest[k].start {
        assert rest[k] in rest;
      }
      assert sorted == [sorted[0]] + sorted[1..];
    }
  }

  lemma {:induction false} SortSorts(ivs: seq<Interval>)
    ensures StartsAscend(Sort(ivs))
    ensures forall x :: x in Sort(ivs) <==> x in ivs
  {
    if ivs != [] {
      SortSorts(ivs[1..]);
      InsertSorts(ivs[0], Sort(ivs[1..]));
      assert ivs == [ivs[0]] + ivs[1..];
    }
  }

  // ----- the sweep

  /** The gaps recorded from `cursor` on, with `sorted` still to be visited. */
  function SweepFrom(sorted: seq<Interval>, cursor: int, windowEnd: int): seq<Interval> {
    if sorted == [] then
      if cursor < windowEnd then [Interval(cursor, windowEnd)] else []
    else
      var iv := sorted[0];
      (if cursor < iv.start then [Interval(cursor, iv.start)] else [])
      + SweepFrom(sorted[1..], Max(cursor, iv.end), windowEnd)
  }

  /** Every gap the sweep records, in order. */
  function Gaps(raw: seq<Interval>, windowStart: int, windowEnd: int): seq<Interval> {
    if windowEnd <= windowStart then []
    else SweepFrom(Sort(Clip(raw, windowStart, windowEnd)), windowStart, windowEnd)
  }

  // ----- what a gap is, without sorting, clipping or a cursor

  /** No interval reaches inside (a, b). */
  predicate Untouched(ivs: seq<Interval>, a: int, b: int) {
    forall iv | iv in ivs :: iv.end <= a || b <= iv.start
  }

  predicate SomeEndsAt(ivs: seq<Interval>, t: int) {
    exists iv | iv in ivs :: iv.end == t
  }

  predicate SomeStartsAt(ivs: seq<Interval>, t: int) {
    exists iv | iv in ivs :: iv.start == t
  }

  predicate Idle(raw: seq<Interval>, windowStart: int, windowEnd: int, a: int, b: int) {
    windowStart <= a < b <= windowEnd && Untouched(raw, a, b)
  }

  /** A maximal idle stretch: each end is an edge of the window or of some interval. */
  predicate IsGap(raw: seq<Interval>, windowStart: int, windowEnd: int, a: int, b: int) {
    && Idle(raw, windowStart, windowEnd, a, b)
    && (a == windowStart || SomeEndsAt(raw, a))
    && (b == windowEnd || SomeStartsAt(raw, b))
  }

  predicate WellFormed(ivs: seq<Interval>) {
    forall iv | iv in ivs :: iv.start <= iv.end
  }

  predicate Within(ivs: seq<Interval>, lo: int, hi: int) {
    forall iv | iv in ivs :: lo <= iv.start <= iv.end <= hi
  }

  lemma SplitFacts(ivs: seq<Interval>, rest: seq<Interval>, a: int, b: int)
    ensures Untouched(ivs + rest, a, b) <==> Untouched(ivs, a, b) && Untouched(rest, a, b)
    ensures SomeEndsAt(ivs + rest, a) <==> SomeEndsAt(ivs, a) || SomeEndsAt(rest, a)
    ensures SomeStartsAt(ivs + rest, b) <==> SomeStartsAt(ivs, b) || SomeStartsAt(rest, b)
  {
    assert forall iv :: iv in ivs + rest <==> iv in ivs || iv in rest;
    if SomeEndsAt(ivs, a) {
      var iv :| iv in ivs && iv.end == a;
      assert iv in ivs + rest;
    }
    if SomeEndsAt(rest, a) {
      var iv :| iv in rest && iv.end == a;
      assert iv in ivs + rest;
    }
    if SomeStartsAt(ivs, b) {
      var iv :| iv in ivs && iv.start == b;
      assert iv in ivs + rest;
    }
    if SomeStartsAt(rest, b) {
      var iv :| iv in rest && iv.start == b;
      assert iv in ivs + rest;
    }
  }

  // ----- the sweep over sorted intervals is exact

  lemma TailStaysSorted(iv: Interval, rest: seq<Interval>, lo: int, hi: int)
    requires StartsAscend([iv] + rest) && Within([iv] + rest, lo, hi)
    ensures StartsAscend(rest) && Within(rest, lo, hi) && WellFormed([iv] + rest) && lo <= iv.start <= iv.end <= hi
  {
    var sorted := [iv] + rest;
    assert iv in sorted;
    assert forall k | 0 <= k < |rest| :: rest[k] == sorted[k + 1];
  }

  lemma HeadGapIsFound(iv: Interval, rest: seq<Interval>, cursor: int, windowEnd: int, a: int, b: int)
    requires StartsAscend([iv] + rest) && WellFormed([iv] + rest) && iv.start <= windowEnd
    requires IsGap([iv] + rest, cursor, windowEnd, a, b) && b <= iv.start
    ensures a == cursor && b == iv.start
  {
    var sorted := [iv] + rest;
    forall x | x in sorted ensures b <= x.start && iv.start <= x.start {
      var k :| 0 <= k < |sorted| && sorted[k] == x;
      assert sorted[0].start <= sorted[k].start;
    }
  }

  lemma LaterGapRemains(iv: Interval, rest: seq<Interval>, cursor: int, windowEnd: int, a: int, b: int)
    requires IsGap([iv] + rest, cursor, windowEnd, a, b) && iv.start < b
    ensures IsGap(rest, Max(cursor, iv.end), windowEnd, a, b)
  {
    SplitFacts([iv], rest, a, b);
    assert iv in [iv];
  }

  lemma {:induction false} SweepFindsGap(sorted: seq<Interval>, lo: int, cursor: int, windowEnd: int, a: int, b: int)
    requires StartsAscend(sorted) && Within(sorted, lo, windowEnd)
    requires IsGap(sorted, cursor, windowEnd, a, b)
    ensures Interval(a, b) in SweepFrom(sorted, cursor, windowEnd)
  {
    if sorted != [] {
      var iv, rest := sorted[0], sorted[1..];
      assert sorted == [iv] + rest;
      TailStaysSorted(iv, rest, lo, windowEnd);
      if b <= iv.start {
        HeadGapIsFound(iv, rest, cursor, windowEnd, a, b);
        assert Interval(a, b) in [Interval(cursor, iv.start)];
      } else {
        var next := Max(cursor, iv.end);
        LaterGapRemains(iv, rest, cursor, windowEnd, a, b);
        SweepFindsGap(rest, lo, next, windowEnd, a, b);
        assert Interval(a, b) in SweepFrom(rest, next, windowEnd);
      }
    }
  }

  lemma HeadGapIsGap(iv: Interval, rest: seq<Interval>, cursor: int, windowEnd: int)
    requires StartsAscend([iv] + rest) && cursor < iv.start <= windowEnd
    ensures IsGap([iv] + rest, cursor, windowEnd, cursor, iv.start)
  {
    var sorted := [iv] + rest;
    assert sorted[0] == iv && iv in sorted;
    forall x | x in sorted ensures iv.start <= x.start {
      var k :| 0 <= k < |sorted| && sorted[k] == x;
    }
  }

  lemma LaterGapIsGap(iv: Interval, rest: seq<Interval>, cursor: int, windowEnd: int, a: int, b: int)
    requires IsGap(rest, Max(cursor, iv.end), windowEnd, a, b)
    ensures IsGap([iv] + rest, cursor, windowEnd, a, b)
  {
    SplitFacts([iv], rest, a, b);
    assert iv in [iv];
  }

  lemma {:induction false} SweepRecordsOnlyGaps(sorted: seq<Interval>, lo: int, cursor: int, windowEnd: int, g: Interval)
    requires StartsAscend(sorted) && Within(sorted, lo, windowEnd)
    requires g in SweepFrom(sorted, cursor, windowEnd)
    ensures IsGap(sorted, cursor, windowEnd, g.start, g.end)
  {
    if sorted != [] {
      var iv, rest := sorted[0], sorted[1..];
      assert sorted == [iv] + rest;
      TailStaysSorted(iv, rest, lo, windowEnd);
      if g in SweepFrom(rest, Max(cursor, iv.end), windowEnd) {
        SweepRecordsOnlyGaps(rest, lo, Max(cursor, iv.end), windowEnd, g);
        LaterGapIsGap(iv, rest, cursor, windowEnd, g.start, g.end);
      } else {
        HeadGapIsGap(iv, rest, cursor, windowEnd);
      }
    }
  }

  predicate Ordered(gaps: seq<Interval>) {
    && (forall i | 0 <= i < |gaps| :: gaps[i].start < gaps[i].end)
    && (forall i, j | 0 <= i < j < |gaps| :: gaps[i].end <= gaps[j].start)
  }

  lemma {:induction false} SweepIsOrdered(sorted: seq<Interval>, lo: int, cursor: int, windowEnd: int)
    requires StartsAscend(sorted) && Within(sorted, lo, windowEnd)
    ensures Ordered(SweepFrom(sorted, cursor, windowEnd))
  {
    if sorted != [] {
      var iv, rest := sorted[0], sorted[1..];
      var later := SweepFrom(rest, Max(cursor, iv.end), windowEnd);
      assert iv in sorted;
      SweepIsOrdered(rest, lo, Max(cursor, iv.end), windowEnd);
      forall k | 0 <= k < |later| ensures iv.start <= later[k].start {
        SweepRecordsOnlyGaps(rest, lo, Max(cursor, iv.end), windowEnd, later[k]);
      }
    }
  }

  /** Every idle stretch lies inside a recorded gap. */
  lemma {:induction false} SweepCoversIdle(sorted: seq<Interval>, cursor: int, windowEnd: int, a: int, b: int) returns (g: Interval)
    requires StartsAscend(sorted)
    requires Idle(sorted, cursor, windowEnd, a, b)
    ensures g in SweepFrom(sorted, cursor, windowEnd) && g.start <= a && b <= g.end
  {
    if sorted == [] {
      g := Interval(cursor, windowEnd);
    } else {
      var iv, rest := sorted[0], sorted[1..];
      assert sorted == [iv] + rest;
      assert iv in sorted;
      if b <= iv.start {
        g := Interval(cursor, iv.start);
      } else {
        g := SweepCoversIdle(rest, Max(cursor, iv.end), windowEnd, a, b);
      }
    }
  }

  // ----- clipping keeps exactly the gaps inside the window

  lemma {:induction false} ClipKeepsGaps(raw: seq<Interval>, lo: int, hi: int, a: int, b: int)
    requires WellFormed(raw) && lo <= a < b <= hi
    ensures Untouched(Clip(raw, lo, hi), a, b) <==> Untouched(raw, a, b)
    ensures a == lo || (SomeEndsAt(Clip(raw, lo, hi), a) <==> SomeEndsAt(raw, a))
    ensures b == hi || (SomeStartsAt(Clip(raw, lo, hi), b) <==> SomeStartsAt(raw, b))
  {
    if raw != [] {
      var iv, rest := raw[0], raw[1..];
      assert raw == [iv] + rest;
      assert iv in raw;
      ClipKeepsGaps(rest, lo, hi, a, b);
      var c := Interval(Max(iv.start, lo), Min(iv.end, hi));
      var kept := if c.start <= c.end then [c] else [];
      assert Clip(raw, lo, hi) == kept + Clip(rest, lo, hi);
      SplitFacts(kept, Clip(rest, lo, hi), a, b);
      SplitFacts([iv], rest, a, b);
      if kept != [] {
        assert c in kept;
      }
      assert iv in [iv];
    }
  }

  /** The sorted, clipped intervals have the gaps of the raw ones. */
  lemma SortedClipKeepsGaps(raw: seq<Interval>, lo: int, hi: int, a: int, b: int)
    requires WellFormed(raw) && lo < hi
    ensures var sorted := Sort(Clip(raw, lo, hi));
            && StartsAscend(sorted) && Within(sorted, lo, hi)
            && (Idle(sorted, lo, hi, a, b) <==> Idle(raw, lo, hi, a, b))
            && (IsGap(sorted, lo, hi, a, b) <==> IsGap(raw, lo, hi, a, b))
  {
    SortSorts(Clip(raw, lo, hi));
    if lo <= a < b <= hi {
      ClipKeepsGaps(raw, lo, hi, a, b);
    }
  }

  // ----- the main theorems

  /** The recorded gaps are exactly the maximal idle stretches of the window, in order and disjoint. */
  lemma GapsAreExact(raw: seq<Interval>, windowStart: int, windowEnd: int)
    requires WellFormed(raw)
    ensures Ordered(Gaps(raw, windowStart, windowEnd))
    ensures forall g :: g in Gaps(raw, windowStart, windowEnd) <==> IsGap(raw, windowStart, windowEnd, g.start, g.end)
  {
    if windowStart < windowEnd {
      var sorted := Sort(Clip(raw, windowStart, windowEnd));
      SortedClipKeepsGaps(raw, windowStart, windowEnd, windowStart, windowEnd);
      SweepIsOrdered(sorted, windowStart, windowStart, windowEnd);
      forall g: Interval
        ensures g in Gaps(raw, windowStart, windowEnd) <==> IsGap(raw, windowStart, windowEnd, g.start, g.end)
      {
        SortedClipKeepsGaps(raw, windowStart, windowEnd, g.start, g.end);
        if IsGap(sorted, windowStart, windowEnd, g.start, g.end) {
          SweepFindsGap(sorted, windowStart, windowStart, windowEnd, g.start, g.end);
        }
        if g in SweepFrom(sorted, windowStart, windowEnd) {
          SweepRecordsOnlyGaps(sorted, windowStart, windowStart, windowEnd, g);
        }
      }
    }
  }

  lemma IdleLiesInAGap(raw: seq<Interval>, windowStart: int, windowEnd: int, a: int, b: int) returns (g: Interval)
    requires WellFormed(raw) && Idle(raw, windowStart, windowEnd, a, b)
    ensures g in Gaps(raw, windowStart, windowEnd) && g.start <= a && b <= g.end
  {
    SortedClipKeepsGaps(raw, windowStart, windowEnd, a, b);
    g := SweepCoversIdle(Sort(Clip(raw, windowStart, windowEnd)), windowStart, windowEnd, a, b);
  }

  /** Only which intervals occur matters: not their order, and not how often they are listed. */
  lemma SameIntervalsSameGaps(raw: seq<Interval>, other: seq<Interval>, windowStart: int, windowEnd: int)
    requires WellFormed(raw) && forall iv :: iv in raw <==> iv in other
    ensures Gaps(raw, windowStart, windowEnd) == Gaps(other, windowStart, windowEnd)
  {
    GapsAreExact(raw, windowStart, windowEnd);
    GapsAreExact(other, windowStart, windowEnd);
    forall g: Interval
      ensures g in Gaps(raw, windowStart, windowEnd) <==> g in Gaps(other, windowStart, windowEnd)
    {
      assert IsGap(raw, windowStart, windowEnd, g.start, g.end) <==> IsGap(other, windowStart, windowEnd, g.start, g.end);
    }
    OrderedSetIsSequence(Gaps(raw, windowStart, windowEnd), Gaps(other, windowStart, windowEnd));
  }

  lemma EmptyHasNoMember(xs: seq<Interval>)
    ensures xs == [] <==> forall g :: g !in xs
  {
    if xs != [] {
      assert xs[0] in xs;
    }
  }

  lemma {:induction false} OrderedSetIsSequence(xs: seq<Interval>, ys: seq<Interval>)
    requires Ordered(xs) && Ordered(ys) && forall g :: g in xs <==> g in ys
    ensures xs == ys
  {
    EmptyHasNoMember(xs);
    EmptyHasNoMember(ys);
    if xs == [] {
      assert forall g :: g !in ys;
    } else {
      assert xs[0] in ys && ys[0] in xs;
      assert xs[0] == ys[0];
      forall g ensures g in xs[1..] <==> g in ys[1..] {
        assert g in xs <==> g == xs[0] || g in xs[1..];
        assert g in ys <==> g == ys[0] || g in ys[1..];
        assert xs[0] !in xs[1..] && ys[0] !in ys[1..];
      }
      OrderedSetIsSequence(xs[1..], ys[1..]);
    }
  }

  // ----- conservation: gap seconds plus covered seconds fill the window

  function TotalLength(gaps: seq<Interval>): int {
    if gaps == [] then 0 else gaps[0].end - gaps[0].start + TotalLength(gaps[1..])
  }

  /** Some interval contains the whole second [t, t + 1). */
  predicate Covers(ivs: seq<Interval>, t: int) {
    exists iv | iv in ivs :: iv.start <= t < iv.end
  }

  function CoveredSeconds(ivs: seq<Interval>, lo: int, hi: int): nat
    decreases hi - lo
  {
    if hi <= lo then 0 else CoveredSeconds(ivs, lo, hi - 1) + if Covers(ivs, hi - 1) then 1 else 0
  }

  lemma {:induction false} CoveredSplits(ivs: seq<Interval>, lo: int, mid: int, hi: int)
    requires lo <= mid <= hi
    ensures CoveredSeconds(ivs, lo, hi) == CoveredSeconds(ivs, lo, mid) + CoveredSeconds(ivs, mid, hi)
    decreases hi - mid
  {
    if mid < hi {
      CoveredSplits(ivs, lo, mid, hi - 1);
    }
  }

  lemma {:induction false} CoveredFully(ivs: seq<Interval>, iv: Interval, lo: int, hi: int)
    requires iv in ivs && iv.start <= lo <= hi <= iv.end
    ensures CoveredSeconds(ivs, lo, hi) == hi - lo
    decreases hi - lo
  {
    if lo < hi {
      CoveredFully(ivs, iv, lo, hi - 1);
    }
  }

  lemma {:induction false} CoveredNowhere(ivs: seq<Interval>, lo: int, hi: int)
    requires lo <= hi && Untouched(ivs, lo, hi)
    ensures CoveredSeconds(ivs, lo, hi) == 0
    decreases hi - lo
  {
    if lo < hi {
      CoveredNowhere(ivs, lo, hi - 1);
    }
  }

  lemma {:induction false} CoveredAlike(ivs: seq<Interval>, others: seq<Interval>, lo: int, hi: int)
    requires forall t | lo <= t < hi :: Covers(ivs, t) == Covers(others, t)
    ensures CoveredSeconds(ivs, lo, hi) == CoveredSeconds(others, lo, hi)
    decreases hi - lo
  {
    if lo < hi {
      CoveredAlike(ivs, others, lo, hi - 1);
    }
  }

  lemma CoversSplit(ivs: seq<Interval>, rest: seq<Interval>, t: int)
    ensures Covers(ivs + rest, t) <==> Covers(ivs, t) || Covers(rest, t)
  {
    if Covers(ivs, t) {
      var iv :| iv in ivs && iv.start <= t < iv.end;
      assert iv in ivs + rest;
    }
    if Covers(rest, t) {
      var iv :| iv in rest && iv.start <= t < iv.end;
      assert iv in ivs + rest;
    }
  }

  /** Visiting one interval: nothing is covered before it, everything is inside it, and beyond it only
      the later intervals count. */
  lemma CoverAroundHead(iv: Interval, rest: seq<Interval>, cursor: int, windowEnd: int)
    requires StartsAscend([iv] + rest) && iv.start <= iv.end <= windowEnd && cursor <= windowEnd
    ensures CoveredSeconds([iv] + rest, cursor, windowEnd)
            == Max(cursor, iv.end) - Max(cursor, iv.start) + CoveredSeconds(rest, Max(cursor, iv.end), windowEnd)
  {
    var sorted, from, next := [iv] + rest, Max(cursor, iv.start), Max(cursor, iv.end);
    assert sorted[0] == iv && iv in sorted;
    CoveredSplits(sorted, cursor, from, windowEnd);
    CoveredSplits(sorted, from, next, windowEnd);
    if cursor < iv.start {
      HeadGapIsGap(iv, rest, cursor, windowEnd);
      CoveredNowhere(sorted, cursor, iv.start);
    }
    if cursor < iv.end {
      CoveredFully(sorted, iv, from, next);
    }
    forall t | next <= t < windowEnd ensures Covers(sorted, t) == Covers(rest, t) {
      CoversSplit([iv], rest, t);
    }
    CoveredAlike(sorted, rest, next, windowEnd);
  }

  lemma {:induction false} SweepConserves(sorted: seq<Interval>, lo: int, cursor: int, windowEnd: int)
    requires StartsAscend(sorted) && Within(sorted, lo, windowEnd) && lo <= cursor <= windowEnd
    ensures TotalLength(SweepFrom(sorted, cursor, windowEnd)) + CoveredSeconds(sorted, cursor, windowEnd) == windowEnd - cursor
  {
    if sorted == [] {
      CoveredNowhere(sorted, cursor, windowEnd);
    } else {
      var iv, rest := sorted[0], sorted[1..];
      assert sorted == [iv] + rest;
      TailStaysSorted(iv, rest, lo, windowEnd);
      var next := Max(cursor, iv.end);
      var later := SweepFrom(rest, next, windowEnd);
      assert TotalLength(later) + CoveredSeconds(rest, next, windowEnd) == windowEnd - next by {
        SweepConserves(rest, lo, next, windowEnd);
      }
      CoverAroundHead(iv, rest, cursor, windowEnd);
      if cursor < iv.start {
        assert ([Interval(cursor, iv.start)] + later)[1..] == later;
      } else {
        assert [] + later == later;
      }
    }
  }

  lemma {:induction false} ClipCoversAlike(raw: seq<Interval>, lo: int, hi: int, t: int)
    requires lo <= t < hi
    ensures Covers(Clip(raw, lo, hi), t) == Covers(raw, t)
  {
    if raw != [] {
      var iv, rest := raw[0], raw[1..];
      assert raw == [iv] + rest;
      ClipCoversAlike(rest, lo, hi, t);
      var c := Interval(Max(iv.start, lo), Min(iv.end, hi));
      var kept := if c.start <= c.end then [c] else [];
      assert Clip(raw, lo, hi) == kept + Clip(rest, lo, hi);
      CoversSplit([iv], rest, t);
      CoversSplit(kept, Clip(rest, lo, hi), t);
      if kept != [] {
        assert c in kept;
      }
      assert iv in [iv];
    }
  }

  /** Every second of the window is either covered by an interval or counted in exactly one gap. */
  lemma GapsAndCoverFillWindow(raw: seq<Interval>, windowStart: int, windowEnd: int)
    requires windowStart <= windowEnd
    ensures TotalLength(Gaps(raw, windowStart, windowEnd)) + CoveredSeconds(raw, windowStart, windowEnd)
            == windowEnd - windowStart
  {
    if windowStart < windowEnd {
      var clipped := Clip(raw, windowStart, windowEnd);
      SortSorts(clipped);
      SweepConserves(Sort(clipped), windowStart, windowStart, windowEnd);
      forall t | windowStart <= t < windowEnd ensures Covers(Sort(clipped), t) == Covers(raw, t) {
        ClipCoversAlike(raw, windowStart, windowEnd, t);
        assert Covers(Sort(clipped), t) == Covers(clipped, t);
      }
      CoveredAlike(Sort(clipped), raw, windowStart, windowEnd);
    }
  }
}
