/** Folding recorded gaps into the report's totals, given which gap ends were followed by a recovery. */
module GapSummary {
  import opened IdleGaps

  datatype Summary = Summary(
    maxObserved: nat, maxUnrecovered: nat, maxRecovered: nat, recoveredGaps: nat)

  function Minutes(gap: Interval): nat {
    MinutesUp(gap.end - gap.start)
  }

  function LongestMinutes(gaps: seq<Interval>): nat {
    if gaps == [] then 0
    else
      var before, last := LongestMinutes(gaps[..|gaps| - 1]), Minutes(gaps[|gaps| - 1]);
      if before < last then last else before
  }

  /** The gaps whose recovery status is `wanted`, in order. */
  function Select(gaps: seq<Interval>, recovered: int -> bool, wanted: bool): seq<Interval> {
    if gaps == [] then []
    else
      var last := gaps[|gaps| - 1];
      Select(gaps[..|gaps| - 1], recovered, wanted) + if recovered(last.end) == wanted then [last] else []
  }

  function SummaryOf(gaps: seq<Interval>, recovered: int -> bool): Summary {
    var kept := Select(gaps, recovered, true);
    Summary(LongestMinutes(gaps), LongestMinutes(Select(gaps, recovered, false)), LongestMinutes(kept), |kept|)
  }

  lemma SelectOneMore(gaps: seq<Interval>, gap: Interval, recovered: int -> bool, wanted: bool)
    ensures Select(gaps + [gap], recovered, wanted)
            == Select(gaps, recovered, wanted) + if recovered(gap.end) == wanted then [gap] else []
  {
    assert (gaps + [gap])[..|gaps|] == gaps;
  }

  lemma LongestOneMore(gaps: seq<Interval>, gap: Interval)
    ensures LongestMinutes(gaps + [gap]) == Max(LongestMinutes(gaps), Minutes(gap))
  {
    assert (gaps + [gap])[..|gaps|] == gaps;
  }

  function Counting(s: Summary, minutes: nat, isRecovered: bool): Summary {
    if isRecovered
    then Summary(Max(s.maxObserved, minutes), s.maxUnrecovered, Max(s.maxRecovered, minutes), s.recoveredGaps + 1)
    else Summary(Max(s.maxObserved, minutes), Max(s.maxUnrecovered, minutes), s.maxRecovered, s.recoveredGaps)
  }

  /** The effect of one more gap on the totals. */
  lemma SummaryOneMore(gaps: seq<Interval>, gap: Interval, recovered: int -> bool)
    ensures SummaryOf(gaps + [gap], recovered) == Counting(SummaryOf(gaps, recovered), Minutes(gap), recovered(gap.end))
  {
    SelectOneMore(gaps, gap, recovered, true);
    SelectOneMore(gaps, gap, recovered, false);
    LongestOneMore(gaps, gap);
    LongestOneMore(Select(gaps, recovered, true), gap);
    LongestOneMore(Select(gaps, recovered, false), gap);
    assert Select(gaps, recovered, true) + [] == Select(gaps, recovered, true);
    assert Select(gaps, recovered, false) + [] == Select(gaps, recovered, false);
  }

  /** The running totals of one sweep. */
  class GapRecorder {
    var maxObserved: nat
    var maxUnrecovered: nat
    var maxRecovered: nat
    var recoveredGaps: nat
    ghost var gaps: seq<Interval>

    ghost predicate Valid(recovered: int -> bool)
      reads this
    {
      Totals() == SummaryOf(gaps, recovered)
    }

    function Totals(): Summary
      reads this
    {
      Summary(maxObserved, maxUnrecovered, maxRecovered, recoveredGaps)
    }

    constructor ()
      ensures gaps == []
      ensures forall recovered :: Valid(recovered)
    {
      maxObserved, maxUnrecovered, maxRecovered, recoveredGaps := 0, 0, 0, 0;
      gaps := [];
    }

    method Record(gapStart: int, gapEnd: int, recovered: int -> bool)
      requires Valid(recovered)
      modifies this
      ensures Valid(recovered)
      ensures gaps == old(gaps) + [Interval(gapStart, gapEnd)]
    {
      hide SummaryOf;
      var minutes := MinutesUp(gapEnd - gapStart);
      maxObserved := Max(maxObserved, minutes);
      if recovered(gapEnd) {
        maxRecovered := Max(maxRecovered, minutes);
        recoveredGaps := recoveredGaps + 1;
      } else {
        maxUnrecovered := Max(maxUnrecovered, minutes);
      }
      assert Totals() == Counting(old(Totals()), minutes, recovered(gapEnd));
      SummaryOneMore(gaps, Interval(gapStart, gapEnd), recovered);
      gaps := gaps + [Interval(gapStart, gapEnd)];
    }
  }

  /** One sweep over sorted intervals, recording each gap as it is met. */
  method Sweep(intervals: seq<Interval>, windowStart: int, windowEnd: int, recovered: int -> bool) returns (summary: Summary)
    ensures summary == SummaryOf(SweepFrom(intervals, windowStart, windowEnd), recovered)
  {
    var cursor := windowStart;
    var recorder := new GapRecorder();
    ghost var all := SweepFrom(intervals, windowStart, windowEnd);
    ghost var later := all;
    for i := 0 to |intervals|
      invariant fresh(recorder) && recorder.Valid(recovered)
      invariant later == SweepFrom(intervals[i..], cursor, windowEnd)
      invariant recorder.gaps + later == all
    {
      var iv := intervals[i];
      later := SweepStep(intervals[i..], cursor, windowEnd, recorder.gaps);
      assert intervals[i..][1..] == intervals[i + 1..];
      if cursor < iv.start {
        recorder.Record(cursor, iv.start, recovered);
      }
      if cursor < iv.end {
        cursor := iv.end;
      }
    }
    if cursor < windowEnd {
      recorder.Record(cursor, windowEnd, recovered);
    }
    assert recorder.gaps == all;
    summary := recorder.Totals();
  }

  lemma SweepStep(sorted: seq<Interval>, cursor: int, windowEnd: int, done: seq<Interval>) returns (later: seq<Interval>)
    requires sorted != []
    ensures later == SweepFrom(sorted[1..], Max(cursor, sorted[0].end), windowEnd)
    ensures done + SweepFrom(sorted, cursor, windowEnd)
            == (if cursor < sorted[0].start then done + [Interval(cursor, sorted[0].start)] else done) + later
  {
    later := SweepFrom(sorted[1..], Max(cursor, sorted[0].end), windowEnd);
  }

  // ----- what the totals mean

  lemma {:induction false} LongestIsAMaximum(gaps: seq<Interval>)
    ensures forall g | g in gaps :: Minutes(g) <= LongestMinutes(gaps)
    ensures LongestMinutes(gaps) == 0 || exists g | g in gaps :: Minutes(g) == LongestMinutes(gaps)
  {
    if gaps != [] {
      var front, last := gaps[..|gaps| - 1], gaps[|gaps| - 1];
      LongestIsAMaximum(front);
      assert gaps == front + [last];
      assert last in gaps;
    }
  }

  lemma {:induction false} InSelect(gaps: seq<Interval>, recovered: int -> bool, wanted: bool)
    ensures forall g :: g in Select(gaps, recovered, wanted) <==> g in gaps && recovered(g.end) == wanted
  {
    if gaps != [] {
      var front, last := gaps[..|gaps| - 1], gaps[|gaps| - 1];
      InSelect(front, recovered, wanted);
      assert gaps == front + [last];
    }
  }

  lemma {:induction false} SplitMaximum(gaps: seq<Interval>, recovered: int -> bool)
    ensures var s := SummaryOf(gaps, recovered); s.maxObserved == Max(s.maxUnrecovered, s.maxRecovered)
  {
    if gaps != [] {
      var front, last := gaps[..|gaps| - 1], gaps[|gaps| - 1];
      SplitMaximum(front, recovered);
      assert gaps == front + [last];
      SummaryOneMore(front, last, recovered);
    }
  }

  function RecoveredSet(gaps: seq<Interval>, recovered: int -> bool): set<Interval> {
    set g | g in gaps && recovered(g.end)
  }

  lemma RecoveredSetOneMore(gaps: seq<Interval>, gap: Interval, recovered: int -> bool)
    requires gap !in gaps
    ensures |RecoveredSet(gaps + [gap], recovered)| == |RecoveredSet(gaps, recovered)| + if recovered(gap.end) then 1 else 0
  {
    assert RecoveredSet(gaps + [gap], recovered) == RecoveredSet(gaps, recovered) + if recovered(gap.end) then {gap} else {};
  }

  lemma {:induction false} SelectCounts(gaps: seq<Interval>, recovered: int -> bool)
    requires Ordered(gaps)
    ensures |Select(gaps, recovered, true)| == |RecoveredSet(gaps, recovered)|
  {
    if gaps != [] {
      var front, last := gaps[..|gaps| - 1], gaps[|gaps| - 1];
      SelectCounts(front, recovered);
      assert gaps == front + [last];
      SelectOneMore(front, last, recovered, true);
      assert last !in front by {
        assert forall k | 0 <= k < |front| :: front[k].start < front[k].end <= last.start;
      }
      RecoveredSetOneMore(front, last, recovered);
    }
  }
}
