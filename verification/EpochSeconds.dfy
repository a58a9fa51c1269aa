/** What the seconds of a timestamp count: clock steps from the start of 1970. */
module EpochSeconds {
  import opened Calendar
  import opened Timestamps
  import opened Wrappers

  /** A real date and a second the clock shows every minute. */
  predicate OnClock(f: Fields) {
    InRange(f) && Valid(f.Date()) && f.second <= 59
  }

  const START := Fields(1970, 1, 1, 0, 0, 0)

  /** The next second of the clock. */
  function Tick(f: Fields): (next: Fields)
    requires OnClock(f)
    ensures OnClock(next)
  {
    if f.second < 59 then f.(second := f.second + 1)
    else if f.minute < 59 then f.(minute := f.minute + 1, second := 0)
    else if f.hour < 23 then f.(hour := f.hour + 1, minute := 0, second := 0)
    else
      var d := NextDay(f.Date());
      Fields(d.year, d.month, d.day, 0, 0, 0)
  }

  function TicksAfter(f: Fields, n: nat): (later: Fields)
    requires OnClock(f)
    ensures OnClock(later)
  {
    if n == 0 then f else Tick(TicksAfter(f, n - 1))
  }

  lemma StartIsZero()
    ensures Seconds(START) == 0
  {
    assert DaysFromCivil(1970, 1, 1) == 0;
  }

  lemma StartIsOnClock()
    ensures OnClock(START)
  {
  }

  lemma StartNumerals()
    ensures Numeral(1970, 4) == "1970" && Numeral(1, 2) == "01" && Numeral(0, 2) == "00"
  {
    assert Numeral(1, 1) == ['1'] && Numeral(0, 1) == ['0'];
    assert Numeral(19, 2) == ['1', '9'];
    assert Numeral(197, 3) == ['1', '9', '7'];
  }

  lemma StartText()
    ensures Render(START) == "1970-01-01T00:00:00Z"
  {
    hide Numeral;
    StartNumerals();
  }

  lemma ReadSeconds(f: Fields)
    requires Readable(f)
    ensures ParseUtcSeconds(Render(f)) == Some(Seconds(f))
  {
    hide Render, ParseUtcSeconds, Seconds;
    ReadsBackWhatIsWritten(f);
  }

  /** The text of the epoch is read as zero. */
  lemma StartReadsZero()
    ensures ParseUtcSeconds("1970-01-01T00:00:00Z") == Some(0)
  {
    hide Render, ParseUtcSeconds, Seconds;
    StartText();
    StartIsZero();
    ReadSeconds(START);
  }

  /** The next second reads exactly one higher, across minutes, hours, days and years. */
  lemma TickAddsOne(f: Fields)
    requires OnClock(f)
    ensures Seconds(Tick(f)) == Seconds(f) + 1
  {
    hide DaysFromCivil;
    NextDayAddsOne(f.Date());
  }

  lemma {:induction false} TicksAfterCount(f: Fields, n: nat)
    requires OnClock(f)
    ensures Seconds(TicksAfter(f, n)) == Seconds(f) + n
  {
    hide Seconds;
    if n != 0 {
      TicksAfterCount(f, n - 1);
      TickAddsOne(TicksAfter(f, n - 1));
    }
  }

  lemma SecondsTellApart(f: Fields, g: Fields)
    requires OnClock(f) && OnClock(g) && Seconds(f) == Seconds(g)
    ensures f == g
  {
    hide Seconds;
    if FieldsBefore(f, g) {
      SecondsFollowFields(f, g);
    } else if FieldsBefore(g, f) {
      SecondsFollowFields(g, f);
    }
  }

  /** A text on the clock is read as the signed number of clock steps from the start of 1970. */
  lemma SecondsCountTicks(f: Fields)
    requires OnClock(f) && Readable(f)
    ensures ParseUtcSeconds(Render(f)).Some?
    ensures var n := ParseUtcSeconds(Render(f)).value;
            && (0 <= n ==> TicksAfter(START, n) == f)
            && (n <= 0 ==> TicksAfter(f, -n) == START)
  {
    hide Seconds, Render, ParseUtcSeconds, TicksAfter, InRange, Valid;
    ReadSeconds(f);
    StartIsZero();
    StartIsOnClock();
    var n := Seconds(f);
    if 0 <= n {
      TicksAfterCount(START, n);
      SecondsTellApart(TicksAfter(START, n), f);
    }
    if n <= 0 {
      TicksAfterCount(f, -n);
      SecondsTellApart(TicksAfter(f, -n), START);
    }
  }

  /** Off the clock, second 60 reads as the second after 59, and a day past the end of its month as so
      many days after the last one. */
  lemma OffClockSeconds(f: Fields)
    requires InRange(f)
    ensures var last := DaysInMonth(f.year, f.month);
            var day, second := if last < f.day then last else f.day, if f.second == 60 then 59 else f.second;
            var near := f.(day := day, second := second);
            && OnClock(near)
            && Seconds(f) == Seconds(near) + 86_400 * (f.day - day) + (f.second - second)
  {
    hide DaysFromCivil;
    var last := DaysInMonth(f.year, f.month);
    DayIsLinear(f.Date(), f.Date().(day := if last < f.day then last else f.day));
  }
}
