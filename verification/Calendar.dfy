/** Civil dates and the days-from-civil formula behind every timestamp the audits compare. */
module Calendar {

  datatype Date = Date(year: int, month: int, day: int)

  const EPOCH := Date(1970, 1, 1)

  /** Division that rounds toward zero, for a positive divisor. */
  function TruncDiv(a: int, b: int): int
    requires 0 < b
  {
    if 0 <= a then a / b else -(-a / b)
  }

  /** Days since the Unix epoch. Only the era needs care with signs: the divisor 400 applies to the
      whole conditional, and the other three divisions have non-negative operands. */
  function DaysFromCivil(year: int, month: int, day: int): int
  {
    var y := year - if month <= 2 then 1 else 0;
    var era := TruncDiv(if 0 <= y then y else y - 399, 400);
    var yoe := y - era * 400;
    var mp := month + if 2 < month then -3 else 9;
    var doy := (153 * mp + 2) / 5 + day - 1;
    var doe := yoe * 365 + yoe / 4 - yoe / 100 + doy;
    era * 146_097 + doe - 719_468
  }

  // ----- the calendar itself, with no formula in it

  predicate IsLeap(year: int) {
    year % 4 == 0 && (year % 100 != 0 || year % 400 == 0)
  }

  function DaysInMonth(year: int, month: int): int {
    if month == 2 then (if IsLeap(year) then 29 else 28)
    else if month in {4, 6, 9, 11} then 30
    else 31
  }

  predicate Valid(d: Date) {
    1 <= d.month <= 12 && 1 <= d.day <= DaysInMonth(d.year, d.month)
  }

  function NextDay(d: Date): (next: Date)
    requires Valid(d)
    ensures Valid(next)
  {
    if d.day < DaysInMonth(d.year, d.month) then d.(day := d.day + 1)
    else if d.month < 12 then Date(d.year, d.month + 1, 1)
    else Date(d.year + 1, 1, 1)
  }

  /** The date `n` days after `d`, found by stepping one day at a time. */
  function DaysAfter(d: Date, n: nat): (later: Date)
    requires Valid(d)
    ensures Valid(later)
  {
    if n == 0 then d else NextDay(DaysAfter(d, n - 1))
  }

  predicate Before(d: Date, e: Date) {
    d.year < e.year || (d.year == e.year && (d.month < e.month || (d.month == e.month && d.day < e.day)))
  }

  function DayNumber(d: Date): int {
    DaysFromCivil(d.year, d.month, d.day)
  }

  // ----- the same number with one floor division per leap rule, and no eras

  /** Days from the start of March of year 0 to the start of March of year `y`. */
  function MarchStart(y: int): int {
    365 * y + y / 4 - y / 100 + y / 400
  }

  /** Days from the start of March to the start of `month`, which counts as the 13th or 14th month
      when it is January or February. */
  function MonthStart(month: int): int {
    (153 * (if month <= 2 then month + 9 else month - 3) + 2) / 5
  }

  function DayCount(d: Date): int {
    MarchStart(if d.month <= 2 then d.year - 1 else d.year) + MonthStart(d.month) + d.day - 719_469
  }

  lemma EraFormula(y: int)
    ensures var era := TruncDiv(if 0 <= y then y else y - 399, 400);
            var yoe := y - era * 400;
            && 0 <= yoe < 400
            && era * 146_097 + yoe * 365 + yoe / 4 - yoe / 100 == MarchStart(y)
  {
    var era := TruncDiv(if 0 <= y then y else y - 399, 400);
    assert era == y / 400;
    var yoe := y - era * 400;
    assert y / 4 == 100 * era + yoe / 4;
    assert y / 100 == 4 * era + yoe / 100;
  }

  lemma FormulaIsDayCount(d: Date)
    ensures DayNumber(d) == DayCount(d)
  {
    EraFormula(if d.month <= 2 then d.year - 1 else d.year);
  }

  lemma YearLength(y: int)
    ensures MarchStart(y) == MarchStart(y - 1) + if IsLeap(y) then 366 else 365
  {
    StepOfFour(y);
    StepOfHundred(y);
    StepOfFourHundred(y);
    CenturiesAreFourths(y);
    FourthCenturiesAreCenturies(y);
  }

  lemma StepOfFour(y: int)
    ensures y / 4 - (y - 1) / 4 == if y % 4 == 0 then 1 else 0
  {
  }

  lemma CenturiesAreFourths(y: int)
    ensures y % 100 == 0 ==> y % 4 == 0
  {
  }

  lemma FourthCenturiesAreCenturies(y: int)
    ensures y % 400 == 0 ==> y % 100 == 0
  {
  }

  lemma StepOfHundred(y: int)
    ensures y / 100 - (y - 1) / 100 == if y % 100 == 0 then 1 else 0
  {
  }

  lemma StepOfFourHundred(y: int)
    ensures y / 400 - (y - 1) / 400 == if y % 400 == 0 then 1 else 0
  {
  }

  /** Consecutive months start a month's length apart. */
  lemma MonthLength(year: int, month: int)
    requires 1 <= month <= 12
    ensures month != 2 && month != 12 ==> MonthStart(month + 1) == MonthStart(month) + DaysInMonth(year, month)
    ensures MonthStart(1) == 306 && MonthStart(2) == 337 && MonthStart(3) == 0 && MonthStart(12) == 275
  {
  }

  lemma NextDayCount(d: Date)
    requires Valid(d)
    ensures DayCount(NextDay(d)) == DayCount(d) + 1
  {
    MonthLength(d.year, d.month);
    if d.day == DaysInMonth(d.year, d.month) && d.month == 2 {
      YearLength(d.year);
    }
  }

  // ----- the numbering is strictly increasing, so it names each date once

  lemma {:induction false} MonthsIncrease(year: int, m: int, n: int)
    requires 1 <= m < n <= 12
    ensures DayCount(Date(year, m, DaysInMonth(year, m))) < DayCount(Date(year, n, 1))
    decreases n - m
  {
    NextDayCount(Date(year, m, DaysInMonth(year, m)));
    if m + 1 < n {
      MonthsIncrease(year, m + 1, n);
    }
  }

  lemma {:induction false} YearsIncrease(y: int, z: int)
    requires y < z
    ensures DayCount(Date(y, 12, 31)) < DayCount(Date(z, 1, 1))
    decreases z - y
  {
    NextDayCount(Date(y, 12, 31));
    if y + 1 < z {
      MonthsIncrease(y + 1, 1, 12);
      YearsIncrease(y + 1, z);
    }
  }

  lemma FirstOfYear(year: int, month: int)
    requires 1 <= month <= 12
    ensures DayCount(Date(year, 1, 1)) <= DayCount(Date(year, month, 1))
    ensures DayCount(Date(year, month, DaysInMonth(year, month))) <= DayCount(Date(year, 12, 31))
  {
    if 1 < month {
      MonthsIncrease(year, 1, month);
    }
    if month < 12 {
      MonthsIncrease(year, month, 12);
    }
  }

  lemma DayCountIncreases(d: Date, e: Date)
    requires Valid(d) && 1 <= e.month <= 12 && 1 <= e.day && Before(d, e)
    ensures DayCount(d) < DayCount(e)
  {
    var last, first := Date(d.year, d.month, DaysInMonth(d.year, d.month)), Date(e.year, e.month, 1);
    assert DayCount(d) <= DayCount(last) && DayCount(first) <= DayCount(e);
    if d.year < e.year {
      FirstOfYear(d.year, d.month);
      YearsIncrease(d.year, e.year);
      FirstOfYear(e.year, e.month);
    } else if d.month < e.month {
      MonthsIncrease(d.year, d.month, e.month);
    }
  }

  lemma {:induction false} DaysAfterCount(d: Date, n: nat)
    requires Valid(d)
    ensures DayCount(DaysAfter(d, n)) == DayCount(d) + n
  {
    if n != 0 {
      DaysAfterCount(d, n - 1);
      NextDayCount(DaysAfter(d, n - 1));
    }
  }

  lemma DayCountInjective(d: Date, e: Date)
    requires Valid(d) && Valid(e) && DayCount(d) == DayCount(e)
    ensures d == e
  {
    if Before(d, e) {
      DayCountIncreases(d, e);
    } else if Before(e, d) {
      DayCountIncreases(e, d);
    }
  }

  // ----- what the formula promises

  /** The formula counts days: walking that many days forward from the epoch reaches the date, and
      for an earlier date walking forward from it reaches the epoch. */
  lemma FormulaCountsDays(d: Date)
    requires Valid(d)
    ensures 0 <= DayNumber(d) ==> DaysAfter(EPOCH, DayNumber(d)) == d
    ensures DayNumber(d) <= 0 ==> DaysAfter(d, -DayNumber(d)) == EPOCH
  {
    var n := DayCount(d);
    FormulaIsDayCount(d);
    assert DayCount(EPOCH) == 0;
    if 0 <= n {
      DaysAfterCount(EPOCH, n);
      DayCountInjective(DaysAfter(EPOCH, n), d);
    }
    if n <= 0 {
      DaysAfterCount(d, -n);
      DayCountInjective(DaysAfter(d, -n), EPOCH);
    }
  }

  /** The next calendar day is numbered exactly one higher, across every month, year and leap boundary. */
  lemma NextDayAddsOne(d: Date)
    requires Valid(d)
    ensures DayNumber(NextDay(d)) == DayNumber(d) + 1
  {
    NextDayCount(d);
    FormulaIsDayCount(d);
    FormulaIsDayCount(NextDay(d));
  }

  /** From a real date, everything later in (year, month, day) order has a larger number, even when
      the later triple's day runs past the end of its month. */
  lemma DayNumberIncreases(d: Date, e: Date)
    requires Valid(d) && 1 <= e.month <= 12 && 1 <= e.day && Before(d, e)
    ensures DayNumber(d) < DayNumber(e)
  {
    DayCountIncreases(d, e);
    FormulaIsDayCount(d);
    FormulaIsDayCount(e);
  }

  lemma DayIsLinear(d: Date, e: Date)
    requires d.year == e.year && d.month == e.month
    ensures DayNumber(d) - DayNumber(e) == d.day - e.day
  {
  }

  /** A day past the end of its month gets the number of the day it overflows to or a later one. */
  lemma OverflowingDayIsNotBeforeNextMonth(d: Date)
    requires 1 <= d.month <= 12 && DaysInMonth(d.year, d.month) < d.day
    ensures var next := NextDay(d.(day := DaysInMonth(d.year, d.month)));
            Before(d, next) && DayNumber(next) <= DayNumber(d)
  {
    var last := d.(day := DaysInMonth(d.year, d.month));
    NextDayAddsOne(last);
    DayIsLinear(d, last);
  }

  /** Four hundred years are exactly 146097 days, whatever the date fields. */
  lemma EraLength(d: Date)
    ensures DayNumber(d.(year := d.year + 400)) == DayNumber(d) + 146_097
  {
    FormulaIsDayCount(d);
    FormulaIsDayCount(d.(year := d.year + 400));
    var y := if d.month <= 2 then d.year - 1 else d.year;
    assert (y + 400) / 4 == y / 4 + 100;
    assert (y + 400) / 100 == y / 100 + 4;
    assert (y + 400) / 400 == y / 400 + 1;
  }

  predicate FitsInt32(n: int) {
    -0x8000_0000 <= n < 0x8000_0000
  }

  /** For every year a four-character field can hold, each intermediate value of the 32-bit
      computation stays in range, so the unbounded integers used here lose nothing. */
  lemma NoOverflow(year: int, month: int, day: int)
    requires -999 <= year <= 9999 && 1 <= month <= 12 && 1 <= day <= 31
    ensures var y := year - if month <= 2 then 1 else 0;
            var era := TruncDiv(if 0 <= y then y else y - 399, 400);
            var yoe := y - era * 400;
            var mp := month + if 2 < month then -3 else 9;
            var doy := (153 * mp + 2) / 5 + day - 1;
            var doe := yoe * 365 + yoe / 4 - yoe / 100 + doy;
            && FitsInt32(y) && FitsInt32(y - 399) && FitsInt32(era * 400) && 0 <= yoe < 400
            && 0 <= mp <= 11 && FitsInt32(153 * mp + 2) && 0 <= doy <= 367
            && 0 <= yoe * 365 + yoe / 4 - yoe / 100 <= doe <= 146_463
            && FitsInt32(era * 146_097) && FitsInt32(era * 146_097 + doe)
            && FitsInt32(DaysFromCivil(year, month, day))
  {
    var y := year - if month <= 2 then 1 else 0;
    EraFormula(y);
    assert -3 <= TruncDiv(if 0 <= y then y else y - 399, 400) <= 24;
  }
}
