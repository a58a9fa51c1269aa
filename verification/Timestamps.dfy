/** The timestamp reader: YYYY-MM-DDTHH:MM:SS, then anything, then Z. It reads the shape that
    section 5.6 of RFC 3339 calls date-time, but checks only the parts named here. */
module Timestamps {
  import opened Calendar
  import opened Wrappers

  datatype Fields = Fields(year: int, month: int, day: int, hour: int, minute: int, second: int)
  {
    function Date(): Calendar.Date {
      Calendar.Date(year, month, day)
    }
  }

  predicate IsDigit(c: char) {
    '0' <= c <= '9'
  }

  predicate Digits(s: string) {
    forall c | c in s :: IsDigit(c)
  }

  predicate AllDigits(s: string) {
    s != [] && Digits(s)
  }

  function DigitsValue(s: string): nat
    requires Digits(s)
  {
    if s == [] then 0
    else
      var last := s[|s| - 1];
      assert IsDigit(last);
      10 * DigitsValue(s[..|s| - 1]) + (last - '0') as nat
  }

  /** An unsigned decimal number: a plus sign is accepted, a minus sign is not. */
  function ParseUnsigned(s: string): Option<int> {
    if AllDigits(s) then Some(DigitsValue(s))
    else if s != [] && s[0] == '+' && AllDigits(s[1..]) then Some(DigitsValue(s[1..]))
    else None
  }

  /** A signed decimal number. */
  function ParseSigned(s: string): Option<int> {
    if s != [] && s[0] == '-' && AllDigits(s[1..]) then
      var magnitude: int := DigitsValue(s[1..]);
      Some(-magnitude)
    else ParseUnsigned(s)
  }

  /** The fields the reader accepts: any month may have 31 days, and a minute may have second 60. */
  predicate InRange(f: Fields) {
    && 1 <= f.month <= 12 && 1 <= f.day <= 31
    && 0 <= f.hour <= 23 && 0 <= f.minute <= 59 && 0 <= f.second <= 60
  }

  function ParseFields(value: string): (fields: Option<Fields>)
    ensures fields.Some? ==> InRange(fields.value)
  {
    if |value| < 20 || value[|value| - 1] != 'Z' then None
    else
      var year, month, day := ParseSigned(value[0..4]), ParseUnsigned(value[5..7]), ParseUnsigned(value[8..10]);
      var hour, minute, second := ParseUnsigned(value[11..13]), ParseUnsigned(value[14..16]), ParseUnsigned(value[17..19]);
      if year.None? || month.None? || day.None? || hour.None? || minute.None? || second.None? then None
      else if value[4] != '-' || value[7] != '-' || value[10] != 'T' || value[13] != ':' || value[16] != ':' then None
      else
        var f := Fields(year.value, month.value, day.value, hour.value, minute.value, second.value);
        if InRange(f) then Some(f) else None
  }

  function Seconds(f: Fields): int {
    DaysFromCivil(f.year, f.month, f.day) * 86_400 + f.hour * 3600 + f.minute * 60 + f.second
  }

  function ParseUtcSeconds(value: string): Option<int> {
    var fields := ParseFields(value);
    if fields.None? then None else Some(Seconds(fields.value))
  }

  // ----- exactly which texts are accepted

  function Digit(n: int): char
    requires 0 <= n <= 9
  {
    '0' + n as char
  }

  /** `n` in decimal with exactly `width` digits, the leading ones dropped if there are more. */
  function Numeral(n: nat, width: nat): (s: string)
    ensures |s| == width
  {
    if width == 0 then "" else Numeral(n / 10, width - 1) + [Digit(n % 10)]
  }

  function Pow10(width: nat): nat {
    if width == 0 then 1 else 10 * Pow10(width - 1)
  }

  lemma {:induction false} NumeralExactly(s: string, n: nat)
    ensures Digits(s) && DigitsValue(s) == n <==> n < Pow10(|s|) && s == Numeral(n, |s|)
  {
    if s != [] {
      var front, last := s[..|s| - 1], s[|s| - 1];
      var high, low := Numeral(n / 10, |s| - 1), Digit(n % 10);
      assert s == front + [last] && last in s;
      assert s == high + [low] <==> front == high && last == low by {
        assert (high + [low])[..|s| - 1] == high && (high + [low])[|s| - 1] == low;
      }
      NumeralExactly(front, n / 10);
      assert Digits(s) <==> Digits(front) && IsDigit(last);
    }
  }

  /** Two characters for a field: two digits, or a plus sign and one. */
  predicate SpellsTwo(s: string, n: int) {
    0 <= n && ((n <= 99 && s == Numeral(n, 2)) || (n <= 9 && s == "+" + Numeral(n, 1)))
  }

  /** Four characters for a year: four digits, or a sign and three. */
  predicate SpellsYear(s: string, n: int) {
    || (0 <= n <= 9999 && s == Numeral(n, 4))
    || (0 <= n <= 999 && s == "+" + Numeral(n, 3))
    || (-999 <= n <= 0 && s == "-" + Numeral(-n, 3))
  }

  lemma UnsignedExactly(s: string, n: int)
    requires |s| == 2
    ensures ParseUnsigned(s) == Some(n) <==> SpellsTwo(s, n)
  {
    assert Pow10(2) == 100 && Pow10(1) == 10;
    UnsignedValue(s, n);
  }

  lemma UnsignedValue(s: string, n: int)
    requires 2 <= |s|
    ensures ParseUnsigned(s) == Some(n) <==>
              0 <= n && ((n < Pow10(|s|) && s == Numeral(n, |s|)) || (n < Pow10(|s| - 1) && s == "+" + Numeral(n, |s| - 1)))
  {
    assert s[0] == '+' ==> s == "+" + s[1..];
    assert s[0] in s && (s[0] == '+' ==> !Digits(s));
    if 0 <= n {
      NumeralExactly(s, n);
      NumeralExactly(s[1..], n);
      var signed := "+" + Numeral(n, |s| - 1);
      assert s == signed ==> s[0] == '+' && s[1..] == Numeral(n, |s| - 1);
    }
  }

  lemma YearExactly(s: string, n: int)
    requires |s| == 4
    ensures ParseSigned(s) == Some(n) <==> SpellsYear(s, n)
  {
    assert Pow10(2) == 100 && Pow10(3) == 1000 && Pow10(4) == 10_000;
    UnsignedValue(s, n);
    if s[0] == '-' {
      assert s == "-" + s[1..];
      assert !IsDigit(s[0]) && s[0] in s;
      if n <= 0 {
        NumeralExactly(s[1..], -n);
        var signed := "-" + Numeral(-n, 3);
        assert s == signed ==> s[1..] == Numeral(-n, 3);
      }
    }
  }

  /** The accepted shape, for given fields: six numbers at fixed places with fixed separators, anything
      after the nineteenth character, and Z at the end. */
  predicate Spells(value: string, f: Fields) {
    && 20 <= |value| && value[|value| - 1] == 'Z'
    && SpellsYear(value[0..4], f.year) && value[4] == '-'
    && SpellsTwo(value[5..7], f.month) && value[7] == '-'
    && SpellsTwo(value[8..10], f.day) && value[10] == 'T'
    && SpellsTwo(value[11..13], f.hour) && value[13] == ':'
    && SpellsTwo(value[14..16], f.minute) && value[16] == ':'
    && SpellsTwo(value[17..19], f.second)
  }

  /** A text is read as the given fields if and only if it spells them and they are in range. */
  lemma AcceptedExactly(value: string, f: Fields)
    ensures ParseFields(value) == Some(f) <==>
              && Spells(value, f)
              && 1 <= f.month <= 12 && 1 <= f.day <= 31
              && 0 <= f.hour <= 23 && 0 <= f.minute <= 59 && 0 <= f.second <= 60
  {
    hide ParseUnsigned, ParseSigned, SpellsTwo, SpellsYear;
    if 20 <= |value| {
      YearExactly(value[0..4], f.year);
      UnsignedExactly(value[5..7], f.month);
      UnsignedExactly(value[8..10], f.day);
      UnsignedExactly(value[11..13], f.hour);
      UnsignedExactly(value[14..16], f.minute);
      UnsignedExactly(value[17..19], f.second);
    }
  }

  /** The fields some text is read as: in range, with a year four characters can hold. */
  predicate Readable(f: Fields) {
    InRange(f) && -999 <= f.year <= 9999
  }

  function RenderYear(year: int): (s: string)
    requires -999 <= year <= 9999
    ensures SpellsYear(s, year)
  {
    if year < 0 then "-" + Numeral(-year, 3) else Numeral(year, 4)
  }

  function Render(f: Fields): string
    requires Readable(f)
  {
    RenderYear(f.year) + "-" + Numeral(f.month, 2) + "-" + Numeral(f.day, 2)
    + "T" + Numeral(f.hour, 2) + ":" + Numeral(f.minute, 2) + ":" + Numeral(f.second, 2) + "Z"
  }

  /** Every readable value reads back exactly as it was written, and nothing else is ever read. */
  lemma ReadsBackWhatIsWritten(f: Fields)
    ensures Readable(f) ==> ParseFields(Render(f)) == Some(f) && ParseUtcSeconds(Render(f)) == Some(Seconds(f))
    ensures forall value | ParseFields(value) == Some(f) :: Readable(f)
  {
    if Readable(f) {
      var value := Render(f);
      assert value[0..4] == RenderYear(f.year);
      assert value[5..7] == Numeral(f.month, 2);
      assert value[8..10] == Numeral(f.day, 2);
      assert value[11..13] == Numeral(f.hour, 2);
      assert value[14..16] == Numeral(f.minute, 2);
      assert value[17..19] == Numeral(f.second, 2);
      AcceptedExactly(value, f);
    }
    forall value | ParseFields(value) == Some(f) ensures Readable(f) {
      AcceptedExactly(value, f);
    }
  }

  // ----- order

  predicate ClockBefore(f: Fields, g: Fields) {
    f.hour < g.hour || (f.hour == g.hour && (f.minute < g.minute || (f.minute == g.minute && f.second < g.second)))
  }

  predicate FieldsBefore(f: Fields, g: Fields) {
    Before(f.Date(), g.Date()) || (f.Date() == g.Date() && ClockBefore(f, g))
  }

  /** A timestamp on a real date is never later than one whose fields come after its own, and is
      strictly earlier unless it is written with second 60. */
  lemma SecondsFollowFields(f: Fields, g: Fields)
    requires InRange(f) && InRange(g) && Valid(f.Date()) && FieldsBefore(f, g)
    ensures Seconds(f) <= Seconds(g)
    ensures f.second <= 59 ==> Seconds(f) < Seconds(g)
  {
    if Before(f.Date(), g.Date()) {
      DayNumberIncreases(f.Date(), g.Date());
    }
  }

  /** The last moment that can be written: nothing readable comes after it. */
  const LAST := Fields(9999, 12, 31, 23, 59, 60)

  /** The timestamps that keep strict field order against every later one are exactly those on a
      real date with a second below 60, and the last one there is: February 30 and second 60 are
      accepted but not ordered. */
  lemma StrictOrderExactly(f: Fields)
    requires Readable(f)
    ensures (forall g | Readable(g) && FieldsBefore(f, g) :: Seconds(f) < Seconds(g))
            <==> (Valid(f.Date()) && f.second <= 59) || f == LAST
  {
    if Valid(f.Date()) && f.second <= 59 {
      forall g | Readable(g) && FieldsBefore(f, g) ensures Seconds(f) < Seconds(g) {
        SecondsFollowFields(f, g);
      }
    } else if f != LAST {
      var g := NotLater(f);
    }
  }

  lemma NotLater(f: Fields) returns (g: Fields)
    requires Readable(f) && f != LAST && !(Valid(f.Date()) && f.second <= 59)
    ensures Readable(g) && FieldsBefore(f, g) && Seconds(g) <= Seconds(f)
  {
    hide DaysFromCivil;
    if !Valid(f.Date()) {
      OverflowingDayIsNotBeforeNextMonth(f.Date());
      var next := NextDay(f.Date().(day := DaysInMonth(f.year, f.month)));
      g := Fields(next.year, next.month, next.day, 0, 0, 0);
    } else if f.minute < 59 {
      g := f.(minute := f.minute + 1, second := 0);
    } else if f.hour < 23 {
      g := f.(hour := f.hour + 1, minute := 0, second := 0);
    } else {
      var next := NextDay(f.Date());
      NextDayAddsOne(f.Date());
      g := Fields(next.year, next.month, next.day, 0, 0, 0);
      assert DayNumber(next) == DaysFromCivil(g.year, g.month, g.day);
    }
  }

  /** Only the first nineteen characters count: any text between them and the final Z, a zone
      offset included, is ignored. */
  lemma TailIsIgnored(value: string, tail: string)
    requires 20 <= |value| && value[|value| - 1] == 'Z'
    ensures ParseFields(value[..19] + tail + "Z") == ParseFields(value)
  {
    var other := value[..19] + tail + "Z";
    assert forall i, j | 0 <= i <= j <= 19 :: other[i..j] == value[i..j];
  }
}
