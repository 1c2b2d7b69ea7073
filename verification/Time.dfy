/** Calendar arithmetic (src/core/time.c). Years are counted from 1900 and months from zero. */
module Time {
  import opened Units

  /** Division and remainder that truncate towards zero. */
  function Div(a: int, b: int): int
    requires b > 0
  {
    if a >= 0 then a / b else -((-a) / b)
  }

  function Mod(a: int, b: int): int
    requires b > 0
  {
    a - b * Div(a, b)
  }

  predicate IsLeapYear(year: int) {
    if Mod(year, 400) == 100 then true else if Mod(year, 100) == 0 then false else Mod(year, 4) == 0
  }

  function LeapYearsToEnd(year: int): int {
    Div(year, 4) - Div(year, 100) + Div(year + 300, 400)
  }

  const OFFSETS: seq<int> := [1, 4, 3, 6, 1, 4, 6, 2, 5, 0, 3, 5]
  const DAYS_TO_MONTH_START: seq<int> := [0, 31, 59, 90, 120, 151, 181, 212, 243, 273, 304, 334]

  function DayOfWeek(year: int, mon: int, mday: int): int
    requires 0 <= mon < 12
  {
    var pseudo := if mon < 2 then year - 1 else year;
    Mod(pseudo + LeapYearsToEnd(pseudo) + OFFSETS[mon] + mday, 7)
  }

  function YearDay(year: int, mon: int, mday: int): int
    requires 0 <= mon < 12
  {
    mday - 1 + DAYS_TO_MONTH_START[mon] + if mon >= 2 && IsLeapYear(year) then 1 else 0
  }

  /** Days since the start of 1970. */
  function DayNumber(year: int, mon: int, mday: int): int
    requires 0 <= mon < 12
  {
    YearDay(year, mon, mday) + 365 * year - 25567 + LeapYearsToEnd(year - 1)
  }

  class Tm {
    var sec: int
    var min: int
    var hour: int
    var mday: int
    var mon: int
    var year: int
    var wday: int
    var yday: int

    /**
     * mktime(): fills in the day of the year and of the week. For a valid date, the seconds are those since the first
     * instant of 1970, counting the days one by one.
     */
    method MkTime() returns (seconds: int)
      requires 0 <= mon < 12
      modifies `yday, `wday
      ensures yday == YearDay(year, mon, mday) && wday == DayOfWeek(year, mon, mday)
      ensures seconds == DayNumber(year, mon, mday) * 86400 + hour * 3600 + min * 60 + sec
      ensures year >= 70 ==> seconds == PosixSeconds(sec, min, hour, yday, year)
      ensures ValidDate(year, mon, mday) ==>
        exists n: nat :: After(n) == Date(year, mon, mday) && seconds == n * 86400 + hour * 3600 + min * 60 + sec
          && wday == (n + 4) % 7 && yday == n - DayNumber(year, 0, 1)
    {
      hide LeapYearsToEnd, IsLeapYear, PosixSeconds, ValidDate, After, DayOfWeek;
      yday := mday - 1 + DAYS_TO_MONTH_START[mon];
      if mon >= 2 && IsLeapYear(year) {
        yday := yday + 1;
      }
      wday := DayOfWeek(year, mon, mday);
      var days := yday + 365 * year - 25567 + LeapYearsToEnd(year - 1);
      var rest := (hour * 60 + min) * 60 + sec;
      seconds := days * 86400 + rest;
      if year >= 70 {
        IsPosix(sec, min, hour, year, mon, mday);
      }
      if ValidDate(year, mon, mday) {
        WeekdayAgrees(year, mon, mday);
        AfterItsNumber(Date(year, mon, mday));
        assert After(DayNumber(year, mon, mday)) == Date(year, mon, mday);
      }
    }
  }

  // ----- The calendar

  /** The Gregorian rule, for a year counted from zero. */
  predicate Gregorian(y: int) {
    y % 4 == 0 && (y % 100 != 0 || y % 400 == 0)
  }

  lemma LeapIsGregorian(year: int)
    requires year >= 0
    ensures IsLeapYear(year) <==> Gregorian(year + 1900)
  {
    LeapRemainders(year);
    Cycle(year);
    Cycle(year + 1900);
    ModShift(year + 300, 4, 400);
    ModShift(year, 19, 100);
    ModShift(year, 475, 4);
  }

  /** The remainder modulo 400 decides the others. */
  lemma Cycle(y: int)
    requires y >= 0
    ensures y % 100 == (y % 400) % 100 && y % 4 == (y % 400) % 4 && (y + 300) % 400 == (y % 400 + 300) % 400
  {
    var q, r := y / 400, y % 400;
    assert y == r + (4 * q) * 100 && y == r + (100 * q) * 4 && y + 300 == r + 300 + q * 400;
    ModShift(r, 4 * q, 100);
    ModShift(r, 100 * q, 4);
    ModShift(r + 300, q, 400);
  }

  /** Each leap year adds one to the count. */
  lemma LeapYearCounted(year: int)
    requires year >= 1
    ensures LeapYearsToEnd(year) == LeapYearsToEnd(year - 1) + if IsLeapYear(year) then 1 else 0
  {
    StepDiv(year, 4);
    StepDiv(year, 100);
    StepDiv(year + 300, 400);
    LeapRemainders(year);
  }

  lemma StepDiv(x: int, b: int)
    requires x >= 1 && b > 1
    ensures Div(x, b) == Div(x - 1, b) + if x % b == 0 then 1 else 0
  {
    var q, r := x / b, x % b;
    assert x == b * q + r;
    if r == 0 {
      assert x - 1 == (q - 1) * b + (b - 1);
      DivUnique(x - 1, b, q - 1, b - 1);
    } else {
      assert x - 1 == q * b + (r - 1);
      DivUnique(x - 1, b, q, r - 1);
    }
  }

  lemma LeapRemainders(year: int)
    requires year >= 0
    ensures Mod(year, 4) == year % 4 && Mod(year, 100) == year % 100 && Mod(year, 400) == year % 400
    ensures (year + 300) % 400 == 0 <==> year % 400 == 100
    ensures year % 100 == 0 ==> year % 4 == 0
    ensures year % 400 == 100 ==> year % 100 == 0
  {
    hide Mod;
    ModIs(year, 4);
    ModIs(year, 100);
    ModIs(year, 400);
    Cycle(year);
    InCycle(year % 400);
  }

  lemma ModIs(a: int, b: int)
    requires a >= 0 && b > 0
    ensures Mod(a, b) == a % b
  {}

  lemma InCycle(r: int)
    requires 0 <= r < 400
    ensures (r + 300) % 400 == 0 <==> r == 100
    ensures r % 100 == 0 ==> r % 4 == 0
  {}

  function MonthLength(year: int, mon: int): int
    requires 0 <= mon < 12
  {
    if mon == 1 then (if IsLeapYear(year) then 29 else 28)
    else if mon in {3, 5, 8, 10} then 30
    else 31
  }

  predicate ValidDate(year: int, mon: int, mday: int) {
    70 <= year && 0 <= mon < 12 && 1 <= mday <= MonthLength(year, mon)
  }

  datatype Date = Date(year: int, mon: int, mday: int)

  function Tomorrow(d: Date): Date
    requires ValidDate(d.year, d.mon, d.mday)
  {
    if d.mday < MonthLength(d.year, d.mon) then d.(mday := d.mday + 1)
    else if d.mon < 11 then Date(d.year, d.mon + 1, 1)
    else Date(d.year + 1, 0, 1)
  }

  /** The day after a valid date is a valid date. */
  lemma TomorrowValid(d: Date)
    requires ValidDate(d.year, d.mon, d.mday)
    ensures var t := Tomorrow(d); ValidDate(t.year, t.mon, t.mday)
  {
    hide IsLeapYear;
  }

  lemma MonthStarts(year: int, mon: int)
    requires 0 <= mon < 11
    ensures YearDay(year, mon + 1, 1) == YearDay(year, mon, MonthLength(year, mon)) + 1
  {
    hide IsLeapYear;
  }

  /** Consecutive days have consecutive numbers, across the ends of months, of years and of centuries. */
  lemma Consecutive(d: Date)
    requires ValidDate(d.year, d.mon, d.mday)
    ensures var t := Tomorrow(d);
            0 <= t.mon < 12 && DayNumber(t.year, t.mon, t.mday) == DayNumber(d.year, d.mon, d.mday) + 1
  {
    hide IsLeapYear, LeapYearsToEnd;
    if d.mday == MonthLength(d.year, d.mon) {
      if d.mon < 11 {
        MonthStarts(d.year, d.mon);
      } else {
        LeapYearCounted(d.year);
      }
    }
  }

  /** Day zero is the first of January 1970. */
  lemma Epoch()
    ensures DayNumber(70, 0, 1) == 0
  {}

  function Yesterday(d: Date): Date
    requires ValidDate(d.year, d.mon, d.mday)
  {
    if d.mday > 1 then d.(mday := d.mday - 1)
    else if d.mon > 0 then Date(d.year, d.mon - 1, MonthLength(d.year, d.mon - 1))
    else Date(d.year - 1, 11, 31)
  }

  lemma YesterdayTomorrow(d: Date)
    requires ValidDate(d.year, d.mon, d.mday) && d != Date(70, 0, 1)
    ensures var y := Yesterday(d); ValidDate(y.year, y.mon, y.mday) && Tomorrow(y) == d
  {
    hide IsLeapYear;
  }

  /** The date `n` days after the first of January 1970. */
  function After(n: nat): (d: Date)
    ensures ValidDate(d.year, d.mon, d.mday)
  {
    if n == 0 then Date(70, 0, 1)
    else
      TomorrowValid(After(n - 1));
      Tomorrow(After(n - 1))
  }

  /** Every valid date is as many days after the first of January 1970 as its number says. */
  lemma {:induction false} AfterItsNumber(d: Date)
    requires ValidDate(d.year, d.mon, d.mday)
    ensures DayNumber(d.year, d.mon, d.mday) >= 0 && After(DayNumber(d.year, d.mon, d.mday)) == d
    decreases d.year, d.mon, d.mday
  {
    hide IsLeapYear, LeapYearsToEnd, ValidDate, Tomorrow, Yesterday;
    Epoch();
    if d != Date(70, 0, 1) {
      var y := Yesterday(d);
      YesterdayTomorrow(d);
      Earlier(d);
      Consecutive(y);
      AfterItsNumber(y);
    }
  }

  lemma Earlier(d: Date)
    requires ValidDate(d.year, d.mon, d.mday) && d != Date(70, 0, 1)
    ensures var y := Yesterday(d);
            && 0 <= y.year && 0 <= y.mon < 12 && 0 <= y.mday
            && (y.year < d.year || (y.year == d.year && (y.mon < d.mon || (y.mon == d.mon && y.mday < d.mday))))
  {
    hide IsLeapYear;
  }

  /** And every number is that of a valid date. */
  lemma {:induction false} NumberOfAfter(n: nat)
    ensures var d := After(n); 0 <= d.mon < 12 && DayNumber(d.year, d.mon, d.mday) == n
  {
    hide IsLeapYear, LeapYearsToEnd, Tomorrow;
    Epoch();
    if n > 0 {
      NumberOfAfter(n - 1);
      Consecutive(After(n - 1));
    }
  }

  /** The months of a common year, and February of a leap year. */
  lemma KnownMonths(year: int)
    ensures MonthLength(year, 0) == 31 && MonthLength(year, 2) == 31 && MonthLength(year, 3) == 30
    ensures MonthLength(year, 4) == 31 && MonthLength(year, 5) == 30 && MonthLength(year, 6) == 31
    ensures MonthLength(year, 7) == 31 && MonthLength(year, 8) == 30 && MonthLength(year, 9) == 31
    ensures MonthLength(year, 10) == 30 && MonthLength(year, 11) == 31
    ensures MonthLength(year, 1) == if IsLeapYear(year) then 29 else 28
  {
    hide IsLeapYear;
  }

  /** The last day of 1999, the leap day of 2000, and the last day of 32-bit time. */
  lemma KnownDates()
    ensures DayNumber(99, 11, 31) == 10956
    ensures DayNumber(100, 1, 29) == 11016
    ensures DayNumber(138, 0, 19) == 24855
  {
    hide IsLeapYear, LeapYearsToEnd;
    KnownLeaps();
  }

  lemma KnownLeaps()
    ensures LeapYearsToEnd(98) == 24 && LeapYearsToEnd(99) == 24 && LeapYearsToEnd(137) == 34 && !IsLeapYear(99)
  {
    assert Div(98, 4) == 24 && Div(98, 100) == 0 && Div(398, 400) == 0;
    assert Div(99, 4) == 24 && Div(99, 100) == 0 && Div(399, 400) == 0;
    assert Div(137, 4) == 34 && Div(137, 100) == 1 && Div(437, 400) == 1;
  }

  /** The formula of section 4.15 of POSIX:2008, for a time of which the day of the year is known. */
  function PosixSeconds(sec: int, min: int, hour: int, yday: int, year: int): int {
    sec + min * 60 + hour * 3600 + yday * 86400 + (year - 70) * 31536000
    + Div(year - 69, 4) * 86400 - Div(year - 1, 100) * 86400 + Div(year + 299, 400) * 86400
  }

  lemma IsPosix(sec: int, min: int, hour: int, year: int, mon: int, mday: int)
    requires 0 <= mon < 12 && year >= 70
    ensures DayNumber(year, mon, mday) * 86400 + hour * 3600 + min * 60 + sec
         == PosixSeconds(sec, min, hour, YearDay(year, mon, mday), year)
  {
    hide YearDay;
    assert Div(year - 1, 4) == Div(year - 69, 4) + 17;
  }

  /** The separately computed weekday is that of the day number: day zero was a Thursday. */
  lemma WeekdayAgrees(year: int, mon: int, mday: int)
    requires ValidDate(year, mon, mday)
    ensures DayOfWeek(year, mon, mday) == (DayNumber(year, mon, mday) + 4) % 7
  {
    hide IsLeapYear, LeapYearsToEnd;
    LeapYearCounted(year);
    LeapYearsPositive(year - 1);
    LeapYearsPositive(year);
    var pseudo := if mon < 2 then year - 1 else year;
    var sum := pseudo + LeapYearsToEnd(pseudo) + OFFSETS[mon] + mday;
    var k := 52 * year - 3652 + MonthWeeks(mon);
    assert DayNumber(year, mon, mday) + 4 == sum + 7 * k;
    Weeks(sum, k);
  }

  lemma LeapYearsPositive(year: int)
    requires year >= 0
    ensures LeapYearsToEnd(year) >= 0
  {}

  lemma Weeks(x: int, k: int)
    requires x >= 0
    ensures (x + 7 * k) % 7 == Mod(x, 7)
  {}

  /** Whole weeks between the start of a month and its offset. */
  function MonthWeeks(mon: int): int
    requires 0 <= mon < 12
  {
    (DAYS_TO_MONTH_START[mon] - OFFSETS[mon] + if mon < 2 then 1 else 0) / 7
  }
}
