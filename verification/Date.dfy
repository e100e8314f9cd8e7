/** Dates with a cached weekday (src/glib/gdate.cpp). */
module Date {
  datatype Civil = Civil(year: int, month: int, day: int)

  // ----- the rules of the source

  predicate IsLeapYear(y: int) {
    y >= 1800 && (y % 400 == 0 || (y % 100 != 0 && y % 4 == 0))
  }

  function LastDay(month: int, year: int): int {
    if month == 1 || month == 3 || month == 5 || month == 7 || month == 8 || month == 10 || month == 12 then 31
    else if month == 2 then if IsLeapYear(year) then 29 else 28
    else 30
  }

  function NextDay(d: Civil): Civil {
    if d.day + 1 == LastDay(d.month, d.year) + 1 then
      if d.month + 1 == 13 then Civil(d.year + 1, 1, 1) else Civil(d.year, d.month + 1, 1)
    else
      d.(day := d.day + 1)
  }

  function PreviousDay(d: Civil): Civil {
    if d.day == 1 then
      if d.month == 1 then Civil(d.year - 1, 12, LastDay(12, d.year - 1))
      else Civil(d.year, d.month - 1, LastDay(d.month - 1, d.year))
    else
      d.(day := d.day - 1)
  }

  // ----- the Gregorian calendar

  predicate IsGregorianLeap(y: int) {
    y % 400 == 0 || (y % 100 != 0 && y % 4 == 0)
  }

  function LastDate(month: int, year: int): int {
    if month == 4 || month == 6 || month == 9 || month == 11 then 30
    else if month != 2 then 31
    else if IsGregorianLeap(year) then 29 else 28
  }

  predicate IsMonth(d: Civil) {
    1 <= d.month <= 12 && 1 <= d.day
  }

  /** A date of the calendar; check() also lets through days up to the 31st in any month. */
  predicate IsDate(d: Civil) {
    IsMonth(d) && d.day <= LastDate(d.month, d.year)
  }

  /** The days of a year before each month, leaving out a leap day. */
  function DaysBeforeMonth(month: int): int
    requires 1 <= month <= 12
  {
    match month
    case 1 => 0 case 2 => 31 case 3 => 59 case 4 => 90 case 5 => 120 case 6 => 151
    case 7 => 181 case 8 => 212 case 9 => 243 case 10 => 273 case 11 => 304 case 12 => 334
  }

  /** The number of leap days before a year, with one in every fourth year but in only one of four centuries. */
  function LeapDaysBefore(year: int): int {
    (year - 1) / 4 - (year - 1) / 100 + (year - 1) / 400
  }

  /** The number of a day in the calendar; a day past the end of its month counts on into the next. */
  function DayNumber(d: Civil): int
    requires IsMonth(d)
  {
    365 * d.year + LeapDaysBefore(d.year) + DaysBeforeMonth(d.month)
    + (if d.month > 2 && IsGregorianLeap(d.year) then 1 else 0) + d.day
  }

  lemma LeapDays(year: int)
    ensures LeapDaysBefore(year + 1) == LeapDaysBefore(year) + if IsGregorianLeap(year) then 1 else 0
  {
    Fourths(year);
    Hundredths(year);
    FourHundredths(year);
    Multiples(year);
  }

  lemma Fourths(x: int)
    ensures x / 4 == (x - 1) / 4 + if x % 4 == 0 then 1 else 0
  {
  }

  lemma Hundredths(x: int)
    ensures x / 100 == (x - 1) / 100 + if x % 100 == 0 then 1 else 0
  {
  }

  lemma FourHundredths(x: int)
    ensures x / 400 == (x - 1) / 400 + if x % 400 == 0 then 1 else 0
  {
  }

  lemma Multiples(x: int)
    ensures x % 400 == 0 ==> x % 100 == 0
    ensures x % 100 == 0 ==> x % 4 == 0
  {
    if x % 400 == 0 {
      Hundred(4 * (x / 400));
    }
    if x % 100 == 0 {
      Four(25 * (x / 100));
    }
  }

  lemma Hundred(k: int)
    ensures 100 * k % 100 == 0
  {
  }

  lemma Four(k: int)
    ensures 4 * k % 4 == 0
  {
  }

  /** The day after a date, and the day before. */
  function NextDate(d: Civil): Civil {
    if d.day == LastDate(d.month, d.year) then
      if d.month == 12 then Civil(d.year + 1, 1, 1) else Civil(d.year, d.month + 1, 1)
    else
      d.(day := d.day + 1)
  }

  function PreviousDate(d: Civil): Civil {
    if d.day == 1 then
      if d.month == 1 then Civil(d.year - 1, 12, 31) else Civil(d.year, d.month - 1, LastDate(d.month - 1, d.year))
    else
      d.(day := d.day - 1)
  }

  lemma NextDateNumber(d: Civil)
    requires IsDate(d)
    ensures IsDate(NextDate(d)) && DayNumber(NextDate(d)) == DayNumber(d) + 1
  {
    hide LeapDaysBefore, IsGregorianLeap;
    LeapDays(d.year);
  }

  lemma PreviousDateNumber(d: Civil)
    requires IsDate(d)
    ensures IsDate(PreviousDate(d)) && DayNumber(PreviousDate(d)) == DayNumber(d) - 1
  {
    hide LeapDaysBefore, IsGregorianLeap;
    LeapDays(d.year - 1);
  }

  // ----- the steps of the source in the calendar

  /** The source knows no leap years before 1800. */
  predicate LacksLeapDay(year: int) {
    year < 1800 && IsGregorianLeap(year)
  }

  lemma LeapYears(year: int)
    ensures IsLeapYear(year) <==> IsGregorianLeap(year) && year >= 1800
    ensures LacksLeapDay(year) <==> IsGregorianLeap(year) && year < 1800
  {
  }

  /** A step forward is a step of one day in the calendar, in any month and past its end too, except from the
      28th of February of a leap year that the source does not know. */
  lemma NextDayNumber(d: Civil)
    requires IsMonth(d)
    ensures IsMonth(NextDay(d))
    ensures DayNumber(NextDay(d)) == DayNumber(d) + 1 <==> !(LacksLeapDay(d.year) && d.month == 2 && d.day == 28)
    ensures IsDate(d) && !LacksLeapDay(d.year) ==> NextDay(d) == NextDate(d)
  {
    hide LeapDaysBefore, IsGregorianLeap, IsLeapYear, LacksLeapDay;
    LeapDays(d.year);
    LeapYears(d.year);
  }

  /** A step back is a step of one day, except from the 1st of March of such a year. */
  lemma PreviousDayNumber(d: Civil)
    requires IsMonth(d)
    ensures IsMonth(PreviousDay(d))
    ensures DayNumber(PreviousDay(d)) == DayNumber(d) - 1 <==> !(LacksLeapDay(d.year) && d.month == 3 && d.day == 1)
    ensures IsDate(d) && !LacksLeapDay(d.year) ==> PreviousDay(d) == PreviousDate(d)
  {
    hide LeapDaysBefore, IsGregorianLeap, IsLeapYear, LacksLeapDay;
    LeapDays(d.year - 1);
    LeapYears(d.year);
  }

  /** Back undoes forward, in any month and on any day from the first. */
  lemma PreviousOfNext(d: Civil)
    requires IsMonth(d)
    ensures PreviousDay(NextDay(d)) == d
  {
    hide IsLeapYear;
  }

  /** Forward undoes back on every day but the one after the end of a month, which is not a date. */
  lemma NextOfPrevious(d: Civil)
    requires IsMonth(d)
    ensures NextDay(PreviousDay(d)) == d <==> d.day != LastDay(d.month, d.year) + 1
  {
    hide IsLeapYear;
  }

  /** The 31st of April, which check() lets through, is such a day. */
  lemma ThirtyFirstOfApril()
    ensures NextDay(PreviousDay(Civil(2000, 4, 31))) == Civil(2000, 5, 1)
  {
  }

  // ----- the order of dates

  predicate Earlier(d: Civil, e: Civil) {
    d.year < e.year || (d.year == e.year && (d.month < e.month || (d.month == e.month && d.day < e.day)))
  }

  /** The days of a year are numbered from the first of January on. */
  lemma DayOfYear(d: Civil)
    requires IsDate(d)
    ensures var first := Civil(d.year, 1, 1);
      DayNumber(first) <= DayNumber(d) < DayNumber(first) + if IsGregorianLeap(d.year) then 366 else 365
  {
    hide LeapDaysBefore, IsGregorianLeap;
  }

  lemma LaterYear(y: int, z: int)
    requires y < z
    ensures DayNumber(Civil(z, 1, 1)) >= DayNumber(Civil(y, 1, 1)) + if IsGregorianLeap(y) then 366 else 365
    decreases z - y
  {
    hide LeapDaysBefore, IsGregorianLeap;
    LeapDays(z - 1);
    if y < z - 1 {
      LaterYear(y, z - 1);
    }
  }

  /** The numbers of two dates are in the same order as the dates, so that they tell dates apart. */
  lemma NumbersInOrder(d: Civil, e: Civil)
    requires IsDate(d) && IsDate(e)
    ensures Earlier(d, e) <==> DayNumber(d) < DayNumber(e)
    ensures d == e <==> DayNumber(d) == DayNumber(e)
  {
    hide LeapDaysBefore, IsGregorianLeap;
    EarlierNumber(d, e);
    EarlierNumber(e, d);
  }

  lemma EarlierNumber(d: Civil, e: Civil)
    requires IsDate(d) && IsDate(e)
    ensures Earlier(d, e) ==> DayNumber(d) < DayNumber(e)
  {
    hide LeapDaysBefore, IsGregorianLeap;
    if d.year < e.year {
      DayOfYear(d);
      DayOfYear(e);
      LaterYear(d.year, e.year);
    }
  }

  // ----- weekdays

  /** The day of the week, with Sunday zero; the first of January 1970 was a Thursday. */
  function WeekdayOf(d: Civil): (w: int)
    requires IsMonth(d)
    ensures 0 <= w < 7
  {
    (DayNumber(d) - DayNumber(Civil(1970, 1, 1)) + 4) % 7
  }

  /** A Thursday it was, and the days of the week follow one another. */
  lemma WeekdaysFollow(d: Civil)
    requires IsDate(d)
    ensures WeekdayOf(Civil(1970, 1, 1)) == 4
    ensures WeekdayOf(NextDate(d)) == if WeekdayOf(d) == 6 then 0 else WeekdayOf(d) + 1
  {
    hide NextDate, DayNumber;
    NextDateNumber(d);
  }

  // ----- the object

  class Date {
    var day: int
    var month: int
    var year: int
    var weekdaySet: bool
    var weekday: int

    constructor (d: Civil)
      requires IsMonth(d)
      ensures Valid() && Value() == d
    {
      year, month, day, weekdaySet, weekday := d.year, d.month, d.day, false, 0;
    }

    function Value(): Civil
      reads this
    {
      Civil(year, month, day)
    }

    /** A weekday in the cache is the right one. */
    ghost predicate Valid()
      reads this
    {
      IsMonth(Value()) && (weekdaySet ==> weekday == WeekdayOf(Value()))
    }

    method Increment()
      requires Valid()
      modifies this
      ensures Value() == NextDay(old(Value())) && weekdaySet == old(weekdaySet)
      ensures !old(LacksLeapDay(year) && month == 2 && day == 28)
        ==> Valid() && DayNumber(Value()) == old(DayNumber(Value())) + 1
    {
      hide LeapDaysBefore, IsLeapYear, DayNumber, LacksLeapDay;
      NextDayNumber(Value());
      day := day + 1;
      if day == LastDay(month, year) + 1 {
        day := 1;
        month := month + 1;
        if month == 13 {
          month := 1;
          year := year + 1;
        }
      }
      if weekdaySet {
        if weekday == 6 {
          weekday := 0;
        } else {
          weekday := weekday + 1;
        }
      }
    }

    method Decrement()
      requires Valid()
      modifies this
      ensures Value() == PreviousDay(old(Value())) && weekdaySet == old(weekdaySet)
      ensures !old(LacksLeapDay(year) && month == 3 && day == 1)
        ==> Valid() && DayNumber(Value()) == old(DayNumber(Value())) - 1
    {
      hide LeapDaysBefore, IsLeapYear, DayNumber, LacksLeapDay;
      PreviousDayNumber(Value());
      if day == 1 {
        if month == 1 {
          year := year - 1;
          month := 12;
        } else {
          month := month - 1;
        }
        day := LastDay(month, year);
      } else {
        day := day - 1;
      }
      if weekdaySet {
        if weekday == 0 {
          weekday := 6;
        } else {
          weekday := weekday - 1;
        }
      }
    }

    method Weekday() returns (w: int)
      requires Valid()
      modifies this`weekdaySet, this`weekday
      ensures Valid() && weekdaySet && w == WeekdayOf(Value())
    {
      if !weekdaySet {
        weekdaySet := true;
        weekday := WeekdayOf(Value());
      }
      w := weekday;
    }
  }
}
