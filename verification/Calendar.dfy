/**
 Day numbers to calendar dates.  `CivilFromDays` is the arithmetic of the decoder probe; the
 proleptic Gregorian calendar beside it is defined by leap years and month lengths alone.
 */
module Calendar {
  import opened Arithmetic

  datatype Date = Date(year: int, month: int, day: int)

  const I64_MIN: int := -0x8000_0000_0000_0000
  const I64_MAX: int := 0x7FFF_FFFF_FFFF_FFFF

  // ----- The calendar

  predicate IsLeap(year: int) { year % 4 == 0 && (year % 100 != 0 || year % 400 == 0) }

  function DaysInMonth(year: int, month: int): int
  {
    if month == 2 then if IsLeap(year) then 29 else 28
    else if month == 4 || month == 6 || month == 9 || month == 11 then 30
    else 31
  }

  predicate IsDate(d: Date) { 1 <= d.month <= 12 && 1 <= d.day <= DaysInMonth(d.year, d.month) }

  function NextDay(d: Date): Date
  {
    if d.day < DaysInMonth(d.year, d.month) then d.(day := d.day + 1)
    else if d.month < 12 then Date(d.year, d.month + 1, 1)
    else Date(d.year + 1, 1, 1)
  }

  function DaysInYear(year: int): int { if IsLeap(year) then 366 else 365 }

  /** Days from 0001-01-01 to January 1 of `year`, counted year by year. */
  function DaysBeforeYear(year: int): int
    decreases if year >= 1 then year - 1 else 1 - year
  {
    if year == 1 then 0
    else if year > 1 then DaysBeforeYear(year - 1) + DaysInYear(year - 1)
    else DaysBeforeYear(year + 1) - DaysInYear(year)
  }

  function DaysBeforeMonth(year: int, month: int): int
    requires 1 <= month <= 12
  {
    if month == 1 then 0 else DaysBeforeMonth(year, month - 1) + DaysInMonth(year, month - 1)
  }

  /** The number of a date, counted from 1970-01-01. */
  function DayNumber(d: Date): int
    requires IsDate(d)
  {
    DaysBeforeYear(d.year) + DaysBeforeMonth(d.year, d.month) + d.day - 1 - 719_162
  }

  lemma MonthTable(year: int, month: int)
    requires 1 <= month <= 12
    ensures DaysBeforeMonth(year, month) ==
      (if month == 1 then 0 else if month == 2 then 31 else
       (if IsLeap(year) then 1 else 0) +
       (if month == 3 then 59 else if month == 4 then 90 else if month == 5 then 120 else if month == 6 then 151
        else if month == 7 then 181 else if month == 8 then 212 else if month == 9 then 243
        else if month == 10 then 273 else if month == 11 then 304 else 334))
  {
    if month > 1 { MonthTable(year, month - 1); }
  }

  lemma DivStep(y: int, d: int)
    requires d > 1
    ensures y / d == (y - 1) / d + if y % d == 0 then 1 else 0
  {
    var q, r := y / d, y % d;
    if r == 0 {
      assert d * (q - 1) == d * q - d;
      DivIs(y - 1, d, q - 1);
    } else {
      DivIs(y - 1, d, q);
    }
  }

  lemma LeapDivisors(y: int)
    ensures y % 400 == 0 ==> y % 100 == 0
    ensures y % 100 == 0 ==> y % 4 == 0
  {
    if y % 100 == 0 { DivIs(y, 4, 25 * (y / 100)); }
    if y % 400 == 0 { DivIs(y, 100, 4 * (y / 400)); }
  }

  lemma YearLength(year: int)
    ensures DaysBeforeYear(year + 1) == DaysBeforeYear(year) + DaysInYear(year)
  {
  }

  /** Leap days up to the end of year `y`. */
  function LeapDays(y: int): int { y / 4 - y / 100 + y / 400 }

  lemma LeapDaysStep(y: int)
    ensures LeapDays(y) == LeapDays(y - 1) + if IsLeap(y) then 1 else 0
  {
    DivStep(y, 4);
    DivStep(y, 100);
    DivStep(y, 400);
    LeapDivisors(y);
  }

  lemma {:induction false} DaysBeforeYearIs(year: int)
    ensures DaysBeforeYear(year) == 365 * (year - 1) + LeapDays(year - 1)
    decreases if year >= 1 then year - 1 else 1 - year
  {
    if year > 1 {
      DaysBeforeYearIs(year - 1);
      LeapDaysStep(year - 1);
    } else if year < 1 {
      DaysBeforeYearIs(year + 1);
      LeapDaysStep(year);
    }
  }

  /** Consecutive days have consecutive numbers. */
  lemma NextDayCounts(d: Date)
    requires IsDate(d)
    ensures IsDate(NextDay(d)) && DayNumber(NextDay(d)) == DayNumber(d) + 1
  {
    MonthTable(d.year, 12);
    YearLength(d.year);
  }

  // ----- The arithmetic

  /** Division as Rust does it on `i64`: towards zero. */
  function TruncDiv(a: int, b: int): int
    requires b > 0
  {
    if a >= 0 then a / b else -(-a / b)
  }

  function CivilFromDays(days: int): Date
    requires I64_MIN <= days <= I64_MAX - 719_468
  {
    DateOfEra(EraOf(days + 719_468), DayOfEra(days + 719_468))
  }

  function EraOf(z: int): int { TruncDiv(if z >= 0 then z else z - 146_096, 146_097) }

  function DayOfEra(z: int): int { z - EraOf(z) * 146_097 }

  function DateOfEra(era: int, doe: int): Date
  {
    var yoe := YearOfEra(doe);
    FromMarchYear(yoe + era * 400, doe - YearStart(yoe))
  }

  /** The date `doy` days after March 1 of year `y`. */
  function FromMarchYear(y: int, doy: int): Date
  {
    var mp := (5 * doy + 2) / 153;
    var d := doy - MarchOffset(mp) + 1;
    var m := if mp < 10 then mp + 3 else mp - 9;
    Date(if m <= 2 then y + 1 else y, m, d)
  }

  /** Days from March 1 to the first of the month that begins `mp` months later. */
  function MarchOffset(mp: int): int { (153 * mp + 2) / 5 }

  /** The adjusted truncating division is division rounding down. */
  lemma EraIsFloor(z: int)
    ensures EraOf(z) == z / 146_097
  {
  }

  /** The day of the era on which its year `y` (March to February) begins. */
  function YearStart(y: int): int { 365 * y + y / 4 - y / 100 }

  function YearOfEra(doe: int): int { (doe - doe / 1460 + doe / 36524 - doe / 146096) / 365 }

  /** Day `t` of year `y` of the era. */
  predicate InYear(y: int, t: int)
  {
    0 <= y <= 399 && 0 <= t <= 365 && (t == 365 ==> IsLeap(y + 1))
  }

  lemma {:induction false} FindYear(doe: int, from: int) returns (y: int)
    requires 0 <= from <= 399 && YearStart(from) <= doe <= 146_096
    ensures InYear(y, doe - YearStart(y))
    decreases 399 - from
  {
    DivStep(from + 1, 4);
    DivStep(from + 1, 100);
    LeapDivisors(from + 1);
    if from < 399 && YearStart(from + 1) <= doe {
      y := FindYear(doe, from + 1);
    } else {
      y := from;
    }
  }

  lemma Cycles4(y: int, t: int)
    requires InYear(y, t)
    ensures (YearStart(y) + t) / 1460 == y / 4 + if y % 4 == 3 && t + y / 4 - y / 100 >= 365 then 1 else 0
  {
    var q := y / 4 + if y % 4 == 3 && t + y / 4 - y / 100 >= 365 then 1 else 0;
    assert y == 4 * (y / 4) + y % 4;
    assert y == 100 * (y / 100) + y % 100;
    LeapDivisors(y + 1);
    DivIs(YearStart(y) + t, 1460, q);
  }

  lemma Cycles100(y: int, t: int)
    requires InYear(y, t)
    ensures (YearStart(y) + t) / 36524 == y / 100 + if y == 399 && t == 365 then 1 else 0
    ensures (YearStart(y) + t) / 146096 == if y == 399 && t == 365 then 1 else 0
  {
    var c, r := y / 100, y % 100;
    assert y == 100 * c + r;
    DivIs(y, 4, 25 * c + r / 4);
    DivIs(YearStart(y) + t, 36524, c + if y == 399 && t == 365 then 1 else 0);
  }

  /** The last day of a leap year is in a fourth year, late enough to be counted by the first cycle. */
  lemma LastDayIsCounted(y: int, t: int)
    requires InYear(y, t) && t == 365
    ensures y % 4 == 3 && y / 4 >= y / 100
  {
    LeapDivisors(y + 1);
    assert y == 4 * (y / 4) + y % 4 && y == 100 * (y / 100) + y % 100;
  }

  /** What is left of the day once the cycles are taken out: the years, and the day of the year
      less the leap day that the first cycle counted. */
  lemma DayWithoutCycles(y: int, t: int)
    requires InYear(y, t)
    ensures var doe := YearStart(y) + t;
      365 * y <= doe - doe / 1460 + doe / 36524 - doe / 146096 < 365 * y + 365
  {
    Cycles4(y, t);
    Cycles100(y, t);
    if t == 365 { LastDayIsCounted(y, t); }
  }

  /** The shifted quotient counts exactly the years that have begun. */
  lemma YearOfEraIs(y: int, t: int)
    requires InYear(y, t)
    ensures YearOfEra(YearStart(y) + t) == y
  {
    DayWithoutCycles(y, t);
    var doe := YearStart(y) + t;
    DivIs(doe - doe / 1460 + doe / 36524 - doe / 146096, 365, y);
  }

  lemma MonthOfYear(doy: int)
    requires 0 <= doy <= 365
    ensures var mp := (5 * doy + 2) / 153;
      && 0 <= mp <= 11
      && 0 <= doy - MarchOffset(mp)
      && doy - MarchOffset(mp) < (if mp == 1 || mp == 3 || mp == 6 || mp == 8 then 30 else if mp == 11 then 29 else 31)
      && (mp == 11 && doy - MarchOffset(mp) == 28 ==> doy == 365)
      && MarchOffset(mp) ==
           (if mp == 0 then 0 else if mp == 1 then 31 else if mp == 2 then 61 else if mp == 3 then 92
            else if mp == 4 then 122 else if mp == 5 then 153 else if mp == 6 then 184 else if mp == 7 then 214
            else if mp == 8 then 245 else if mp == 9 then 275 else if mp == 10 then 306 else 337)
  {
  }

  /** March 1 of year `y`, counted from 0001-01-01, when `era` eras and `yoe` years precede it. */
  lemma MarchFirst(era: int, yoe: int)
    requires 0 <= yoe <= 399
    ensures var y := yoe + era * 400;
      && DaysBeforeYear(y + 1) == era * 146_097 + YearStart(yoe)
      && (IsLeap(y + 1) <==> IsLeap(yoe + 1))
  {
    var y := yoe + era * 400;
    DivIs(y, 4, yoe / 4 + 100 * era);
    DivIs(y, 100, yoe / 100 + 4 * era);
    DivIs(y, 400, era);
    assert y == 400 * era + yoe;
    DivIs(y + 1, 4, (yoe + 1) / 4 + 100 * era);
    DivIs(y + 1, 100, (yoe + 1) / 100 + 4 * era);
    DivIs(y + 1, 400, (yoe + 1) / 400 + era);
    DaysBeforeYearIs(y + 1);
  }

  lemma FromMarchYearIs(y: int, doy: int)
    requires 0 <= doy <= 365 && (doy == 365 ==> IsLeap(y + 1))
    ensures IsDate(FromMarchYear(y, doy))
    ensures DayNumber(FromMarchYear(y, doy)) == DaysBeforeYear(y + 1) + doy - 306 - 719_162
  {
    MonthOfYear(doy);
    YearLength(y);
    var d := FromMarchYear(y, doy);
    MonthTable(d.year, d.month);
  }

  lemma DateInEra(era: int, yoe: int, doe: int)
    requires InYear(yoe, doe - YearStart(yoe))
    ensures IsDate(FromMarchYear(yoe + era * 400, doe - YearStart(yoe)))
    ensures DayNumber(FromMarchYear(yoe + era * 400, doe - YearStart(yoe))) == era * 146_097 + doe - 719_468
  {
    MarchFirst(era, yoe);
    FromMarchYearIs(yoe + era * 400, doe - YearStart(yoe));
  }

  lemma EraParts(z: int, era: int, doe: int)
    requires z == era * 146_097 + doe && 0 <= doe < 146_097
    ensures EraOf(z) == era && DayOfEra(z) == doe
  {
    EraIsFloor(z);
    DivIs(z, 146_097, era);
  }

  lemma YearOfDay(doe: int, yoe: int)
    requires InYear(yoe, doe - YearStart(yoe))
    ensures YearOfEra(doe) == yoe
  {
    YearOfEraIs(yoe, doe - YearStart(yoe));
  }

  lemma CivilParts(days: int, era: int, doe: int, yoe: int)
    requires I64_MIN <= days <= I64_MAX - 719_468
    requires days + 719_468 == era * 146_097 + doe && 0 <= doe < 146_097
    requires YearOfEra(doe) == yoe
    ensures CivilFromDays(days) == FromMarchYear(yoe + era * 400, doe - YearStart(yoe))
  {
    EraParts(days + 719_468, era, doe);
  }

  /** The date computed for a day number is a date, and that day's number is the one given. */
  lemma CivilFromDaysInverts(days: int)
    requires I64_MIN <= days <= I64_MAX - 719_468
    ensures IsDate(CivilFromDays(days)) && DayNumber(CivilFromDays(days)) == days
  {
    var era, doe := EraAndDay(days + 719_468);
    var yoe := FindYear(doe, 0);
    YearOfDay(doe, yoe);
    CivilParts(days, era, doe, yoe);
    DateInEra(era, yoe, doe);
  }

  lemma EraAndDay(z: int) returns (era: int, doe: int)
    ensures z == era * 146_097 + doe && 0 <= doe < 146_097
  {
    era, doe := z / 146_097, z % 146_097;
  }

  /** A date's number lies within its year, and within its month. */
  lemma DayNumbersAreDistinct(a: Date, b: Date)
    requires IsDate(a) && IsDate(b) && DayNumber(a) == DayNumber(b)
    ensures a == b
  {
    if a.year < b.year { YearsAreDisjoint(a, b); }
    if b.year < a.year { YearsAreDisjoint(b, a); }
    MonthTable(a.year, a.month);
    MonthTable(b.year, b.month);
  }

  lemma YearsAreDisjoint(a: Date, b: Date)
    requires IsDate(a) && IsDate(b) && a.year < b.year
    ensures DayNumber(a) < DayNumber(b)
  {
    YearLength(a.year);
    MonthTable(a.year, a.month);
    MonthTable(b.year, b.month);
    YearsGrow(a.year + 1, b.year);
  }

  lemma {:induction false} YearsGrow(a: int, b: int)
    requires a <= b
    ensures DaysBeforeYear(a) <= DaysBeforeYear(b)
    decreases b - a
  {
    if a < b {
      YearsGrow(a, b - 1);
      YearLength(b - 1);
    }
  }

  /** Every date whose number the arithmetic can take comes back from its number. */
  lemma DaysFromCivilInverts(d: Date)
    requires IsDate(d) && I64_MIN <= DayNumber(d) <= I64_MAX - 719_468
    ensures CivilFromDays(DayNumber(d)) == d
  {
    CivilFromDaysInverts(DayNumber(d));
    DayNumbersAreDistinct(CivilFromDays(DayNumber(d)), d);
  }

  lemma SuccessorIsNextDay(d: Date, e: Date)
    requires IsDate(d) && IsDate(e) && DayNumber(e) == DayNumber(d) + 1
    ensures e == NextDay(d)
  {
    NextDayCounts(d);
    DayNumbersAreDistinct(e, NextDay(d));
  }

  /** The next day number is the next calendar day ... */
  lemma CivilFromDaysFollowsCalendar(days: int)
    requires I64_MIN <= days < I64_MAX - 719_468
    ensures CivilFromDays(days + 1) == NextDay(CivilFromDays(days))
  {
    CivilFromDaysInverts(days);
    CivilFromDaysInverts(days + 1);
    SuccessorIsNextDay(CivilFromDays(days), CivilFromDays(days + 1));
  }

  /** ... and day 0 is 1970-01-01: the arithmetic is the proleptic Gregorian calendar. */
  lemma DayZeroIsTheEpoch()
    ensures CivilFromDays(0) == Date(1970, 1, 1)
  {
  }
}
