/** Day numbers and calendar dates (`civil_from_days`, `utc_now_string`). */
module Calendar {

  datatype Date = Date(year: int, month: int, day: int)

  // ---------------------------------------------------------------------
  // The proleptic Gregorian calendar (ISO 8601:2004, section 3.2.1)
  // ---------------------------------------------------------------------

  predicate IsLeap(y: int) { y % 4 == 0 && (y % 100 != 0 || y % 400 == 0) }

  function DaysInMonth(y: int, m: int): int {
    if m == 2 then (if IsLeap(y) then 29 else 28)
    else if m == 4 || m == 6 || m == 9 || m == 11 then 30
    else 31
  }

  predicate IsDate(d: Date) {
    1 <= d.month <= 12 && 1 <= d.day <= DaysInMonth(d.year, d.month)
  }

  const EPOCH := Date(1970, 1, 1)

  /** The calendar day after a date. */
  function NextDay(d: Date): (r: Date)
    requires IsDate(d)
    ensures IsDate(r)
  {
    if d.day < DaysInMonth(d.year, d.month) then d.(day := d.day + 1)
    else if d.month < 12 then Date(d.year, d.month + 1, 1)
    else Date(d.year + 1, 1, 1)
  }

  /** The days of the months before month `m`. */
  function DaysBeforeMonth(y: int, m: int): int
    requires 1 <= m <= 12
    decreases m
  {
    if m == 1 then 0 else DaysBeforeMonth(y, m - 1) + DaysInMonth(y, m - 1)
  }

  function DaysInYear(y: int): int { if IsLeap(y) then 366 else 365 }

  /** The days from 1970-01-01 to the first of January of year `y`, added up year by year. */
  function DaysBeforeYear(y: int): int
    decreases if y >= 1970 then y - 1970 else 1970 - y
  {
    if y == 1970 then 0
    else if y > 1970 then DaysBeforeYear(y - 1) + DaysInYear(y - 1)
    else DaysBeforeYear(y + 1) - DaysInYear(y)
  }

  /** The day number of a date, counted from the calendar alone. */
  function DaysFromCivil(d: Date): int
    requires IsDate(d)
  {
    DaysBeforeYear(d.year) + DaysBeforeMonth(d.year, d.month) + d.day - 1
  }

  // ---------------------------------------------------------------------
  // The conversion
  // ---------------------------------------------------------------------

  /** Division that truncates toward zero, as the language of the program divides. */
  function TruncDiv(a: int, b: int): int
    requires b > 0
  {
    if a >= 0 then a / b else -((-a) / b)
  }

  function CivilFromDays(days: int): Date {
    var z := days + 719468;
    var era := TruncDiv(if z >= 0 then z else z - 146096, 146097);
    CivilInEra(era, z - era * 146097)
  }

  /** The date of day `doe` of a 400-year era. From here on nothing negative is divided
      (`DividendsAreNatural`), so the two kinds of division agree. */
  function CivilInEra(era: int, doe: int): Date {
    var yoe := YearOfEra(doe);
    CivilInYear(yoe + era * 400, doe - EraDays(yoe))
  }

  /** The days before year `y` of an era, and the year of an era that a day falls into. */
  function EraDays(y: int): int { 365 * y + y / 4 - y / 100 }

  function YearOfEra(doe: int): int { (doe - doe / 1460 + doe / 36524 - doe / 146096) / 365 }

  /** The date of day `doy` of a year that starts in March. */
  function CivilInYear(y: int, doy: int): Date {
    var mp := (5 * doy + 2) / 153;
    var d := doy - (153 * mp + 2) / 5 + 1;
    var m := if mp < 10 then mp + 3 else mp - 9;
    Date(if m <= 2 then y + 1 else y, m, d)
  }

  // ---------------------------------------------------------------------
  // Years that start in March
  // ---------------------------------------------------------------------

  /** The day number of the first of March of year `y`, shifted so that year 0 starts at 0. */
  function MarchFirst(y: int): int { 365 * y + y / 4 - y / 100 + y / 400 }

  /** Dates written with the year starting in March: month 0 is March. */
  function MarchYear(d: Date): int { if d.month <= 2 then d.year - 1 else d.year }

  function MarchMonth(d: Date): int { if d.month <= 2 then d.month + 9 else d.month - 3 }

  lemma {:induction false} YearLengths(y: int)
    ensures DaysBeforeYear(y) + 719468 == MarchFirst(y - 1) + 306
    decreases if y >= 1970 then y - 1970 else 1970 - y
  {
    if y > 1970 {
      YearLengths(y - 1);
      MarchStep(y - 2);
    } else if y < 1970 {
      YearLengths(y + 1);
      MarchStep(y - 1);
    }
  }

  /** A March year has 366 days if the February at its end is a leap one. */
  lemma MarchStep(y: int)
    ensures MarchFirst(y + 1) == MarchFirst(y) + DaysInYear(y + 1)
  {
    assert (y + 1) / 4 == y / 4 + (if (y + 1) % 4 == 0 then 1 else 0);
    assert (y + 1) / 100 == y / 100 + (if (y + 1) % 100 == 0 then 1 else 0);
    assert (y + 1) / 400 == y / 400 + (if (y + 1) % 400 == 0 then 1 else 0);
    MultiplesNest(y + 1);
  }

  lemma MultiplesNest(y: int)
    ensures y % 100 == 0 ==> y % 4 == 0
    ensures y % 400 == 0 ==> y % 100 == 0
  {
    if y % 100 == 0 { assert y == 4 * (25 * (y / 100)); }
    if y % 400 == 0 { assert y == 100 * (4 * (y / 400)); }
  }

  lemma MonthLengths(y: int, m: int)
    requires 1 <= m <= 12
    ensures DaysBeforeMonth(y, m) ==
            (if m == 1 then 0 else if m == 2 then 31 else
             (if IsLeap(y) then 60 else 59) + (153 * (m - 3) + 2) / 5)
  {
    if m > 1 { MonthLengths(y, m - 1); }
  }

  /** The day number of a date in March-based terms. */
  lemma MarchDays(d: Date)
    requires IsDate(d)
    ensures DaysFromCivil(d) + 719468 == MarchFirst(MarchYear(d)) + (153 * MarchMonth(d) + 2) / 5 + d.day - 1
  {
    YearLengths(d.year);
    MonthLengths(d.year, d.month);
    MarchStep(d.year - 1);
  }

  /** The days before year `y` of a 400-year era. */
  /** The formula stays within the century that the day falls into. */
  lemma CenturyOfEra(doe: int)
    requires 0 <= doe < 146097
    ensures var y := YearOfEra(doe); 0 <= y <= 399 && (if doe == 146096 then y == 399 else y / 100 == doe / 36524)
  {
    assert doe / 146096 == if doe == 146096 then 1 else 0;
  }

  /** The year-of-era formula finds the year that the day falls into. */
  lemma YearOfEraCorrect(doe: int)
    requires 0 <= doe < 146097
    ensures var y := YearOfEra(doe);
            0 <= y <= 399 && EraDays(y) <= doe && (doe < EraDays(y + 1) || (y == 399 && doe == 146096))
  {
    CenturyOfEra(doe);
    var y, c, q := YearOfEra(doe), doe / 36524, doe / 1460;
    assert doe != 146096 ==> 365 * y <= doe - q + c < 365 * y + 365;
    assert (y + 1) / 4 == y / 4 + (if y % 4 == 3 then 1 else 0);
    assert (y + 1) / 100 == y / 100 + (if y % 100 == 99 then 1 else 0);
  }

  /** The day within a March year splits into a month and a day of that month. */
  lemma DayOfYear(doy: int)
    requires 0 <= doy <= 365
    ensures var mp := (5 * doy + 2) / 153;
            var m, d := if mp < 10 then mp + 3 else mp - 9, doy - (153 * mp + 2) / 5 + 1;
            && 0 <= mp <= 11
            && (if m == 2 then 1 <= d <= 29 && (d == 29 <==> doy == 365) else 1 <= d <= DaysInMonth(0, m))
  {
    var mp := (5 * doy + 2) / 153;
    assert mp in {0, 1, 2, 3, 4, 5, 6, 7, 8, 9, 10, 11};
  }

  lemma EraSplit(era: int, yoe: int)
    requires 0 <= yoe <= 399
    ensures MarchFirst(yoe + 400 * era) == 146097 * era + EraDays(yoe)
  {
    assert (yoe + 400 * era) / 4 == yoe / 4 + 100 * era;
    assert (yoe + 400 * era) / 100 == yoe / 100 + 4 * era;
    assert (yoe + 400 * era) / 400 == era;
  }

  lemma FromMarchIsDate(y: int, doy: int)
    requires 0 <= doy < DaysInYear(y + 1)
    ensures IsDate(CivilInYear(y, doy)) && DaysFromCivil(CivilInYear(y, doy)) + 719468 == MarchFirst(y) + doy
  {
    DayOfYear(doy);
    MarchDays(CivilInYear(y, doy));
  }

  lemma EraOfDay(z: int)
    ensures TruncDiv(if z >= 0 then z else z - 146096, 146097) == z / 146097
    ensures z - TruncDiv(if z >= 0 then z else z - 146096, 146097) * 146097 == z % 146097
  {
    if z < 0 {
      NegativeEra(z);
    }
  }

  /** Rounding a negative number down by truncation. */
  lemma NegativeEra(z: int)
    requires z < 0
    ensures -((146096 - z) / 146097) == z / 146097
  {
    var q, r := z / 146097, z % 146097;
    assert 146096 - z == 146097 * (-q) + (146096 - r);
  }

  /** Every quantity that the conversion divides after the era is known is non-negative. */
  lemma DividendsAreNatural(days: int)
    ensures var z := days + 719468;
            var doe := z - TruncDiv(if z >= 0 then z else z - 146096, 146097) * 146097;
            var yoe := (doe - doe / 1460 + doe / 36524 - doe / 146096) / 365;
            var doy := doe - (365 * yoe + yoe / 4 - yoe / 100);
            && 0 <= doe < 146097 && doe - doe / 1460 + doe / 36524 - doe / 146096 >= 0 && yoe >= 0 && doy >= 0
            && (5 * doy + 2) / 153 >= 0
  {
    var z := days + 719468;
    EraOfDay(z);
    YearOfEraCorrect(z % 146097);
  }

  lemma CivilIsFromMarch(days: int) returns (y: int, doy: int)
    ensures CivilFromDays(days) == CivilInYear(y, doy)
    ensures MarchFirst(y) + doy == days + 719468 && 0 <= doy < DaysInYear(y + 1)
  {
    var z := days + 719468;
    var era, doe := z / 146097, z % 146097;
    y, doy := YearOfEra(doe) + 400 * era, doe - EraDays(YearOfEra(doe));
    CivilByEra(days);
    MarchYearOf(era, doe);
  }

  lemma CivilByEra(days: int)
    ensures var z := days + 719468; CivilFromDays(days) == CivilInEra(z / 146097, z % 146097)
  {
    EraOfDay(days + 719468);
  }

  /** For every day number, negative ones included, the conversion yields a date of the
      calendar, and that date has this day number. */
  lemma CivilIsDate(days: int)
    ensures IsDate(CivilFromDays(days)) && DaysFromCivil(CivilFromDays(days)) == days
  {
    var y, doy := CivilIsFromMarch(days);
    FromMarchIsDate(y, doy);
  }

  lemma MarchYearOf(era: int, doe: int)
    requires 0 <= doe < 146097
    ensures var y, doy := YearOfEra(doe) + 400 * era, doe - EraDays(YearOfEra(doe));
            && MarchFirst(y) + doy == 146097 * era + doe
            && 0 <= doy < DaysInYear(y + 1)
  {
    YearOfEraCorrect(doe);
    var yoe := YearOfEra(doe);
    EraSplit(era, yoe);
    MarchStep(yoe + 400 * era);
    if yoe < 399 {
      EraSplit(era, yoe + 1);
    } else {
      EraSplit(era + 1, 0);
    }
  }

  /** The conversion and the calendar count invert each other. */
  lemma DateRoundTrip(d: Date)
    requires IsDate(d)
    ensures CivilFromDays(DaysFromCivil(d)) == d
  {
    var e := CivilFromDays(DaysFromCivil(d));
    CivilIsDate(DaysFromCivil(d));
    SameDayNumber(d, e);
  }

  /** Different dates have different day numbers. */
  lemma SameDayNumber(d: Date, e: Date)
    requires IsDate(d) && IsDate(e) && DaysFromCivil(d) == DaysFromCivil(e)
    ensures d == e
  {
    MarchDays(d);
    MarchDays(e);
    SameMarchYear(d, e);
  }

  lemma SameMarchYear(d: Date, e: Date)
    requires IsDate(d) && IsDate(e)
    requires MarchFirst(MarchYear(d)) + (153 * MarchMonth(d) + 2) / 5 + d.day == MarchFirst(MarchYear(e)) + (153 * MarchMonth(e) + 2) / 5 + e.day
    ensures d == e
  {
    InsideMarchYear(d);
    InsideMarchYear(e);
    MarchMonotonic(MarchYear(d), MarchYear(e));
    MarchMonotonic(MarchYear(e), MarchYear(d));
    assert MarchYear(d) == MarchYear(e);
    if MarchMonth(d) < MarchMonth(e) { MonthStarts(d, MarchMonth(e)); }
    if MarchMonth(e) < MarchMonth(d) { MonthStarts(e, MarchMonth(d)); }
  }

  lemma MonthStarts(d: Date, mp: int)
    requires IsDate(d) && MarchMonth(d) < mp <= 11
    ensures (153 * MarchMonth(d) + 2) / 5 + d.day - 1 < (153 * mp + 2) / 5
  {
  }

  lemma InsideMarchYear(d: Date)
    requires IsDate(d)
    ensures MarchFirst(MarchYear(d)) + (153 * MarchMonth(d) + 2) / 5 + d.day - 1 < MarchFirst(MarchYear(d) + 1)
  {
    MarchStep(MarchYear(d));
  }

  lemma MarchMonotonic(y: int, y': int)
    ensures y < y' ==> MarchFirst(y + 1) <= MarchFirst(y')
    decreases y' - y
  {
    if y + 1 < y' {
      MarchMonotonic(y, y' - 1);
      MarchStep(y' - 1);
    }
  }

  lemma EpochIsDayZero()
    ensures CivilFromDays(0) == EPOCH && DaysFromCivil(EPOCH) == 0
  {
    assert DaysFromCivil(EPOCH) == 0;
    DateRoundTrip(EPOCH);
  }

  /** Consecutive day numbers are consecutive calendar days. */
  lemma NextDayFollows(days: int)
    ensures IsDate(CivilFromDays(days)) && CivilFromDays(days + 1) == NextDay(CivilFromDays(days))
  {
    CivilIsDate(days);
    DayAfterNumber(days, CivilFromDays(days));
  }

  lemma DayAfterNumber(days: int, d: Date)
    requires IsDate(d) && DaysFromCivil(d) == days
    ensures CivilFromDays(days + 1) == NextDay(d)
  {
    DayAfter(d);
  }

  lemma DayAfter(d: Date)
    requires IsDate(d)
    ensures CivilFromDays(DaysFromCivil(d) + 1) == NextDay(d)
  {
    NextDayCounts(d);
    DateRoundTrip(NextDay(d));
  }

  lemma NextDayCounts(d: Date)
    requires IsDate(d)
    ensures DaysFromCivil(NextDay(d)) == DaysFromCivil(d) + 1
  {
    if d.day == DaysInMonth(d.year, d.month) && d.month == 12 {
      YearLengths(d.year);
      YearLengths(d.year + 1);
      MarchStep(d.year - 1);
      MonthLengths(d.year, 12);
    }
  }

  // ---------------------------------------------------------------------
  // Time of day
  // ---------------------------------------------------------------------

  datatype Timestamp = Timestamp(date: Date, hour: int, minute: int)

  /** The date and the time of day, to the minute, of a Unix time in seconds. */
  function UtcParts(secs: int): Timestamp {
    var days, rem := secs / 86400, secs % 86400;
    Timestamp(CivilFromDays(days), rem / 3600, rem % 3600 / 60)
  }

  /** A rendered time stamp is a real date with a real time of day, and it names exactly the
      minute that the second lies in. */
  lemma UtcPartsExact(secs: int)
    ensures var t := UtcParts(secs);
            && IsDate(t.date) && 0 <= t.hour < 24 && 0 <= t.minute < 60
            && (var start := 86400 * DaysFromCivil(t.date) + 3600 * t.hour + 60 * t.minute; start <= secs < start + 60)
  {
    CivilIsDate(secs / 86400);
    var rem := secs % 86400;
    assert secs == 86400 * (secs / 86400) + rem;
    assert rem == 3600 * (rem / 3600) + rem % 3600;
    assert rem % 3600 == 60 * (rem % 3600 / 60) + rem % 3600 % 60;
  }
}
