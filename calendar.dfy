/** Proleptic Gregorian calendar in UTC, with dates as day numbers
    (days since 1970-01-01). This is the part of Go's time package the
    engine relies on: time.Date builds an instant from (year, month, day),
    normalising an out-of-range month into the year and adding the day
    linearly, and Year/Month/Day read the civil date back. */
module Calendar {

  const SecondsPerDay: int := 86400

  /** A civil date as Year(), Month() and Day() report it. */
  datatype Civil = Civil(year: int, month: int, day: int)

  /** Day number of time.Date(y, m, d, 0, 0, 0, 0, time.UTC). Month 0 is
      December of the previous year and day 0 is the last day of the
      previous month, exactly as time.Date normalises them. */
  function DaysFromCivil(y: int, m: int, d: int): int
  {
    var yy := y + (m - 1) / 12;
    var mm := (m - 1) % 12 + 1;
    var y2 := if mm <= 2 then yy - 1 else yy;
    var mp := if mm > 2 then mm - 3 else mm + 9;
    YearStart(y2) + (153 * mp + 2) / 5 + d - 1 - 719468
  }

  /** Days from 0000-03-01 to 1 March of year y2: whole 400-year eras of
      146097 days, then the years of the era. */
  function YearStart(y2: int): int
  {
    (y2 / 400) * 146097 + DaysBeforeYearOfEra(y2 % 400)
  }

  /** The civil date of a day number (Year, Month and Day of a UTC time).
      The day number is split into 400-year eras of 146097 days counted
      from 0000-03-01, then into centuries (36524 days), four-year cycles
      (1461 days) and years (365 days); the year starts in March so that
      the leap day is the last day of the year. */
  function CivilFromDays(z: int): (c: Civil)
    ensures 1 <= c.month <= 12 && 1 <= c.day <= MonthLength(c.year, c.month)
  {
    var z0 := z + 719468;
    var (yoe, doy) := SplitDayOfEra(z0 % 146097);
    CivilOfEra(z0 / 146097, yoe, doy)
  }

  /** The civil date of day `doy` (0 is 1 March) of year `yoe` of era `era`. */
  function CivilOfEra(era: int, yoe: int, doy: int): (c: Civil)
    requires 0 <= yoe <= 399 && 0 <= doy < YearOfEraDays(yoe)
    ensures 1 <= c.month <= 12 && 1 <= c.day <= MonthLength(c.year, c.month)
  {
    LeapOfYearOfEra(era, yoe);
    MonthOfDayOfYear(doy);
    DayOfMonthBound(doy);
    var mp := (5 * doy + 2) / 153;
    var d := doy - (153 * mp + 2) / 5 + 1;
    var m := if mp < 10 then mp + 3 else mp - 9;
    Civil(yoe + era * 400 + (if m <= 2 then 1 else 0), m, d)
  }

  /** Gregorian leap years: every fourth year, except centuries not
      divisible by 400. */
  predicate IsLeapYear(y: int)
  {
    y % 4 == 0 && (y % 100 != 0 || y % 400 == 0)
  }

  /** The number of days of month m (1..12) of year y. */
  function MonthLength(y: int, m: int): int
  {
    if m == 2 then (if IsLeapYear(y) then 29 else 28)
    else if m == 4 || m == 6 || m == 9 || m == 11 then 30
    else 31
  }

  /** The number of days of year `yoe` of an era (March to February). */
  function YearOfEraDays(yoe: int): int
  {
    if yoe == 399 then 366 else DaysBeforeYearOfEra(yoe + 1) - DaysBeforeYearOfEra(yoe)
  }

  /** Days in the first `yoe` years of an era (the years start in March). */
  function DaysBeforeYearOfEra(yoe: int): int
  {
    yoe * 365 + yoe / 4 - yoe / 100
  }

  /** Splits a day of an era into the year of the era and the day of that year. */
  function SplitDayOfEra(doe: int): (r: (int, int))
    requires 0 <= doe < 146097
    ensures 0 <= r.0 <= 399 && 0 <= r.1 < YearOfEraDays(r.0)
    ensures doe == DaysBeforeYearOfEra(r.0) + r.1
  {
    var c := if doe / 36524 > 3 then 3 else doe / 36524;
    var r1 := doe - 36524 * c;
    var q := r1 / 1461;
    var r2 := r1 - 1461 * q;
    var a := if r2 / 365 > 3 then 3 else r2 / 365;
    var yoe := 100 * c + 4 * q + a;
    assert yoe / 4 == 25 * c + q;
    assert yoe / 100 == c;
    LastDayOfYearOfEra(c, q, a, r1, r2);
    (yoe, r2 - 365 * a)
  }

  /** The day of the year SplitDayOfEra leaves is within that year: only
      the fourth year of a four-year cycle reaches day 365, and then only
      when that cycle ends in a leap day. */
  lemma LastDayOfYearOfEra(c: int, q: int, a: int, r1: int, r2: int)
    requires 0 <= c <= 3 && (c < 3 ==> r1 < 36524) && 0 <= r1 <= 36524
    requires q == r1 / 1461 && r2 == r1 - 1461 * q
    requires a == (if r2 / 365 > 3 then 3 else r2 / 365)
    ensures r2 - 365 * a < YearOfEraDays(100 * c + 4 * q + a)
  {
    var yoe := 100 * c + 4 * q + a;
    assert yoe / 4 == 25 * c + q;
    assert yoe / 100 == c;
    if a == 3 && yoe < 399 {
      assert (yoe + 1) / 4 == 25 * c + q + 1;
      if q == 24 {
        assert c < 3;
      } else {
        assert (yoe + 1) / 100 == c;
      }
    }
  }

  /** A March-based day of the year lies before the start of the next
      month, so the day of the month never exceeds the month's length
      (February aside, whose length depends on the year). */
  lemma DayOfMonthBound(doy: int)
    requires 0 <= doy <= 365
    ensures var mp := (5 * doy + 2) / 153;
            var m := if mp < 10 then mp + 3 else mp - 9;
            var d := doy - (153 * mp + 2) / 5 + 1;
            (mp < 11 ==> d <= MonthLength(0, m)) && (mp == 11 ==> d == doy - 336)
  {
  }

  /** A year of an era has 365 or 366 days, and 366 only when the
      February that ends it belongs to a leap year. */
  lemma LeapOfYearOfEra(era: int, yoe: int)
    requires 0 <= yoe <= 399
    ensures 365 <= YearOfEraDays(yoe) <= 366
    ensures YearOfEraDays(yoe) == 366 ==> IsLeapYear(yoe + era * 400 + 1)
  {
    var y := yoe + era * 400 + 1;
    ShiftByEras(yoe + 1, era);
    if yoe < 399 {
      YearOfEraLength(yoe);
      if YearOfEraDays(yoe) == 366 {
        assert (yoe + 1) / 4 != yoe / 4;
        assert (yoe + 1) % 4 == 0;
        assert (yoe + 1) / 100 == yoe / 100;
      }
    }
  }

  /** Conversely, a year of an era whose February belongs to a leap year
      has 366 days. */
  lemma LeapYearOfEraDays(era: int, yoe: int)
    requires 0 <= yoe <= 399 && IsLeapYear(yoe + era * 400 + 1)
    ensures YearOfEraDays(yoe) == 366
  {
    ShiftByEras(yoe + 1, era);
    if yoe < 399 {
      assert (yoe + 1) / 4 == yoe / 4 + 1;
      assert (yoe + 1) / 100 == yoe / 100;
    }
  }

  /** Whole eras change no residue the leap-year rule looks at. */
  lemma ShiftByEras(a: int, era: int)
    ensures (a + era * 400) % 4 == a % 4
    ensures (a + era * 400) % 100 == a % 100
    ensures (a + era * 400) % 400 == a % 400
  {
    assert a + era * 400 == a + (era * 100) * 4;
    assert a + era * 400 == a + (era * 4) * 100;
  }

  /** Month and day arithmetic of a March-based day of the year. */
  lemma MonthOfDayOfYear(doy: int)
    requires 0 <= doy <= 365
    ensures var mp := (5 * doy + 2) / 153;
            0 <= mp <= 11 &&
            (153 * mp + 2) / 5 <= doy <= (153 * mp + 2) / 5 + 30
  {
  }

  /** For a month already in 1..12, DaysFromCivil is the era, the year of
      the era and the March-based day of the year put together. */
  lemma DaysFromCivilInRange(y: int, m: int, d: int)
    requires 1 <= m <= 12
    ensures var y2 := if m <= 2 then y - 1 else y;
            var mp := if m > 2 then m - 3 else m + 9;
            DaysFromCivil(y, m, d) == YearStart(y2) + (153 * mp + 2) / 5 + d - 1 - 719468
  {
    assert (m - 1) / 12 == 0 && (m - 1) % 12 + 1 == m;
  }

  /** Euclidean division undone: a year of the era and its era recombine. */
  lemma EraOfYear(era: int, yoe: int)
    requires 0 <= yoe <= 399
    ensures (yoe + era * 400) / 400 == era && (yoe + era * 400) % 400 == yoe
  {
  }

  /** The month number and its March-based index are inverse to each other. */
  lemma MonthIndex(mp: int)
    requires 0 <= mp <= 11
    ensures var m := if mp < 10 then mp + 3 else mp - 9;
            1 <= m <= 12 && mp == if m > 2 then m - 3 else m + 9
  {
  }

  /** The civil date built from an era, a year of the era and a March-based
      day of the year converts back to the day those three denote. */
  lemma CivilOfEraRoundTrip(era: int, yoe: int, doy: int)
    requires 0 <= yoe <= 399 && 0 <= doy < YearOfEraDays(yoe)
    ensures var c := CivilOfEra(era, yoe, doy);
            DaysFromCivil(c.year, c.month, c.day) == era * 146097 + DaysBeforeYearOfEra(yoe) + doy - 719468
  {
    if yoe < 399 {
      YearOfEraLength(yoe);
    }
    MarchDateRoundTrip(era, yoe, doy);
  }

  /** The month, day and (January and February moved to the next) year
      read off a March-based day of the year convert back to that day. */
  lemma MarchDateRoundTrip(era: int, yoe: int, doy: int)
    requires 0 <= yoe <= 399 && 0 <= doy <= 365
    ensures var mp := (5 * doy + 2) / 153;
            var m := if mp < 10 then mp + 3 else mp - 9;
            var d := doy - (153 * mp + 2) / 5 + 1;
            DaysFromCivil(yoe + era * 400 + (if m <= 2 then 1 else 0), m, d)
              == era * 146097 + DaysBeforeYearOfEra(yoe) + doy - 719468
  {
    MonthOfDayOfYear(doy);
    var mp := (5 * doy + 2) / 153;
    MonthIndex(mp);
    EraOfYear(era, yoe);
    var m := if mp < 10 then mp + 3 else mp - 9;
    var y := yoe + era * 400 + (if m <= 2 then 1 else 0);
    DaysFromCivilInRange(y, m, doy - (153 * mp + 2) / 5 + 1);
    assert (if m <= 2 then y - 1 else y) == yoe + era * 400;
  }

  /** Every valid civil date is the civil date of its own day number, so
      DaysFromCivil and CivilFromDays are inverse bijections between day
      numbers and valid dates. */
  lemma CivilFromDaysOfCivil(y: int, m: int, d: int)
    requires 1 <= m <= 12 && 1 <= d <= MonthLength(y, m)
    ensures CivilFromDays(DaysFromCivil(y, m, d)) == Civil(y, m, d)
  {
    var y2 := if m <= 2 then y - 1 else y;
    var mp := if m > 2 then m - 3 else m + 9;
    var off := (153 * mp + 2) / 5 + d - 1;
    CivilOfEraOfDate(y, m, d, y2, mp, off);
    var z := DaysFromCivil(y, m, d);
    DaysFromCivilInRange(y, m, d);
    assert z == (y2 / 400) * 146097 + DaysBeforeYearOfEra(y2 % 400) + off - 719468;
    CivilFromDayOfEra(z, y2 / 400, y2 % 400, off);
  }

  /** A valid date's March-based offset lies within its year of the era,
      and the month read back from it is the date's month. */
  lemma DateOffsetInYear(y: int, m: int, d: int, y2: int, mp: int, off: int)
    requires 1 <= m <= 12 && 1 <= d <= MonthLength(y, m)
    requires y2 == (if m <= 2 then y - 1 else y) && mp == (if m > 2 then m - 3 else m + 9)
    requires off == (153 * mp + 2) / 5 + d - 1
    ensures 0 <= off < YearOfEraDays(y2 % 400) && (5 * off + 2) / 153 == mp
  {
    var era, yoe := y2 / 400, y2 % 400;
    assert y2 == yoe + era * 400;
    MonthOfOffset(mp, d);
    if m == 2 && d == 29 {
      LeapYearOfEraDays(era, yoe);
    }
    LeapOfYearOfEra(era, yoe);
  }

  /** CivilOfEra gives back the valid date whose era, year of the era and
      March-based offset it is handed. */
  lemma CivilOfEraOfDate(y: int, m: int, d: int, y2: int, mp: int, off: int)
    requires 1 <= m <= 12 && 1 <= d <= MonthLength(y, m)
    requires y2 == (if m <= 2 then y - 1 else y) && mp == (if m > 2 then m - 3 else m + 9)
    requires off == (153 * mp + 2) / 5 + d - 1
    ensures 0 <= off < YearOfEraDays(y2 % 400)
    ensures CivilOfEra(y2 / 400, y2 % 400, off) == Civil(y, m, d)
  {
    DateOffsetInYear(y, m, d, y2, mp, off);
    MonthIndex(mp);
    assert y2 == y2 % 400 + (y2 / 400) * 400;
  }

  /** The civil date of day `off` of year `yoe` of era `era`, as a day
      number, is what CivilOfEra builds from the three. */
  lemma CivilFromDayOfEra(z: int, era: int, yoe: int, off: int)
    requires 0 <= yoe <= 399 && 0 <= off < YearOfEraDays(yoe)
    requires z == era * 146097 + DaysBeforeYearOfEra(yoe) + off - 719468
    ensures CivilFromDays(z) == CivilOfEra(era, yoe, off)
  {
    var doe := DaysBeforeYearOfEra(yoe) + off;
    DayOfEraInRange(yoe, off);
    EraOfDay(era, doe);
    SplitDayOfEraUnique(doe, yoe, off);
  }

  /** The March-based offset of day d of the month with index mp lies in
      that month, so the month read back from it is mp again. */
  lemma MonthOfOffset(mp: int, d: int)
    requires 0 <= mp <= 11 && 1 <= d
    requires d <= (if mp == 11 then 29 else MonthLength(0, if mp < 10 then mp + 3 else mp - 9))
    ensures (5 * ((153 * mp + 2) / 5 + d - 1) + 2) / 153 == mp
    ensures mp < 11 ==> (153 * mp + 2) / 5 + d - 1 <= 336
  {
  }

  /** A day of a year of an era is a day of the era. */
  lemma DayOfEraInRange(yoe: int, off: int)
    requires 0 <= yoe <= 399 && 0 <= off < YearOfEraDays(yoe)
    ensures 0 <= DaysBeforeYearOfEra(yoe) + off < 146097
  {
    if yoe < 399 {
      DaysBeforeYearOfEraGrows(yoe, 399);
    }
  }

  /** The era and day of the era of a day counted from 0000-03-01. */
  lemma EraOfDay(era: int, doe: int)
    requires 0 <= doe < 146097
    ensures (era * 146097 + doe) / 146097 == era && (era * 146097 + doe) % 146097 == doe
  {
  }

  /** Earlier years of an era end no later than later years start. */
  lemma DaysBeforeYearOfEraGrows(a: int, b: int)
    requires 0 <= a < b <= 399
    ensures DaysBeforeYearOfEra(a) + YearOfEraDays(a) <= DaysBeforeYearOfEra(b)
  {
    assert (a + 1) / 4 <= b / 4;
    assert b / 100 - (a + 1) / 100 <= (b - a - 1) / 100 + 1;
  }

  /** A day of an era lies in exactly one year of the era, so
      SplitDayOfEra's answer is the only one. */
  lemma SplitDayOfEraUnique(doe: int, yoe: int, off: int)
    requires 0 <= yoe <= 399 && 0 <= off < YearOfEraDays(yoe)
    requires 0 <= doe < 146097 && doe == DaysBeforeYearOfEra(yoe) + off
    ensures SplitDayOfEra(doe) == (yoe, off)
  {
    var (a, x) := SplitDayOfEra(doe);
    if a < yoe {
      DaysBeforeYearOfEraGrows(a, yoe);
    } else if a > yoe {
      DaysBeforeYearOfEraGrows(yoe, a);
    }
  }

  /** Reading a day number back as a civil date and converting it again
      gives the same day number. */
  lemma {:induction false} DaysFromCivilOfCivilFromDays(z: int)
    ensures var c := CivilFromDays(z); DaysFromCivil(c.year, c.month, c.day) == z
  {
    var z0 := z + 719468;
    var (yoe, doy) := SplitDayOfEra(z0 % 146097);
    CivilOfEraRoundTrip(z0 / 146097, yoe, doy);
  }

  /** The same month and day one year later is 365 or 366 days later. */
  lemma NextYearSameDate(y: int, m: int, d: int)
    ensures 365 <= DaysFromCivil(y + 1, m, d) - DaysFromCivil(y, m, d) <= 366
  {
    var yy, mm := y + (m - 1) / 12, (m - 1) % 12 + 1;
    YearLength(if mm <= 2 then yy - 1 else yy);
  }

  /** Consecutive (March-based) years are 365 or 366 days apart, across an era boundary too. */
  lemma YearLength(y2: int)
    ensures 365 <= YearStart(y2 + 1) - YearStart(y2) <= 366
  {
    var era, yoe := y2 / 400, y2 % 400;
    if yoe == 399 {
      LastYearOfEra(era);
    } else {
      YearWithinEra(era, yoe);
    }
  }

  lemma LastYearOfEra(era: int)
    ensures YearStart(era * 400 + 400) - YearStart(era * 400 + 399) == 366
  {
    EraOfYear(era + 1, 0);
    EraOfYear(era, 399);
    assert era * 400 + 400 == 0 + (era + 1) * 400;
  }

  lemma YearWithinEra(era: int, yoe: int)
    requires 0 <= yoe < 399
    ensures 365 <= YearStart(yoe + era * 400 + 1) - YearStart(yoe + era * 400) <= 366
  {
    EraOfYear(era, yoe);
    EraOfYear(era, yoe + 1);
    assert yoe + era * 400 + 1 == (yoe + 1) + era * 400;
    YearOfEraLength(yoe);
  }

  /** Within an era a year has 366 days when it is a leap year, else 365. */
  lemma YearOfEraLength(yoe: int)
    requires 0 <= yoe < 399
    ensures 365 <= DaysBeforeYearOfEra(yoe + 1) - DaysBeforeYearOfEra(yoe) <= 366
  {
    var q := yoe / 4;
    assert (yoe + 1) / 4 == q || (yoe + 1) / 4 == q + 1;
    assert (yoe + 1) / 100 != yoe / 100 ==> (yoe + 1) % 100 == 0;
  }

  /** The day of a Unix time in seconds (floor division, correct before 1970 too). */
  function DayOfUnix(t: int): (d: int)
    ensures d * SecondsPerDay <= t < (d + 1) * SecondsPerDay
  {
    t / SecondsPerDay
  }

  /** Adding k whole days of seconds moves the day number by k. */
  lemma DayOfUnixAfterDays(t: int, k: int)
    ensures DayOfUnix(t + SecondsPerDay * k) == DayOfUnix(t) + k
  {
    var d := DayOfUnix(t);
    assert (d + k) * SecondsPerDay <= t + SecondsPerDay * k < (d + k + 1) * SecondsPerDay;
  }
}
