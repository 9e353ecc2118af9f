/** The entry points built on GetResults: computing the results for a window
    given as date strings, with today and a year from today as defaults, and
    turning results into CSV records. The current time is a parameter, in
    Unix seconds, read in UTC. */
module Reports {
  import opened Wrappers
  import opened Text
  import opened Calendar
  import opened Utils
  import Transactions
  import opened Recurrence
  import opened Projection
  import ProjectionProps

  /** The date strings GenerateResultsFromDateStrings treats as "not set". */
  predicate IsDateSentinel(dt: string)
  {
    dt == "0-0-0" || dt == "--" || dt == ""
  }

  /** The first day of the window: today for a sentinel, otherwise the day
      time.Date makes of the parsed year, month and day. */
  function StartDay(startDt: string, now: int): int
  {
    if IsDateSentinel(startDt) then
      var c := DateOfUnix(now);
      DaysFromCivil(c.year, c.month, c.day)
    else
      var (y, m, d) := ParseYearMonthDateString(startDt);
      DaysFromCivil(y, m, d)
  }

  /** The last day of the window: today's month and day one year on for a
      sentinel, otherwise the day of the parsed date. */
  function EndDay(endDt: string, now: int): int
  {
    if IsDateSentinel(endDt) then
      var c := DateOfUnix(now);
      DaysFromCivil(c.year + 1, c.month, c.day)
    else
      var (y, m, d) := ParseYearMonthDateString(endDt);
      DaysFromCivil(y, m, d)
  }

  /** An unset start is today. */
  lemma DefaultStart(startDt: string, now: int)
    requires IsDateSentinel(startDt)
    ensures StartDay(startDt, now) == DayOfUnix(now)
  {
    DaysFromCivilOfCivilFromDays(DayOfUnix(now));
  }

  /** An unset end is 365 or 366 days from today: the same date a year on,
      with 29 February moving to 1 March. */
  lemma DefaultEnd(endDt: string, now: int)
    requires IsDateSentinel(endDt)
    ensures 365 <= EndDay(endDt, now) - DayOfUnix(now) <= 366
  {
    var c := DateOfUnix(now);
    assert EndDay(endDt, now) == DaysFromCivil(c.year + 1, c.month, c.day);
    DaysFromCivilOfCivilFromDays(DayOfUnix(now));
    NextYearOf(DayOfUnix(now), c);
  }

  /** The same date a year after day z is 365 or 366 days later. */
  lemma NextYearOf(z: int, c: Civil)
    requires DaysFromCivil(c.year, c.month, c.day) == z
    ensures 365 <= DaysFromCivil(c.year + 1, c.month, c.day) - z <= 366
  {
    NextYearSameDate(c.year, c.month, c.day);
  }

  /** A date written by GetDateString is never a sentinel, so it sets the
      window bound to exactly that date. */
  lemma DateStringBounds(y: int, m: int, d: int, now: int)
    requires 0 <= y <= MaxInt64 && 0 <= m <= MaxInt64 && 0 <= d <= MaxInt64
    ensures StartDay(GetDateString(y, m, d), now) == DaysFromCivil(y, m, d)
    ensures EndDay(GetDateString(y, m, d), now) == DaysFromCivil(y, m, d)
  {
    var dt := GetDateString(y, m, d);
    assert |dt| >= 8;
    ParseGetDateString(y, m, d);
  }

  /** The sentinels themselves read as the unset date (0, 0, 0). */
  lemma SentinelsParseUnset(dt: string)
    requires IsDateSentinel(dt)
    ensures ParseYearMonthDateString(dt) == (0, 0, 0)
  {
    assert Split("", '-') == [""];
    if dt == "--" {
      assert Split("-", '-') == ["", ""];
      assert Split(dt, '-') == ["", "", ""];
    } else if dt == "0-0-0" {
      assert "0"[1..] == "" && ['0'] + "" == "0";
      assert Split("0", '-') == ["0"];
      assert Split("-0", '-') == ["", "0"];
      assert Split("0-0", '-') == ["0", "0"];
      assert Split("-0-0", '-') == ["", "0", "0"];
      assert Split(dt, '-') == ["0", "0", "0"];
      assert ParseInt("0") == 0;
    }
  }

  /** GenerateResultsFromDateStrings: GetResults over the window the two
      date strings name, with its rows on success, and on failure no rows
      and the error wrapped as "failed to get results". */
  method GenerateResultsFromDateStrings(txs: seq<Transactions.TX>, bal: int, startDt: string, endDt: string,
                                        now: int, expand: Expander)
    returns (results: seq<Result>, err: Option<Error>)
    ensures var (rs, e) := GetResultsSpec(txs, StartDay(startDt, now), EndDay(endDt, now), bal, expand);
            && (e.None? ==> results == rs && err.None?)
            && (e.Some? ==> results == [] && err == Some(GetResultsFailed(e.value)))
  {
    var st, en := StartDay(startDt, now), EndDay(endDt, now);
    var res, e := GetResults(txs, st, en, bal, expand);
    if e.Some? {
      return [], Some(GetResultsFailed(e.value));
    }
    return res, None;
  }

  /** With both dates unset the window is never empty: GetResults fails only
      on a rule, and otherwise yields one row for every day from today to the
      same date next year, 366 or 367 rows. */
  lemma DefaultWindow(txs: seq<Transactions.TX>, bal: int, startDt: string, endDt: string, now: int, expand: Expander)
    requires IsDateSentinel(startDt) && IsDateSentinel(endDt)
    ensures var (rs, e) := GetResultsSpec(txs, StartDay(startDt, now), EndDay(endDt, now), bal, expand);
            && (e.Some? ==> !e.value.WindowError?)
            && (e.None? ==> 366 <= |rs| <= 367)
  {
    var s, e := StartDay(startDt, now), EndDay(endDt, now);
    DefaultStart(startDt, now);
    DefaultEnd(endDt, now);
    WindowOfAYear(txs, s, e, bal, expand);
  }

  /** A window of 366 or 367 days fails only on a rule. */
  lemma WindowOfAYear(txs: seq<Transactions.TX>, s: int, e: int, bal: int, expand: Expander)
    requires 365 <= e - s <= 366
    ensures var (rs, err) := GetResultsSpec(txs, s, e, bal, expand);
            && (err.Some? ==> !err.value.WindowError?)
            && (err.None? ==> 366 <= |rs| <= 367)
  {
    ProjectionProps.ExpansionsMeaning(txs, s, e, expand);
  }

  // ------------------------------------------------------------ CSV

  /** The columns GetResultsCSVString writes for one row. */
  datatype CSVLine = CSVLine(
    date: string,
    balance: string,
    cumulativeIncome: string,
    cumulativeExpenses: string,
    dayExpenses: string,
    dayIncome: string,
    dayNet: string,
    diffFromStart: string,
    names: string)

  /** The columns of a line in the order they are written. */
  function Fields(l: CSVLine): (f: seq<string>)
    ensures |f| == 9 && f[0] == l.date && f[8] == l.names
  {
    [l.date, l.balance, l.cumulativeIncome, l.cumulativeExpenses,
     l.dayExpenses, l.dayIncome, l.dayNet, l.diffFromStart, l.names]
  }

  /** The line of one row: its date, the seven money columns as currency
      text of the values as Go's int holds them, and the joined names. */
  function CSVRecord(r: Result): CSVLine
  {
    CSVLine(DayDateString(r.date),
            FormatAsCurrency(Wrap64(r.balance)),
            FormatAsCurrency(Wrap64(r.cumulativeIncome)),
            FormatAsCurrency(Wrap64(r.cumulativeExpenses)),
            FormatAsCurrency(Wrap64(r.dayExpenses)),
            FormatAsCurrency(Wrap64(r.dayIncome)),
            FormatAsCurrency(Wrap64(r.dayNet)),
            FormatAsCurrency(Wrap64(r.diffFromStart)),
            r.dayTransactionNames)
  }

  /** The record GetResultsCSVString hands to the CSV writer for a row. */
  function RecordOf(r: Result): seq<string>
  {
    Fields(CSVRecord(r))
  }

  /** f applied to every element, in order. */
  function MapSeq<A, B>(f: A -> B, xs: seq<A>): (r: seq<B>)
    ensures |r| == |xs|
  {
    if xs == [] then [] else MapSeq(f, xs[..|xs| - 1]) + [f(xs[|xs| - 1])]
  }

  /** Mapping one more element appends its image. */
  lemma MapSeqStep<A, B>(f: A -> B, xs: seq<A>, i: int)
    requires 0 <= i < |xs|
    ensures MapSeq(f, xs[..i + 1]) == MapSeq(f, xs[..i]) + [f(xs[i])]
  {
    assert xs[..i + 1][..i] == xs[..i];
  }

  /** Element i of the mapped list is f of element i. */
  lemma {:induction false} MapSeqAt<A, B>(f: A -> B, xs: seq<A>, i: int)
    requires 0 <= i < |xs|
    ensures MapSeq(f, xs)[i] == f(xs[i])
    decreases |xs|
  {
    var p := xs[..|xs| - 1];
    if i < |p| {
      MapSeqAt(f, p, i);
      assert p[i] == xs[i];
    }
  }

  /** GetResultsCSVString before the encoding/csv writer: the records of
      the rows, one per row in order. */
  method GetResultsCSVRecords(results: seq<Result>) returns (records: seq<seq<string>>)
    ensures records == MapSeq(RecordOf, results)
  {
    records := [];
    for i := 0 to |results|
      invariant records == MapSeq(RecordOf, results[..i])
    {
      var record := RecordOf(results[i]);
      MapSeqStep(RecordOf, results, i);
      records := records + [record];
    }
    assert results[..|results|] == results;
  }

  /** The date string of a day, as GetNowDateString writes it for the
      midnight that starts the day. */
  function DayDateString(d: int): (r: string)
    ensures 0 <= CivilFromDays(d).year < 10000 ==> |r| == 10 && r[4] == '-' && r[7] == '-'
  {
    var c := CivilFromDays(d);
    GetDateString(c.year, c.month, c.day)
  }

  /** The record's date column is GetNowDateString of the row's date. */
  lemma DayDateStringIsNowDateString(d: int)
    ensures DayDateString(d) == GetNowDateString(d * SecondsPerDay)
  {
    DayOfDaySeconds(d);
  }

  /** A row's day, written out in seconds, is that day again. */
  lemma DayOfDaySeconds(d: int)
    ensures DayOfUnix(d * SecondsPerDay) == d
  {
    var q := DayOfUnix(d * SecondsPerDay);
    if q < d {
      assert false;
    } else if q > d {
      assert false;
    }
  }

  /** A CSV line reads back: its date column parses to the row's day and
      each money column parses (with ParseDollarAmount's assumePositive) to
      the row's value as Go's int holds it. */
  lemma CSVRecordReadsBack(r: Result)
    requires 0 <= CivilFromDays(r.date).year <= MaxInt64
    ensures var l := CSVRecord(r);
            var (y, m, d) := ParseYearMonthDateString(l.date);
            && DaysFromCivil(y, m, d) == r.date
            && ParseDollarAmount(l.balance, true) == Wrap64(r.balance)
            && ParseDollarAmount(l.cumulativeIncome, true) == Wrap64(r.cumulativeIncome)
            && ParseDollarAmount(l.cumulativeExpenses, true) == Wrap64(r.cumulativeExpenses)
            && ParseDollarAmount(l.dayExpenses, true) == Wrap64(r.dayExpenses)
            && ParseDollarAmount(l.dayIncome, true) == Wrap64(r.dayIncome)
            && ParseDollarAmount(l.dayNet, true) == Wrap64(r.dayNet)
            && ParseDollarAmount(l.diffFromStart, true) == Wrap64(r.diffFromStart)
            && l.names == r.dayTransactionNames
  {
    var c := CivilFromDays(r.date);
    ParseGetDateString(c.year, c.month, c.day);
    DaysFromCivilOfCivilFromDays(r.date);
    ParseFormatAsCurrency(Wrap64(r.balance));
    ParseFormatAsCurrency(Wrap64(r.cumulativeIncome));
    ParseFormatAsCurrency(Wrap64(r.cumulativeExpenses));
    ParseFormatAsCurrency(Wrap64(r.dayExpenses));
    ParseFormatAsCurrency(Wrap64(r.dayIncome));
    ParseFormatAsCurrency(Wrap64(r.dayNet));
    ParseFormatAsCurrency(Wrap64(r.diffFromStart));
  }
}
