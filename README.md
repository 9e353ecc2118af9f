# finance-planner-lib in Dafny

This is a model of the core of finance-planner-lib. That Go library projects a bank balance forward from a list of recurring transaction definitions. Each definition has:

- an amount in cents;
- an active flag;
- a name;
- either a raw RRULE text or a frequency, interval, weekdays and start and end dates.

`GetResults` builds one bucket per calendar day of a window. It appends every occurrence of every active definition to the bucket of its day. It then walks the days in order, keeping four running values:

- the balance;
- the difference from the starting balance;
- cumulative income;
- cumulative expenses.

Around that engine the library has:

- helpers for transaction definitions: defaults, weekday maps, removal and search by ID, the sort-order cycle of the results table;
- `GenerateResultsFromDateStrings`, which resolves "unset" date strings to today and a year from today;
- the row layout of the CSV export;
- the text codecs of `utils.go`: currency formatting and parsing, YYYY-MM-DD date strings, and the `"; "` name lists.

## Modules

| file | module | what it holds |
|---|---|---|
| wrappers.dfy | Wrappers | `Option` |
| calendar.dfy | Calendar | Day numbers (days since 1970-01-01, UTC) and the civil dates of `time.Date`, including its normalisation of month 0 and day 0. |
| text.dfy | Text | Go's int64 wrap-around, `strconv.Itoa`, `strconv.ParseInt` (base 10, 64 bits, with syntax and range errors), zero padding, `strings.Split` and `strings.Join`, prefixes and suffixes. |
| utils.dfy | Utils | `utils.go` |
| transactions.dfy | Transactions | The `TX` record and the helpers of `lib.go` around it. |
| recurrence.dfy | Recurrence | How `GetResults` turns a definition into a rule for the rrule library. |
| projection.dfy | Projection | `GetResults` as imperative code over arrays, proved against its specification function `GetResultsSpec`. |
| projection_props.dfy | ProjectionProps | What the rows of `GetResultsSpec` mean: one row per day, running totals against an independent reference sum, per-day sums and names. |
| reports.dfy | Reports | `GenerateResultsFromDateStrings` and the records of `GetResultsCSVString`. |

## Modelling decisions

- Times are Unix seconds and dates are day numbers. The day of a time is its floor division by 86400, read in UTC. `time.Date(y, m, d, 0, 0, 0, 0, time.UTC)` is `Calendar.DaysFromCivil`, which normalises out-of-range months and days as Go does.
- The "empty date" `time.Date(0, 0, 0, ...)` is the ordinary day 30 November of year -1. A definition that really starts on that day is treated as unset, exactly as in the source (`Recurrence.EmptyDateIsOrdinary`).
- The rrule library is a parameter of type `Recurrence.Expander`. Given a rule and the window, it returns the occurrence days or `None` when the library rejects the rule. The model places no requirement on its output:
  - an occurrence outside the window has no bucket and is dropped, as the Go map write to a key no row reads drops it;
  - the reference total in `ProjectionProps.OccurrenceTotal` accordingly counts only the occurrences on days inside the window.
- Go's maps keyed by Unix time become arrays indexed by day offset. They are built in ascending day order, which is the order `sort.SliceStable` produces.
- Amounts and running totals are unbounded integers. The CSV columns apply Go's int64 wrap-around (`Text.Wrap64`) before formatting, so a column shows the value as Go's `int` holds it. `ParseDollarAmount` and `strconv.ParseInt` model int64 arithmetic exactly.
- As written in the source, `FormatAsCurrency(MinInt64)` negates with wrap-around and writes `"$--92233720368547758.08"`. The model keeps this (`Utils.SignText`), and the currency round trip still holds for it.
- `GetResults` joins a day's names with `"; "`, but only when the text so far is not empty. An empty first name is therefore absorbed without a separator. The join equals `strings.Join(names, "; ")` only when the first name is not empty (`ProjectionProps.JoinNamesIsJoin`, `ProjectionProps.JoinNamesEmptyFirst`).
- The error path of `GetResults` for a day with different numbers of amounts and names is kept as a branch. It is proved unreachable, because every bucket holds as many names as amounts (`Projection.BucketLengths`).

## Model

| member | source | states |
|---|---|---|
| Calendar.DaysFromCivil | lib.go:507-508 | `time.Date(y, m, d, 0, 0, 0, 0, time.UTC)` as a day number, with out-of-range months and days carried into the year and month as Go does. It has no contract of its own; `CivilFromDaysOfCivil` and `DaysFromCivilOfCivilFromDays` make it the inverse of `CivilFromDays`. |
| Calendar.CivilFromDays | utils.go:44 | The civil date of a day is a valid Gregorian date: the month is in 1..12 and the day is at least 1 and at most the month's length, so 29 February occurs only in leap years. |
| Calendar.CivilFromDaysOfCivil | utils.go:44 | Every valid date (month 1..12, day within the month) is the civil date of its own `time.Date` day number, so `Year`, `Month` and `Day` give back exactly what `time.Date` was given. |
| Calendar.DaysFromCivilOfCivilFromDays | utils.go:44 | Writing a day out as year, month and day and giving those to `time.Date` yields the same day again. |
| Calendar.NextYearSameDate | lib.go:500-502 | The same month and day one year on is 365 or 366 days later, including every normalised (month, day). |
| Calendar.DayOfUnix | utils.go:44 | The day of a Unix time is the day whose 86400 seconds contain it. |
| Calendar.DayOfUnixAfterDays | lib.go:72 | Adding k days of 86400 seconds to a time moves its day number by exactly k. |
| Text.Wrap64 | utils.go:127 | Go's int64 arithmetic: the result lies in the int64 range and differs from the exact value by a multiple of 2^64, so it is the two's-complement wrap-around; it equals the input whenever the input already fits. |
| Text.NatToString | utils.go:20 | `strconv.Itoa` of a natural is digits with no leading zero; it has one digit exactly below 10 and at least three from 100. |
| Text.Itoa | utils.go:20 | `strconv.Itoa` is digits for a non-negative input and at least two characters at or above 10 or below 0. |
| Text.DigitsValueOfNatToString | utils.go:20 | The digits written for n denote n. |
| Text.NatToStringLastTwo | utils.go:25-27 | Dropping the last two digits of n ≥ 100 leaves the digits of n/100; the last two are the tens and units of n. |
| Text.PadZeros | utils.go:22 | Zero padding (`%02v`) only prepends zeros, reaching the width; an input already that long is unchanged. |
| Text.ParseInt | utils.go:68-70 | `strconv.ParseInt(s, 10, 64)` with the error discarded is an int64, and it is non-negative without a leading '-'. Its value in each case is stated by the lemmas below: digit strings, signed digits, syntax errors, and digits that overflow a uint64 whatever follows them. |
| Text.ScanDigitsAccumulates | utils.go:68-70 | The digit scan yields the decimal value of the digits, or a range error once it exceeds the uint64 range. |
| Text.ParseIntOfDigitString | utils.go:68-70 | A digit string parses to its value, saturating at MaxInt64; the empty string parses to 0. |
| Text.ParseIntOfNatToString | utils.go:68-70 | `ParseInt` reads back what `Itoa` wrote, for every natural number up to MaxInt64. |
| Text.ParseIntOfItoa | utils.go:68-70 | `ParseInt(Itoa(x)) == x` for every int64 x, negative values included. |
| Text.ParseIntOfSignedDigits | utils.go:68-70 | '-' before a non-empty digit string parses to the negated value, saturating at MinInt64; '+' before it parses to the value, saturating at MaxInt64. |
| Text.ScanDigitsSyntaxError | utils.go:68-70 | The digit loop stops with a syntax error at the first non-digit that it reaches before the value overflows. |
| Text.ParseIntOfNoNumber | utils.go:68-70 | Text that strconv rejects with a syntax error reads as 0, the value the callers keep when they drop the error. That covers nothing after the optional sign, and a non-digit reached before any overflow. |
| Text.ScanDigitsRangeError | utils.go:68-70 | Once the digits read so far exceed the uint64 range, the digit scan ends with a range error, whatever comes after them. |
| Text.ParseIntOfOverflow | utils.go:68-70 | Digits after the optional sign whose value exceeds the uint64 range give MinInt64 after a '-' and MaxInt64 otherwise, even when a non-digit follows ("99999999999999999999x" reads as MaxInt64). |
| Text.ParseIntOfPadded | utils.go:68-70 | `ParseInt` reads back a zero-padded number. |
| Text.TrimSuffix | lib.go:648-649 | Trimming a present suffix leaves the prefix it ends; trimming an absent suffix changes nothing. |
| Text.Split | utils.go:63 | `strings.Split` yields at least one piece, and no piece contains the separator. |
| Text.JoinOfSplit | utils.go:63 | Joining the pieces of a split with the separator gives the input back. |
| Text.SplitWithoutSeparator | utils.go:63 | A string without the separator splits into itself alone. |
| Text.SplitThree | utils.go:63-64 | Three separator-free pieces joined by the separator split back into exactly those three. |
| Utils.FormatAsCurrency | utils.go:14-39 | The text always starts with "$", and it starts with "$-" exactly when the amount is negative; 0 is written "$0.00". `FormatAsCurrencyPieces` gives the whole layout and `ParseFormatAsCurrency` the round trip. |
| Utils.FormatAsCurrencyPieces | utils.go:14-39 | A non-zero amount is written as its sign text, the whole dollars of its magnitude, a period and its two cent digits. |
| Utils.PositivePieces | utils.go:30-38 | A positive amount is written "$", then its whole dollars ("0" below 100), ".", then its two cent digits. |
| Utils.NegativePieces | utils.go:19-27 | A negative amount other than MinInt64 is written "$-", then the whole dollars and cents of its magnitude. |
| Utils.MinInt64Pieces | utils.go:19-27 | MinInt64 negates to itself in Go, so it is written "$--" and then the digits of its magnitude. |
| Utils.PiecesParse | utils.go:102-127 | The whole-dollar digits of a magnitude parse to n/100 and its cent digits read as n%100. |
| Utils.Multiplier | utils.go:86-100 | The sign is +1 exactly when, with assumePositive, the input does not start with "$-" or "-", and without it, the input starts with "+" or "$+"; otherwise it is -1. |
| Utils.CentsOf | utils.go:106-116 | The cents after the period are below 100, and not negative without a leading '-'. |
| Utils.CentsOfOneDigit | utils.go:110-112 | A single digit after the period is tenths of a dollar ("10.2" is 20 cents), except "0". |
| Utils.CentsOfTooManyDigits | utils.go:113-116 | Three or more cent digits without a leading zero are discarded (0 cents). |
| Utils.Magnitude | utils.go:104-127 | The unsigned amount of the kept digits and periods is an int64. The three cases are stated by the next three lemmas. |
| Utils.MagnitudeWithoutPeriod | utils.go:104-127 | Without a period, the kept text is whole dollars: 100 times its value, with int64 wrap-around, and no cents. |
| Utils.MagnitudeOfPieces | utils.go:104-127 | With exactly one period, the magnitude is 100 times the dollars before it plus `CentsOf` the digits after it, in int64 arithmetic. |
| Utils.MagnitudeOfManyPeriods | utils.go:104-127 | With two periods or more, the cents are dropped and only the dollars before the first period count. |
| Utils.KeepDigitsAndDots | utils.go:78-102 | The kept text consists only of digits and periods, is no longer than the input, and is the input itself when the input has nothing else. |
| Utils.KeepDigitsAndDotsAppend | utils.go:102 | Filtering to digits and periods distributes over concatenation. |
| Utils.ParseDollarAmount | utils.go:85-128 | The parsed amount is an int64. Its value in each case is stated by the lemmas below. |
| Utils.ParseDollarAmountWithoutPeriod | utils.go:85-128 | An input whose kept text has no period is read as whole dollars times the sign. |
| Utils.ParseDollarAmountOfManyPeriods | utils.go:85-128 | An input whose kept text has two periods or more is read as the dollars before the first period times the sign. |
| Utils.ParseDollarAmountOfTooManyCents | utils.go:113-127 | With one period and three or more cent digits that start with something other than 0, the cents are discarded and only the dollars are read. |
| Utils.NegativeByDefault | utils.go:86-92 | Without assumePositive, every input that does not start with "+" or "$+" gets the sign -1, the empty and one-character inputs included. |
| Utils.KeptAfterSign | utils.go:102 | A leading character that is neither a digit nor a period is removed. |
| Utils.ParseDollarAmountMinusHundred | utils_test.go:81 | The test case `"-100"` without assumePositive reads as -10000. |
| Utils.AssumePositiveNegates | utils.go:90-100 | For an input without a leading sign, assumePositive exactly negates the result (with int64 wrap-around). |
| Utils.PlusPrefixNegates | utils.go:90-92 | Without assumePositive, putting "+" before an unsigned input exactly negates the result. |
| Utils.OppositeMultipliers | utils.go:86-127 | Two inputs with the same digits and periods but opposite signs parse to opposite amounts. |
| Utils.ParseFormatAsCurrency | utils.go:14-128 | The currency round trip: `ParseDollarAmount(FormatAsCurrency(a), true) == a` for every int64 a; without assumePositive it gives -a for a positive a (everything is read as an expense) and a otherwise. |
| Utils.FormattedParts | utils.go:85-128 | The digits of a formatted amount read as the wrapped magnitude; its leading sign gives multiplier -1 exactly for negative amounts under assumePositive, and -1 always without it. |
| Utils.ParseFormatZero | utils.go:15-17 | "$0.00" parses to 0 either way. |
| Utils.ParseYearMonthDateString | utils.go:62-73 | The result is (0, 0, 0) unless the input has exactly three '-'-separated pieces. Each of the three pieces that strconv rejects with a syntax error gives 0 in its field. No field is negative, because no piece can carry the '-' that separates them. Each part is an int64. |
| Utils.GetDateString | utils.go:55-57 | For a year of at most four digits and a month and a day of at most two, the text has ten characters laid out as YYYY-MM-DD: digits, '-' at positions 4 and 7, then digits. |
| Utils.PaddedWidth | utils.go:56 | A non-negative number below 10^width is zero-padded to exactly width digits. |
| Utils.GetNowDateString | utils.go:43-45 | For years 0 to 9999, today's date string has ten characters with '-' at positions 4 and 7. `ParseGetNowDateString` gives its round trip. |
| Utils.GetDefaultEndDateString | utils.go:50-52 | For years 0 to 9998, the default end date string has ten characters with '-' at positions 4 and 7. `ParseGetDefaultEndDateString` gives its round trip. |
| Utils.PaddedParses | utils.go:68-70 | A zero-padded non-negative number contains no '-' and parses back to the number. |
| Utils.ParseGetDateString | utils.go:54-73 | The date round trip: `ParseYearMonthDateString(GetDateString(y, m, d)) == (y, m, d)` for non-negative int64 y, m, d. |
| Utils.ParseGetNowDateString | utils.go:43-45 | Today's date string reads back as the day of t. |
| Utils.ParseGetDefaultEndDateString | utils.go:50-52 | The default end date string reads back as a day 365 or 366 days after t's day. |
| Utils.GetCSVString | utils.go:131-142 | No names give ""; otherwise the result is "(n) " followed by every name and "; ", in input order. |
| Utils.TerminatedIsJoin | utils.go:137-139 | The names part is `strings.Join(names, "; ")` plus a trailing "; ". |
| Transactions.GetWeekdaysMap | lib.go:126-133 | The keys are exactly the weekdays 0..6, each mapped to false. |
| Transactions.GetWeekdaysCheckedMap | lib.go:145-159 | The keys are exactly the definition's weekday keys, each mapped to `checked` when set and `unchecked` otherwise. |
| Transactions.GetNewTX | lib.go:71-95 | The defaults: $5.00, active, named "New", monthly with interval 1, empty note and rule, not selected, the given ID, created and updated at t, all weekdays false. The start fields are exactly t's civil date (`DateOfUnix(t)`). The end fields are exactly the civil date 31 days of seconds later. Both are valid dates, and their day numbers are t's day and that day plus 31. |
| Transactions.GetStartDateString | lib.go:429-431 | For a start year of at most four digits and a month and day of at most two, the text is laid out as YYYY-MM-DD. `ParseDateStrings` gives its round trip. |
| Transactions.GetEndsDateString | lib.go:435-437 | The same for the end date. |
| Transactions.ParseDateStrings | lib.go:429-437 | The start and end date strings read back as the definition's year, month and day fields. |
| Transactions.RemoveAt | lib.go:442-444 | Removing index i keeps the elements before i and shifts those after it down by one. |
| Transactions.IndexOfID | lib.go:464-476 | None exactly when no definition has the ID; otherwise the index of a definition with the ID, none before it having it. |
| Transactions.RemoveFirstByID | lib.go:448-460 | The list without the first definition that has the ID, or the list unchanged when no definition has it. It has no contract of its own; `RemoveFirstByIDRemovesOne` states what it does. |
| Transactions.RemoveFirstByIDRemovesOne | lib.go:448-460 | With the ID absent the list is unchanged; otherwise exactly the first definition with the ID is removed, the rest stay in order, and the multiset loses just that definition. |
| Transactions.RemoveTXAtIndex | lib.go:442-444 | In place: the live prefix becomes the old one without index i, one shorter, and the slots past it keep their old values (Go's `append` onto the same backing array). |
| Transactions.RemoveTXByID | lib.go:448-460 | In place: the live prefix becomes the list without the first definition with the ID; with the ID absent the array and length are unchanged. |
| Transactions.GetTXByID | lib.go:464-476 | The first index with the ID and no error, or -1 and "not present". |
| Transactions.GetNextSort | lib.go:639-668 | Selecting "none" gives "none". From no sort, any selected column starts ascending. Every result is "none" or the selected column with "Asc" or "Desc". |
| Transactions.NextSortCycle | lib.go:639-668 | The same column cycles none → Asc → Desc → none. |
| Transactions.NextSortOtherColumn | lib.go:651-667 | A current sort without a direction, or another column's sort, gives the selected column ascending. |
| Transactions.AscIsNotDesc | lib.go:651-659 | A sort ending in "Asc" does not end in "Desc", so the two branches never both apply. |
| Recurrence.FrequencyOf | lib.go:284-289 | "YEARLY" is yearly and "MONTHLY" is monthly, both exactly; everything else, "WEEKLY" included, is daily. |
| Recurrence.ByWeekday | lib.go:292-317 | The weekdays are exactly the keys in 0..6 whose value is true; other keys are ignored. |
| Recurrence.ResolveRule | lib.go:252-281 | The rule is raw exactly when the definition has RRULE text, and then it is that text. |
| Recurrence.StructuredRuleDefaults | lib.go:268-326 | Without RRULE text: frequency, interval and weekdays come from the definition; an unset start becomes the window start; the end never lies past the window end, and it equals the window end exactly when it was unset or not earlier. |
| Recurrence.EmptyDateIsOrdinary | lib.go:233 | The unset date normalises to 30 November of year -1, before year 0 starts. |
| Recurrence.BuildRule | lib.go:252-326 | The rule-building steps of the loop produce `ResolveRule`'s rule. |
| Projection.Occurrences | lib.go:240-336 | An inactive definition has no occurrences. Otherwise its occurrences are what the rrule library returns for its rule over the window, or none when the library rejects the rule. It has no contract of its own. |
| Projection.RuleError | lib.go:252-333 | A rejected rule is reported as a parse error when the definition has RRULE text (lib.go:255), and as a construction error otherwise (lib.go:328), naming the definition. It has no contract of its own. |
| Projection.Expansions | lib.go:240-336 | On success there is one occurrence list per definition. |
| Projection.Repeat | lib.go:342-343 | n copies of x. |
| Projection.DayAmounts | lib.go:338-345 | A day's bucket holds as many amounts as there are occurrences on that day. |
| Projection.DayNames | lib.go:338-345 | A day's bucket holds as many names as there are occurrences on that day. |
| Projection.Buckets | lib.go:222-231 | One bucket per day of the window. |
| Projection.InitDays | lib.go:222-231 | The day index: one empty bucket and one empty row (record i, day s+i) per day of the window. |
| Projection.MergeOccurrences | lib.go:338-345 | The buckets after merging are `AddDefinition` of the old buckets: each day gains the amount and name once per occurrence on it. |
| Projection.AddOccurrence | lib.go:338-345 | One occurrence appends the amount and name to its day's bucket, or changes nothing for a day outside the window. |
| Projection.BucketsStep | lib.go:338-345 | Merging the next definition's occurrences yields the buckets of the longer list of definitions. |
| Projection.AddNothing | lib.go:240-243 | Merging a definition without occurrences changes no bucket. |
| Projection.ExpansionsPrefixFails | lib.go:252-333 | Once a definition's rule fails, the whole expansion fails with that error. |
| Projection.AddTransaction | lib.go:240-345 | One definition: an inactive one is skipped; otherwise its rule is expanded, and on success the occurrences are merged into the buckets, with the buckets left unchanged when the rule fails. |
| Projection.GetResultsSpec | lib.go:198-425 | What `GetResults` returns: the window error and no rows when the start is after the end, or the first failing rule's error and no rows, or else the rows of the buckets. It has no contract of its own; `ProjectionProps` states what the rows mean. |
| Projection.JoinNames | lib.go:400-407 | A day's names joined as `GetResults` joins them, with "; " added only after a non-empty text. It has no contract of its own; `JoinNamesIsJoin` and `JoinNamesEmptyFirst` compare it with `strings.Join`. |
| Projection.GetResults | lib.go:198-425 | The method computes `GetResultsSpec`; an empty window gives the window error and no rows; success gives one row per day. |
| Projection.BucketLengths | lib.go:380-387 | Every bucket holds as many names as amounts, so the mismatch error is unreachable. |
| Projection.AccumulateDay | lib.go:389-414 | The day's row gets the income, expenses and net sums and the joined names and name list of its bucket; the running values grow by the bucket's sums; other rows are unchanged. |
| Projection.AddToDay | lib.go:392-411 | One amount goes to income when non-negative, to expenses otherwise, and always to the net; its name is appended to the joined names ("; " only after a non-empty text) and to the name list. |
| Projection.DayRowStep | lib.go:389-414 | One more amount and name extend the day's sums and names as one inner-loop step does. |
| Projection.RowOfDay | lib.go:416-419 | The day's row with the running values stored is row i of the specification. |
| Projection.Project | lib.go:362-420 | After the projection pass the rows are `Rows` of the buckets: row i holds day i's sums and names and the running values over days 0..i. |
| ProjectionProps.ExpansionsMeaning | lib.go:240-336 | The expansion succeeds exactly when every definition's rule succeeds, and then holds each one's occurrences; otherwise its error is that of the first definition that fails. |
| ProjectionProps.InactiveHasNoOccurrences | lib.go:240-243 | An inactive definition contributes no occurrence. |
| ProjectionProps.CountInExtend | lib.go:338-345 | Extending a day range by one day adds that day's occurrences. |
| ProjectionProps.SumPartAppend | lib.go:389-398 | Summing a side over two lists is the sum of the two sums. |
| ProjectionProps.SumPartRepeat | lib.go:389-398 | n copies of an amount contribute n times its part. |
| ProjectionProps.SumPartOfDay | lib.go:338-345 | A day's bucket sums to every definition's contribution times its occurrences on that day. |
| ProjectionProps.ListTotalExtend | lib.go:363-420 | A total over one more day grows by that day's contributions. |
| ProjectionProps.TotalUpToBuckets | lib.go:363-420 | The running sum of the first k buckets is the total over the first k days. |
| ProjectionProps.ListTotalIsOccurrenceTotal | lib.go:240-345 | Over the gathered occurrences the list total is the reference total of active definitions. |
| ProjectionProps.RowsOfResults | lib.go:198-425 | With a valid window and no failing rule, the result is `Rows` over the buckets and no error. |
| ProjectionProps.WindowCheck | lib.go:199-201 | The window error is returned exactly when the start is after the end, and then with no rows. |
| ProjectionProps.RuleFailure | lib.go:252-333 | A failing rule gives the error of the first definition that fails, and no rows. |
| ProjectionProps.OneRowPerDay | lib.go:218-231 | One row per day of the window: row i has record i and day s+i, and the days strictly increase. |
| ProjectionProps.RunningTotals | lib.go:363-419 | Row i's balance is the starting balance plus the amounts of every occurrence of every active definition on days s..s+i; its difference from the start is balance minus starting balance; cumulative income and expenses are the non-negative and negative parts of that total. |
| ProjectionProps.BucketTotal | lib.go:363-419 | The running total of one side over days s..s+i is the reference total of the occurrences on those days. |
| ProjectionProps.SumPartSplit | lib.go:392-398 | Income and expenses split every sum of amounts, income non-negative and expenses not positive. |
| ProjectionProps.TotalUpToSplit | lib.go:392-413 | Cumulative income and expenses split the running net. |
| ProjectionProps.RowSums | lib.go:389-419 | Per row: the day's income is at least 0, its expenses at most 0, and they add to the day's net; cumulative income and expenses add to the difference from the start. |
| ProjectionProps.CumulativeMonotone | lib.go:392-418 | Cumulative income never falls and cumulative expenses never rise from one row to the next. |
| ProjectionProps.RowNames | lib.go:400-409 | Row i's name list is its day's names in definition order, as many as amounts, and its joined names are `JoinNames` of that list. |
| ProjectionProps.JoinNamesIsJoin | lib.go:400-407 | With a non-empty first name, the day's joined names are `strings.Join(names, "; ")`: no leading separator and one between names. |
| ProjectionProps.JoinNamesEmptyFirst | lib.go:403-407 | An empty first name is absorbed: ["", a] joins to a, where `strings.Join` gives "; " + a. |
| Reports.IsDateSentinel | lib.go:493-499 | The strings "0-0-0", "--" and "" mean an unset date. |
| Reports.StartDay | lib.go:490-507 | The window's first day: today for an unset start, otherwise the `time.Date` day of the parsed start. It has no contract of its own; `DefaultStart` and `DateStringBounds` state both cases. |
| Reports.EndDay | lib.go:491-508 | The window's last day: today's month and day one year on for an unset end, otherwise the day of the parsed end. It has no contract of its own; `DefaultEnd` and `DateStringBounds` state both cases. |
| Reports.DefaultStart | lib.go:493-497 | An unset start ("0-0-0", "--" or "") is today's day. |
| Reports.DefaultEnd | lib.go:499-503 | An unset end is 365 or 366 days after today. |
| Reports.DateStringBounds | lib.go:490-508 | A date written by `GetDateString` is not a sentinel, so the window bound is exactly that date. |
| Reports.SentinelsParseUnset | lib.go:490-503 | The sentinel strings parse to (0, 0, 0). |
| Reports.GenerateResultsFromDateStrings | lib.go:482-517 | The results of `GetResults` over the window the two strings name; on failure no rows and the error wrapped as "failed to get results". |
| Reports.DefaultWindow | lib.go:482-517 | With both dates unset, the window error never occurs, and success gives 366 or 367 rows. |
| Reports.WindowOfAYear | lib.go:198-201 | A window of 366 or 367 days never gives the window error, and success gives one row per day. |
| Reports.CSVRecord | lib.go:606-615 | A row's nine columns: its date, the seven money columns written by `FormatAsCurrency` from the values as Go's int holds them, and the joined names. `CSVRecordReadsBack` states that it reads back. |
| Reports.Fields | lib.go:606-615 | A record has nine columns, the date first and the names last. |
| Reports.MapSeq | lib.go:605-618 | One image per element. |
| Reports.MapSeqAt | lib.go:605-618 | Element i of the mapped list is the image of element i. |
| Reports.GetResultsCSVRecords | lib.go:601-618 | The records are those of the rows, one per row and in order. |
| Reports.DayDateString | lib.go:607 | For years 0 to 9999, a row's date column has ten characters with '-' at positions 4 and 7. |
| Reports.DayDateStringIsNowDateString | lib.go:607 | A row's date column is `GetNowDateString` of the midnight starting its day. |
| Reports.DayOfDaySeconds | lib.go:607 | The midnight that starts a day lies in that day. |
| Reports.CSVRecordReadsBack | lib.go:606-616 | A row's record reads back: its date column parses to the row's day, each money column parses (with assumePositive) to the column's value as Go's int holds it, and the names column is the joined names. |

## Left out

- The rrule library (`rrule.NewRRule`, `StrToRRuleSet`, `All`, `Between`, RRULE semantics per section 3.3.10 of RFC 5545) is a foreign library. It is the `Expander` parameter, and the model assumes nothing about its output.
- The daily window rule at lib.go:207-218 is the run of consecutive days s..e. Its construction error is assumed not to occur and is not modelled.
- Occurrences at times other than midnight are not represented. Occurrences are day numbers; the source files such an occurrence under a key no row reads.
- The floating-point statistics (`GetStats`, calc.go) are not part of this model, because the model has no floating point.
- The `statusHook` progress callbacks are left out, because they are observability only.
- `GetUser` is left out, because it reads the operating system's user database.
- `uuid.New` in `GetNewTX` is left out: the ID is a parameter.
- `time.Now` in `GenerateResultsFromDateStrings` is left out: now is a parameter in Unix seconds. The local time zone of `time.Now` is not modelled; dates are read in UTC.
- The quoting and escaping of `encoding/csv` and the final CSV text of `GetResultsCSVString` are left out. The model stops at the nine-column records handed to the writer.
- Go map iteration order and `sort.SliceStable` are not modelled. The day index is an array built in ascending order, which is what the sort produces; weekdays are a set.
- Projection.GetResults: the running totals are unbounded integers, so Go `int` overflow in the projection pass is not modelled; the CSV columns apply the wrap-around before formatting.
- Reports.CSVRecordReadsBack: the date column is proved to read back only for years 0 through MaxInt64. Zero padding of a negative year would put its '-' where the date string's separators are.
- Utils.ParseGetDateString: stated only for non-negative fields, because a negative field's '-' is taken as a separator.
- Transactions.RemoveTXAtIndex: requires an index within the live length. Go's panic on an out-of-range slice index (lib.go:443) is not modelled.
- Transactions.RemoveTXAtIndex and Transactions.RemoveTXByID work on an array and a live length, standing for the Go slice and its backing array. Aliasing by other slices of the same backing array is not modelled.
- Transactions.GetNewTX: the end date is 31 days of 86400 seconds later, read in UTC; daylight-saving shifts of a local `time.Time` are not modelled.
