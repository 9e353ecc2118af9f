/** The projection engine of lib.go (GetResults): one bucket per day of the
    window [s, e], every occurrence of every active definition appended to
    the bucket of its day, then one forward pass over the days keeping the
    running balance, the difference from the starting balance and the
    cumulative income and expenses. Days are day numbers, amounts cents. */
module Projection {
  import opened Wrappers
  import opened Transactions
  import opened Recurrence

  /** The amounts and names collected for one day, in definition order. */
  datatype PreCalculatedResult = PreCalculatedResult(
    date: int,
    dayTransactionNames: seq<string>,
    dayTransactionAmounts: seq<int>)

  /** One row of the results table. */
  datatype Result = Result(
    record: int,
    date: int,
    balance: int,
    cumulativeIncome: int,
    cumulativeExpenses: int,
    dayExpenses: int,
    dayIncome: int,
    dayNet: int,
    dayTransactionNames: string,
    diffFromStart: int,
    dayTransactionNamesSlice: seq<string>,
    id: string,
    createdAt: string,
    updatedAt: string)

  /** The errors GetResults and GenerateResultsFromDateStrings report. */
  datatype Error =
    | WindowError(start: int, end: int)
    | RRuleParseError(name: string)
    | RRuleConstructError(name: string)
    | GetResultsFailed(cause: Error)

  // ------------------------------------------------------------ occurrences

  /** The occurrences of one definition in the window: none for an inactive
      definition, otherwise whatever the rrule library reports for its rule
      (None when the library fails). */
  function Occurrences(tx: TX, s: int, e: int, expand: Expander): Option<seq<int>>
  {
    if !tx.active then Some([]) else expand(ResolveRule(tx, s, e), s, e)
  }

  /** The error for a definition whose rule the library rejects. */
  function RuleError(tx: TX): Error
  {
    if tx.rrule != "" then RRuleParseError(tx.name) else RRuleConstructError(tx.name)
  }

  datatype Expansion = Expanded(occs: seq<seq<int>>) | Failed(err: Error)

  /** The occurrences of every definition, in order, or the error of the
      first definition whose rule fails. */
  function Expansions(txs: seq<TX>, s: int, e: int, expand: Expander): (r: Expansion)
    ensures r.Expanded? ==> |r.occs| == |txs|
  {
    if txs == [] then Expanded([])
    else
      var last := txs[|txs| - 1];
      match Expansions(txs[..|txs| - 1], s, e, expand)
      case Failed(err) => Failed(err)
      case Expanded(os) =>
        match Occurrences(last, s, e, expand)
        case None => Failed(RuleError(last))
        case Some(o) => Expanded(os + [o])
  }

  /** How many occurrences fall on day d. */
  function Count(o: seq<int>, d: int): nat
  {
    if o == [] then 0 else Count(o[..|o| - 1], d) + (if o[|o| - 1] == d then 1 else 0)
  }

  /** The sequence of n copies of x. */
  function Repeat<T>(x: T, n: nat): (r: seq<T>)
    ensures |r| == n
    ensures forall k :: 0 <= k < n ==> r[k] == x
  {
    if n == 0 then [] else Repeat(x, n - 1) + [x]
  }

  /** The number of occurrences on day d over all definitions. */
  function TotalCount(os: seq<seq<int>>, d: int): nat
  {
    if os == [] then 0 else TotalCount(os[..|os| - 1], d) + Count(os[|os| - 1], d)
  }

  /** The amounts appended to day d's bucket: each definition's amount once
      per occurrence on d, in definition order. */
  function DayAmounts(txs: seq<TX>, os: seq<seq<int>>, d: int): (r: seq<int>)
    requires |os| == |txs|
    ensures |r| == TotalCount(os, d)
  {
    if txs == [] then []
    else DayAmounts(txs[..|txs| - 1], os[..|os| - 1], d) + Repeat(txs[|txs| - 1].amount, Count(os[|os| - 1], d))
  }

  /** The names appended to day d's bucket, alongside the amounts. */
  function DayNames(txs: seq<TX>, os: seq<seq<int>>, d: int): (r: seq<string>)
    requires |os| == |txs|
    ensures |r| == TotalCount(os, d)
  {
    if txs == [] then []
    else DayNames(txs[..|txs| - 1], os[..|os| - 1], d) + Repeat(txs[|txs| - 1].name, Count(os[|os| - 1], d))
  }

  /** The buckets of the days s..e. */
  function Buckets(txs: seq<TX>, os: seq<seq<int>>, s: int, e: int): (b: seq<PreCalculatedResult>)
    requires |os| == |txs| && s <= e
    ensures |b| == e - s + 1
  {
    seq(e - s + 1, j requires 0 <= j <= e - s =>
      PreCalculatedResult(s + j, DayNames(txs, os, s + j), DayAmounts(txs, os, s + j)))
  }

  // ------------------------------------------------------------ projection

  /** Which running sum an amount contributes to. */
  datatype Side = Net | Income | Expenses

  /** An amount's contribution: all of it to the net, a non-negative amount
      to income, a negative amount to expenses. */
  function Part(side: Side, a: int): int
  {
    match side
    case Net => a
    case Income => if a >= 0 then a else 0
    case Expenses => if a < 0 then a else 0
  }

  /** The sum of the contributions of a list of amounts. */
  function SumPart(side: Side, amts: seq<int>): int
  {
    if amts == [] then 0 else SumPart(side, amts[..|amts| - 1]) + Part(side, amts[|amts| - 1])
  }

  /** The day's names as GetResults joins them: each name after the first
      is added with "; " unless the text so far is empty. */
  function JoinNames(names: seq<string>): string
  {
    if names == [] then ""
    else
      var j := JoinNames(names[..|names| - 1]);
      if j == "" then names[|names| - 1] else j + "; " + names[|names| - 1]
  }

  /** The contributions of the first k days. */
  function TotalUpTo(side: Side, b: seq<PreCalculatedResult>, k: int): int
    requires 0 <= k <= |b|
  {
    if k == 0 then 0 else TotalUpTo(side, b, k - 1) + SumPart(side, b[k - 1].dayTransactionAmounts)
  }

  /** A row before the projection pass fills it: only record and date set. */
  function EmptyRow(i: int, date: int): Result
  {
    Result(i, date, 0, 0, 0, 0, 0, 0, "", 0, [], "", "", "")
  }

  /** Row i of the results: its day's sums and names, and the running
      values over days 0..i. */
  function Row(bal: int, b: seq<PreCalculatedResult>, i: int): Result
    requires 0 <= i < |b|
  {
    var amts := b[i].dayTransactionAmounts;
    Result(i, b[i].date,
           bal + TotalUpTo(Net, b, i + 1),
           TotalUpTo(Income, b, i + 1),
           TotalUpTo(Expenses, b, i + 1),
           SumPart(Expenses, amts),
           SumPart(Income, amts),
           SumPart(Net, amts),
           JoinNames(b[i].dayTransactionNames),
           TotalUpTo(Net, b, i + 1),
           b[i].dayTransactionNames,
           "", "", "")
  }

  function Rows(bal: int, b: seq<PreCalculatedResult>): (r: seq<Result>)
    ensures |r| == |b|
  {
    seq(|b|, i requires 0 <= i < |b| => Row(bal, b, i))
  }

  /** What GetResults returns: an error and no rows when the window is
      empty or a rule fails, otherwise one row per day. */
  function GetResultsSpec(txs: seq<TX>, s: int, e: int, bal: int, expand: Expander): (seq<Result>, Option<Error>)
  {
    if s > e then ([], Some(WindowError(s, e)))
    else match Expansions(txs, s, e, expand)
      case Failed(err) => ([], Some(err))
      case Expanded(os) => (Rows(bal, Buckets(txs, os, s, e)), None)
  }

  // ------------------------------------------------------------ the engine

  /** The day index: one empty bucket and one empty row per day s..e. */
  method InitDays(s: int, e: int) returns (pre: array<PreCalculatedResult>, rows: array<Result>)
    requires s <= e
    ensures fresh(pre) && fresh(rows)
    ensures pre.Length == rows.Length == e - s + 1
    ensures forall j :: 0 <= j < pre.Length ==> pre[j] == PreCalculatedResult(s + j, [], [])
    ensures forall j :: 0 <= j < rows.Length ==> rows[j] == EmptyRow(j, s + j)
  {
    pre := new PreCalculatedResult[e - s + 1];
    rows := new Result[e - s + 1];
    var i := 0;
    while i < e - s + 1
      invariant 0 <= i <= e - s + 1
      invariant forall j :: 0 <= j < i ==> pre[j] == PreCalculatedResult(s + j, [], [])
      invariant forall j :: 0 <= j < i ==> rows[j] == EmptyRow(j, s + j)
    {
      rows[i] := EmptyRow(i, s + i);
      pre[i] := PreCalculatedResult(s + i, [], []);
      i := i + 1;
    }
  }

  /** The buckets after one definition's occurrences are merged in. */
  function AddDefinition(b: seq<PreCalculatedResult>, s: int, tx: TX, occ: seq<int>): (r: seq<PreCalculatedResult>)
    ensures |r| == |b|
  {
    seq(|b|, j requires 0 <= j < |b| =>
      b[j].(dayTransactionNames := b[j].dayTransactionNames + Repeat(tx.name, Count(occ, s + j)),
            dayTransactionAmounts := b[j].dayTransactionAmounts + Repeat(tx.amount, Count(occ, s + j))))
  }

  /** The merge of one definition's occurrences: its amount and name are
      appended to the bucket of each occurrence day; a day outside the
      window has no bucket and is dropped. */
  method MergeOccurrences(pre: array<PreCalculatedResult>, s: int, tx: TX, occ: seq<int>)
    modifies pre
    ensures pre[..] == AddDefinition(old(pre[..]), s, tx, occ)
  {
    ghost var b0 := pre[..];
    AddNothing(b0, s, tx);
    assert occ[..0] == [];
    var k := 0;
    while k < |occ|
      invariant 0 <= k <= |occ|
      invariant pre[..] == AddDefinition(b0, s, tx, occ[..k])
    {
      AddOccurrence(b0, s, tx, occ, k);
      var d := occ[k];
      if s <= d < s + pre.Length {
        var b := pre[d - s];
        pre[d - s] := b.(dayTransactionNames := b.dayTransactionNames + [tx.name],
                         dayTransactionAmounts := b.dayTransactionAmounts + [tx.amount]);
      }
      k := k + 1;
    }
    assert occ[..|occ|] == occ;
  }

  /** One more occurrence appends the definition to its day's bucket, or
      changes nothing when the day is outside the window. */
  lemma AddOccurrence(b: seq<PreCalculatedResult>, s: int, tx: TX, occ: seq<int>, k: int)
    requires 0 <= k < |occ|
    ensures var a := AddDefinition(b, s, tx, occ[..k]);
            var d := occ[k];
            && (s <= d < s + |b| ==>
                 AddDefinition(b, s, tx, occ[..k + 1]) ==
                   a[d - s := a[d - s].(dayTransactionNames := a[d - s].dayTransactionNames + [tx.name],
                                        dayTransactionAmounts := a[d - s].dayTransactionAmounts + [tx.amount])])
            && (!(s <= d < s + |b|) ==> AddDefinition(b, s, tx, occ[..k + 1]) == a)
  {
    var a := AddDefinition(b, s, tx, occ[..k]);
    var a' := AddDefinition(b, s, tx, occ[..k + 1]);
    assert occ[..k + 1][..k] == occ[..k];
    var d := occ[k];
    forall j | 0 <= j < |b|
      ensures a'[j] == if s + j == d then a[j].(dayTransactionNames := a[j].dayTransactionNames + [tx.name],
                                                dayTransactionAmounts := a[j].dayTransactionAmounts + [tx.amount])
                       else a[j]
    {
      var n := Count(occ[..k], s + j);
      assert Count(occ[..k + 1], s + j) == n + (if d == s + j then 1 else 0);
      assert Repeat(tx.name, n + 1) == Repeat(tx.name, n) + [tx.name];
      assert Repeat(tx.amount, n + 1) == Repeat(tx.amount, n) + [tx.amount];
    }
  }

  /** A failure at a prefix of the definitions is the failure of all of them. */
  lemma {:induction false} ExpansionsPrefixFails(txs: seq<TX>, i: int, s: int, e: int, expand: Expander)
    requires 0 <= i <= |txs| && Expansions(txs[..i], s, e, expand).Failed?
    ensures Expansions(txs, s, e, expand) == Expansions(txs[..i], s, e, expand)
    decreases |txs| - i
  {
    if i < |txs| {
      var p := txs[..|txs| - 1];
      assert p[..i] == txs[..i];
      ExpansionsPrefixFails(p, i, s, e, expand);
    } else {
      assert txs[..i] == txs;
    }
  }

  /** One more definition in the bucket functions. */
  lemma DayBucketsStep(txs: seq<TX>, os: seq<seq<int>>, i: int, o: seq<int>, d: int)
    requires 0 <= i < |txs| && |os| == i
    ensures DayAmounts(txs[..i + 1], os + [o], d) == DayAmounts(txs[..i], os, d) + Repeat(txs[i].amount, Count(o, d))
    ensures DayNames(txs[..i + 1], os + [o], d) == DayNames(txs[..i], os, d) + Repeat(txs[i].name, Count(o, d))
  {
    assert txs[..i + 1][..i] == txs[..i];
    assert (os + [o])[..i] == os;
  }

  /** Merging one more definition's occurrences into the buckets gives
      the buckets of the longer list of definitions. */
  lemma BucketsStep(txs: seq<TX>, os: seq<seq<int>>, i: int, o: seq<int>, s: int, e: int)
    requires 0 <= i < |txs| && |os| == i && s <= e
    ensures AddDefinition(Buckets(txs[..i], os, s, e), s, txs[i], o) == Buckets(txs[..i + 1], os + [o], s, e)
  {
    var b0 := Buckets(txs[..i], os, s, e);
    var b1 := Buckets(txs[..i + 1], os + [o], s, e);
    var a := AddDefinition(b0, s, txs[i], o);
    forall j | 0 <= j < |a|
      ensures a[j] == b1[j]
    {
      DayBucketsStep(txs, os, i, o, s + j);
    }
  }

  /** Merging a definition without occurrences changes nothing. */
  lemma AddNothing(b: seq<PreCalculatedResult>, s: int, tx: TX)
    ensures AddDefinition(b, s, tx, []) == b
  {
    var a := AddDefinition(b, s, tx, []);
    forall j | 0 <= j < |a|
      ensures a[j] == b[j]
    {
      assert b[j].dayTransactionNames + [] == b[j].dayTransactionNames;
      assert b[j].dayTransactionAmounts + [] == b[j].dayTransactionAmounts;
    }
  }

  /** The buckets before any definition is merged. */
  lemma BucketsOfNone(txs: seq<TX>, s: int, e: int)
    requires s <= e
    ensures forall j :: 0 <= j <= e - s ==> Buckets(txs[..0], [], s, e)[j] == PreCalculatedResult(s + j, [], [])
  {
    var none: seq<TX> := txs[..0];
    assert none == [];
    forall j | 0 <= j <= e - s
      ensures Buckets(none, [], s, e)[j] == PreCalculatedResult(s + j, [], [])
    {
      assert Buckets(none, [], s, e)[j] == PreCalculatedResult(s + j, DayNames(none, [], s + j), DayAmounts(none, [], s + j));
    }
  }

  /** GetResults over the definitions `txs`, the window of days [s, e] and
      the starting balance, with `expand` as the rrule library. */
  method GetResults(txs: seq<TX>, s: int, e: int, startBalance: int, expand: Expander)
    returns (results: seq<Result>, err: Option<Error>)
    ensures (results, err) == GetResultsSpec(txs, s, e, startBalance, expand)
    ensures s > e ==> results == [] && err == Some(WindowError(s, e))
    ensures err == None ==> |results| == e - s + 1
  {
    if s > e {
      return [], Some(WindowError(s, e));
    }
    var pre, rows := InitDays(s, e);
    ghost var rows0 := rows[..];
    ghost var os: seq<seq<int>> := [];
    BucketsOfNone(txs, s, e);
    assert pre[..] == Buckets(txs[..0], os, s, e);
    var i := 0;
    while i < |txs|
      invariant 0 <= i <= |txs| && |os| == i
      invariant Expansions(txs[..i], s, e, expand) == Expanded(os)
      invariant pre[..] == Buckets(txs[..i], os, s, e)
      invariant rows[..] == rows0
    {
      var tx := txs[i];
      assert txs[..i + 1][..i] == txs[..i];
      var occ := AddTransaction(pre, s, e, tx, expand);
      if occ.None? {
        ExpansionsPrefixFails(txs, i + 1, s, e, expand);
        return [], Some(RuleError(tx));
      }
      BucketsStep(txs, os, i, occ.value, s, e);
      os := os + [occ.value];
      i := i + 1;
    }
    assert txs[..i] == txs;
    BucketLengths(txs, os, s, e);
    Project(pre, rows, startBalance);
    results, err := rows[..], None;
  }

  /** One definition in the loop of GetResults: an inactive one is skipped,
      an active one has its rule built and expanded, and its occurrences are
      merged into the buckets unless the rrule library fails. */
  method AddTransaction(pre: array<PreCalculatedResult>, s: int, e: int, tx: TX, expand: Expander)
    returns (occ: Option<seq<int>>)
    modifies pre
    ensures occ == Occurrences(tx, s, e, expand)
    ensures occ.Some? ==> pre[..] == AddDefinition(old(pre[..]), s, tx, occ.value)
    ensures occ.None? ==> pre[..] == old(pre[..])
  {
    if !tx.active {
      AddNothing(pre[..], s, tx);
      return Some([]);
    }
    var rule := BuildRule(tx, s, e);
    occ := expand(rule, s, e);
    if occ.None? {
      return;
    }
    MergeOccurrences(pre, s, tx, occ.value);
  }

  /** Every bucket holds as many names as amounts. */
  lemma BucketLengths(txs: seq<TX>, os: seq<seq<int>>, s: int, e: int)
    requires |os| == |txs| && s <= e
    ensures var b := Buckets(txs, os, s, e);
            forall j :: 0 <= j < |b| ==> |b[j].dayTransactionNames| == |b[j].dayTransactionAmounts|
  {
    var b := Buckets(txs, os, s, e);
    forall j | 0 <= j < |b|
      ensures |b[j].dayTransactionNames| == |b[j].dayTransactionAmounts|
    {
      assert b[j] == PreCalculatedResult(s + j, DayNames(txs, os, s + j), DayAmounts(txs, os, s + j));
    }
  }

  /** The row of a day after its amounts and names are added. */
  function DayRow(i: int, date: int, amts: seq<int>, names: seq<string>): Result
  {
    EmptyRow(i, date).(dayIncome := SumPart(Income, amts),
                       dayExpenses := SumPart(Expenses, amts),
                       dayNet := SumPart(Net, amts),
                       dayTransactionNames := JoinNames(names),
                       dayTransactionNamesSlice := names)
  }

  /** The inner loop of the projection pass for row i: each of the day's
      amounts goes to the day's income or expenses and its net, each name
      to the joined names and the name list, and every amount to the
      running sums. */
  method AccumulateDay(rows: array<Result>, i: int, amts: seq<int>, names: seq<string>,
                       balance0: int, diff0: int, income0: int, expenses0: int)
    returns (balance: int, diff: int, income: int, expenses: int)
    requires 0 <= i < rows.Length && |amts| == |names|
    requires rows[i] == EmptyRow(i, rows[i].date)
    modifies rows
    ensures rows[i] == DayRow(i, old(rows[i].date), amts, names)
    ensures forall r :: 0 <= r < rows.Length && r != i ==> rows[r] == old(rows[r])
    ensures balance == balance0 + SumPart(Net, amts) && diff == diff0 + SumPart(Net, amts)
    ensures income == income0 + SumPart(Income, amts) && expenses == expenses0 + SumPart(Expenses, amts)
  {
    balance, diff, income, expenses := balance0, diff0, income0, expenses0;
    ghost var date := rows[i].date;
    var j := 0;
    while j < |amts|
      invariant 0 <= j <= |amts|
      invariant balance == balance0 + SumPart(Net, amts[..j]) && diff == diff0 + SumPart(Net, amts[..j])
      invariant income == income0 + SumPart(Income, amts[..j])
      invariant expenses == expenses0 + SumPart(Expenses, amts[..j])
      invariant rows[i] == DayRow(i, date, amts[..j], names[..j])
      invariant forall r :: 0 <= r < rows.Length && r != i ==> rows[r] == old(rows[r])
    {
      DayRowStep(i, date, amts, names, j);
      var amt := amts[j];
      var row;
      row, income, expenses := AddToDay(rows[i], amt, names[j], income, expenses);
      rows[i] := row;
      diff := diff + amt;
      balance := balance + amt;
      j := j + 1;
    }
    assert amts[..j] == amts && names[..j] == names;
  }

  /** The body of the inner loop for one amount and its name: the amount
      goes to the day's and the running income when it is not negative and
      to the expenses otherwise, and always to the day's net; the name is
      appended to the joined names (with "; " unless they are still empty)
      and to the name list. */
  method AddToDay(row: Result, amt: int, name: string, income0: int, expenses0: int)
    returns (r: Result, income: int, expenses: int)
    ensures r == row.(dayIncome := row.dayIncome + Part(Income, amt),
                      dayExpenses := row.dayExpenses + Part(Expenses, amt),
                      dayNet := row.dayNet + amt,
                      dayTransactionNames := if row.dayTransactionNames == "" then name
                                             else row.dayTransactionNames + "; " + name,
                      dayTransactionNamesSlice := row.dayTransactionNamesSlice + [name])
    ensures income == income0 + Part(Income, amt) && expenses == expenses0 + Part(Expenses, amt)
  {
    r, income, expenses := row, income0, expenses0;
    if amt >= 0 {
      r := r.(dayIncome := r.dayIncome + amt);
      income := income + amt;
    } else {
      r := r.(dayExpenses := r.dayExpenses + amt);
      expenses := expenses + amt;
    }
    if r.dayTransactionNames == "" {
      r := r.(dayTransactionNames := name);
    } else {
      r := r.(dayTransactionNames := r.dayTransactionNames + "; " + name);
    }
    r := r.(dayTransactionNamesSlice := r.dayTransactionNamesSlice + [name]);
    r := r.(dayNet := r.dayNet + amt);
  }

  /** One more amount and name in a day's row. */
  lemma DayRowStep(i: int, date: int, amts: seq<int>, names: seq<string>, j: int)
    requires 0 <= j < |amts| == |names|
    ensures forall side :: SumPart(side, amts[..j + 1]) == SumPart(side, amts[..j]) + Part(side, amts[j])
    ensures var r := DayRow(i, date, amts[..j], names[..j]);
            DayRow(i, date, amts[..j + 1], names[..j + 1]) ==
              r.(dayIncome := r.dayIncome + Part(Income, amts[j]),
                 dayExpenses := r.dayExpenses + Part(Expenses, amts[j]),
                 dayNet := r.dayNet + amts[j],
                 dayTransactionNames := if r.dayTransactionNames == "" then names[j]
                                        else r.dayTransactionNames + "; " + names[j],
                 dayTransactionNamesSlice := r.dayTransactionNamesSlice + [names[j]])
  {
    assert amts[..j + 1][..j] == amts[..j];
    assert names[..j + 1][..j] == names[..j];
    assert names[..j + 1] == names[..j] + [names[j]];
  }

  /** A day's row with the running values stored is Row. */
  lemma RowOfDay(bal: int, b: seq<PreCalculatedResult>, i: int)
    requires 0 <= i < |b|
    ensures DayRow(i, b[i].date, b[i].dayTransactionAmounts, b[i].dayTransactionNames).(
              balance := bal + TotalUpTo(Net, b, i) + SumPart(Net, b[i].dayTransactionAmounts),
              cumulativeIncome := TotalUpTo(Income, b, i) + SumPart(Income, b[i].dayTransactionAmounts),
              cumulativeExpenses := TotalUpTo(Expenses, b, i) + SumPart(Expenses, b[i].dayTransactionAmounts),
              diffFromStart := TotalUpTo(Net, b, i) + SumPart(Net, b[i].dayTransactionAmounts))
            == Row(bal, b, i)
  {
  }

  /** The projection pass: walks the days in order, adding each amount of
      the day to the day's and the running sums, and stores the running
      values in the day's row. */
  method Project(pre: array<PreCalculatedResult>, rows: array<Result>, startBalance: int)
    requires pre.Length == rows.Length
    requires forall j :: 0 <= j < rows.Length ==> rows[j] == EmptyRow(j, pre[j].date)
    requires forall j :: 0 <= j < pre.Length ==> |pre[j].dayTransactionNames| == |pre[j].dayTransactionAmounts|
    modifies rows
    ensures rows[..] == Rows(startBalance, pre[..])
  {
    ghost var b := pre[..];
    var currentBalance := startBalance;
    var diff := 0;
    var cumulativeIncome := 0;
    var cumulativeExpenses := 0;
    var i := 0;
    while i < rows.Length
      invariant 0 <= i <= rows.Length && pre[..] == b
      invariant currentBalance == startBalance + TotalUpTo(Net, b, i)
      invariant diff == TotalUpTo(Net, b, i)
      invariant cumulativeIncome == TotalUpTo(Income, b, i)
      invariant cumulativeExpenses == TotalUpTo(Expenses, b, i)
      invariant forall r :: 0 <= r < i ==> rows[r] == Row(startBalance, b, r)
      invariant forall r :: i <= r < rows.Length ==> rows[r] == EmptyRow(r, b[r].date)
    {
      var amts := pre[i].dayTransactionAmounts;
      var names := pre[i].dayTransactionNames;
      if |amts| != |names| {
        assert false;
      }
      currentBalance, diff, cumulativeIncome, cumulativeExpenses :=
        AccumulateDay(rows, i, amts, names, currentBalance, diff, cumulativeIncome, cumulativeExpenses);
      rows[i] := rows[i].(balance := currentBalance, cumulativeIncome := cumulativeIncome,
                          cumulativeExpenses := cumulativeExpenses, diffFromStart := diff);
      RowOfDay(startBalance, b, i);
      i := i + 1;
    }
  }
}
