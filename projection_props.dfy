/** What the results of GetResults mean: one row per day of the window, a
    running balance that is the starting balance plus every occurrence of
    every active definition up to that day, cumulative income and expenses
    that split the difference from the start, and per-day sums and names. */
module ProjectionProps {
  import opened Wrappers
  import opened Text
  import opened Transactions
  import opened Recurrence
  import opened Projection

  // ------------------------------------------------------------ expansions

  /** The occurrences are gathered for every definition when no rule fails;
      otherwise the error is that of the first definition whose rule fails.
      Inactive definitions never fail and have no occurrences. */
  lemma {:induction false} ExpansionsMeaning(txs: seq<TX>, s: int, e: int, expand: Expander)
    ensures var x := Expansions(txs, s, e, expand);
            x.Expanded? <==> forall k :: 0 <= k < |txs| ==> Occurrences(txs[k], s, e, expand).Some?
    ensures var x := Expansions(txs, s, e, expand);
            x.Expanded? ==> forall k :: 0 <= k < |txs| ==> x.occs[k] == Occurrences(txs[k], s, e, expand).value
    ensures var x := Expansions(txs, s, e, expand);
            x.Failed? ==> (exists k :: 0 <= k < |txs| && Occurrences(txs[k], s, e, expand).None? &&
                             (forall j :: 0 <= j < k ==> Occurrences(txs[j], s, e, expand).Some?) &&
                             x.err == RuleError(txs[k]))
    decreases |txs|
  {
    if txs != [] {
      var p := txs[..|txs| - 1];
      ExpansionsMeaning(p, s, e, expand);
      assert forall k :: 0 <= k < |p| ==> p[k] == txs[k];
    }
  }

  /** An inactive definition contributes no occurrence. */
  lemma InactiveHasNoOccurrences(txs: seq<TX>, s: int, e: int, expand: Expander, k: int)
    requires Expansions(txs, s, e, expand).Expanded? && 0 <= k < |txs| && !txs[k].active
    ensures Expansions(txs, s, e, expand).occs[k] == []
  {
    ExpansionsMeaning(txs, s, e, expand);
  }

  // ------------------------------------------------------------ counting

  /** How many occurrences fall in the days lo..hi. */
  function CountIn(o: seq<int>, lo: int, hi: int): nat
  {
    if o == [] then 0 else CountIn(o[..|o| - 1], lo, hi) + (if lo <= o[|o| - 1] <= hi then 1 else 0)
  }

  /** Extending the range by one day adds that day's occurrences. */
  lemma {:induction false} CountInExtend(o: seq<int>, lo: int, hi: int)
    requires lo <= hi + 1
    ensures CountIn(o, lo, hi + 1) == CountIn(o, lo, hi) + Count(o, hi + 1)
    decreases |o|
  {
    if o != [] {
      CountInExtend(o[..|o| - 1], lo, hi);
    }
  }

  /** No occurrence falls in an empty range. */
  lemma {:induction false} CountInEmpty(o: seq<int>, lo: int)
    ensures CountIn(o, lo, lo - 1) == 0
    decreases |o|
  {
    if o != [] {
      CountInEmpty(o[..|o| - 1], lo);
    }
  }

  // --------------------------------------------------------------- sums

  /** The reference total: for every active definition in order, its
      amount's contribution times the number of its occurrences (as the
      rrule library reports them) on the days s..hi. */
  function OccurrenceTotal(side: Side, txs: seq<TX>, s: int, e: int, hi: int, expand: Expander): int
  {
    if txs == [] then 0
    else
      var last := txs[|txs| - 1];
      OccurrenceTotal(side, txs[..|txs| - 1], s, e, hi, expand) +
      (if !last.active then 0
       else match expand(ResolveRule(last, s, e), s, e)
         case None => 0
         case Some(o) => Part(side, last.amount) * CountIn(o, s, hi))
  }

  /** The same total over the gathered occurrence lists. */
  function ListTotal(side: Side, txs: seq<TX>, os: seq<seq<int>>, lo: int, hi: int): int
    requires |os| == |txs|
  {
    if txs == [] then 0
    else ListTotal(side, txs[..|txs| - 1], os[..|os| - 1], lo, hi) + Part(side, txs[|txs| - 1].amount) * CountIn(os[|os| - 1], lo, hi)
  }

  /** The contributions of the definitions' occurrences on the single day d. */
  function DayTotal(side: Side, txs: seq<TX>, os: seq<seq<int>>, d: int): int
    requires |os| == |txs|
  {
    if txs == [] then 0
    else DayTotal(side, txs[..|txs| - 1], os[..|os| - 1], d) + Part(side, txs[|txs| - 1].amount) * Count(os[|os| - 1], d)
  }

  lemma {:induction false} SumPartAppend(side: Side, a: seq<int>, b: seq<int>)
    ensures SumPart(side, a + b) == SumPart(side, a) + SumPart(side, b)
    decreases |b|
  {
    if b == [] {
      assert a + b == a;
    } else {
      var b' := b[..|b| - 1];
      assert (a + b)[..|a + b| - 1] == a + b';
      SumPartAppend(side, a, b');
    }
  }

  lemma {:induction false} SumPartRepeat(side: Side, x: int, n: nat)
    ensures SumPart(side, Repeat(x, n)) == Part(side, x) * n
    decreases n
  {
    if n > 0 {
      assert Repeat(x, n)[..n - 1] == Repeat(x, n - 1);
      SumPartRepeat(side, x, n - 1);
      MulStep(Part(side, x), n);
    }
  }

  /** A day's bucket adds up to the definitions' contributions on that day. */
  lemma {:induction false} SumPartOfDay(side: Side, txs: seq<TX>, os: seq<seq<int>>, d: int)
    requires |os| == |txs|
    ensures SumPart(side, DayAmounts(txs, os, d)) == DayTotal(side, txs, os, d)
    decreases |txs|
  {
    if txs != [] {
      var n := |txs| - 1;
      SumPartOfDay(side, txs[..n], os[..n], d);
      DayStep(side, DayAmounts(txs[..n], os[..n], d), txs[n].amount, Count(os[n], d));
    }
  }

  /** Appending c copies of x adds c times x's contribution. */
  lemma DayStep(side: Side, pre: seq<int>, x: int, c: nat)
    ensures SumPart(side, pre + Repeat(x, c)) == SumPart(side, pre) + Part(side, x) * c
  {
    SumPartAppend(side, pre, Repeat(x, c));
    SumPartRepeat(side, x, c);
  }

  lemma MulStep(p: int, n: int)
    ensures p * (n - 1) + p == p * n
  {
  }

  /** Adding the next day's contributions extends the range of a total. */
  lemma {:induction false} ListTotalExtend(side: Side, txs: seq<TX>, os: seq<seq<int>>, lo: int, hi: int)
    requires |os| == |txs| && lo <= hi + 1
    ensures ListTotal(side, txs, os, lo, hi + 1) == ListTotal(side, txs, os, lo, hi) + DayTotal(side, txs, os, hi + 1)
    decreases |txs|
  {
    if txs != [] {
      var n := |txs| - 1;
      ListTotalExtend(side, txs[..n], os[..n], lo, hi);
      CountInExtend(os[n], lo, hi);
      var p := Part(side, txs[n].amount);
      assert p * CountIn(os[n], lo, hi + 1) == p * CountIn(os[n], lo, hi) + p * Count(os[n], hi + 1);
    }
  }

  lemma {:induction false} ListTotalEmpty(side: Side, txs: seq<TX>, os: seq<seq<int>>, lo: int)
    requires |os| == |txs|
    ensures ListTotal(side, txs, os, lo, lo - 1) == 0
    decreases |txs|
  {
    if txs != [] {
      var n := |txs| - 1;
      ListTotalEmpty(side, txs[..n], os[..n], lo);
      CountInEmpty(os[n], lo);
    }
  }

  /** The running sum of the first k buckets is the total over the days
      s..s+k-1. */
  lemma {:induction false} TotalUpToBuckets(side: Side, txs: seq<TX>, os: seq<seq<int>>, s: int, e: int, k: int)
    requires |os| == |txs| && s <= e && 0 <= k <= e - s + 1
    ensures TotalUpTo(side, Buckets(txs, os, s, e), k) == ListTotal(side, txs, os, s, s + k - 1)
    decreases k
  {
    var b := Buckets(txs, os, s, e);
    if k == 0 {
      ListTotalEmpty(side, txs, os, s);
    } else {
      TotalUpToBuckets(side, txs, os, s, e, k - 1);
      assert b[k - 1].dayTransactionAmounts == DayAmounts(txs, os, s + k - 1);
      SumPartOfDay(side, txs, os, s + k - 1);
      ListTotalExtend(side, txs, os, s, s + k - 2);
    }
  }

  /** Over the gathered occurrences, the list total is the reference total. */
  lemma {:induction false} ListTotalIsOccurrenceTotal(side: Side, txs: seq<TX>, s: int, e: int, hi: int, expand: Expander)
    requires Expansions(txs, s, e, expand).Expanded?
    ensures ListTotal(side, txs, Expansions(txs, s, e, expand).occs, s, hi) == OccurrenceTotal(side, txs, s, e, hi, expand)
    decreases |txs|
  {
    if txs != [] {
      var n := |txs| - 1;
      var os := Expansions(txs, s, e, expand).occs;
      ListTotalIsOccurrenceTotal(side, txs[..n], s, e, hi, expand);
      assert os[..n] == Expansions(txs[..n], s, e, expand).occs;
    }
  }

  // -------------------------------------------------------------- results

  /** For a valid window and rules that all succeed, the rows of GetResults
      are Rows over the buckets of the occurrences. */
  lemma RowsOfResults(txs: seq<TX>, s: int, e: int, bal: int, expand: Expander)
    requires s <= e && Expansions(txs, s, e, expand).Expanded?
    ensures var os := Expansions(txs, s, e, expand).occs;
            GetResultsSpec(txs, s, e, bal, expand) == (Rows(bal, Buckets(txs, os, s, e)), None)
  {
  }

  /** The window check: a start after the end gives an error and no rows. */
  lemma WindowCheck(txs: seq<TX>, s: int, e: int, bal: int, expand: Expander)
    ensures s > e <==> GetResultsSpec(txs, s, e, bal, expand).1 == Some(WindowError(s, e))
    ensures s > e ==> GetResultsSpec(txs, s, e, bal, expand).0 == []
  {
    ExpansionsMeaning(txs, s, e, expand);
  }

  /** A failing rule gives the error of the first definition that fails,
      and no rows. */
  lemma RuleFailure(txs: seq<TX>, s: int, e: int, bal: int, expand: Expander, k: int)
    requires s <= e && 0 <= k < |txs| && Occurrences(txs[k], s, e, expand).None?
    requires forall j :: 0 <= j < k ==> Occurrences(txs[j], s, e, expand).Some?
    ensures GetResultsSpec(txs, s, e, bal, expand) == ([], Some(RuleError(txs[k])))
  {
    ExpansionsMeaning(txs, s, e, expand);
    var x := Expansions(txs, s, e, expand);
    var k' :| 0 <= k' < |txs| && Occurrences(txs[k'], s, e, expand).None? &&
              (forall j :: 0 <= j < k' ==> Occurrences(txs[j], s, e, expand).Some?) && x.err == RuleError(txs[k']);
    assert k' == k;
  }

  /** One row per day of the window, in date order, row i on day s + i
      with Record i. */
  lemma OneRowPerDay(txs: seq<TX>, s: int, e: int, bal: int, expand: Expander)
    requires s <= e && Expansions(txs, s, e, expand).Expanded?
    ensures var rows := GetResultsSpec(txs, s, e, bal, expand).0;
            && |rows| == e - s + 1
            && (forall i :: 0 <= i < |rows| ==> rows[i].record == i && rows[i].date == s + i)
            && (forall i, j :: 0 <= i < j < |rows| ==> rows[i].date < rows[j].date)
  {
    var os := Expansions(txs, s, e, expand).occs;
    var b := Buckets(txs, os, s, e);
    var rows := Rows(bal, b);
    forall i | 0 <= i < |rows|
      ensures rows[i].record == i && rows[i].date == s + i
    {
      assert rows[i] == Row(bal, b, i);
    }
  }

  /** Row i's running values: the balance is the starting balance plus the
      amounts of all occurrences of active definitions on days s..s+i, the
      difference from the start is that sum, and the cumulative income and
      expenses are the sums of its non-negative and negative amounts. */
  lemma RunningTotals(txs: seq<TX>, s: int, e: int, bal: int, expand: Expander, i: int)
    requires s <= e && Expansions(txs, s, e, expand).Expanded? && 0 <= i <= e - s
    ensures var r := GetResultsSpec(txs, s, e, bal, expand).0[i];
            && r.balance == bal + OccurrenceTotal(Net, txs, s, e, s + i, expand)
            && r.diffFromStart == r.balance - bal
            && r.cumulativeIncome == OccurrenceTotal(Income, txs, s, e, s + i, expand)
            && r.cumulativeExpenses == OccurrenceTotal(Expenses, txs, s, e, s + i, expand)
  {
    var os := Expansions(txs, s, e, expand).occs;
    var b := Buckets(txs, os, s, e);
    assert Rows(bal, b)[i] == Row(bal, b, i);
    BucketTotal(Net, txs, s, e, expand, i);
    BucketTotal(Income, txs, s, e, expand, i);
    BucketTotal(Expenses, txs, s, e, expand, i);
  }

  /** The running total of one side over the buckets of days s..s+i is the
      total of the occurrences on those days. */
  lemma BucketTotal(side: Side, txs: seq<TX>, s: int, e: int, expand: Expander, i: int)
    requires s <= e && Expansions(txs, s, e, expand).Expanded? && 0 <= i <= e - s
    ensures var os := Expansions(txs, s, e, expand).occs;
            TotalUpTo(side, Buckets(txs, os, s, e), i + 1) == OccurrenceTotal(side, txs, s, e, s + i, expand)
  {
    var os := Expansions(txs, s, e, expand).occs;
    TotalUpToBuckets(side, txs, os, s, e, i + 1);
    ListTotalIsOccurrenceTotal(side, txs, s, e, s + i, expand);
  }

  /** Income and expenses split every sum of amounts. */
  lemma {:induction false} SumPartSplit(amts: seq<int>)
    ensures SumPart(Income, amts) + SumPart(Expenses, amts) == SumPart(Net, amts)
    ensures SumPart(Income, amts) >= 0 && SumPart(Expenses, amts) <= 0
    decreases |amts|
  {
    if amts != [] {
      SumPartSplit(amts[..|amts| - 1]);
    }
  }

  lemma {:induction false} TotalUpToSplit(b: seq<PreCalculatedResult>, k: int)
    requires 0 <= k <= |b|
    ensures TotalUpTo(Income, b, k) + TotalUpTo(Expenses, b, k) == TotalUpTo(Net, b, k)
    decreases k
  {
    if k > 0 {
      TotalUpToSplit(b, k - 1);
      SumPartSplit(b[k - 1].dayTransactionAmounts);
    }
  }

  /** Per row: the day's income is non-negative, its expenses are not
      positive and together they are the day's net; cumulative income and
      expenses add up to the difference from the start. */
  lemma RowSums(txs: seq<TX>, s: int, e: int, bal: int, expand: Expander, i: int)
    requires s <= e && Expansions(txs, s, e, expand).Expanded? && 0 <= i <= e - s
    ensures var r := GetResultsSpec(txs, s, e, bal, expand).0[i];
            && r.dayIncome >= 0 && r.dayExpenses <= 0
            && r.dayIncome + r.dayExpenses == r.dayNet
            && r.cumulativeIncome + r.cumulativeExpenses == r.diffFromStart
  {
    var os := Expansions(txs, s, e, expand).occs;
    var b := Buckets(txs, os, s, e);
    assert Rows(bal, b)[i] == Row(bal, b, i);
    SumPartSplit(b[i].dayTransactionAmounts);
    TotalUpToSplit(b, i + 1);
  }

  /** Cumulative income never falls and cumulative expenses never rise
      from one row to the next. */
  lemma CumulativeMonotone(txs: seq<TX>, s: int, e: int, bal: int, expand: Expander, i: int)
    requires s <= e && Expansions(txs, s, e, expand).Expanded? && 0 <= i < e - s
    ensures var rows := GetResultsSpec(txs, s, e, bal, expand).0;
            rows[i].cumulativeIncome <= rows[i + 1].cumulativeIncome &&
            rows[i].cumulativeExpenses >= rows[i + 1].cumulativeExpenses
  {
    var os := Expansions(txs, s, e, expand).occs;
    var b := Buckets(txs, os, s, e);
    assert Rows(bal, b)[i] == Row(bal, b, i);
    assert Rows(bal, b)[i + 1] == Row(bal, b, i + 1);
    SumPartSplit(b[i + 1].dayTransactionAmounts);
  }

  // ---------------------------------------------------------------- names

  /** Row i lists its day's names in definition order, as many as amounts,
      and joins them with "; ". */
  lemma RowNames(txs: seq<TX>, s: int, e: int, bal: int, expand: Expander, i: int)
    requires s <= e && Expansions(txs, s, e, expand).Expanded? && 0 <= i <= e - s
    ensures var os := Expansions(txs, s, e, expand).occs;
            var r := GetResultsSpec(txs, s, e, bal, expand).0[i];
            && r.dayTransactionNamesSlice == DayNames(txs, os, s + i)
            && |r.dayTransactionNamesSlice| == |DayAmounts(txs, os, s + i)|
            && r.dayTransactionNames == JoinNames(r.dayTransactionNamesSlice)
  {
    var os := Expansions(txs, s, e, expand).occs;
    var b := Buckets(txs, os, s, e);
    assert Rows(bal, b)[i] == Row(bal, b, i);
  }

  /** When the first name is not empty, GetResults' join is strings.Join
      with "; ": no leading separator and one separator between names. */
  lemma {:induction false} JoinNamesIsJoin(names: seq<string>)
    requires names != [] && names[0] != ""
    ensures JoinNames(names) == Join(names, "; ")
    ensures JoinNames(names) != ""
    decreases |names|
  {
    if |names| > 1 {
      var p := names[..|names| - 1];
      JoinNamesIsJoin(p);
    } else {
      assert names[..0] == [];
    }
  }

  /** An empty first name is absorbed: the next name is written without a
      separator in front of it. */
  lemma JoinNamesEmptyFirst(a: string)
    requires a != ""
    ensures JoinNames(["", a]) == a
    ensures Join(["", a], "; ") == "; " + a
  {
    assert ["", a][..1] == [""];
    assert [""][..0] == [];
  }
}
