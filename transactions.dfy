/** Transaction definitions (the TX record of lib.go) and the small helpers
    around them: default values, weekday maps, removal and search by ID, and
    the sort-order cycle of the results table. */
module Transactions {
  import Wrappers
  import opened Text
  import opened Calendar
  import Utils

  const WEEKLY: string := "WEEKLY"
  const MONTHLY: string := "MONTHLY"
  const YEARLY: string := "YEARLY"
  const New: string := "New"
  const None: string := "none"
  const Desc: string := "Desc"
  const Asc: string := "Asc"
  const DaysInMonth: int := 31
  const HoursInDay: int := 24
  const DefaultTransactionBalance: int := 500

  /** A recurring transaction definition. Amounts are in cents; times are
      Unix seconds; weekday keys count from Monday = 0. */
  datatype TX = TX(
    amount: int,
    active: bool,
    name: string,
    note: string,
    rrule: string,
    frequency: string,
    interval: int,
    weekdays: map<int, bool>,
    startsDay: int,
    startsMonth: int,
    startsYear: int,
    endsDay: int,
    endsMonth: int,
    endsYear: int,
    id: string,
    createdAt: int,
    updatedAt: int,
    selected: bool)

  /** The seven weekdays, Monday = 0 to Sunday = 6. */
  function Weekdays(): set<int>
  {
    {0, 1, 2, 3, 4, 5, 6}
  }

  /** GetWeekdaysMap: every weekday 0..6 mapped to false. */
  method GetWeekdaysMap() returns (m: map<int, bool>)
    ensures m.Keys == Weekdays()
    ensures forall k :: k in m ==> !m[k]
  {
    m := map[];
    var i := 0;
    while i < 7
      invariant 0 <= i <= 7
      invariant forall j :: j in m <==> 0 <= j < i
      invariant forall k :: k in m ==> !m[k]
    {
      m := m[i := false];
      i := i + 1;
    }
  }

  /** GetWeekdaysCheckedMap: the definition's weekday keys, each shown as
      `checked` when set and `unchecked` when not. */
  method GetWeekdaysCheckedMap(tx: TX, checked: string, unchecked: string) returns (m: map<int, string>)
    ensures m.Keys == tx.weekdays.Keys
    ensures forall k :: k in m ==> m[k] == if tx.weekdays[k] then checked else unchecked
  {
    m := map[];
    var todo := tx.weekdays.Keys;
    while todo != {}
      invariant todo <= tx.weekdays.Keys
      invariant m.Keys == tx.weekdays.Keys - todo
      invariant forall k :: k in m ==> m[k] == if tx.weekdays[k] then checked else unchecked
      decreases |todo|
    {
      HasElement(todo);
      var k :| k in todo;
      if !tx.weekdays[k] {
        m := m[k := unchecked];
      } else {
        m := m[k := checked];
      }
      todo := todo - {k};
    }
  }

  lemma HasElement(s: set<int>)
    requires s != {}
    ensures exists x :: x in s
  {
    if forall x :: x !in s {
      assert false;
    }
  }

  /** GetNewTX: a fresh definition at time t (Unix seconds) with the given
      ID: $5.00 monthly, starting on t's date and ending on the date 31
      days later. */
  method GetNewTX(t: int, id: string) returns (tx: TX)
    ensures tx.amount == DefaultTransactionBalance && tx.active && tx.name == New
    ensures tx.frequency == MONTHLY && tx.interval == 1
    ensures tx.note == "" && tx.rrule == "" && !tx.selected
    ensures tx.id == id && tx.createdAt == t && tx.updatedAt == t
    ensures tx.weekdays.Keys == Weekdays() && forall k :: k in tx.weekdays ==> !tx.weekdays[k]
    ensures DaysFromCivil(tx.startsYear, tx.startsMonth, tx.startsDay) == DayOfUnix(t)
    ensures DaysFromCivil(tx.endsYear, tx.endsMonth, tx.endsDay) == DayOfUnix(t) + DaysInMonth
    ensures Civil(tx.startsYear, tx.startsMonth, tx.startsDay) == Utils.DateOfUnix(t)
    ensures Civil(tx.endsYear, tx.endsMonth, tx.endsDay) == Utils.DateOfUnix(t + SecondsPerDay * DaysInMonth)
    ensures 1 <= tx.startsMonth <= 12 && 1 <= tx.startsDay <= MonthLength(tx.startsYear, tx.startsMonth)
    ensures 1 <= tx.endsMonth <= 12 && 1 <= tx.endsDay <= MonthLength(tx.endsYear, tx.endsMonth)
  {
    var oneMonth := t + SecondsPerDay * DaysInMonth;
    var start := CivilFromDays(DayOfUnix(t));
    var end := CivilFromDays(DayOfUnix(oneMonth));
    var weekdays := GetWeekdaysMap();
    tx := TX(DefaultTransactionBalance, true, New, "", "", MONTHLY, 1, weekdays,
             start.day, start.month, start.year, end.day, end.month, end.year,
             id, t, t, false);
    DaysFromCivilOfCivilFromDays(DayOfUnix(t));
    DaysFromCivilOfCivilFromDays(DayOfUnix(oneMonth));
    DayOfUnixAfterDays(t, DaysInMonth);
  }

  /** GetStartDateString: the start date as YYYY-MM-DD. */
  function GetStartDateString(tx: TX): (r: string)
    ensures Utils.IsDateLayout(tx.startsYear, tx.startsMonth, tx.startsDay) ==> |r| == 10 && r[4] == '-' && r[7] == '-'
  {
    Utils.GetDateString(tx.startsYear, tx.startsMonth, tx.startsDay)
  }

  /** GetEndsDateString: the end date as YYYY-MM-DD. */
  function GetEndsDateString(tx: TX): (r: string)
    ensures Utils.IsDateLayout(tx.endsYear, tx.endsMonth, tx.endsDay) ==> |r| == 10 && r[4] == '-' && r[7] == '-'
  {
    Utils.GetDateString(tx.endsYear, tx.endsMonth, tx.endsDay)
  }

  /** The start and end date strings read back as the definition's fields. */
  lemma ParseDateStrings(tx: TX)
    requires 0 <= tx.startsYear <= MaxInt64 && 0 <= tx.startsMonth <= MaxInt64 && 0 <= tx.startsDay <= MaxInt64
    requires 0 <= tx.endsYear <= MaxInt64 && 0 <= tx.endsMonth <= MaxInt64 && 0 <= tx.endsDay <= MaxInt64
    ensures Utils.ParseYearMonthDateString(GetStartDateString(tx)) == (tx.startsYear, tx.startsMonth, tx.startsDay)
    ensures Utils.ParseYearMonthDateString(GetEndsDateString(tx)) == (tx.endsYear, tx.endsMonth, tx.endsDay)
  {
    Utils.ParseGetDateString(tx.startsYear, tx.startsMonth, tx.startsDay);
    Utils.ParseGetDateString(tx.endsYear, tx.endsMonth, tx.endsDay);
  }

  // ---------------------------------------------------- removal and search

  /** The list without its element at index i, the rest in order. */
  function RemoveAt<T>(s: seq<T>, i: int): (r: seq<T>)
    requires 0 <= i < |s|
    ensures |r| == |s| - 1
    ensures forall k :: 0 <= k < i ==> r[k] == s[k]
    ensures forall k :: i <= k < |r| ==> r[k] == s[k + 1]
  {
    s[..i] + s[i + 1..]
  }

  /** The index of the first definition with the given ID. */
  function IndexOfID(txs: seq<TX>, id: string): (r: Wrappers.Option<nat>)
    ensures r.None? <==> forall k :: 0 <= k < |txs| ==> txs[k].id != id
    ensures r.Some? ==> r.value < |txs| && txs[r.value].id == id &&
                        forall k :: 0 <= k < r.value ==> txs[k].id != id
  {
    if txs == [] then Wrappers.None
    else if txs[0].id == id then Wrappers.Some(0)
    else match IndexOfID(txs[1..], id)
      case None => Wrappers.None
      case Some(i) => Wrappers.Some(i + 1)
  }

  /** The list without the first definition with the given ID. */
  function RemoveFirstByID(txs: seq<TX>, id: string): seq<TX>
  {
    match IndexOfID(txs, id)
    case None => txs
    case Some(i) => RemoveAt(txs, i)
  }

  /** Removing by ID takes out exactly one definition, the first with that
      ID, keeping the others in order; with no such ID nothing changes. */
  lemma RemoveFirstByIDRemovesOne(txs: seq<TX>, id: string)
    ensures (forall k :: 0 <= k < |txs| ==> txs[k].id != id) ==> RemoveFirstByID(txs, id) == txs
    ensures (exists k :: 0 <= k < |txs| && txs[k].id == id) ==>
      exists i :: 0 <= i < |txs| && txs[i].id == id &&
        (forall k :: 0 <= k < i ==> txs[k].id != id) &&
        RemoveFirstByID(txs, id) == txs[..i] + txs[i + 1..] &&
        multiset(RemoveFirstByID(txs, id)) + multiset{txs[i]} == multiset(txs)
  {
    match IndexOfID(txs, id)
    case None =>
    case Some(i) =>
      var r := txs[..i] + txs[i + 1..];
      assert RemoveFirstByID(txs, id) == r;
      assert txs == txs[..i] + [txs[i]] + txs[i + 1..];
      assert multiset(txs) == multiset(txs[..i]) + multiset{txs[i]} + multiset(txs[i + 1..]);
      assert multiset(r) + multiset{txs[i]} == multiset(txs);
  }

  /** RemoveTXAtIndex: the definitions after index i move down one place in
      the same array (Go's append onto txs[:i]); the length shrinks by one
      and the old last slot keeps its value. */
  method RemoveTXAtIndex(txs: array<TX>, len: int, i: int) returns (newLen: int)
    requires 0 <= i < len <= txs.Length
    modifies txs
    ensures newLen == len - 1
    ensures txs[..newLen] == RemoveAt(old(txs[..len]), i)
    ensures txs[newLen..] == old(txs[newLen..])
  {
    var k := i;
    while k < len - 1
      invariant i <= k <= len - 1
      invariant txs[..i] == old(txs[..i])
      invariant forall j :: i <= j < k ==> txs[j] == old(txs[j + 1])
      invariant txs[k..] == old(txs[k..])
    {
      txs[k] := txs[k + 1];
      k := k + 1;
    }
    newLen := len - 1;
  }

  /** RemoveTXByID: removes the first definition with the given ID from the
      first `len` slots of the array, if there is one. */
  method RemoveTXByID(txs: array<TX>, len: int, id: string) returns (newLen: int)
    requires 0 <= len <= txs.Length
    modifies txs
    ensures 0 <= newLen <= len
    ensures txs[..newLen] == RemoveFirstByID(old(txs[..len]), id)
    ensures IndexOfID(old(txs[..len]), id).None? ==> newLen == len && txs[..] == old(txs[..])
    ensures IndexOfID(old(txs[..len]), id).Some? ==> newLen == len - 1 && txs[newLen..] == old(txs[newLen..])
  {
    newLen := len;
    var i := 0;
    while i < len
      invariant 0 <= i <= len
      invariant forall k :: 0 <= k < i ==> txs[k].id != id
      invariant txs[..] == old(txs[..])
    {
      if txs[i].id != id {
        i := i + 1;
        continue;
      }
      assert IndexOfID(old(txs[..len]), id) == Wrappers.Some(i) by {
        IndexOfIDIsFirst(txs[..len], id, i);
      }
      newLen := RemoveTXAtIndex(txs, len, i);
      return;
    }
    assert forall k :: 0 <= k < len ==> txs[..len][k].id != id;
  }

  /** The first index with the ID is what IndexOfID finds. */
  lemma IndexOfIDIsFirst(txs: seq<TX>, id: string, i: int)
    requires 0 <= i < |txs| && txs[i].id == id
    requires forall k :: 0 <= k < i ==> txs[k].id != id
    ensures IndexOfID(txs, id) == Wrappers.Some(i)
  {
  }

  /** GetTXByID: the index of the first definition with the ID, or -1 and
      the error "not present". */
  method GetTXByID(txs: seq<TX>, id: string) returns (i: int, err: Wrappers.Option<string>)
    ensures IndexOfID(txs, id).Some? ==> i == IndexOfID(txs, id).value && err == Wrappers.None
    ensures IndexOfID(txs, id).None? ==> i == -1 && err == Wrappers.Some("not present")
  {
    var k := 0;
    while k < |txs|
      invariant 0 <= k <= |txs|
      invariant forall j :: 0 <= j < k ==> txs[j].id != id
    {
      if txs[k].id != id {
        k := k + 1;
        continue;
      }
      IndexOfIDIsFirst(txs, id, k);
      return k, Wrappers.None;
    }
    return -1, Wrappers.Some("not present");
  }

  // ------------------------------------------------------------ sort order

  /** GetNextSort: the column sort after `current` when the user selects
      column `next`: none, then ascending, then descending, then none again;
      selecting another column starts it ascending. */
  function GetNextSort(current: string, next: string): (r: string)
    ensures next == None ==> r == None
    ensures current == None && next != None ==> r == next + Asc
    ensures r == None || r == next + Asc || r == next + Desc
  {
    if next == None then None
    else if current == None then next + Asc
    else
      var base := TrimSuffix(TrimSuffix(current, Desc), Asc);
      if HasSuffix(current, Desc) then (if base != next then next + Asc else None)
      else if HasSuffix(current, Asc) then (if base != next then next + Asc else base + Desc)
      else next + Asc
  }

  lemma AppendSuffix(c: string, x: string)
    ensures HasSuffix(c + x, x) && TrimSuffix(c + x, x) == c
  {
    assert (c + x)[|c + x| - |x|..] == x;
    assert (c + x)[..|c + x| - |x|] == c;
  }

  /** A name ending in Asc does not end in Desc. */
  lemma AscIsNotDesc(c: string)
    ensures !HasSuffix(c + Asc, Desc)
  {
    if |c| > 0 {
      assert (c + Asc)[|c + Asc| - |Desc|..][1] == 'A';
    }
  }

  /** Selecting the same column cycles none, ascending, descending, none. */
  lemma NextSortCycle(c: string)
    requires c != None && !HasSuffix(c, Asc) && !HasSuffix(c, Desc)
    ensures GetNextSort(None, c) == c + Asc
    ensures GetNextSort(c + Asc, c) == c + Desc
    ensures GetNextSort(c + Desc, c) == None
  {
    AppendSuffix(c, Asc);
    AppendSuffix(c, Desc);
    AscIsNotDesc(c);
    assert !HasSuffix(TrimSuffix(c + Desc, Desc), Asc);
  }

  /** Selecting another column, or a column after a current sort with no
      direction suffix, starts ascending. */
  lemma NextSortOtherColumn(c: string, next: string)
    requires next != None && c != None && !HasSuffix(c, Asc) && !HasSuffix(c, Desc)
    ensures GetNextSort(c, next) == next + Asc
    ensures c != next ==> GetNextSort(c + Asc, next) == next + Asc
    ensures c != next ==> GetNextSort(c + Desc, next) == next + Asc
  {
    AppendSuffix(c, Asc);
    AppendSuffix(c, Desc);
    AscIsNotDesc(c);
    assert !HasSuffix(TrimSuffix(c + Desc, Desc), Asc);
  }
}
