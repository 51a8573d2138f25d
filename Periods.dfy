/**
 * The monthly consumption chart: the dipping log's rows of one month, bucketed by
 * week of the month, with the first diesel column summed per week.
 */
module Periods {
  import opened Wrappers
  import opened Columns
  import opened Tables
  import opened Sorting
  import opened Aggregate
  import opened Groups

  /** `(d.day - 1) // 7 + 1`: days 1-7 are week 1, 8-14 week 2, and so on. */
  function WeekOfMonth(day: int): (w: int)
    ensures 1 <= day ==> 1 <= w && 7 * (w - 1) < day <= 7 * w
  {
    (day - 1) / 7 + 1
  }

  /** A calendar day falls in one of five weeks, the last holding days 29-31. */
  lemma WeekOfMonthRange(day: int)
    requires 1 <= day <= 31
    ensures 1 <= WeekOfMonth(day) <= 5
    ensures WeekOfMonth(day) == 1 <==> day <= 7
    ensures WeekOfMonth(day) == 2 <==> 8 <= day <= 14
    ensures WeekOfMonth(day) == 5 <==> 29 <= day
  {
  }

  /** The rows whose date is in month `month` (of any year), in their order. */
  function MonthRows(rows: seq<Row>, month: int): (r: seq<Row>)
    ensures forall x :: x in r <==> x in rows && x.date.month == month
    decreases |rows|
  {
    if rows == [] then []
    else
      var init := rows[..|rows| - 1];
      var last := rows[|rows| - 1];
      assert rows == init + [last];
      MonthRows(init, month) + (if last.date.month == month then [last] else [])
  }

  /**
   * No row of the month is lost or counted twice: each is kept as often as it occurs,
   * and every row of another month is dropped.
   */
  lemma {:induction false} MonthRowsCount(rows: seq<Row>, month: int)
    ensures forall x ::
      multiset(MonthRows(rows, month))[x] == if x.date.month == month then multiset(rows)[x] else 0
    decreases |rows|
  {
    if rows != [] {
      var init := rows[..|rows| - 1];
      var last := rows[|rows| - 1];
      assert rows == init + [last];
      MonthRowsCount(init, month);
    }
  }

  /** Week groups in ascending week order, as `groupby` sorts its keys. */
  predicate Ascending(gs: seq<Group<int>>) {
    forall i, j :: 0 <= i < j < |gs| ==> gs[i].key < gs[j].key
  }

  function WeekKey(g: Group<int>): real {
    g.key as real
  }

  /** Sorted by week with no week twice is strictly ascending. */
  lemma SortedWeeksAscending(gs: seq<Group<int>>)
    requires SortedBy(gs, WeekKey) && DistinctKeys(gs)
    ensures Ascending(gs)
  {
    forall i, j | 0 <= i < j < |gs|
      ensures gs[i].key < gs[j].key
    {
      assert WeekKey(gs[i]) <= WeekKey(gs[j]);
    }
  }

  /** The resolved usage cells of the month's rows. */
  function MonthUsage(t: Table, j: nat, month: int): (r: seq<Cell>)
    requires WellFormed(t) && j < |t.headers|
    ensures |r| == |MonthRows(t.rows, month)|
  {
    var rows := MonthRows(t.rows, month);
    seq(|rows|, i requires 0 <= i < |rows| => rows[i].cells[j])
  }

  /** The month's rows keep the valid dates of the rows they come from. */
  lemma MonthRowsDays(rows: seq<Row>, month: int)
    requires forall x :: x in rows ==> ValidDate(x.date)
    ensures var r := MonthRows(rows, month);
      forall i :: 0 <= i < |r| ==> 1 <= r[i].date.day <= 31
  {
    var r := MonthRows(rows, month);
    forall i | 0 <= i < |r|
      ensures 1 <= r[i].date.day <= 31
    {
      assert r[i] in r;
      assert ValidDate(r[i].date);
    }
  }

  /** The week of the month of each of the month's rows. */
  function MonthWeeks(t: Table, month: int): (r: seq<int>)
    requires forall x :: x in t.rows ==> ValidDate(x.date)
    ensures |r| == |MonthRows(t.rows, month)|
    ensures forall i :: 0 <= i < |r| ==> 1 <= r[i] <= 5
  {
    var rows := MonthRows(t.rows, month);
    MonthRowsDays(t.rows, month);
    seq(|rows|, i requires 0 <= i < |rows| => WeekOfMonth(rows[i].date.day))
  }

  /** `weekly_sum`: the month's usage summed per week, or no bars at all. */
  function WeeklyUsage(t: Table, month: int): (r: Result<seq<Group<int>>, Error>)
    requires WellFormed(t) && forall x :: x in t.rows ==> ValidDate(x.date)
    ensures Resolve(t.headers, DieselUsed).None? ==> r == Ok([])
    ensures Resolve(t.headers, DieselUsed).Some? ==>
      var j := Resolve(t.headers, DieselUsed).value;
      && (r.Err? <==> !NoText(MonthUsage(t, j, month)))
      && (r.Err? ==> r.error == TextInNumericColumn(t.headers[j]))
    ensures r.Ok? ==> (r.value == [] <==> Resolve(t.headers, DieselUsed).None? || MonthRows(t.rows, month) == [])
  {
    match Resolve(t.headers, DieselUsed)
    case None => Ok([])
    case Some(j) =>
      var usage := MonthUsage(t, j, month);
      if usage == [] then Ok([])
      else if !NoText(usage) then Err(TextInNumericColumn(t.headers[j]))
      else
        var weeks := MonthWeeks(t, month);
        WeekGroupsNonEmpty(weeks, Values(usage));
        Ok(SortedWeekGroups(weeks, Values(usage)))
  }

  /**
   * The weekly bars: one per week that has rows, in ascending week order, each week
   * among 1-5, each bar the sum of its own rows' usage, and the bars together
   * adding up to the month's total usage, so that every row is counted exactly once.
   */
  lemma WeeklyUsageSpec(t: Table, month: int)
    requires WellFormed(t) && forall x :: x in t.rows ==> ValidDate(x.date)
    requires Resolve(t.headers, DieselUsed).Some?
    requires NoText(MonthUsage(t, Resolve(t.headers, DieselUsed).value, month))
    ensures WeeklyUsage(t, month).Ok?
    ensures var gs := WeeklyUsage(t, month).value;
      var usage := MonthUsage(t, Resolve(t.headers, DieselUsed).value, month);
      && Ascending(gs)
      && (forall i :: 0 <= i < |gs| ==> 1 <= gs[i].key <= 5)
      && Total(gs) == SumPresent(Values(usage))
  {
    var j := Resolve(t.headers, DieselUsed).value;
    var usage := MonthUsage(t, j, month);
    WeeklyUsageBars(t, month);
    if usage != [] {
      var weeks, vals := MonthWeeks(t, month), Values(usage);
      WeekGroupsAscending(weeks, vals);
      WeekGroupsInRange(weeks, vals);
      WeekGroupsTotal(weeks, vals);
    }
  }

  /** With a text-free diesel column, the bars are the sorted week groups of the month's rows. */
  lemma WeeklyUsageBars(t: Table, month: int)
    requires WellFormed(t) && forall x :: x in t.rows ==> ValidDate(x.date)
    requires Resolve(t.headers, DieselUsed).Some?
    requires NoText(MonthUsage(t, Resolve(t.headers, DieselUsed).value, month))
    ensures var usage := MonthUsage(t, Resolve(t.headers, DieselUsed).value, month);
      WeeklyUsage(t, month) ==
        if usage == [] then Ok([]) else Ok(SortedWeekGroups(MonthWeeks(t, month), Values(usage)))
  {
  }

  /**
   * A log whose first diesel column holds plain numbers, which `read_csv` reads into a
   * float column, gets its weekly bars for every month.
   */
  lemma PlainNumberWeeks(t: Table, month: int)
    requires WellFormed(t) && TypesInferred(t) && forall x :: x in t.rows ==> ValidDate(x.date)
    requires Resolve(t.headers, DieselUsed).Some?
    requires ColumnReadsAsNumbers(t, Resolve(t.headers, DieselUsed).value)
    ensures WeeklyUsage(t, month).Ok?
  {
    var j := Resolve(t.headers, DieselUsed).value;
    assert ColumnNoText(t, j);
    var rows := MonthRows(t.rows, month);
    forall i | 0 <= i < |rows|
      ensures !rows[i].cells[j].Text?
    {
      assert rows[i] in t.rows;
      var k :| 0 <= k < |t.rows| && t.rows[k] == rows[i];
    }
    assert NoText(MonthUsage(t, j, month));
  }

  /** The week groups, sorted by week. */
  function SortedWeekGroups(weeks: seq<int>, vals: seq<Option<real>>): (gs: seq<Group<int>>)
    requires |weeks| == |vals|
    ensures SortedBy(gs, WeekKey) && multiset(gs) == multiset(GroupSum(weeks, vals))
  {
    SortBy(GroupSum(weeks, vals), WeekKey)
  }

  /** A month with rows has at least one weekly bar. */
  lemma WeekGroupsNonEmpty(weeks: seq<int>, vals: seq<Option<real>>)
    requires |weeks| == |vals| && weeks != []
    ensures SortedWeekGroups(weeks, vals) != []
  {
    var groups := GroupSum(weeks, vals);
    assert weeks[0] in Keys(groups);
    assert |multiset(SortedWeekGroups(weeks, vals))| == |groups|;
  }

  lemma WeekGroupsAscending(weeks: seq<int>, vals: seq<Option<real>>)
    requires |weeks| == |vals|
    ensures Ascending(SortedWeekGroups(weeks, vals))
  {
    var gs := SortedWeekGroups(weeks, vals);
    PermutedDistinct(gs, GroupSum(weeks, vals));
    SortedWeeksAscending(gs);
  }

  lemma WeekGroupsInRange(weeks: seq<int>, vals: seq<Option<real>>)
    requires |weeks| == |vals| && forall i :: 0 <= i < |weeks| ==> 1 <= weeks[i] <= 5
    ensures var gs := SortedWeekGroups(weeks, vals);
      forall i :: 0 <= i < |gs| ==> 1 <= gs[i].key <= 5
  {
    var gs := SortedWeekGroups(weeks, vals);
    PermutedKeysIn(gs, GroupSum(weeks, vals), weeks);
    forall i | 0 <= i < |gs|
      ensures 1 <= gs[i].key <= 5
    {
      var b :| 0 <= b < |weeks| && weeks[b] == gs[i].key;
    }
  }

  lemma WeekGroupsTotal(weeks: seq<int>, vals: seq<Option<real>>)
    requires |weeks| == |vals|
    ensures Total(SortedWeekGroups(weeks, vals)) == SumPresent(vals)
  {
    GroupSumTotal(weeks, vals);
    TotalPermutation(SortedWeekGroups(weeks, vals), GroupSum(weeks, vals));
  }

  /** Each weekly bar is the sum of the usage in the rows of its own week. */
  lemma WeeklyBarIsItsWeek(t: Table, month: int, i: nat)
    requires WellFormed(t) && (forall x :: x in t.rows ==> ValidDate(x.date))
    requires Resolve(t.headers, DieselUsed).Some?
    requires WeeklyUsage(t, month).Ok? && i < |WeeklyUsage(t, month).value|
    ensures var usage := MonthUsage(t, Resolve(t.headers, DieselUsed).value, month);
      var g := WeeklyUsage(t, month).value[i];
      NoText(usage) && g.total == SumOver(MonthWeeks(t, month), Values(usage), g.key)
  {
    var j := Resolve(t.headers, DieselUsed).value;
    var usage := MonthUsage(t, j, month);
    var groups := GroupSum(MonthWeeks(t, month), Values(usage));
    var gs := SortedWeekGroups(MonthWeeks(t, month), Values(usage));
    GroupSumTotals(MonthWeeks(t, month), Values(usage));
    assert gs[i] in multiset(groups);
    var a :| 0 <= a < |groups| && groups[a] == gs[i];
  }
}
