/**
 * `sort_values('Date')`: rows are reordered so that dates never decrease. The library
 * sort is not stable; the model sorts by insertion and the contracts promise only order
 * and permutation, not the relative order of rows that share a date.
 */
module Sorting {
  import opened Tables

  predicate SortedBy<T>(xs: seq<T>, key: T -> real) {
    forall i, j :: 0 <= i < j < |xs| ==> key(xs[i]) <= key(xs[j])
  }

  function Insert<T>(x: T, xs: seq<T>, key: T -> real): (r: seq<T>)
    requires SortedBy(xs, key)
    ensures SortedBy(r, key)
    ensures multiset(r) == multiset(xs) + multiset{x}
    ensures |r| == |xs| + 1
    ensures r[0] == x || (xs != [] && r[0] == xs[0])
  {
    if xs == [] then [x]
    else if key(x) <= key(xs[0]) then [x] + xs
    else
      assert xs == [xs[0]] + xs[1..];
      [xs[0]] + Insert(x, xs[1..], key)
  }

  /** The elements of `xs`, reordered so that `key` never decreases. */
  function SortBy<T>(xs: seq<T>, key: T -> real): (r: seq<T>)
    ensures SortedBy(r, key)
    ensures multiset(r) == multiset(xs)
    ensures |r| == |xs|
  {
    if xs == [] then []
    else
      assert xs == [xs[0]] + xs[1..];
      Insert(xs[0], SortBy(xs[1..], key), key)
  }

  predicate ValidDate(d: Date) {
    1 <= d.month <= 12 && 1 <= d.day <= 31
  }

  /** Calendar order: earlier year, else earlier month, else earlier or same day. */
  predicate OnOrBefore(a: Date, b: Date) {
    a.year < b.year || (a.year == b.year && (a.month < b.month || (a.month == b.month && a.day <= b.day)))
  }

  /** A number that orders valid dates as the calendar does. */
  function DateKey(d: Date): int {
    (d.year * 12 + d.month) * 32 + d.day
  }

  lemma DateKeyOrder(a: Date, b: Date)
    requires ValidDate(a) && ValidDate(b)
    ensures DateKey(a) <= DateKey(b) <==> OnOrBefore(a, b)
  {
  }

  function RowKey(r: Row): real {
    DateKey(r.date) as real
  }

  /** `df.sort_values('Date').reset_index(drop=True)`. */
  function SortByDate(t: Table): (r: Table)
    requires WellFormed(t)
    ensures WellFormed(r) && r.headers == t.headers
    ensures SortedBy(r.rows, RowKey)
    ensures multiset(r.rows) == multiset(t.rows)
  {
    var rows := SortBy(t.rows, RowKey);
    assert forall x :: x in rows ==> x in multiset(t.rows);
    Table(t.headers, rows)
  }

  /** Rows sorted by key, all with valid dates, are in calendar order. */
  lemma SortedIsChronological(rows: seq<Row>)
    requires SortedBy(rows, RowKey)
    requires forall r :: r in rows ==> ValidDate(r.date)
    ensures forall i, j :: 0 <= i < j < |rows| ==> OnOrBefore(rows[i].date, rows[j].date)
  {
    forall i, j | 0 <= i < j < |rows|
      ensures OnOrBefore(rows[i].date, rows[j].date)
    {
      assert RowKey(rows[i]) <= RowKey(rows[j]);
      DateKeyOrder(rows[i].date, rows[j].date);
    }
  }
}
