/**
 * The KPI block of the fuel page, computed from the prepared dipping log: the
 * available balance and the latest daily usage (both from the last row), the
 * average and peak daily usage, the days until the balance falls to the low mark,
 * and the tank level against the fixed capacity.
 */
module Kpi {
  import opened Wrappers
  import opened Strings
  import opened Numbers
  import opened Columns
  import opened Tables
  import opened Aggregate
  import opened Prepare

  const LowBalance := 5000.0
  const TankCapacity := 60000.0

  /** The figures shown on the KPI cards and the tank gauge; `None` is a NaN on screen. */
  datatype Snapshot = Snapshot(
    available: Option<real>,
    latest: Option<real>,
    average: Option<real>,
    peak: Option<real>,
    forecast: Option<real>,
    tankPercent: Option<real>)

  /** The fixed usage header passes the diesel test, so the resolver never misses it. */
  lemma UsageIsDiesel()
    ensures Matches(DieselUsed, UsageColumn)
  {
    var l := Lower(UsageColumn);
    assert l[0..6] == "diesel";
    assert OccursAt(l, "diesel", 0);
    assert l[14..18] == "used";
    assert OccursAt(l, "used", 14);
  }

  /** With no diesel column resolved, the table has no fixed usage column either. */
  lemma UnresolvedHasNoUsage(t: Table)
    requires Resolve(t.headers, DieselUsed).None?
    ensures UsageColumn !in t.headers
  {
    UsageIsDiesel();
  }

  /** `float(latest_row.get(name, nan))` for one of the coerced columns. */
  function LastValue(t: Table, name: string): (r: Option<real>)
    requires WellFormed(t) && NumericReady(t) && |t.rows| > 0 && name in NumericColumns
    ensures r.Some? <==> name in t.headers && Lookup(t, name).value[|t.rows| - 1].Num?
    ensures r.Some? ==> Lookup(t, name).value[|t.rows| - 1] == Num(r.value)
  {
    if name in t.headers then Value(Lookup(t, name).value[|t.rows| - 1]) else None
  }

  /**
   * `pd.to_numeric(str(cell).replace(',', ''), errors='coerce')`: a number reads back
   * as itself and a NaN as missing; text loses its commas, and the library parser
   * skips ASCII blanks around the number (but not other Unicode whitespace).
   */
  function Reread(c: Cell): (r: Option<real>)
    ensures c.Num? ==> r == Some(c.x)
    ensures c.NaN? ==> r.None?
    ensures c.Text? ==> r == ParseDecimal(StripAscii(RemoveCommas(c.s)))
  {
    match c
    case Num(x) => Some(x)
    case NaN => None
    case Text(s) => ParseDecimal(StripAscii(RemoveCommas(s)))
  }

  /**
   * The re-read of a text cell gives `v` exactly when the cell, without its commas and
   * surrounding ASCII blanks, is a numeral denoting `v`; any other text is missing.
   */
  lemma RereadText(s: string, v: real)
    ensures Reread(Text(s)) == Some(v) <==> Denotes(StripAscii(RemoveCommas(s)), v)
  {
    ParseDecimalExact(StripAscii(RemoveCommas(s)), v);
  }

  /** ASCII blanks around a text cell do not change what the re-read gives. */
  lemma RereadPadded(p: string, s: string, q: string)
    requires AllOf(p, IsAsciiSpace) && AllOf(q, IsAsciiSpace)
    ensures Reread(Text(p + s + q)) == Reread(Text(s))
  {
    RemoveCommasAppend(p + s, q);
    RemoveCommasAppend(p, s);
    assert !IsAsciiSpace(',');
    assert ',' !in p && ',' !in q;
    StripAsciiPadded(p, RemoveCommas(s), q);
  }

  /** The latest daily usage, falling back to the first diesel column when the fixed one is missing. */
  function LatestUsage(t: Table): (r: Option<real>)
    requires WellFormed(t) && NumericReady(t) && |t.rows| > 0
    ensures LastValue(t, UsageColumn).Some? ==> r == LastValue(t, UsageColumn)
    ensures LastValue(t, UsageColumn).None? && Resolve(t.headers, DieselUsed).None? ==> r.None?
    ensures LastValue(t, UsageColumn).None? && Resolve(t.headers, DieselUsed).Some? ==>
      r == Reread(t.rows[|t.rows| - 1].cells[Resolve(t.headers, DieselUsed).value])
  {
    var direct := LastValue(t, UsageColumn);
    if direct.Some? then direct
    else
      match Resolve(t.headers, DieselUsed)
      case None => None
      case Some(j) => Reread(t.rows[|t.rows| - 1].cells[j])
  }

  /**
   * The fallback re-read recovers nothing when the first diesel column is the fixed
   * usage column itself: it reads back the same missing cell.
   */
  lemma FallbackRereadsSameCell(t: Table)
    requires WellFormed(t) && NumericReady(t) && |t.rows| > 0
    requires Resolve(t.headers, DieselUsed).Some?
    requires t.headers[Resolve(t.headers, DieselUsed).value] == UsageColumn
    ensures LatestUsage(t) == LastValue(t, UsageColumn)
  {
    var j := Resolve(t.headers, DieselUsed).value;
    var k := IndexOf(t.headers, UsageColumn).value;
    UsageIsDiesel();
    assert k == j;
    assert Lookup(t, UsageColumn).value[|t.rows| - 1] == t.rows[|t.rows| - 1].cells[j];
  }

  /** `float(x)` on one cell after `.replace(',', '')`: text is stripped and parsed. */
  function Float(c: Cell): Option<real> {
    match c
    case Num(x) => Some(x)
    case NaN => None
    case Text(s) => NormaliseText(s)
  }

  /** A cell the cast accepts: anything but text that is not a number. */
  predicate Castable(c: Cell) {
    !c.Text? || NormaliseText(c.s).Some?
  }

  /** The position of the first cell the cast rejects, if any. */
  function FirstUncastable(col: seq<Cell>): (r: Option<nat>)
    ensures r.None? <==> forall i :: 0 <= i < |col| ==> Castable(col[i])
    ensures r.Some? ==> r.value < |col| && !Castable(col[r.value])
    ensures r.Some? ==> forall j :: 0 <= j < r.value ==> Castable(col[j])
  {
    FirstIndex(col, c => !Castable(c))
  }

  /** Every cell cast on its own. */
  function CastAll(col: seq<Cell>): (r: seq<Option<real>>)
    ensures |r| == |col| && forall i :: 0 <= i < |col| ==> r[i] == Float(col[i])
  {
    seq(|col|, i requires 0 <= i < |col| => Float(col[i]))
  }

  /**
   * `.replace(',', '', regex=True).astype(float)`: every cell cast on its own, or the
   * first text cell that is not a number raises.
   */
  function AsFloats(col: seq<Cell>): (r: Result<seq<Option<real>>, Error>)
    ensures r.Ok? <==> forall i :: 0 <= i < |col| ==> Castable(col[i])
    ensures r.Ok? ==> |r.value| == |col| && forall i :: 0 <= i < |col| ==> r.value[i] == Float(col[i])
    ensures r.Err? ==>
      exists i :: && 0 <= i < |col| && !Castable(col[i]) && r.error == UnparsableCell(col[i].s)
                  && forall j :: 0 <= j < i ==> Castable(col[j])
  {
    match FirstUncastable(col)
    case None => Ok(CastAll(col))
    case Some(i) => Err(UnparsableCell(col[i].s))
  }

  /** On a column that is already numeric the cast changes nothing. */
  lemma AsFloatsNumeric(col: seq<Cell>)
    requires NoText(col)
    ensures AsFloats(col) == Ok(Values(col))
  {
    assert forall i :: 0 <= i < |col| ==> Castable(col[i]);
    assert CastAll(col) == Values(col);
  }

  /** `dipping_df.get(UsageColumn, pd.Series(dtype=float))`: the fixed column's values, or none. */
  function FixedUsage(t: Table): (r: seq<Option<real>>)
    requires WellFormed(t) && NumericReady(t)
    ensures UsageColumn !in t.headers ==> r == []
    ensures UsageColumn in t.headers ==>
      |r| == |t.rows| && forall i :: 0 <= i < |r| ==> r[i] == Value(Lookup(t, UsageColumn).value[i])
  {
    if UsageColumn in t.headers then Values(Lookup(t, UsageColumn).value) else []
  }

  /** `dipping_df[UsageColumn].max()`: a missing column raises `KeyError`. */
  function FixedPeak(t: Table): (r: Result<Option<real>, Error>)
    requires WellFormed(t) && NumericReady(t)
    ensures UsageColumn !in t.headers ==> r == Err(MissingColumn(UsageColumn))
    ensures UsageColumn in t.headers ==> r == Ok(Max(FixedUsage(t)))
  {
    if UsageColumn in t.headers then Ok(Max(Values(Lookup(t, UsageColumn).value)))
    else Err(MissingColumn(UsageColumn))
  }

  /**
   * The average daily usage (512-517): the mean of the first diesel column's values;
   * when there is none, the mean of the fixed column if present, which it never is.
   */
  function AverageUsage(t: Table): (r: Result<Option<real>, Error>)
    requires WellFormed(t) && NumericReady(t)
    ensures Resolve(t.headers, DieselUsed).Some? ==>
      var col := Lookup(t, t.headers[Resolve(t.headers, DieselUsed).value]).value;
      && (r.Ok? <==> AsFloats(col).Ok?)
      && (r.Ok? ==> r.value == Mean(AsFloats(col).value))
      && (r.Err? ==> r.error == AsFloats(col).error)
    ensures Resolve(t.headers, DieselUsed).None? ==> r == Ok(None)
  {
    match Resolve(t.headers, DieselUsed)
    case Some(j) =>
      var xs :- AsFloats(Lookup(t, t.headers[j]).value);
      Ok(Mean(xs))
    case None =>
      UnresolvedHasNoUsage(t);
      Ok(Mean(FixedUsage(t)))
  }

  /**
   * The peak daily usage (520-521): the maximum of the first diesel column, which
   * must hold numbers; without one the fixed column is indexed and is missing.
   */
  function PeakUsage(t: Table): (r: Result<Option<real>, Error>)
    requires WellFormed(t) && NumericReady(t)
    ensures Resolve(t.headers, DieselUsed).Some? ==>
      var name := t.headers[Resolve(t.headers, DieselUsed).value];
      var col := Lookup(t, name).value;
      && (r.Ok? <==> NoText(col))
      && (r.Ok? ==> r.value == Max(Values(col)))
      && (r.Err? ==> r.error == TextInNumericColumn(name))
    ensures Resolve(t.headers, DieselUsed).None? ==> r == Err(MissingColumn(UsageColumn))
  {
    match Resolve(t.headers, DieselUsed)
    case Some(j) =>
      var col := Lookup(t, t.headers[j]).value;
      if NoText(col) then Ok(Max(Values(col))) else Err(TextInNumericColumn(t.headers[j]))
    case None =>
      UnresolvedHasNoUsage(t);
      FixedPeak(t)
  }

  /**
   * Days until the balance reaches the low mark at the latest rate, never negative;
   * missing unless the latest usage is a positive number and the balance is known.
   */
  function Forecast(available: Option<real>, latest: Option<real>): (r: Option<real>)
    ensures r.Some? <==> available.Some? && latest.Some? && latest.value > 0.0
    ensures r.Some? ==> r.value >= 0.0
    ensures r.Some? && available.value >= LowBalance ==>
      available.value - r.value * latest.value == LowBalance
    ensures r.Some? && available.value <= LowBalance ==> r.value == 0.0
  {
    if available.Some? && latest.Some? && latest.value > 0.0 then
      var days := (available.value - LowBalance) / latest.value;
      DivMul(available.value - LowBalance, latest.value);
      Some(if 0.0 > days then 0.0 else days)
    else None
  }

  /** The gauge value: the balance as a percentage of the capacity, 0 for a zero capacity. */
  function TankPercent(available: Option<real>, capacity: real): (r: Option<real>)
    ensures capacity == 0.0 ==> r == Some(0.0)
    ensures capacity != 0.0 ==> (r.Some? <==> available.Some?)
    ensures capacity != 0.0 && r.Some? ==> r.value * capacity == available.value * 100.0
  {
    if capacity == 0.0 then Some(0.0)
    else if available.None? then None
    else
      DivMul(available.value, capacity);
      Some(available.value / capacity * 100.0)
  }

  /** A balance between empty and full reads between 0% and 100% on the gauge. */
  lemma TankPercentInRange(available: real, capacity: real)
    requires capacity > 0.0 && 0.0 <= available <= capacity
    ensures 0.0 <= TankPercent(Some(available), capacity).value <= 100.0
  {
    var p := TankPercent(Some(available), capacity).value;
    assert p * capacity >= 0.0;
    assert (100.0 - p) * capacity >= 0.0;
  }

  /** The KPI block: an empty log stops the page; otherwise every figure from the last row and the usage column. */
  function Kpis(t: Table): (r: Result<Snapshot, Error>)
    requires WellFormed(t) && NumericReady(t)
    ensures |t.rows| == 0 <==> r == Err(EmptyDataset)
    ensures |t.rows| > 0 ==> (r.Ok? <==> AverageUsage(t).Ok? && PeakUsage(t).Ok?)
    ensures r.Ok? ==>
      var s := r.value;
      && s.available == LastValue(t, BalanceColumn)
      && s.latest == LatestUsage(t)
      && s.average == AverageUsage(t).value
      && s.peak == PeakUsage(t).value
      && s.forecast == Forecast(s.available, s.latest)
      && s.tankPercent == TankPercent(s.available, TankCapacity)
  {
    if |t.rows| == 0 then Err(EmptyDataset)
    else
      var available := LastValue(t, BalanceColumn);
      var latest := LatestUsage(t);
      var average :- AverageUsage(t);
      var peak :- PeakUsage(t);
      Ok(Snapshot(available, latest, average, peak, Forecast(available, latest),
                  TankPercent(available, TankCapacity)))
  }

  /**
   * A worked example: usages 1500, 2000 and 2000 give an average of
   * 5500/3 (about 1833.33) and a peak of 2000.
   */
  lemma ThreeDayUsage()
    ensures Mean([Some(1500.0), Some(2000.0), Some(2000.0)]) == Some(5500.0 / 3.0)
    ensures Max([Some(1500.0), Some(2000.0), Some(2000.0)]) == Some(2000.0)
  {
    var xs := [Some(1500.0), Some(2000.0), Some(2000.0)];
    var p := [1500.0, 2000.0, 2000.0];
    assert Present(xs) == p;
    ExampleSum();
    assert xs[1].Some?;
  }

  lemma ExampleSum()
    ensures Sum([1500.0, 2000.0, 2000.0]) == 5500.0
  {
    var p := [1500.0, 2000.0, 2000.0];
    assert p[..2] == [1500.0, 2000.0];
    assert p[..2][..1] == [1500.0];
    assert [1500.0][..0] == [];
  }

  /** The same example's last row: a balance of 6000 at 2000 a day is half a day above the low mark. */
  lemma HalfDayForecast()
    ensures Forecast(Some(6000.0), Some(2000.0)) == Some(0.5)
  {
  }

  /** The same balance fills 10% of the tank. */
  lemma TenPercentTank()
    ensures TankPercent(Some(6000.0), TankCapacity) == Some(10.0)
  {
  }

  /** Looking up the resolved diesel header reads that very column, whatever headers repeat it. */
  lemma ResolvedLookup(t: Table)
    requires WellFormed(t) && Resolve(t.headers, DieselUsed).Some?
    ensures var j := Resolve(t.headers, DieselUsed).value;
      IndexOf(t.headers, t.headers[j]) == Some(j)
  {
    var j := Resolve(t.headers, DieselUsed).value;
    IndexOfFirst(t.headers, j, h => Matches(DieselUsed, h));
  }

  /**
   * A log whose first diesel column holds plain numbers, which `read_csv` reads into a
   * float column, has an average and a peak, and so the whole KPI panel.
   */
  lemma PlainNumberKpis(t: Table)
    requires WellFormed(t) && NumericReady(t) && TypesInferred(t) && |t.rows| > 0
    requires Resolve(t.headers, DieselUsed).Some?
    requires ColumnReadsAsNumbers(t, Resolve(t.headers, DieselUsed).value)
    ensures AverageUsage(t).Ok? && PeakUsage(t).Ok? && Kpis(t).Ok?
  {
    var j := Resolve(t.headers, DieselUsed).value;
    ResolvedLookup(t);
    var col := Lookup(t, t.headers[j]).value;
    assert ColumnNoText(t, j);
    assert NoText(col);
    AsFloatsNumeric(col);
  }

  /** A log without any diesel column fails where the peak indexes the fixed column. */
  lemma KpisWithoutDieselColumn(t: Table)
    requires WellFormed(t) && NumericReady(t) && |t.rows| > 0
    requires Resolve(t.headers, DieselUsed).None?
    ensures Kpis(t) == Err(MissingColumn(UsageColumn))
  {
  }

  /**
   * Whenever the KPIs are computed and some usage value is present, the average lies
   * between the smallest usage and the peak, all read from the same column.
   */
  lemma AverageWithinPeak(t: Table)
    requires WellFormed(t) && NumericReady(t) && Kpis(t).Ok?
    requires Kpis(t).value.average.Some?
    ensures Kpis(t).value.peak.Some?
    ensures var j := Resolve(t.headers, DieselUsed).value;
      var usage := Values(Lookup(t, t.headers[j]).value);
      Min(usage).value <= Kpis(t).value.average.value <= Kpis(t).value.peak.value
  {
    var j := Resolve(t.headers, DieselUsed).value;
    var col := Lookup(t, t.headers[j]).value;
    AsFloatsNumeric(col);
    MeanWithinRange(Values(col));
  }

  /** Without any usage value present, neither the average, the peak nor the forecast exists. */
  lemma NoUsageNoFigures(t: Table)
    requires WellFormed(t) && NumericReady(t) && Kpis(t).Ok?
    requires UsageColumn in t.headers
    requires forall i :: 0 <= i < |t.rows| ==> Lookup(t, UsageColumn).value[i].NaN?
    requires t.headers[Resolve(t.headers, DieselUsed).value] == UsageColumn
    ensures Kpis(t).value.average.None? && Kpis(t).value.peak.None?
    ensures Kpis(t).value.latest.None? && Kpis(t).value.forecast.None?
  {
    var col := Lookup(t, UsageColumn).value;
    assert NoText(col);
    AsFloatsNumeric(col);
    var usage := Values(col);
    assert forall i :: 0 <= i < |usage| ==> usage[i].None?;
    assert Mean(usage).None? && Max(usage).None?;
    FallbackRereadsSameCell(t);
    assert LatestUsage(t).None?;
  }
}
