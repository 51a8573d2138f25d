/**
 * `load_and_prepare`: clean the headers of both logs, coerce the dipping log's
 * numeric columns, derive the equipment log's `__fuel_issued__`, `__comment__` and
 * `__fleet__` columns with their fallbacks, and sort both logs by date.
 */
module Prepare {
  import opened Wrappers
  import opened Strings
  import opened Columns
  import opened Tables
  import opened Sorting

  /** The dipping columns that are coerced to numbers when present. */
  const NumericColumns: seq<string> := [
    "Morning Dip Reading (Liters)", "Evening Dip Reading (Liters)", UsageColumn, BalanceColumn]
  const UsageColumn := "Diesel Issued/Used (Liters)"
  const BalanceColumn := "Balance (Liters)"
  const FuelIssuedColumn := "__fuel_issued__"
  const CommentColumn := "__comment__"
  const FleetColumn := "__fleet__"
  const EquipmentName := "Equipment Name"
  const UnknownComment := "Unknown"

  /** A table as `read_csv` hands it over: well formed, and no cell coerced to a number yet. */
  predicate Raw(t: Table) {
    WellFormed(t) && forall r, c :: r in t.rows && c in r.cells ==> !c.Num?
  }

  /** Every column other than those named in `names` still holds no number. */
  predicate RawExcept(t: Table, names: set<string>)
    requires WellFormed(t)
  {
    forall name :: name in t.headers && name !in names ==> NoNumbers(Lookup(t, name).value)
  }

  lemma RawColumns(t: Table)
    requires Raw(t)
    ensures RawExcept(t, {})
  {
    forall name | name in t.headers
      ensures NoNumbers(Lookup(t, name).value)
    {
      var j := IndexOf(t.headers, name).value;
      forall i | 0 <= i < |t.rows|
        ensures !Lookup(t, name).value[i].Num?
      {
        assert t.rows[i] in t.rows;
        assert t.rows[i].cells[j] in t.rows[i].cells;
      }
    }
  }

  /** A column outside `names` of a table that is raw except for `names` holds no number. */
  lemma RawColumn(t: Table, names: set<string>, name: string)
    requires WellFormed(t) && RawExcept(t, names) && name in t.headers && name !in names
    ensures NoNumbers(Lookup(t, name).value)
  {
  }

  /** `Equipment Name` is none of the derived columns. */
  lemma EquipmentNameNotDerived()
    ensures EquipmentName != FuelIssuedColumn && EquipmentName != CommentColumn
  {
    assert EquipmentName[0] != FuelIssuedColumn[0];
    assert EquipmentName[0] != CommentColumn[0];
  }

  /** Writing a column leaves every other column as raw as it was. */
  lemma SetColumnRaw(t: Table, names: set<string>, name: string, col: seq<Cell>)
    requires WellFormed(t) && |col| == |t.rows| && RawExcept(t, names)
    ensures RawExcept(SetColumn(t, name, col), names + {name})
  {
    var r := SetColumn(t, name, col);
    forall other | other in r.headers && other !in names + {name}
      ensures NoNumbers(Lookup(r, other).value)
    {
      LookupSetColumnOther(t, name, col, other);
    }
  }

  // ---- clean_cols ----

  /** Every header with its surrounding whitespace stripped; the cells are untouched. */
  function CleanColumns(t: Table): (r: Table)
    ensures |r.headers| == |t.headers| && r.rows == t.rows
    ensures forall j :: 0 <= j < |t.headers| ==> r.headers[j] == Strip(t.headers[j])
    ensures WellFormed(t) ==> WellFormed(r)
  {
    Table(seq(|t.headers|, j requires 0 <= j < |t.headers| => Strip(t.headers[j])), t.rows)
  }

  /** Cleaning twice is cleaning once, and a cleaned header has no surrounding space. */
  lemma CleanColumnsIdempotent(t: Table)
    ensures CleanColumns(CleanColumns(t)) == CleanColumns(t)
    ensures forall j :: 0 <= j < |t.headers| && CleanColumns(t).headers[j] != [] ==>
      !IsSpace(CleanColumns(t).headers[j][0])
  {
    var c := CleanColumns(t);
    forall j | 0 <= j < |t.headers|
      ensures CleanColumns(c).headers[j] == c.headers[j]
    {
      StripIdempotent(t.headers[j]);
    }
  }

  // ---- the numeric-column loop ----

  /** One turn of the loop: coerce the column `name` if the table has it. */
  function CoerceColumn(t: Table, name: string): (r: Table)
    requires WellFormed(t)
    ensures WellFormed(r) && r.headers == t.headers && |r.rows| == |t.rows|
    ensures forall i :: 0 <= i < |t.rows| ==> r.rows[i].date == t.rows[i].date
  {
    match Lookup(t, name)
    case Some(col) => SetColumn(t, name, Coerce(col))
    case None => t
  }

  /** The loop's effect after coercing each of `names` in turn. */
  function CoerceColumns(t: Table, names: seq<string>): (r: Table)
    requires WellFormed(t)
    ensures WellFormed(r) && r.headers == t.headers && |r.rows| == |t.rows|
    ensures forall i :: 0 <= i < |t.rows| ==> r.rows[i].date == t.rows[i].date
    decreases |names|
  {
    if names == [] then t
    else CoerceColumn(CoerceColumns(t, names[..|names| - 1]), names[|names| - 1])
  }

  /**
   * After the loop a named column that exists is the coercion of the original, and
   * every other column is unchanged; coercing a column again changes nothing.
   */
  lemma {:induction false} CoerceColumnsLookup(t: Table, names: seq<string>, name: string)
    requires WellFormed(t)
    ensures Lookup(CoerceColumns(t, names), name) ==
      if name in names && name in t.headers then Some(Coerce(Lookup(t, name).value))
      else Lookup(t, name)
    decreases |names|
  {
    if names != [] {
      var init := names[..|names| - 1];
      var last := names[|names| - 1];
      var p := CoerceColumns(t, init);
      assert names == init + [last];
      CoerceColumnsLookup(t, init, name);
      if last in p.headers {
        var col := Coerce(Lookup(p, last).value);
        if name == last {
          LookupSetColumnSame(p, last, col);
          CoerceIdempotent(Lookup(t, name).value);
        } else {
          LookupSetColumnOther(p, last, col, name);
        }
      }
    }
  }

  /** Cleaning the headers keeps the inferred column types. */
  lemma CleanTypesInferred(t: Table)
    requires WellFormed(t) && TypesInferred(t)
    ensures TypesInferred(CleanColumns(t))
  {
    var c := CleanColumns(t);
    forall j | 0 <= j < |c.headers|
      ensures ColumnReadsAsNumbers(c, j) == ColumnReadsAsNumbers(t, j)
      ensures ColumnNoText(c, j) == ColumnNoText(t, j)
    {
      SameColumn(c, t, j);
    }
  }

  /** Coercing one column keeps the inferred column types: that column ends up with no text. */
  lemma CoerceColumnTypes(t: Table, name: string)
    requires WellFormed(t) && TypesInferred(t)
    ensures TypesInferred(CoerceColumn(t, name))
  {
    if name in t.headers {
      var k := IndexOf(t.headers, name).value;
      var col := Coerce(Lookup(t, name).value);
      var r := CoerceColumn(t, name);
      assert r == SetColumn(t, name, col);
      forall j | 0 <= j < |t.headers| && ColumnReadsAsNumbers(r, j)
        ensures ColumnNoText(r, j)
      {
        if j == k {
          forall i | 0 <= i < |t.rows|
            ensures !r.rows[i].cells[k].Text?
          {
            assert t.rows[i] in t.rows;
            assert r.rows[i].cells[k] == col[i];
          }
        } else {
          forall i | 0 <= i < |t.rows|
            ensures r.rows[i].cells[j] == t.rows[i].cells[j]
          {
            SetColumnKeepsIndex(t, name, col, i, j);
          }
          SameColumn(r, t, j);
        }
      }
    }
  }

  /** The whole coercion loop keeps the inferred column types. */
  lemma {:induction false} CoerceColumnsTypes(t: Table, names: seq<string>)
    requires WellFormed(t) && TypesInferred(t)
    ensures TypesInferred(CoerceColumns(t, names))
    decreases |names|
  {
    if names != [] {
      CoerceColumnsTypes(t, names[..|names| - 1]);
      CoerceColumnTypes(CoerceColumns(t, names[..|names| - 1]), names[|names| - 1]);
    }
  }

  /** The numeric columns that exist hold no text, whatever they held before. */
  predicate NumericReady(t: Table)
    requires WellFormed(t)
  {
    forall name :: name in NumericColumns && name in t.headers ==> NoText(Lookup(t, name).value)
  }

  /** `for col in num_cols: if col in dipping.columns: dipping[col] = to_numeric(...)`. */
  method NormaliseNumericColumns(t: Table) returns (r: Table)
    requires WellFormed(t)
    ensures r == CoerceColumns(t, NumericColumns)
    ensures WellFormed(r) && r.headers == t.headers && |r.rows| == |t.rows|
    ensures forall name :: Lookup(r, name) ==
                           if name in NumericColumns && name in t.headers
                           then Some(Coerce(Lookup(t, name).value)) else Lookup(t, name)
    ensures NumericReady(r)
  {
    r := t;
    for k := 0 to |NumericColumns|
      invariant r == CoerceColumns(t, NumericColumns[..k])
    {
      var name := NumericColumns[k];
      if name in r.headers {
        var col := Lookup(r, name).value;
        r := SetColumn(r, name, Coerce(col));
      }
      assert NumericColumns[..k + 1][..k] == NumericColumns[..k];
    }
    assert NumericColumns[..|NumericColumns|] == NumericColumns;
    CoerceNumericColumns(t);
  }

  /** After the loop every numeric column present is coerced, so none holds text. */
  lemma CoerceNumericColumns(t: Table)
    requires WellFormed(t)
    ensures var r := CoerceColumns(t, NumericColumns);
      forall name :: Lookup(r, name) ==
                     if name in NumericColumns && name in t.headers
                     then Some(Coerce(Lookup(t, name).value)) else Lookup(t, name)
    ensures NumericReady(CoerceColumns(t, NumericColumns))
  {
    forall name
      ensures Lookup(CoerceColumns(t, NumericColumns), name) ==
        if name in NumericColumns && name in t.headers then Some(Coerce(Lookup(t, name).value))
        else Lookup(t, name)
    {
      CoerceColumnsLookup(t, NumericColumns, name);
    }
  }

  // ---- the derived equipment columns ----

  /** `__fuel_issued__`: the first fuel-issued column coerced to numbers, or NaN throughout. */
  function FuelIssuedCells(t: Table): (col: seq<Cell>)
    requires WellFormed(t)
    ensures |col| == |t.rows| && NoText(col)
    ensures Resolve(t.headers, FuelIssued).Some? ==>
      col == Coerce(Lookup(t, t.headers[Resolve(t.headers, FuelIssued).value]).value)
    ensures Resolve(t.headers, FuelIssued).None? ==> forall i :: 0 <= i < |col| ==> col[i] == NaN
  {
    match Resolve(t.headers, FuelIssued)
    case Some(j) => Coerce(Lookup(t, t.headers[j]).value)
    case None => seq(|t.rows|, i => NaN)
  }

  /** `__comment__`: the first comment or remark column as text, or "Unknown" throughout. */
  function CommentCells(t: Table): (col: seq<Cell>)
    requires WellFormed(t) && RawExcept(t, {FuelIssuedColumn})
    ensures |col| == |t.rows| && forall i :: 0 <= i < |col| ==> col[i].Text?
    ensures Resolve(t.headers, Remark).Some? ==>
      var name := t.headers[Resolve(t.headers, Remark).value];
      NoNumbers(Lookup(t, name).value) && col == Texts(Lookup(t, name).value)
    ensures Resolve(t.headers, Remark).None? ==>
      forall i :: 0 <= i < |col| ==> col[i] == Text(UnknownComment)
  {
    match Resolve(t.headers, Remark)
    case Some(j) =>
      RemarkNotDerived(t.headers[j]);
      RawColumn(t, {FuelIssuedColumn}, t.headers[j]);
      Texts(Lookup(t, t.headers[j]).value)
    case None => seq(|t.rows|, i => Text(UnknownComment))
  }

  /**
   * `__fleet__`: the first fleet column as text, else the `Equipment Name` column as
   * text; a table with neither fails the way indexing a missing column does.
   */
  function FleetCells(t: Table): (r: Result<seq<Cell>, Error>)
    requires WellFormed(t) && RawExcept(t, {FuelIssuedColumn, CommentColumn})
    ensures r.Ok? ==> |r.value| == |t.rows| && forall i :: 0 <= i < |r.value| ==> r.value[i].Text?
    ensures r.Err? <==> Resolve(t.headers, Fleet).None? && EquipmentName !in t.headers
    ensures r.Err? ==> r.error == MissingColumn(EquipmentName)
    ensures Resolve(t.headers, Fleet).Some? ==>
      var name := t.headers[Resolve(t.headers, Fleet).value];
      NoNumbers(Lookup(t, name).value) && r == Ok(Texts(Lookup(t, name).value))
    ensures Resolve(t.headers, Fleet).None? && EquipmentName in t.headers ==>
      r == Ok(Texts(Lookup(t, EquipmentName).value))
  {
    match Resolve(t.headers, Fleet)
    case Some(j) =>
      FleetNotDerived(t.headers[j]);
      RawColumn(t, {FuelIssuedColumn, CommentColumn}, t.headers[j]);
      Ok(Texts(Lookup(t, t.headers[j]).value))
    case None =>
      if EquipmentName in t.headers then
        EquipmentNameNotDerived();
        RawColumn(t, {FuelIssuedColumn, CommentColumn}, EquipmentName);
        Ok(Texts(Lookup(t, EquipmentName).value))
      else Err(MissingColumn(EquipmentName))
  }

  lemma NotRemark()
    ensures !Matches(Remark, FuelIssuedColumn)
  {
    var n := Lower(FuelIssuedColumn);
    LowerAbsent(FuelIssuedColumn, 'c');
    LowerAbsent(FuelIssuedColumn, 'r');
    if Contains(n, "comment") { ContainsChar(n, "comment", 0); }
    if Contains(n, "remark") { ContainsChar(n, "remark", 0); }
  }

  lemma NotFleet()
    ensures !Matches(Fleet, FuelIssuedColumn) && !Matches(Fleet, CommentColumn)
  {
    var n := Lower(FuelIssuedColumn);
    var m := Lower(CommentColumn);
    LowerAbsent(FuelIssuedColumn, 't');
    LowerAbsent(CommentColumn, 'f');
    if Contains(n, "fleet") { ContainsChar(n, "fleet", 4); }
    if Contains(m, "fleet") { ContainsChar(m, "fleet", 0); }
  }

  lemma RemarkNotDerived(h: string)
    requires Matches(Remark, h)
    ensures h != FuelIssuedColumn
  {
    NotRemark();
  }

  lemma FleetNotDerived(h: string)
    requires Matches(Fleet, h)
    ensures h != FuelIssuedColumn && h != CommentColumn
  {
    NotFleet();
  }

  /** A column write keeps the existing headers in their order at the front. */
  lemma SetColumnPrefix(t: Table, name: string, col: seq<Cell>)
    requires WellFormed(t) && |col| == |t.rows|
    ensures SetColumn(t, name, col).headers[..|t.headers|] == t.headers
  {
    if name !in t.headers {
      assert (t.headers + [name])[..|t.headers|] == t.headers;
    }
  }

  /** Headers that begin with `a` keep beginning with `a` after a later write. */
  lemma PrefixPreserved(a: seq<string>, b: seq<string>, c: seq<string>)
    requires |a| <= |b| <= |c| && b[..|a|] == a && c[..|b|] == b
    ensures c[..|a|] == a
  {
    assert c[..|a|] == c[..|b|][..|a|];
  }

  lemma PrefixMembers(a: seq<string>, c: seq<string>)
    requires |a| <= |c| && c[..|a|] == a
    ensures forall h :: h in a ==> h in c
  {
    forall h | h in a ensures h in c {
      var k :| 0 <= k < |a| && a[k] == h;
      assert c[..|a|][k] == h;
    }
  }

  /** The first two derived columns, which never fail; the rest of the table is kept. */
  function WithFuelAndComment(t: Table): (r: Table)
    requires WellFormed(t) && RawExcept(t, {})
    ensures WellFormed(r) && |r.rows| == |t.rows| && RawExcept(r, {FuelIssuedColumn, CommentColumn})
    ensures |t.headers| <= |r.headers| && r.headers[..|t.headers|] == t.headers
    ensures forall i :: 0 <= i < |t.rows| ==> r.rows[i].date == t.rows[i].date
    ensures FuelIssuedColumn in r.headers && CommentColumn in r.headers
  {
    var t1 := SetColumn(t, FuelIssuedColumn, FuelIssuedCells(t));
    SetColumnPrefix(t, FuelIssuedColumn, FuelIssuedCells(t));
    SetColumnRaw(t, {}, FuelIssuedColumn, FuelIssuedCells(t));
    assert {} + {FuelIssuedColumn} == {FuelIssuedColumn};
    var t2 := SetColumn(t1, CommentColumn, CommentCells(t1));
    SetColumnPrefix(t1, CommentColumn, CommentCells(t1));
    SetColumnRaw(t1, {FuelIssuedColumn}, CommentColumn, CommentCells(t1));
    PrefixPreserved(t.headers, t1.headers, t2.headers);
    t2
  }

  /** The three derived columns, added in the order the code adds them. */
  function DeriveEquipment(t: Table): (r: Result<Table, Error>)
    requires WellFormed(t) && RawExcept(t, {})
    ensures r.Ok? ==> WellFormed(r.value) && |r.value.rows| == |t.rows|
    ensures r.Ok? ==> |t.headers| <= |r.value.headers| && r.value.headers[..|t.headers|] == t.headers
    ensures r.Ok? ==> forall i :: 0 <= i < |t.rows| ==> r.value.rows[i].date == t.rows[i].date
    ensures r.Ok? ==> forall h :: h in t.headers ==> h in r.value.headers
    ensures r.Ok? ==>
      FuelIssuedColumn in r.value.headers && CommentColumn in r.value.headers && FleetColumn in r.value.headers
  {
    var t2 := WithFuelAndComment(t);
    match FleetCells(t2)
    case Ok(fleet) =>
      var t3 := SetColumn(t2, FleetColumn, fleet);
      SetColumnPrefix(t2, FleetColumn, fleet);
      PrefixPreserved(t.headers, t2.headers, t3.headers);
      PrefixMembers(t.headers, t3.headers);
      Ok(t3)
    case Err(e) => Err(e)
  }

  /**
   * Lines 457-480 as they run: `__fuel_issued__`, then `__comment__`, then `__fleet__`
   * written into the table one after the other, stopping where the fleet fallback fails.
   */
  method AddDerivedColumns(t: Table) returns (r: Result<Table, Error>)
    requires WellFormed(t) && RawExcept(t, {})
    ensures r == DeriveEquipment(t)
  {
    var e := t;
    e := SetColumn(e, FuelIssuedColumn, FuelIssuedCells(e));
    SetColumnRaw(t, {}, FuelIssuedColumn, FuelIssuedCells(t));
    assert {} + {FuelIssuedColumn} == {FuelIssuedColumn};
    var e1 := e;
    e := SetColumn(e, CommentColumn, CommentCells(e));
    SetColumnRaw(e1, {FuelIssuedColumn}, CommentColumn, CommentCells(e1));
    var fleet := FleetCells(e);
    if fleet.Err? {
      return Err(fleet.error);
    }
    e := SetColumn(e, FleetColumn, fleet.value);
    return Ok(e);
  }

  /** The comment rule gives the same column after `__fuel_issued__` is written. */
  lemma CommentStable(t: Table, fuel: seq<Cell>)
    requires WellFormed(t) && RawExcept(t, {}) && |fuel| == |t.rows|
    ensures RawExcept(SetColumn(t, FuelIssuedColumn, fuel), {FuelIssuedColumn})
    ensures Resolve(SetColumn(t, FuelIssuedColumn, fuel).headers, Fleet) == Resolve(t.headers, Fleet)
    ensures CommentCells(SetColumn(t, FuelIssuedColumn, fuel)) == CommentCells(t)
  {
    var t1 := SetColumn(t, FuelIssuedColumn, fuel);
    SetColumnRaw(t, {}, FuelIssuedColumn, fuel);
    assert {} + {FuelIssuedColumn} == {FuelIssuedColumn};
    NotRemark();
    NotFleet();
    if FuelIssuedColumn !in t.headers {
      ResolveAppend(t.headers, FuelIssuedColumn, Remark);
      ResolveAppend(t.headers, FuelIssuedColumn, Fleet);
    }
    if Resolve(t.headers, Remark).Some? {
      LookupSetColumnOther(t, FuelIssuedColumn, fuel, t.headers[Resolve(t.headers, Remark).value]);
    }
  }

  /** The fleet rule gives the same result after `__fuel_issued__` and `__comment__` are written. */
  lemma FleetStable(t: Table, fuel: seq<Cell>, comment: seq<Cell>)
    requires WellFormed(t) && RawExcept(t, {}) && |fuel| == |t.rows| && |comment| == |t.rows|
    ensures var t1 := SetColumn(t, FuelIssuedColumn, fuel);
      RawExcept(SetColumn(t1, CommentColumn, comment), {FuelIssuedColumn, CommentColumn})
    ensures var t1 := SetColumn(t, FuelIssuedColumn, fuel);
      FleetCells(SetColumn(t1, CommentColumn, comment)) == FleetCells(t)
  {
    var t1 := SetColumn(t, FuelIssuedColumn, fuel);
    var t2 := SetColumn(t1, CommentColumn, comment);
    CommentStable(t, fuel);
    SetColumnRaw(t1, {FuelIssuedColumn}, CommentColumn, comment);
    NotFleet();
    if CommentColumn !in t1.headers {
      ResolveAppend(t1.headers, CommentColumn, Fleet);
    }
    if Resolve(t.headers, Fleet).Some? {
      var h := t.headers[Resolve(t.headers, Fleet).value];
      LookupSetColumnOther(t, FuelIssuedColumn, fuel, h);
      LookupSetColumnOther(t1, CommentColumn, comment, h);
    } else {
      LookupSetColumnOther(t, FuelIssuedColumn, fuel, EquipmentName);
      LookupSetColumnOther(t1, CommentColumn, comment, EquipmentName);
    }
  }

  /**
   * What the derivation adds, stated against the table it started from: each derived
   * column is the value its fallback rule gives for the original headers, every
   * original column other than the three is left alone, and the only failure is a
   * table with neither a fleet column nor `Equipment Name`.
   */
  lemma DeriveEquipmentColumns(t: Table)
    requires WellFormed(t) && RawExcept(t, {})
    ensures DeriveEquipment(t).Err? <==>
      Resolve(t.headers, Fleet).None? && EquipmentName !in t.headers
    ensures DeriveEquipment(t).Err? ==> DeriveEquipment(t).error == MissingColumn(EquipmentName)
    ensures DeriveEquipment(t).Ok? ==>
      var r := DeriveEquipment(t).value;
      && Lookup(r, FuelIssuedColumn) == Some(FuelIssuedCells(t))
      && Lookup(r, CommentColumn) == Some(CommentCells(t))
      && Lookup(r, FleetColumn) == Some(FleetCells(t).value)
      && (forall name :: name != FuelIssuedColumn && name != CommentColumn && name != FleetColumn ==>
            Lookup(r, name) == Lookup(t, name))
  {
    var fuel := FuelIssuedCells(t);
    var t1 := SetColumn(t, FuelIssuedColumn, fuel);
    var comment := CommentCells(t);
    CommentStable(t, fuel);
    var t2 := SetColumn(t1, CommentColumn, comment);
    FleetStable(t, fuel, comment);
    if FleetCells(t).Ok? {
      var fleet := FleetCells(t).value;
      var r := SetColumn(t2, FleetColumn, fleet);
      assert DeriveEquipment(t) == Ok(r);
      LookupSetColumnSame(t, FuelIssuedColumn, fuel);
      LookupSetColumnOther(t1, CommentColumn, comment, FuelIssuedColumn);
      LookupSetColumnOther(t2, FleetColumn, fleet, FuelIssuedColumn);
      LookupSetColumnSame(t1, CommentColumn, comment);
      LookupSetColumnOther(t2, FleetColumn, fleet, CommentColumn);
      LookupSetColumnSame(t2, FleetColumn, fleet);
      forall name | name != FuelIssuedColumn && name != CommentColumn && name != FleetColumn
        ensures Lookup(r, name) == Lookup(t, name)
      {
        LookupSetColumnOther(t, FuelIssuedColumn, fuel, name);
        LookupSetColumnOther(t1, CommentColumn, comment, name);
        LookupSetColumnOther(t2, FleetColumn, fleet, name);
      }
    }
  }

  /** The equipment log carries its derived columns: fuel as numbers, comment and fleet as text. */
  predicate EquipmentReady(t: Table)
    requires WellFormed(t)
  {
    && FuelIssuedColumn in t.headers && CommentColumn in t.headers && FleetColumn in t.headers
    && NoText(Lookup(t, FuelIssuedColumn).value)
    && (forall i :: 0 <= i < |t.rows| ==> Lookup(t, CommentColumn).value[i].Text?)
    && (forall i :: 0 <= i < |t.rows| ==> Lookup(t, FleetColumn).value[i].Text?)
  }

  lemma DerivedReady(t: Table)
    requires WellFormed(t) && RawExcept(t, {}) && DeriveEquipment(t).Ok?
    ensures EquipmentReady(DeriveEquipment(t).value)
  {
    DeriveEquipmentColumns(t);
  }

  // ---- sort_values('Date') ----

  /** `r` holds the rows of `t` in date order, under the same headers. */
  predicate SortedFrom(r: Table, t: Table) {
    WellFormed(r) && r.headers == t.headers && SortedBy(r.rows, RowKey)
      && multiset(r.rows) == multiset(t.rows)
  }

  /** Reordering the rows reorders every column: each cell of the new column is a cell of the old. */
  lemma PermutedLookup(r: Table, t: Table, name: string, i: nat)
    requires WellFormed(t) && WellFormed(r) && r.headers == t.headers
    requires multiset(r.rows) == multiset(t.rows) && name in t.headers && i < |r.rows|
    ensures exists k :: 0 <= k < |t.rows| && Lookup(r, name).value[i] == Lookup(t, name).value[k]
  {
    var j := IndexOf(t.headers, name).value;
    assert Lookup(r, name).value == Column(r, j);
    assert Lookup(t, name).value == Column(t, j);
    assert r.rows[i] in multiset(t.rows);
    var k :| 0 <= k < |t.rows| && t.rows[k] == r.rows[i];
    assert Lookup(r, name).value[i] == Lookup(t, name).value[k];
  }

  /** Reordering the rows keeps the inferred column types. */
  lemma SortedTypesInferred(r: Table, t: Table)
    requires WellFormed(t) && SortedFrom(r, t) && TypesInferred(t)
    ensures TypesInferred(r)
  {
    forall j | 0 <= j < |r.headers| && ColumnReadsAsNumbers(r, j)
      ensures ColumnNoText(r, j)
    {
      PermutedColumn(r, t, j);
    }
  }

  /** Sorting keeps the dipping log's numeric columns free of text. */
  lemma SortedNumericReady(r: Table, t: Table)
    requires WellFormed(t) && SortedFrom(r, t) && NumericReady(t)
    ensures NumericReady(r)
  {
    forall name, i | name in NumericColumns && name in r.headers && 0 <= i < |r.rows|
      ensures !Lookup(r, name).value[i].Text?
    {
      PermutedLookup(r, t, name, i);
    }
  }

  /** Sorting keeps the equipment log's derived columns as they were typed. */
  lemma SortedEquipmentReady(r: Table, t: Table)
    requires WellFormed(t) && SortedFrom(r, t) && EquipmentReady(t)
    ensures EquipmentReady(r)
  {
    forall i | 0 <= i < |r.rows|
      ensures !Lookup(r, FuelIssuedColumn).value[i].Text?
      ensures Lookup(r, CommentColumn).value[i].Text?
      ensures Lookup(r, FleetColumn).value[i].Text?
    {
      PermutedLookup(r, t, FuelIssuedColumn, i);
      PermutedLookup(r, t, CommentColumn, i);
      PermutedLookup(r, t, FleetColumn, i);
    }
  }

  /** The full preparation: `FileNotFoundError` when a dataset is missing, else both logs ready. */
  method LoadAndPrepare(files: Option<(Table, Table)>) returns (r: Result<(Table, Table), Error>)
    requires files.Some? ==> Raw(files.value.0) && Raw(files.value.1)
    ensures files.None? ==> r == Err(MissingInputFile)
    ensures files.Some? ==>
      var e := CleanColumns(files.value.1);
      RawExcept(e, {}) && (r.Err? <==> DeriveEquipment(e).Err?)
        && (r.Err? ==> r.error == MissingColumn(EquipmentName))
        && (r.Ok? ==> SortedFrom(r.value.1, DeriveEquipment(e).value))
    ensures files.Some? && r.Ok? ==>
      SortedFrom(r.value.0, CoerceColumns(CleanColumns(InferTypes(files.value.0)), NumericColumns))
    ensures r.Ok? ==> WellFormed(r.value.0) && NumericReady(r.value.0) && TypesInferred(r.value.0)
    ensures r.Ok? ==> WellFormed(r.value.1) && EquipmentReady(r.value.1)
  {
    if files.None? {
      return Err(MissingInputFile);
    }
    var read := InferTypes(files.value.0);
    InferTypesInferred(files.value.0);
    var dipping := CleanColumns(read);
    CleanTypesInferred(read);
    var equipment := CleanColumns(files.value.1);
    CoerceColumnsTypes(dipping, NumericColumns);
    dipping := NormaliseNumericColumns(dipping);
    RawColumns(equipment);
    var derived := AddDerivedColumns(equipment);
    DeriveEquipmentColumns(equipment);
    if derived.Err? {
      return Err(derived.error);
    }
    DerivedReady(equipment);
    var sortedDipping := SortByDate(dipping);
    var sortedEquipment := SortByDate(derived.value);
    SortedNumericReady(sortedDipping, dipping);
    SortedTypesInferred(sortedDipping, dipping);
    SortedEquipmentReady(sortedEquipment, derived.value);
    return Ok((sortedDipping, sortedEquipment));
  }
}
