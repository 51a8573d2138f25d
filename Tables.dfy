/**
 * A loaded CSV as the pipeline sees it: a header list and rows of cells. The `Date`
 * column, parsed while loading, is kept apart in each row; every other column is a
 * position in `headers` and in each row's `cells`.
 */
module Tables {
  import opened Wrappers
  import opened Strings
  import opened Numbers

  datatype Date = Date(year: int, month: int, day: int)

  /** A cell: text as read, a number after coercion, or NaN (a blank or unparsable value). */
  datatype Cell = Text(s: string) | Num(x: real) | NaN

  datatype Row = Row(date: Date, cells: seq<Cell>)

  datatype Table = Table(headers: seq<string>, rows: seq<Row>)

  /** The failures that stop the fuel page. */
  datatype Error =
    | MissingInputFile              // a dataset file is absent
    | EmptyDataset                  // the dipping log has no rows
    | MissingColumn(name: string)   // a fixed column name is indexed but absent
    | UnparsableCell(text: string)  // `astype(float)` met text that is not a number
    | TextInNumericColumn(name: string)  // a numeric reduction met text in this column

  /** Every row has one cell per header. */
  predicate WellFormed(t: Table) {
    forall r :: r in t.rows ==> |r.cells| == |t.headers|
  }

  /** The first header equal to `name`. */
  function IndexOf(headers: seq<string>, name: string): (r: Option<nat>)
    ensures r.Some? ==> r.value < |headers| && headers[r.value] == name
    ensures r.Some? ==> forall j :: 0 <= j < r.value ==> headers[j] != name
    ensures r.None? <==> name !in headers
  {
    FirstIndex(headers, h => h == name)
  }

  /** The first header passing a test is found again by its own name. */
  lemma IndexOfFirst(headers: seq<string>, j: nat, p: string -> bool)
    requires j < |headers| && p(headers[j])
    requires forall i :: 0 <= i < j ==> !p(headers[i])
    ensures IndexOf(headers, headers[j]) == Some(j)
  {
    var k := IndexOf(headers, headers[j]).value;
    assert p(headers[k]);
  }

  /** Column `j`, top to bottom. */
  function Column(t: Table, j: nat): (col: seq<Cell>)
    requires WellFormed(t) && j < |t.headers|
    ensures |col| == |t.rows|
    ensures forall i :: 0 <= i < |t.rows| ==> col[i] == t.rows[i].cells[j]
  {
    seq(|t.rows|, i requires 0 <= i < |t.rows| => t.rows[i].cells[j])
  }

  /** `df[name]`: the column with that header, or None when there is none. */
  function Lookup(t: Table, name: string): (r: Option<seq<Cell>>)
    requires WellFormed(t)
    ensures r.Some? <==> name in t.headers
    ensures r.Some? ==> |r.value| == |t.rows|
    ensures r.Some? ==> IndexOf(t.headers, name).Some?
    ensures r.Some? ==>
      forall i {:trigger r.value[i]} :: 0 <= i < |t.rows| ==> r.value[i] == t.rows[i].cells[IndexOf(t.headers, name).value]
  {
    match IndexOf(t.headers, name)
    case Some(j) => Some(Column(t, j))
    case None => None
  }

  /** `df[name] = col`: overwrite the column with that header, or append a new one. */
  function SetColumn(t: Table, name: string, col: seq<Cell>): (r: Table)
    requires WellFormed(t) && |col| == |t.rows|
    ensures WellFormed(r) && |r.rows| == |t.rows|
    ensures r.headers == if name in t.headers then t.headers else t.headers + [name]
    ensures forall i :: 0 <= i < |t.rows| ==> r.rows[i].date == t.rows[i].date
  {
    match IndexOf(t.headers, name)
    case Some(j) =>
      Table(t.headers, seq(|t.rows|, i requires 0 <= i < |t.rows| =>
        Row(t.rows[i].date, t.rows[i].cells[j := col[i]])))
    case None =>
      Table(t.headers + [name], seq(|t.rows|, i requires 0 <= i < |t.rows| =>
        Row(t.rows[i].date, t.rows[i].cells + [col[i]])))
  }

  /** Cell `j` of every row other than the one `SetColumn` writes is left as it was. */
  lemma SetColumnKeeps(t: Table, name: string, col: seq<Cell>, i: nat, j: nat)
    requires WellFormed(t) && |col| == |t.rows|
    requires i < |t.rows| && j < |t.headers| && t.headers[j] != name
    ensures SetColumn(t, name, col).rows[i].cells[j] == t.rows[i].cells[j]
  {
    assert t.rows[i] in t.rows;
  }

  /** Every column other than the one `SetColumn` writes, duplicates of its name included, is left as it was. */
  lemma SetColumnKeepsIndex(t: Table, name: string, col: seq<Cell>, i: nat, j: nat)
    requires WellFormed(t) && |col| == |t.rows|
    requires i < |t.rows| && j < |t.headers| && IndexOf(t.headers, name) != Some(j)
    ensures SetColumn(t, name, col).rows[i].cells[j] == t.rows[i].cells[j]
  {
    assert t.rows[i] in t.rows;
  }

  /** After `SetColumn`, looking the name up gives the new column. */
  lemma LookupSetColumnSame(t: Table, name: string, col: seq<Cell>)
    requires WellFormed(t) && |col| == |t.rows|
    ensures Lookup(SetColumn(t, name, col), name) == Some(col)
  {
    var r := SetColumn(t, name, col);
    var k := IndexOf(r.headers, name);
    match IndexOf(t.headers, name)
    case Some(j) =>
      assert k == Some(j);
      forall i | 0 <= i < |t.rows|
        ensures r.rows[i].cells[j] == col[i]
      {
        assert t.rows[i] in t.rows;
      }
      assert Column(r, j) == col;
    case None =>
      var n := |t.headers|;
      assert r.headers == t.headers + [name];
      assert k == Some(n);
      forall i | 0 <= i < |t.rows|
        ensures r.rows[i].cells[n] == col[i]
      {
        assert t.rows[i] in t.rows;
      }
      assert Column(r, n) == col;
  }

  /** After `SetColumn`, every other name looks up the column it had before. */
  lemma LookupSetColumnOther(t: Table, name: string, col: seq<Cell>, other: string)
    requires WellFormed(t) && |col| == |t.rows| && other != name
    ensures Lookup(SetColumn(t, name, col), other) == Lookup(t, other)
  {
    var r := SetColumn(t, name, col);
    if name !in t.headers {
      FirstIndexAppend(t.headers, name, h => h == other);
      assert IndexOf(r.headers, other) == IndexOf(t.headers, other);
    }
    match IndexOf(t.headers, other)
    case Some(j) =>
      forall i | 0 <= i < |t.rows|
        ensures r.rows[i].cells[j] == t.rows[i].cells[j]
      {
        SetColumnKeeps(t, name, col, i, j);
      }
      assert Column(r, j) == Column(t, j);
    case None =>
  }

  /** `pd.to_numeric(str(cell).replace(',', '').strip(), errors='coerce')` for one cell. */
  function ToNumeric(c: Cell): (r: Cell)
    ensures !r.Text?
    ensures c.Text? ==> (r.Num? <==> NormaliseText(c.s).Some?)
    ensures c.Text? && r.Num? ==> r.x == NormaliseText(c.s).value
    ensures !c.Text? ==> r == c
  {
    match c
    case Text(s) => (
      match NormaliseText(s)
      case Some(x) => Num(x)
      case None => NaN)
    case _ => c
  }

  /** Coercion of a whole column, cell by cell: one output per input, none aborting. */
  function Coerce(col: seq<Cell>): (r: seq<Cell>)
    ensures |r| == |col|
    ensures forall i :: 0 <= i < |col| ==> r[i] == ToNumeric(col[i])
  {
    seq(|col|, i requires 0 <= i < |col| => ToNumeric(col[i]))
  }

  /** Coercing twice is coercing once. */
  lemma CoerceIdempotent(col: seq<Cell>)
    ensures Coerce(Coerce(col)) == Coerce(col)
  {
  }

  predicate NoText(col: seq<Cell>) {
    forall i :: 0 <= i < |col| ==> !col[i].Text?
  }

  predicate NoNumbers(col: seq<Cell>) {
    forall i :: 0 <= i < |col| ==> !col[i].Num?
  }

  /** `str(cell)` for a cell that was never coerced: its text, or "nan" for NaN. */
  function AsText(c: Cell): string
    requires !c.Num?
  {
    match c
    case Text(s) => s
    case NaN => "nan"
  }

  /** `col.astype(str)`: every cell becomes text. */
  function Texts(col: seq<Cell>): (r: seq<Cell>)
    requires NoNumbers(col)
    ensures |r| == |col|
    ensures forall i :: 0 <= i < |col| ==> r[i] == Text(AsText(col[i]))
  {
    seq(|col|, i requires 0 <= i < |col| => Text(AsText(col[i])))
  }

  /** The value of a cell that holds no text: a number, or None for NaN. */
  function Value(c: Cell): (r: Option<real>)
    requires !c.Text?
    ensures r.Some? <==> c.Num?
  {
    match c
    case Num(x) => Some(x)
    case NaN => None
  }

  function Values(col: seq<Cell>): (r: seq<Option<real>>)
    requires NoText(col)
    ensures |r| == |col| && forall i :: 0 <= i < |col| ==> r[i] == Value(col[i])
  {
    seq(|col|, i requires 0 <= i < |col| => Value(col[i]))
  }

  // ---- read_csv's dtype inference ----

  /** A cell `read_csv` can keep in a float column: a blank, or text that is a number once the ASCII blanks around it are skipped. */
  predicate ReadsAsNumber(c: Cell) {
    c.Text? ==> ParseDecimal(StripAscii(c.s)).Some?
  }

  /** The cell as a float column holds it. */
  function AsNumber(c: Cell): (r: Cell)
    requires ReadsAsNumber(c)
    ensures !r.Text?
  {
    match c
    case Text(s) => Num(ParseDecimal(StripAscii(s)).value)
    case _ => c
  }

  /** Every cell of column `j` reads as a number. */
  predicate ColumnReadsAsNumbers(t: Table, j: nat)
    requires WellFormed(t) && j < |t.headers|
  {
    forall i :: 0 <= i < |t.rows| ==> ReadsAsNumber(t.rows[i].cells[j])
  }

  /** No cell of column `j` is text. */
  predicate ColumnNoText(t: Table, j: nat)
    requires WellFormed(t) && j < |t.headers|
  {
    forall i :: 0 <= i < |t.rows| ==> !t.rows[i].cells[j].Text?
  }

  /** A table as `read_csv` leaves it: a column whose every cell reads as a number holds no text. */
  predicate TypesInferred(t: Table)
    requires WellFormed(t)
  {
    forall j :: 0 <= j < |t.headers| && ColumnReadsAsNumbers(t, j) ==> ColumnNoText(t, j)
  }

  /**
   * `read_csv`'s dtype inference: a column whose every cell reads as a number becomes a
   * float column, and every other column keeps its cells as they were read.
   */
  function InferTypes(t: Table): (r: Table)
    requires WellFormed(t)
    ensures WellFormed(r) && r.headers == t.headers && |r.rows| == |t.rows|
    ensures forall i :: 0 <= i < |t.rows| ==> r.rows[i].date == t.rows[i].date
    ensures forall i, j :: 0 <= i < |t.rows| && 0 <= j < |t.headers| && ColumnReadsAsNumbers(t, j) ==>
      r.rows[i].cells[j] == AsNumber(t.rows[i].cells[j])
    ensures forall i, j :: 0 <= i < |t.rows| && 0 <= j < |t.headers| && !ColumnReadsAsNumbers(t, j) ==>
      r.rows[i].cells[j] == t.rows[i].cells[j]
  {
    var numeric := seq(|t.headers|, j requires 0 <= j < |t.headers| => ColumnReadsAsNumbers(t, j));
    var rows := seq(|t.rows|, i requires 0 <= i < |t.rows| =>
      assert t.rows[i] in t.rows;
      Row(t.rows[i].date, seq(|t.headers|, j requires 0 <= j < |t.headers| =>
        if numeric[j] then AsNumber(t.rows[i].cells[j]) else t.rows[i].cells[j])));
    assert forall x :: x in rows ==> |x.cells| == |t.headers|;
    Table(t.headers, rows)
  }

  /** Inference leaves no column that reads as numbers holding text, and changes no text column it cannot read. */
  lemma InferTypesInferred(t: Table)
    requires WellFormed(t)
    ensures TypesInferred(InferTypes(t))
    ensures forall j :: 0 <= j < |t.headers| && !ColumnReadsAsNumbers(t, j) ==>
      !ColumnReadsAsNumbers(InferTypes(t), j)
  {
    var r := InferTypes(t);
    forall j | 0 <= j < |t.headers| && ColumnReadsAsNumbers(r, j)
      ensures ColumnReadsAsNumbers(t, j) && ColumnNoText(r, j)
    {
      assert forall i :: 0 <= i < |t.rows| ==> ReadsAsNumber(r.rows[i].cells[j]);
    }
  }

  /** Two tables with the same rows in another order agree on what column `j` reads as. */
  lemma PermutedColumn(r: Table, t: Table, j: nat)
    requires WellFormed(r) && WellFormed(t) && j < |r.headers| && j < |t.headers|
    requires multiset(r.rows) == multiset(t.rows)
    ensures ColumnReadsAsNumbers(r, j) ==> ColumnReadsAsNumbers(t, j)
    ensures ColumnNoText(t, j) ==> ColumnNoText(r, j)
  {
    forall k | 0 <= k < |t.rows|
      ensures exists i :: 0 <= i < |r.rows| && r.rows[i] == t.rows[k]
    {
      assert t.rows[k] in multiset(r.rows);
    }
    forall i | 0 <= i < |r.rows|
      ensures exists k :: 0 <= k < |t.rows| && t.rows[k] == r.rows[i]
    {
      assert r.rows[i] in multiset(t.rows);
    }
  }

  /** Two tables whose column `j` agrees row by row agree on what that column reads as. */
  lemma SameColumn(r: Table, t: Table, j: nat)
    requires WellFormed(r) && WellFormed(t) && j < |r.headers| && j < |t.headers| && |r.rows| == |t.rows|
    requires forall i :: 0 <= i < |t.rows| ==> r.rows[i].cells[j] == t.rows[i].cells[j]
    ensures ColumnReadsAsNumbers(r, j) == ColumnReadsAsNumbers(t, j)
    ensures ColumnNoText(r, j) == ColumnNoText(t, j)
  {
  }
}
