/**
 * The slice of a pandas DataFrame the dashboard uses: an ordered header,
 * rows aligned with it, cells that may be null, and lookup of a column by
 * its label (`df[name]`).
 */
module Frame {
  import opened Wrappers
  import opened Seqs

  /** A non-null cell: text or an integer count. */
  datatype Value = Text(s: string) | Num(n: int)

  /** A cell; `None` is pandas' missing value (NaN / None). */
  type Cell = Option<Value>

  /** A row holds one cell per column, in header order. */
  type Row = seq<Cell>

  /** A DataFrame: its column labels in order, and its rows in order. */
  datatype Table = Table(columns: seq<string>, rows: seq<Row>) {
    /** Every row has exactly one cell per column. */
    predicate WellFormed() {
      forall i :: 0 <= i < |rows| ==> |rows[i]| == |columns|
    }
  }

  /** What the dashboard's pandas calls raise. */
  datatype Error =
    | KeyError(column: string)         // no column has this label
    | DuplicateColumn(column: string)  // the label names several columns, so `df[name]` is not a single column
    | TypeError                        // a substring test or a sum met a value of the wrong kind
    | ValueNameTaken(column: string)   // `melt` was asked for a value column whose label already exists

  /** The test "this label is `name`". */
  function Labelled(name: string): string -> bool
  {
    c => c == name
  }

  /** The positions at which `name` occurs in `columns`, ascending. */
  function Occurrences(columns: seq<string>, name: string): (idx: seq<nat>)
    ensures forall k :: 0 <= k < |idx| ==> idx[k] < |columns| && columns[idx[k]] == name
    ensures forall j :: 0 <= j < |columns| && columns[j] == name ==> j in idx
    ensures StrictlyIncreasing(idx)
  {
    var idx := KeptIndices(columns, Labelled(name));
    KeptIndicesExact(columns, Labelled(name));
    KeptIndicesIncreasing(columns, Labelled(name));
    assert forall k :: 0 <= k < |idx| ==> idx[k] in idx;
    idx
  }

  /** `name` labels at most one column. */
  predicate AtMostOnce(columns: seq<string>, name: string) {
    forall i, j :: 0 <= i < j < |columns| && columns[i] == name ==> columns[j] != name
  }

  /** The position of the column labelled `name`, as `df[name]` resolves it:
      a missing label raises `KeyError`, and a label that several columns
      carry does not denote one column. */
  function ColumnIndex(columns: seq<string>, name: string): (r: Result<nat, Error>)
    ensures r.Ok? <==> name in columns && AtMostOnce(columns, name)
    ensures r.Ok? ==> r.value < |columns| && columns[r.value] == name
    ensures r.Err? ==> r.error == (if name in columns then DuplicateColumn(name) else KeyError(name))
  {
    var idx := Occurrences(columns, name);
    if |idx| == 0 then Err(KeyError(name))
    else if |idx| > 1 then
      assert !AtMostOnce(columns, name) by { assert idx[0] < idx[1]; }
      Err(DuplicateColumn(name))
    else
      assert AtMostOnce(columns, name) by {
        forall i, j | 0 <= i < j < |columns| && columns[i] == name ensures columns[j] != name {
          assert i in idx;
        }
      }
      Ok(idx[0])
  }

  /** A label carried by exactly one column resolves to that column. */
  lemma ColumnIndexUnique(columns: seq<string>, j: nat)
    requires j < |columns|
    requires forall k :: 0 <= k < |columns| && k != j ==> columns[k] != columns[j]
    ensures ColumnIndex(columns, columns[j]) == Ok(j)
  {
    var idx := Occurrences(columns, columns[j]);
    assert j in idx;
    assert forall k :: 0 <= k < |idx| ==> idx[k] == j;
  }

  /** The cells of column `j`, one per row, in row order. */
  function CellsAt(t: Table, j: nat): (cells: seq<Cell>)
    requires t.WellFormed() && j < |t.columns|
    ensures |cells| == |t.rows|
    ensures forall i :: 0 <= i < |t.rows| ==> cells[i] == t.rows[i][j]
  {
    seq(|t.rows|, i requires 0 <= i < |t.rows| => t.rows[i][j])
  }

  /** `df[name]`: the column labelled `name`, or the error the lookup raises. */
  function Column(t: Table, name: string): (r: Result<seq<Cell>, Error>)
    requires t.WellFormed()
    ensures r.Ok? <==> ColumnIndex(t.columns, name).Ok?
    ensures r.Err? ==> r.error == ColumnIndex(t.columns, name).error
    ensures r.Ok? ==> |r.value| == |t.rows|
    ensures r.Ok? ==> forall i :: 0 <= i < |t.rows| ==> r.value[i] == t.rows[i][ColumnIndex(t.columns, name).value]
  {
    match ColumnIndex(t.columns, name)
    case Err(e) => Err(e)
    case Ok(j) => Ok(CellsAt(t, j))
  }

  /** The cells of a column over stacked rows are the cells over each part. */
  lemma ColumnAppend(columns: seq<string>, a: seq<Row>, b: seq<Row>, name: string)
    requires Table(columns, a).WellFormed() && Table(columns, b).WellFormed()
    ensures Table(columns, a + b).WellFormed()
    ensures Column(Table(columns, a + b), name).Ok? ==>
      Column(Table(columns, a + b), name).value
        == Column(Table(columns, a), name).value + Column(Table(columns, b), name).value
  {
    var t := Table(columns, a + b);
    forall i | 0 <= i < |a + b| ensures |(a + b)[i]| == |columns| {
      if i >= |a| { assert (a + b)[i] == b[i - |a|]; }
    }
  }
}
