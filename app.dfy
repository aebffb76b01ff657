/**
 * The table transformations of the migration dashboard (app.py): header
 * normalisation after loading, the filter options and their defaults, the
 * year columns, the filtered rows, the long-format table for the trend
 * chart, the placeholder coordinates for the map and the reported total.
 * The user's widget selections are plain inputs.
 */
module App {
  import opened Wrappers
  import opened Strings
  import opened Seqs
  import opened Frame

  const CountryColumn := "Country Dest Name"
  const GenderColumn := "Migration by Gender Name"

  /** Labels `melt` gives the variable and value columns of the long table. */
  const YearLabel := "Year"
  const CountLabel := "Migration Count"

  /** The placeholder map rule: country names containing the marker get one
      fixed point (latitude, longitude); every other country gets (0, 0). */
  const IndiaMarker := "India"
  const IndiaLatitude: real := 28.6139
  const IndiaLongitude: real := 77.2090

  // ---------------------------------------------------------------------
  // Header normalisation (app.py:11)
  // ---------------------------------------------------------------------

  /** `df.rename(columns=lambda x: x.strip())`: every label is stripped of
      surrounding whitespace; the rows, and so the column order, are kept. */
  function NormaliseHeaders(t: Table): (r: Table)
    ensures r.rows == t.rows && |r.columns| == |t.columns|
    ensures t.WellFormed() ==> r.WellFormed()
    ensures forall j :: 0 <= j < |r.columns| ==> Trimmed(r.columns[j])
    ensures forall j :: 0 <= j < |r.columns| ==>
      var lead := LeadingSpaces(t.columns[j]);
      && lead + |r.columns[j]| <= |t.columns[j]|
      && r.columns[j] == t.columns[j][lead..lead + |r.columns[j]|]
  {
    Table(seq(|t.columns|, j requires 0 <= j < |t.columns| => Strip(t.columns[j])), t.rows)
  }

  /** Normalisation removes nothing from a label but whitespace around it. */
  lemma NormaliseHeadersCutsSpace(t: Table)
    ensures forall j :: 0 <= j < |t.columns| ==>
      var lead := LeadingSpaces(t.columns[j]);
      var kept := NormaliseHeaders(t).columns[j];
      && AllSpace(t.columns[j][..lead])
      && AllSpace(t.columns[j][lead + |kept|..])
  {
    forall j | 0 <= j < |t.columns| ensures
      var lead := LeadingSpaces(t.columns[j]);
      var kept := NormaliseHeaders(t).columns[j];
      && AllSpace(t.columns[j][..lead])
      && AllSpace(t.columns[j][lead + |kept|..])
    {
      StripCuts(t.columns[j]);
    }
  }

  /** Normalising twice is normalising once. */
  lemma NormaliseHeadersIdempotent(t: Table)
    ensures NormaliseHeaders(NormaliseHeaders(t)) == NormaliseHeaders(t)
  {
    var once := NormaliseHeaders(t);
    forall j | 0 <= j < |once.columns| ensures Strip(once.columns[j]) == once.columns[j] {
      StripTrimmed(once.columns[j]);
    }
  }

  /** A table whose labels are already trimmed is left as it is. */
  lemma NormaliseHeadersFixpoint(t: Table)
    requires forall j :: 0 <= j < |t.columns| ==> Trimmed(t.columns[j])
    ensures NormaliseHeaders(t) == t
  {
    forall j | 0 <= j < |t.columns| ensures Strip(t.columns[j]) == t.columns[j] {
      StripTrimmed(t.columns[j]);
    }
  }

  // ---------------------------------------------------------------------
  // Filter options and their defaults (app.py:21-22, app.py:25-26)
  // ---------------------------------------------------------------------

  /** `Series.dropna().unique()`: the non-null values, each once, in the
      order in which they first occur. */
  function DistinctValues(cells: seq<Cell>): (r: seq<Value>)
    ensures forall v :: v in r <==> Some(v) in cells
    ensures forall i, j :: 0 <= i < j < |r| ==> r[i] != r[j]
  {
    if cells == [] then []
    else
      var init := cells[..|cells| - 1];
      assert cells == init + [cells[|cells| - 1]];
      var r := DistinctValues(init);
      match cells[|cells| - 1]
      case None => r
      case Some(v) => if v in r then r else r + [v]
  }

  /** The position of the first occurrence of `c` in `cells`, or `|cells|`
      when `c` does not occur. */
  function FirstIndex(cells: seq<Cell>, c: Cell): (k: nat)
    ensures k <= |cells| && c !in cells[..k]
    ensures k < |cells| <==> c in cells
    ensures k < |cells| ==> cells[k] == c
  {
    if cells == [] then 0
    else if cells[0] == c then 0
    else
      var k := 1 + FirstIndex(cells[1..], c);
      assert cells[..k] == [cells[0]] + cells[1..][..k - 1];
      k
  }

  /** A value's first occurrence in a prefix is its first occurrence. */
  lemma FirstIndexPrefix(cells: seq<Cell>, m: nat, c: Cell)
    requires m <= |cells| && c in cells[..m]
    ensures FirstIndex(cells, c) == FirstIndex(cells[..m], c)
  {
  }

  /** `r` lists values in the order of their first occurrence in `cells`. */
  predicate InFirstSeenOrder(cells: seq<Cell>, r: seq<Value>) {
    forall i, j :: 0 <= i < j < |r| ==> FirstIndex(cells, Some(r[i])) < FirstIndex(cells, Some(r[j]))
  }

  /** The distinct values appear in the order of their first occurrence. */
  lemma {:induction false} DistinctValuesFirstSeen(cells: seq<Cell>)
    ensures InFirstSeenOrder(cells, DistinctValues(cells))
  {
    if cells != [] {
      var n := |cells| - 1;
      var init := cells[..n];
      DistinctValuesFirstSeen(init);
      var r, r0 := DistinctValues(cells), DistinctValues(init);
      assert |r0| <= |r| && r[..|r0|] == r0;
      forall i | 0 <= i < |r0|
        ensures FirstIndex(cells, Some(r[i])) == FirstIndex(init, Some(r0[i])) < n
      {
        assert r[i] == r0[i] && r0[i] in r0;
        FirstIndexPrefix(cells, n, Some(r0[i]));
      }
      if |r| > |r0| {
        var v := cells[n].value;
        assert r == r0 + [v] && Some(v) !in init;
        assert FirstIndex(cells, Some(v)) == n;
      }
    }
  }

  /** `df[name].dropna().unique()`: the options a filter widget offers,
      drawn from the column labelled `name`. */
  function UniqueValues(t: Table, name: string): (r: Result<seq<Value>, Error>)
    requires t.WellFormed()
    ensures r.Ok? <==> name in t.columns && AtMostOnce(t.columns, name)
    ensures r.Err? ==> r.error == (if name in t.columns then DuplicateColumn(name) else KeyError(name))
    ensures r.Ok? ==> forall v :: v in r.value <==> Some(v) in Column(t, name).value
    ensures r.Ok? ==> forall i, j :: 0 <= i < j < |r.value| ==> r.value[i] != r.value[j]
  {
    match Column(t, name)
    case Err(e) => Err(e)
    case Ok(cells) => Ok(DistinctValues(cells))
  }

  /** The destination countries offered by the country filter (app.py:21). */
  function Countries(t: Table): (r: Result<seq<Value>, Error>)
    requires t.WellFormed()
    ensures r.Ok? <==> ColumnIndex(t.columns, CountryColumn).Ok?
    ensures r.Ok? ==> forall v :: v in r.value <==>
      exists i :: 0 <= i < |t.rows| && t.rows[i][ColumnIndex(t.columns, CountryColumn).value] == Some(v)
    ensures r.Ok? ==> forall i, j :: 0 <= i < j < |r.value| ==> r.value[i] != r.value[j]
  {
    UniqueValues(t, CountryColumn)
  }

  /** The genders offered by the gender filter (app.py:25). */
  function Genders(t: Table): (r: Result<seq<Value>, Error>)
    requires t.WellFormed()
    ensures r.Ok? <==> ColumnIndex(t.columns, GenderColumn).Ok?
    ensures r.Ok? ==> forall v :: v in r.value <==>
      exists i :: 0 <= i < |t.rows| && t.rows[i][ColumnIndex(t.columns, GenderColumn).value] == Some(v)
    ensures r.Ok? ==> forall i, j :: 0 <= i < j < |r.value| ==> r.value[i] != r.value[j]
  {
    UniqueValues(t, GenderColumn)
  }

  /** What a multiselect demands of its default: every default is one of
      the options, and none is given twice. */
  predicate ValidDefault(options: seq<Value>, d: seq<Value>) {
    && (forall v :: v in d ==> v in options)
    && (forall i, j :: 0 <= i < j < |d| ==> d[i] != d[j])
  }

  /** `countries[:3]`: the countries selected before the user picks any. */
  function DefaultCountries(countries: seq<Value>): (r: seq<Value>)
    ensures |r| == if |countries| < 3 then |countries| else 3
    ensures forall k :: 0 <= k < |r| ==> r[k] == countries[k]
  {
    if |countries| < 3 then countries else countries[..3]
  }

  /** `default=genders`: every gender is selected before the user picks any. */
  function DefaultGenders(genders: seq<Value>): (r: seq<Value>)
    ensures forall v :: v in r <==> v in genders
    ensures |r| == |genders|
  {
    genders
  }

  /** Both defaults are valid defaults of their widgets; the gender default
      leaves no gender out. */
  lemma DefaultsAreOptions(t: Table)
    requires t.WellFormed()
    ensures Countries(t).Ok? ==> ValidDefault(Countries(t).value, DefaultCountries(Countries(t).value))
    ensures Genders(t).Ok? ==>
      && ValidDefault(Genders(t).value, DefaultGenders(Genders(t).value))
      && forall v :: v in Genders(t).value ==> v in DefaultGenders(Genders(t).value)
  {
  }

  // ---------------------------------------------------------------------
  // Year columns (app.py:29)
  // ---------------------------------------------------------------------

  /** A label the year selector accepts: it ends in one of the three
      allow-listed bracketed years. */
  predicate IsYearColumn(name: string) {
    EndsWith(name, "[2000]") || EndsWith(name, "[1990]") || EndsWith(name, "[1980]")
  }

  /** The labels offered by the year selector, in header order. */
  function YearColumns(columns: seq<string>): (r: seq<string>)
    ensures |r| <= |columns|
    ensures forall c :: c in r <==> c in columns && IsYearColumn(c)
  {
    FilterMembers(columns, IsYearColumn);
    Filter(columns, IsYearColumn)
  }

  /** The year columns are exactly the allow-listed labels, as a subsequence
      of the header: `idx` lists their positions in increasing order. */
  lemma YearColumnsSubsequence(columns: seq<string>)
    ensures var r, idx := YearColumns(columns), KeptIndices(columns, IsYearColumn);
      && |idx| == |r|
      && StrictlyIncreasing(idx)
      && (forall k :: 0 <= k < |r| ==> idx[k] < |columns| && r[k] == columns[idx[k]])
      && (forall j :: 0 <= j < |columns| ==> (IsYearColumn(columns[j]) <==> j in idx))
  {
    FilterSubsequence(columns, IsYearColumn);
  }

  /** The allow-list, character by character: a label is a year column
      exactly when it ends in `[`, one of 2000, 1990 or 1980, and `]`. */
  lemma IsYearColumnIff(name: string)
    ensures IsYearColumn(name) <==>
      && |name| >= 6
      && name[|name| - 6] == '[' && name[|name| - 1] == ']'
      && name[|name| - 5..|name| - 1] in {"2000", "1990", "1980"}
  {
    if |name| >= 6 {
      var n := |name|;
      assert name[n - 6..] == [name[n - 6]] + name[n - 5..n - 1] + [name[n - 1]];
      BracketedEq(name[n - 6], name[n - 5..n - 1], name[n - 1], "2000");
      BracketedEq(name[n - 6], name[n - 5..n - 1], name[n - 1], "1990");
      BracketedEq(name[n - 6], name[n - 5..n - 1], name[n - 1], "1980");
    }
  }

  /** A four-character core between two characters equals a bracketed
      year exactly when the brackets and the year match. */
  lemma BracketedEq(open: char, core: string, close: char, year: string)
    requires |core| == |year| == 4
    ensures [open] + core + [close] == ['['] + year + [']'] <==> open == '[' && core == year && close == ']'
  {
    var a, b := [open] + core + [close], ['['] + year + [']'];
    if a == b {
      assert core == a[1..5] && year == b[1..5];
    }
  }

  /** Which of the example labels the allow-list accepts. */
  lemma YearLabelsExample()
    ensures !IsYearColumn(CountryColumn) && !IsYearColumn("Pop[2010]")
    ensures IsYearColumn("Pop[1980]") && IsYearColumn("Pop[1990]") && IsYearColumn("Pop[2000]")
  {
    assert "Pop[2010]"[3..] == "[2010]";
    assert "Pop[1980]"[3..] == "[1980]";
    assert "Pop[1990]"[3..] == "[1990]";
    assert "Pop[2000]"[3..] == "[2000]";
  }

  /** Selecting from five elements of which the middle three pass. */
  lemma FilterOfFive<T>(a: T, b: T, c: T, d: T, e: T, p: T -> bool)
    requires !p(a) && p(b) && p(c) && p(d) && !p(e)
    ensures Filter([a, b, c, d, e], p) == [b, c, d]
  {
    FilterSnoc([], a, p);
    FilterSnoc([a], b, p);
    FilterSnoc([a, b], c, p);
    FilterSnoc([a, b, c], d, p);
    FilterSnoc([a, b, c, d], e, p);
    assert [] + [a] == [a] && [a] + [b] == [a, b] && [a, b] + [c] == [a, b, c];
    assert [a, b, c] + [d] == [a, b, c, d] && [a, b, c, d] + [e] == [a, b, c, d, e];
  }

  /** A 2010 column is not offered; the three allow-listed years are, in
      header order. */
  lemma YearColumnsExample()
    ensures YearColumns([CountryColumn, "Pop[1980]", "Pop[1990]", "Pop[2000]", "Pop[2010]"])
      == ["Pop[1980]", "Pop[1990]", "Pop[2000]"]
  {
    YearLabelsExample();
    FilterOfFive(CountryColumn, "Pop[1980]", "Pop[1990]", "Pop[2000]", "Pop[2010]", IsYearColumn);
  }

  // ---------------------------------------------------------------------
  // Row filtering (app.py:33)
  // ---------------------------------------------------------------------

  /** `Series.isin(selection)` for one cell: null never matches. */
  predicate Selected(c: Cell, selection: seq<Value>) {
    c.Some? && c.value in selection
  }

  /** The row mask of app.py:33, given the positions of the two columns. */
  function RowMatches(ci: nat, gi: nat, countries: seq<Value>, genders: seq<Value>): Row -> bool
  {
    row => ci < |row| && gi < |row| && Selected(row[ci], countries) && Selected(row[gi], genders)
  }

  /** `df[df[country].isin(countries) & df[gender].isin(genders)]`. */
  function FilterRows(t: Table, countries: seq<Value>, genders: seq<Value>): (r: Result<Table, Error>)
    requires t.WellFormed()
    ensures r.Ok? <==> ColumnIndex(t.columns, CountryColumn).Ok? && ColumnIndex(t.columns, GenderColumn).Ok?
    ensures r.Err? ==> r.error == if ColumnIndex(t.columns, CountryColumn).Err?
                                  then ColumnIndex(t.columns, CountryColumn).error
                                  else ColumnIndex(t.columns, GenderColumn).error
    ensures r.Ok? ==> r.value.columns == t.columns && r.value.WellFormed() && |r.value.rows| <= |t.rows|
    ensures r.Ok? ==>
      var ci, gi := ColumnIndex(t.columns, CountryColumn).value, ColumnIndex(t.columns, GenderColumn).value;
      forall k :: 0 <= k < |r.value.rows| ==>
        && r.value.rows[k] in t.rows
        && Selected(r.value.rows[k][ci], countries) && Selected(r.value.rows[k][gi], genders)
  {
    match ColumnIndex(t.columns, CountryColumn)
    case Err(e) => Err(e)
    case Ok(ci) =>
      match ColumnIndex(t.columns, GenderColumn)
      case Err(e) => Err(e)
      case Ok(gi) =>
        var keep := RowMatches(ci, gi, countries, genders);
        var rows := Filter(t.rows, keep);
        FilterMembers(t.rows, keep);
        assert forall k :: 0 <= k < |rows| ==> rows[k] in t.rows && keep(rows[k]) by {
          forall k | 0 <= k < |rows| ensures rows[k] in t.rows && keep(rows[k]) {
            assert rows[k] in rows;
          }
        }
        Ok(Table(t.columns, rows))
  }

  /** The filtered rows are the table's rows, in order, at exactly the
      positions whose country and gender are both selected. */
  lemma FilterRowsSubsequence(t: Table, countries: seq<Value>, genders: seq<Value>)
    requires t.WellFormed()
    requires FilterRows(t, countries, genders).Ok?
    ensures
      var ci, gi := ColumnIndex(t.columns, CountryColumn).value, ColumnIndex(t.columns, GenderColumn).value;
      var r := FilterRows(t, countries, genders).value.rows;
      var idx := KeptIndices(t.rows, RowMatches(ci, gi, countries, genders));
      && |idx| == |r|
      && StrictlyIncreasing(idx)
      && (forall k :: 0 <= k < |r| ==> idx[k] < |t.rows| && r[k] == t.rows[idx[k]])
      && (forall i :: 0 <= i < |t.rows| ==>
            (Selected(t.rows[i][ci], countries) && Selected(t.rows[i][gi], genders) <==> i in idx))
  {
    var ci, gi := ColumnIndex(t.columns, CountryColumn).value, ColumnIndex(t.columns, GenderColumn).value;
    FilterSubsequence(t.rows, RowMatches(ci, gi, countries, genders));
  }

  /** Filtering the filtered table again with the same selection changes
      nothing. */
  lemma FilterRowsIdempotent(t: Table, countries: seq<Value>, genders: seq<Value>)
    requires t.WellFormed()
    requires FilterRows(t, countries, genders).Ok?
    ensures FilterRows(FilterRows(t, countries, genders).value, countries, genders)
         == FilterRows(t, countries, genders)
  {
    var ci, gi := ColumnIndex(t.columns, CountryColumn).value, ColumnIndex(t.columns, GenderColumn).value;
    FilterIdempotent(t.rows, RowMatches(ci, gi, countries, genders));
  }

  // ---------------------------------------------------------------------
  // Wide-to-long reshaping for the trend chart (app.py:37-38)
  // ---------------------------------------------------------------------

  /** One row of the long table: the source row's two identifiers, the
      label of the melted column as `Year`, and that cell as `Migration Count`. */
  datatype LongRecord = LongRecord(country: Cell, gender: Cell, year: string, count: Cell)

  /** A column `melt` turns into records: every column but the two ids. */
  predicate IsValueColumn(name: string) {
    name != CountryColumn && name != GenderColumn
  }

  /** The positions of the melted columns, in header order. */
  function ValueColumns(columns: seq<string>): seq<nat>
  {
    KeptIndices(columns, IsValueColumn)
  }

  /** The record `melt` makes from row `i` and column `j`. */
  function MeltRecord(t: Table, ci: nat, gi: nat, j: nat, i: nat): LongRecord
    requires t.WellFormed() && ci < |t.columns| && gi < |t.columns| && j < |t.columns| && i < |t.rows|
  {
    LongRecord(t.rows[i][ci], t.rows[i][gi], t.columns[j], t.rows[i][j])
  }

  /** The records of one melted column, one per row, in row order. */
  function MeltBlock(t: Table, ci: nat, gi: nat, j: nat): (block: seq<LongRecord>)
    requires t.WellFormed() && ci < |t.columns| && gi < |t.columns| && j < |t.columns|
    ensures |block| == |t.rows|
    ensures forall i :: 0 <= i < |t.rows| ==> block[i] == MeltRecord(t, ci, gi, j, i)
  {
    seq(|t.rows|, i requires 0 <= i < |t.rows| => MeltRecord(t, ci, gi, j, i))
  }

  /** The records of the columns at `js`: column-major, each column's block
      of rows in turn. */
  function MeltColumns(t: Table, ci: nat, gi: nat, js: seq<nat>): (r: seq<LongRecord>)
    requires t.WellFormed() && ci < |t.columns| && gi < |t.columns|
    requires forall k :: 0 <= k < |js| ==> js[k] < |t.columns|
    ensures |r| == |js| * |t.rows|
  {
    if js == [] then []
    else
      var m := |js| - 1;
      assert |js| * |t.rows| == m * |t.rows| + |t.rows|;
      MeltColumns(t, ci, gi, js[..m]) + MeltBlock(t, ci, gi, js[m])
  }

  /** Record `k * rows + i` of the melted columns comes from column `js[k]`
      and row `i`. */
  lemma {:induction false} MeltColumnsAt(t: Table, ci: nat, gi: nat, js: seq<nat>, k: nat, i: nat)
    requires t.WellFormed() && ci < |t.columns| && gi < |t.columns|
    requires forall k :: 0 <= k < |js| ==> js[k] < |t.columns|
    requires k < |js| && i < |t.rows|
    ensures k * |t.rows| + i < |MeltColumns(t, ci, gi, js)|
    ensures MeltColumns(t, ci, gi, js)[k * |t.rows| + i] == MeltRecord(t, ci, gi, js[k], i)
  {
    var m := |js| - 1;
    var prev := MeltColumns(t, ci, gi, js[..m]);
    assert MeltColumns(t, ci, gi, js) == prev + MeltBlock(t, ci, gi, js[m]);
    if k < m {
      MeltColumnsAt(t, ci, gi, js[..m], k, i);
      assert js[..m][k] == js[k];
    } else {
      assert k * |t.rows| == |prev|;
    }
  }

  /** The melted columns are exactly the non-id columns, in header order. */
  lemma ValueColumnsSubsequence(columns: seq<string>)
    ensures var js := ValueColumns(columns);
      && StrictlyIncreasing(js)
      && (forall k :: 0 <= k < |js| ==> js[k] < |columns|)
      && (forall j :: 0 <= j < |columns| ==> (IsValueColumn(columns[j]) <==> j in js))
  {
    FilterSubsequence(columns, IsValueColumn);
  }

  /** Every column is either melted or one of the ids, so the melted
      columns number the columns less the occurrences of the two ids. */
  lemma {:induction false} ValueColumnsCount(columns: seq<string>)
    ensures |ValueColumns(columns)| + |Occurrences(columns, CountryColumn)| + |Occurrences(columns, GenderColumn)|
         == |columns|
  {
    if columns != [] {
      ValueColumnsCount(columns[..|columns| - 1]);
    }
  }

  /** A label that resolves to one column occurs exactly once. */
  lemma OccursOnce(columns: seq<string>, name: string)
    requires ColumnIndex(columns, name).Ok?
    ensures |Occurrences(columns, name)| == 1
  {
  }

  /** With both ids resolving to one column each, all columns but two are
      melted. */
  lemma MeltedColumnCount(columns: seq<string>)
    requires ColumnIndex(columns, CountryColumn).Ok? && ColumnIndex(columns, GenderColumn).Ok?
    ensures |ValueColumns(columns)| == |columns| - 2
  {
    ValueColumnsCount(columns);
    OccursOnce(columns, CountryColumn);
    OccursOnce(columns, GenderColumn);
  }

  /** `df.melt(id_vars=[country, gender], var_name="Year",
      value_name="Migration Count")`: with no `value_vars`, every other
      column is melted, so each row yields one record per column but the
      two ids. */
  function Melt(t: Table): (r: Result<seq<LongRecord>, Error>)
    requires t.WellFormed()
    ensures r.Ok? <==> CountLabel !in t.columns
                       && ColumnIndex(t.columns, CountryColumn).Ok? && ColumnIndex(t.columns, GenderColumn).Ok?
    ensures r.Err? ==> r.error == if CountLabel in t.columns then ValueNameTaken(CountLabel)
                                  else if ColumnIndex(t.columns, CountryColumn).Err?
                                  then ColumnIndex(t.columns, CountryColumn).error
                                  else ColumnIndex(t.columns, GenderColumn).error
    ensures r.Ok? ==> |r.value| == (|t.columns| - 2) * |t.rows|
  {
    if CountLabel in t.columns then Err(ValueNameTaken(CountLabel))
    else
      match ColumnIndex(t.columns, CountryColumn)
      case Err(e) => Err(e)
      case Ok(ci) =>
        match ColumnIndex(t.columns, GenderColumn)
        case Err(e) => Err(e)
        case Ok(gi) =>
          MeltedColumnCount(t.columns);
          Ok(MeltColumns(t, ci, gi, ValueColumns(t.columns)))
  }

  /** What `Melt` returns when it succeeds: the records of the value
      columns, one column after the other. */
  lemma MeltIsMeltColumns(t: Table)
    requires t.WellFormed() && Melt(t).Ok?
    ensures var ci, gi := ColumnIndex(t.columns, CountryColumn).value, ColumnIndex(t.columns, GenderColumn).value;
      && (forall k :: 0 <= k < |ValueColumns(t.columns)| ==> ValueColumns(t.columns)[k] < |t.columns|)
      && Melt(t).value == MeltColumns(t, ci, gi, ValueColumns(t.columns))
  {
  }

  /** The long table is column-major: record `k * rows + i` carries row
      `i`'s country and gender, the label of the `k`-th melted column as its
      year, and that row's cell in that column as its count. */
  lemma MeltAt(t: Table, k: nat, i: nat)
    requires t.WellFormed() && Melt(t).Ok?
    requires k < |ValueColumns(t.columns)| && i < |t.rows|
    ensures var ci, gi := ColumnIndex(t.columns, CountryColumn).value, ColumnIndex(t.columns, GenderColumn).value;
      var j := ValueColumns(t.columns)[k];
      && j < |t.columns|
      && k * |t.rows| + i < |Melt(t).value|
      && Melt(t).value[k * |t.rows| + i] == LongRecord(t.rows[i][ci], t.rows[i][gi], t.columns[j], t.rows[i][j])
  {
    var ci, gi := ColumnIndex(t.columns, CountryColumn).value, ColumnIndex(t.columns, GenderColumn).value;
    MeltIsMeltColumns(t);
    MeltColumnsAt(t, ci, gi, ValueColumns(t.columns), k, i);
  }

  // ---------------------------------------------------------------------
  // Placeholder coordinates for the map (app.py:53-55)
  // ---------------------------------------------------------------------

  /** A filtered row with the two coordinate columns added to its copy. */
  datatype GeoRow = GeoRow(fields: Row, latitude: real, longitude: real)

  /** The country cell at `ci` holds text, so `"India" in c` can be asked. */
  predicate TextAt(row: Row, ci: nat) {
    ci < |row| && row[ci].Some? && row[ci].value.Text?
  }

  /** The placeholder rule on one country name. */
  function Placeholder(row: Row, ci: nat): GeoRow
    requires TextAt(row, ci)
  {
    if Contains(row[ci].value.s, IndiaMarker)
    then GeoRow(row, IndiaLatitude, IndiaLongitude)
    else GeoRow(row, 0.0, 0.0)
  }

  /** The two comprehensions of app.py:54-55 over the rows: the substring
      test raises `TypeError` on a country that is not text. */
  function GeoRows(rows: seq<Row>, ci: nat): (r: Result<seq<GeoRow>, Error>)
    ensures r.Ok? <==> forall i :: 0 <= i < |rows| ==> TextAt(rows[i], ci)
    ensures r.Err? ==> r.error == TypeError
    ensures r.Ok? ==> |r.value| == |rows|
    ensures r.Ok? ==> forall i :: 0 <= i < |rows| ==>
      && r.value[i].fields == rows[i]
      && (var india := Contains(rows[i][ci].value.s, IndiaMarker);
          && r.value[i].latitude == (if india then IndiaLatitude else 0.0)
          && r.value[i].longitude == (if india then IndiaLongitude else 0.0))
  {
    if rows == [] then Ok([])
    else
      var m := |rows| - 1;
      assert forall i :: 0 <= i < m ==> rows[..m][i] == rows[i];
      match GeoRows(rows[..m], ci)
      case Err(e) => Err(e)
      case Ok(prev) =>
        if TextAt(rows[m], ci) then Ok(prev + [Placeholder(rows[m], ci)])
        else Err(TypeError)
  }

  /** `geo_data = filtered_df.copy()` with `latitude` and `longitude` added:
      the same rows in the same order, each given the fixed point when its
      country contains "India" and (0, 0) otherwise. */
  function GeoAugment(filtered: Table): (r: Result<seq<GeoRow>, Error>)
    requires filtered.WellFormed()
    ensures r.Ok? <==> ColumnIndex(filtered.columns, CountryColumn).Ok?
                       && forall i :: 0 <= i < |filtered.rows| ==>
                            TextAt(filtered.rows[i], ColumnIndex(filtered.columns, CountryColumn).value)
    ensures r.Err? ==> r.error == if ColumnIndex(filtered.columns, CountryColumn).Err?
                                  then ColumnIndex(filtered.columns, CountryColumn).error else TypeError
    ensures r.Ok? ==> |r.value| == |filtered.rows|
    ensures r.Ok? ==>
      var ci := ColumnIndex(filtered.columns, CountryColumn).value;
      forall i :: 0 <= i < |filtered.rows| ==>
        && r.value[i].fields == filtered.rows[i]
        && (var india := Contains(filtered.rows[i][ci].value.s, IndiaMarker);
            && r.value[i].latitude == (if india then IndiaLatitude else 0.0)
            && r.value[i].longitude == (if india then IndiaLongitude else 0.0))
  {
    match ColumnIndex(filtered.columns, CountryColumn)
    case Err(e) => Err(e)
    case Ok(ci) => GeoRows(filtered.rows, ci)
  }

  // ---------------------------------------------------------------------
  // The reported total (app.py:73)
  // ---------------------------------------------------------------------

  /** A cell `Series.sum` accepts: a number, or a null it skips. */
  predicate Summable(c: Cell) {
    c.None? || c.value.Num?
  }

  /** `Series.sum()`: nulls are skipped and an empty or all-null column
      sums to 0; text cannot take part in a numeric total. */
  function SumCells(cells: seq<Cell>): (r: Result<int, Error>)
    ensures r.Ok? <==> forall i :: 0 <= i < |cells| ==> Summable(cells[i])
    ensures r.Err? ==> r.error == TypeError
    ensures (forall i :: 0 <= i < |cells| ==> cells[i].None?) ==> r == Ok(0)
  {
    if cells == [] then Ok(0)
    else
      var m := |cells| - 1;
      assert forall i :: 0 <= i < m ==> cells[..m][i] == cells[i];
      match SumCells(cells[..m])
      case Err(e) => Err(e)
      case Ok(s) =>
        match cells[m]
        case None => Ok(s)
        case Some(Num(n)) => Ok(s + n)
        case Some(Text(_)) => Err(TypeError)
  }

  /** Totals of two parts combine by addition; a failure in either fails. */
  function AddTotals(a: Result<int, Error>, b: Result<int, Error>): Result<int, Error>
  {
    if a.Ok? && b.Ok? then Ok(a.value + b.value) else Err(TypeError)
  }

  /** A single cell sums to its count, to 0 when it is null, and fails when
      it is text. */
  lemma SumCellsSingle(c: Cell)
    ensures SumCells([c]) == match c
      case None => Ok(0)
      case Some(Num(n)) => Ok(n)
      case Some(Text(_)) => Err(TypeError)
  {
    assert [c][..0] == [];
  }

  /** The sum is additive over a split of the cells. */
  lemma {:induction false} SumCellsAppend(a: seq<Cell>, b: seq<Cell>)
    ensures SumCells(a + b) == AddTotals(SumCells(a), SumCells(b))
    decreases |b|
  {
    if b == [] {
      assert a + b == a;
    } else {
      var m := |b| - 1;
      assert (a + b)[..|a + b| - 1] == a + b[..m];
      SumCellsAppend(a, b[..m]);
    }
  }

  /** `filtered_df[selected_year].sum()`: the total of the selected year
      column over the filtered rows. */
  function Total(filtered: Table, year: string): (r: Result<int, Error>)
    requires filtered.WellFormed()
    ensures r.Ok? <==> ColumnIndex(filtered.columns, year).Ok?
                       && forall i :: 0 <= i < |filtered.rows| ==>
                            Summable(filtered.rows[i][ColumnIndex(filtered.columns, year).value])
    ensures r.Err? ==> r.error == if ColumnIndex(filtered.columns, year).Err?
                                  then ColumnIndex(filtered.columns, year).error else TypeError
    ensures filtered.rows == [] && ColumnIndex(filtered.columns, year).Ok? ==> r == Ok(0)
  {
    match Column(filtered, year)
    case Err(e) => Err(e)
    case Ok(cells) => SumCells(cells)
  }

  /** The total over stacked rows is the sum of the totals over each part. */
  lemma TotalSplit(columns: seq<string>, a: seq<Row>, b: seq<Row>, year: string)
    requires Table(columns, a).WellFormed() && Table(columns, b).WellFormed()
    requires ColumnIndex(columns, year).Ok?
    ensures Table(columns, a + b).WellFormed()
    ensures Total(Table(columns, a + b), year) == AddTotals(Total(Table(columns, a), year), Total(Table(columns, b), year))
  {
    ColumnAppend(columns, a, b, year);
    SumCellsAppend(Column(Table(columns, a), year).value, Column(Table(columns, b), year).value);
  }

  // ---------------------------------------------------------------------
  // A worked example
  // ---------------------------------------------------------------------

  /** The three rows of the worked example: India/Male 10,
      India/Female 5 and USA/Male 7 in the columns country, gender and
      "Pop[2000]". */
  function ExampleTable(): (t: Table)
    ensures t.WellFormed()
  {
    Table([CountryColumn, GenderColumn, "Pop[2000]"],
          [[Some(Text("India")), Some(Text("Male")), Some(Num(10))],
           [Some(Text("India")), Some(Text("Female")), Some(Num(5))],
           [Some(Text("USA")), Some(Text("Male")), Some(Num(7))]])
  }

  /** The example's labels resolve to columns 0, 1 and 2. */
  lemma ExampleColumns()
    ensures ColumnIndex(ExampleTable().columns, CountryColumn) == Ok(0)
    ensures ColumnIndex(ExampleTable().columns, GenderColumn) == Ok(1)
    ensures ColumnIndex(ExampleTable().columns, "Pop[2000]") == Ok(2)
  {
    assert |"Pop[2000]"| != |CountryColumn| && |"Pop[2000]"| != |GenderColumn|;
    ThreeColumns("Pop[2000]");
  }

  /** The labels country, gender and a third distinct label resolve to
      columns 0, 1 and 2. */
  lemma ThreeColumns(year: string)
    requires year != CountryColumn && year != GenderColumn
    ensures ColumnIndex([CountryColumn, GenderColumn, year], CountryColumn) == Ok(0)
    ensures ColumnIndex([CountryColumn, GenderColumn, year], GenderColumn) == Ok(1)
    ensures ColumnIndex([CountryColumn, GenderColumn, year], year) == Ok(2)
  {
    var cols := [CountryColumn, GenderColumn, year];
    assert |CountryColumn| != |GenderColumn|;
    ColumnIndexUnique(cols, 0);
    ColumnIndexUnique(cols, 1);
    ColumnIndexUnique(cols, 2);
  }

  /** The row mask keeps the first two of three rows: the first country
      with each selected gender, then another country. */
  lemma MaskOfThree(c1: Value, c2: Value, g1: Value, g2: Value, a: Cell, b: Cell, c: Cell)
    requires c1 != c2
    ensures var rows := [[Some(c1), Some(g1), a], [Some(c1), Some(g2), b], [Some(c2), Some(g1), c]];
      Filter(rows, RowMatches(0, 1, [c1], [g1, g2])) == rows[..2]
  {
    var rows := [[Some(c1), Some(g1), a], [Some(c1), Some(g2), b], [Some(c2), Some(g1), c]];
    var p := RowMatches(0, 1, [c1], [g1, g2]);
    assert p(rows[0]) && p(rows[1]) && !p(rows[2]);
    assert Filter(rows[..1], p) == rows[..1] by {
      assert rows[..1][..0] == [];
    }
    assert Filter(rows[..2], p) == rows[..2] by {
      assert rows[..2][..1] == rows[..1];
    }
    assert rows[..|rows| - 1] == rows[..2];
  }

  /** Selecting the first country and both genders from those three rows
      keeps the first two, in order. */
  lemma FilterOfThree(year: string, c1: Value, c2: Value, g1: Value, g2: Value, a: Cell, b: Cell, c: Cell)
    requires c1 != c2 && year != CountryColumn && year != GenderColumn
    ensures
      var cols := [CountryColumn, GenderColumn, year];
      var rows := [[Some(c1), Some(g1), a], [Some(c1), Some(g2), b], [Some(c2), Some(g1), c]];
      && Table(cols, rows).WellFormed()
      && FilterRows(Table(cols, rows), [c1], [g1, g2]) == Ok(Table(cols, rows[..2]))
  {
    ThreeColumns(year);
    MaskOfThree(c1, c2, g1, g2, a, b, c);
  }

  /** Two rows with counts `a` and `b` in the third column total `a + b`. */
  lemma TotalOfTwo(year: string, r0: Row, r1: Row, a: int, b: int)
    requires year != CountryColumn && year != GenderColumn
    requires |r0| == 3 && |r1| == 3 && r0[2] == Some(Num(a)) && r1[2] == Some(Num(b))
    ensures Total(Table([CountryColumn, GenderColumn, year], [r0, r1]), year) == Ok(a + b)
  {
    ThreeColumns(year);
    var t := Table([CountryColumn, GenderColumn, year], [r0, r1]);
    var cells := [Some(Num(a)), Some(Num(b))];
    assert Column(t, year) == Ok(cells) by {
      var col := CellsAt(t, 2);
      assert col[0] == r0[2] && col[1] == r1[2];
      assert col == cells;
    }
    assert SumCells(cells[..1]) == Ok(a) by {
      assert cells[..1] == [Some(Num(a))];
      SumCellsSingle(Some(Num(a)));
    }
    assert SumCells(cells) == Ok(a + b);
  }

  /** The worked example: selecting India and both genders keeps the two
      India rows, in order. */
  lemma FilterExample()
    ensures var t := ExampleTable();
      FilterRows(t, [Text("India")], [Text("Male"), Text("Female")]) == Ok(Table(t.columns, t.rows[..2]))
  {
    assert |"India"| != |"USA"|;
    assert |"Pop[2000]"| != |CountryColumn| && |"Pop[2000]"| != |GenderColumn|;
    FilterOfThree("Pop[2000]", Text("India"), Text("USA"), Text("Male"), Text("Female"),
                  Some(Num(10)), Some(Num(5)), Some(Num(7)));
  }

  /** The worked example: the 2000 total over the two India rows is 15. */
  lemma TotalExample()
    ensures var t := ExampleTable();
      Total(Table(t.columns, t.rows[..2]), "Pop[2000]") == Ok(15)
  {
    var t := ExampleTable();
    assert |"Pop[2000]"| != |CountryColumn| && |"Pop[2000]"| != |GenderColumn|;
    assert t.rows[..2] == [t.rows[0], t.rows[1]];
    TotalOfTwo("Pop[2000]", t.rows[0], t.rows[1], 10, 5);
  }

  /** Two rows whose countries are text, the first containing "India" and
      the second not: the first gets the fixed point, the second (0, 0). */
  lemma GeoOfTwo(r0: Row, r1: Row)
    requires TextAt(r0, 0) && TextAt(r1, 0)
    requires Contains(r0[0].value.s, IndiaMarker) && !Contains(r1[0].value.s, IndiaMarker)
    ensures GeoRows([r0, r1], 0) == Ok([GeoRow(r0, IndiaLatitude, IndiaLongitude), GeoRow(r1, 0.0, 0.0)])
  {
    var rows := [r0, r1];
    assert TextAt(rows[0], 0) && TextAt(rows[1], 0);
    var g := GeoRows(rows, 0).value;
    assert g[0] == GeoRow(r0, IndiaLatitude, IndiaLongitude);
    assert g[1] == GeoRow(r1, 0.0, 0.0);
    assert g == [g[0], g[1]];
  }

  /** The worked example: of an India row and a USA row, the first gets
      the fixed point and the second (0, 0). */
  lemma GeoExample()
    ensures var t := ExampleTable();
      GeoAugment(Table(t.columns, [t.rows[0], t.rows[2]]))
        == Ok([GeoRow(t.rows[0], IndiaLatitude, IndiaLongitude), GeoRow(t.rows[2], 0.0, 0.0)])
  {
    var t := ExampleTable();
    ExampleColumns();
    assert Contains("India", IndiaMarker) && !Contains("USA", IndiaMarker);
    GeoOfTwo(t.rows[0], t.rows[2]);
  }
}
