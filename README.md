# Indian migration dashboard: the table steps, in Dafny

The dashboard (`app.py`) loads a table of migration counts. In it, each row is
a destination country and a gender, and each further column holds one year's
count. The dashboard offers filters over that table, draws three charts and
reports a total. This project models the table operations between loading
and drawing, as pure functions over an explicit DataFrame model:

- **Header normalisation** (`app.py:11`): every column label is stripped of
  surrounding whitespace with Python's `str.strip()` (module `Strings`,
  `App.NormaliseHeaders`).
- **Filter options and defaults** (`app.py:21-22`, `app.py:25-26`): the
  distinct non-null countries and genders in first-seen order. The first
  three countries and every gender are selected by default.
- **Year selector** (`app.py:29`): the labels ending in `[2000]`, `[1990]` or
  `[1980]`, in header order.
- **Row filter** (`app.py:33`): the rows whose country and gender are both
  selected, in their original order.
- **Wide-to-long reshaping** (`app.py:37-38`): `melt` with the two id
  columns. Every other column becomes one record per row, laid out
  column-major.
- **Map placeholders** (`app.py:53-55`): each filtered row gets
  (28.6139, 77.2090) when its country contains `"India"`, and (0, 0)
  otherwise.
- **Total** (`app.py:73`): the sum of the selected year column over the
  filtered rows. Nulls are skipped, and no rows give 0.

`Frame` holds the DataFrame model. A table is an ordered header plus rows
aligned with it, and a cell is null, text or an integer. Column lookup
`df[name]` raises `KeyError` when the label is missing. `Seqs` holds the
order-preserving selection that the comprehension on line 29 and the boolean
mask on line 33 share. Every step that can fail returns a `Result` whose error
names the failure. `KeyError` and `TypeError` are the exceptions Python raises
at that point. `ValueNameTaken` is the `ValueError` that `melt` raises when
its value column's label is already taken. Where the model's failure differs
from what pandas does (`DuplicateColumn`, and a sum over text), see
"## Left out".

Two behaviours of the code are worth noting:

- `melt` is called without `value_vars`, so it melts every column except the
  two ids, not only the year columns. The record count is
  rows × (columns − 2).
- `isin` with a selected value that is absent from the table selects no row
  for it. Nothing is raised.

## Model

| member | source | states |
|---|---|---|
| Strings.Strip | app.py:11 | `str.strip()`: the result has no whitespace at either end and is the slice of the label that starts right after its leading whitespace |
| Strings.StripCuts | app.py:11 | everything `strip` removes, in front and behind, is whitespace (Python's `str.isspace` set) |
| Strings.StripUnique | app.py:11 | whitespace around a trimmed core strips back to exactly that core, so `strip` removes whitespace and nothing else |
| Strings.StripTrimmed | app.py:11 | a label with no surrounding whitespace is left unchanged |
| Strings.StripIdempotent | app.py:11 | stripping twice equals stripping once |
| Strings.SkipSpacesExact | app.py:11 | the forward scan stops at index `j` exactly when everything before `j` is whitespace and the character at `j` is not (or `j` is the end) |
| Strings.SkipSpacesBackExact | app.py:11 | the backward scan stops at `h` exactly when everything from `h` on is whitespace and the character before `h` is not (or `h` is the lower bound) |
| App.NormaliseHeaders | app.py:11 | renaming keeps the rows and the number and order of columns and keeps the table well formed; every new label is trimmed and is a slice of the old one |
| App.NormaliseHeadersCutsSpace | app.py:11 | each label loses only whitespace, on either side |
| App.NormaliseHeadersIdempotent | app.py:11 | normalising the headers twice equals normalising them once |
| App.NormaliseHeadersFixpoint | app.py:11 | a table whose labels are already trimmed is unchanged |
| Frame.ColumnIndex | app.py:21 | `df[name]` resolves exactly when the label occurs once, to the position carrying it; a missing label raises `KeyError`, a repeated one `DuplicateColumn` |
| Frame.ColumnIndexUnique | app.py:21 | a label carried by exactly one column resolves to that column |
| Frame.Column | app.py:21 | `df[name]` yields one cell per row, in row order, from the resolved column; it fails exactly when the lookup fails, with the same error |
| Frame.ColumnAppend | app.py:73 | the column over stacked rows is the concatenation of the column over each part |
| App.DistinctValues | app.py:21 | `dropna().unique()`: a value is listed iff some cell holds it, and no value is listed twice |
| App.DistinctValuesFirstSeen | app.py:21 | the distinct values appear in the order of their first occurrence in the column |
| App.UniqueValues | app.py:25 | the options of a filter: they exist iff the column resolves (else its lookup error); they are exactly the non-null values of that column, without repeats |
| App.Countries | app.py:21 | the country options exist iff the country column resolves; a value is offered iff some row holds it in that column; no value is offered twice |
| App.Genders | app.py:25 | the gender options exist iff the gender column resolves; a value is offered iff some row holds it in that column; no value is offered twice |
| App.DefaultGenders | app.py:26 | `default=genders`: the default holds exactly the gender options, as many as there are |
| App.DefaultCountries | app.py:22 | `countries[:3]`: the first min(3, n) options, in option order |
| App.DefaultsAreOptions | app.py:22-26 | both defaults are valid multiselect defaults (each default is an option, none repeated), and the gender default leaves no gender out |
| Strings.EndsWithIff | app.py:29 | `s.endswith(suffix)` holds iff `s` is some string followed by `suffix` |
| App.IsYearColumnIff | app.py:29 | a label passes the year test iff it ends in `[`, then one of 2000, 1990 or 1980, then `]` |
| App.YearColumns | app.py:29 | a label is offered iff it is a column ending in `[2000]`, `[1990]` or `[1980]`; no more labels than columns |
| App.YearColumnsSubsequence | app.py:29 | the offered labels are the header's allow-listed labels, at strictly increasing positions, each allow-listed position included |
| App.YearLabelsExample | app.py:29 | the three allow-listed year suffixes are accepted; a 2010 label and the country label are not |
| App.YearColumnsExample | app.py:29 | from country, 1980, 1990, 2000 and 2010 columns, exactly the 1980, 1990 and 2000 labels are offered, in header order |
| Seqs.FilterMembers | app.py:29 | a comprehension with an `if` keeps an element iff it occurs and passes the test |
| Seqs.FilterSubsequence | app.py:33 | selection keeps exactly the positions that pass, in increasing order, with their elements |
| Seqs.FilterIdempotent | app.py:33 | selecting twice with the same test equals selecting once |
| App.FilterRows | app.py:33 | the filter succeeds iff both columns resolve (else the country error, then the gender error); the header is kept; every kept row comes from the table and has a selected country and a selected gender |
| App.FilterRowsSubsequence | app.py:33 | the filtered rows are the table's rows at exactly the positions where both tests hold, in their original order |
| App.FilterRowsIdempotent | app.py:33 | filtering the filtered table again with the same selections changes nothing |
| App.FilterOfThree | app.py:33 | of three rows, selecting one country and two genders keeps the two rows of that country, in order |
| App.FilterExample | app.py:33 | on the example table, selecting India and both genders keeps the two India rows |
| App.ValueColumnsSubsequence | app.py:37 | the melted columns are exactly the non-id columns, at increasing positions |
| App.ValueColumnsCount | app.py:37 | the melted columns and the occurrences of the two id labels together account for every column |
| App.MeltedColumnCount | app.py:37 | when both ids resolve, all columns but two are melted |
| App.MeltColumnsAt | app.py:37-38 | record `k * rows + i` of the melted block is row `i`'s record for the `k`-th melted column |
| App.Melt | app.py:37-38 | `melt` succeeds iff "Migration Count" is not already a column and both ids resolve; the errors come in pandas' order; it yields (columns − 2) × rows records |
| App.MeltIsMeltColumns | app.py:37-38 | a successful `melt` is the records of the non-id columns, one column after another |
| App.MeltAt | app.py:37-38 | record `k * rows + i` carries row `i`'s country and gender, the `k`-th melted column's label as Year, and that row's cell there as Migration Count |
| App.GeoRows | app.py:54-55 | the comprehensions succeed iff every country is text (else `TypeError`); one output row per input row, in order, with the row's fields kept; India rows get (28.6139, 77.2090), others (0, 0) |
| App.GeoAugment | app.py:53-55 | the copy has the filtered rows in order with both coordinates added by the India rule; a missing country column gives its lookup error, and a non-text country gives `TypeError` |
| App.GeoOfTwo | app.py:54-55 | a row whose country contains "India" followed by one whose country does not gets the fixed point, then (0, 0) |
| App.GeoExample | app.py:53-55 | on the example table, the India row gets the fixed point and the USA row (0, 0) |
| Strings.Contains | app.py:54 | `"India" in c`: a match needs the pattern to fit in `c`, and a match at the start is found |
| Strings.ContainsIff | app.py:54 | `"India" in c` holds iff the pattern occurs at some index of `c` |
| App.SumCells | app.py:73 | `Series.sum()` succeeds iff every cell is a number or null (else `TypeError`); all-null or empty sums to 0 |
| App.SumCellsSingle | app.py:73 | a single cell sums to its count, to 0 when null, and fails when text |
| App.SumCellsAppend | app.py:73 | the sum over a concatenation is the sum of the parts' sums, and fails if either part fails |
| App.Total | app.py:73 | the total succeeds iff the year column resolves and all its cells over the filtered rows are summable; the error is the lookup error or `TypeError`; no rows give 0 |
| App.TotalSplit | app.py:73 | the total over stacked rows is the sum of the totals of the parts |
| App.TotalOfTwo | app.py:73 | two rows with counts `a` and `b` in the year column total `a + b` |
| App.TotalExample | app.py:73 | on the example table, the 2000 total over the two India rows is 15 |

## Left out

- Loading (`app.py:7-14`) is not modelled: `read_csv`, the file path and the
  `st.cache_data` cache. The model starts from a table already in memory.
  CSV parsing, type inference and float columns are not modelled. Cells are
  null, text or unbounded integers.
- The widgets and the rendering are not modelled: title, sidebar,
  `multiselect`, `selectbox`, the plotly line and bar charts, the pydeck
  layer and view state, and `st.write`. The user's selections become
  parameters of the filter. The `:,.0f` formatting of the total is not
  modelled either.
- The coordinates are the constants as exact reals. The source's integer `0`
  for non-India rows is modelled as `0.0`.
- Frame.ColumnIndex: a label carried by several columns is modelled as the
  error `DuplicateColumn`. pandas instead returns a sub-frame, and the later
  steps then fail or misbehave in ways that depend on the step.
- App.Melt: a missing id column gives the lookup error of the first missing
  id. pandas' own message can list both missing ids.
- App.SumCells: any text cell gives `TypeError`. When every cell is text,
  pandas concatenates the strings and the `:,.0f` format is what fails.
  The failure still happens, but at a different point.
- App.GeoAugment: the assignments on `app.py:54-55` overwrite the cells of an
  existing `latitude` or `longitude` column. The model does not capture
  this. It keeps every original cell in `fields` and adds the coordinates
  beside them, so a table whose header already has either label is not
  modelled faithfully.
- Errors are modelled per step. The order in which the script reaches them
  (which step fails first when several would) is not modelled.
- `filtered_df.copy()`: values in the model cannot be aliased, so the rule
  that the copy leaves `filtered_df` unchanged holds trivially. It is not
  stated separately.
