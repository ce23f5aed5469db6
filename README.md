# dbTable — a verified model of the table core

This project models the table core of a small command-line database, `src/db/dbTable.cpp`.
A table is an ordered vector of rows. Each row is a vector of 32-bit integer cells, and the
value `INT_MAX` marks a null cell. The core does four kinds of work:

- It reads a table from one line of CSV-like text. Records end with `'\r'` and fields end with `','`.
- It edits a table in place: reset, add a column, delete a row, delete a column, and remove one
  cell of a row.
- It computes column aggregates. Maximum, minimum, sum and average give NaN when no cell holds
  data (`getMax` also whenever row 0 is null); the count gives 0. It sorts the rows by a list of
  key columns.
- It prints a row, a table, a column and a summary line.

Modules, one per file:

| file | module | contents |
|---|---|---|
| `cells.dfy` | `Cells` | int32 range, `NullCell` (= `INT_MAX`), `Option`, columns and table width |
| `text.dfy` | `Text` | `find`, split and join, decimal text, padding, the text building blocks |
| `aggregates.dfy` | `Aggregates` | reference definitions of the column aggregates and their lemmas |
| `db_row.dfy` | `DbRow` | class `DBRow` (`addData`, `removeCell`) and the `Erase` function |
| `db_sort.dfy` | `DbSort` | the `DBSort` comparator, its order lemmas, an in-place sort on an array |
| `render.dfy` | `Render` | the printers, as functions from the table to text |
| `db_table.dfy` | `DbTable` | class `DBTable` with its editing, aggregate, sort and summary methods |
| `csv.dfy` | `Csv` | the parser `operator>>` as methods, and a writer it round-trips with |

Modelling choices:

- The table is a field `table: seq<seq<int>>` of class `DBTable`. The C++ `vector<DBRow>` holds
  its rows by value, so each row is a value. `DBRow` is a class with a `data: seq<int>` field,
  because `removeCell` and `addData` change a row in place.
- `DBTable.Valid()` says every cell is an int32. That makes `NullCell` the largest value a cell
  can hold, which `getMin` relies on.
- The table is not required to be rectangular, because the parser can add rows of different
  lengths. The editing methods promise to keep any width the table has.
- `NCols()` is the length of row 0, and 0 for an empty table.
- A `float` result is an `Option`. `None` stands for NaN. `Some` holds the exact `int` or `real`
  value.
- The loops of the parser, the editing methods, the aggregates and the summary become Dafny
  `while` loops, each proved against a function of the old state. The printer loops (lines 27-31,
  40-50, 222-229) only build text, so they become recursive functions and sequence comprehensions.
- `delCol` calls `removeCell` on each row. `DBTable.DelCol` applies `Erase`, the function that
  `DBRow.RemoveCell`'s contract is stated with, to each row value.

## Model

| member | source | states |
|---|---|---|
| DbRow.Erase | src/db/dbTable.cpp:86-92 | erasing cell c keeps the cells before c, shifts the cells after c down by one, and removes exactly one copy of the erased value from the row's multiset |
| DbRow.DBRow.AddData | src/db/dbTable.cpp:126 | the new cell is appended at the end of the row |
| DbRow.DBRow.RemoveCell | src/db/dbTable.cpp:86-92 | the row becomes `Erase(old row, c)` |
| DbTable.DBTable.Reset | src/db/dbTable.cpp:112-118 | after reset no rows are left, and the table is still valid |
| DbTable.DBTable.AddRow | src/db/dbTable.cpp:76 | the row is appended at the end; a rectangular table given a row of its width stays rectangular |
| DbTable.DBTable.AddCol | src/db/dbTable.cpp:120-129 | `d[i]` is appended to row i for every row, and a table of width w becomes width w+1 |
| DbTable.AppendColumn | src/db/dbTable.cpp:120-129 | the table `addCol` produces, row i extended by d[i]; no contract of its own, `AddCol` is proved against it and `AppendThenDeleteColumn` relates it to `DeleteColumn` |
| DbTable.DeleteColumn | src/db/dbTable.cpp:138-144 | the table `delCol` produces, `Erase` applied to every row; no contract of its own, `DelCol` is proved against it and `DeleteThenAppendColumn` relates it to `AppendColumn` |
| DbTable.AppendThenDeleteColumn | src/db/dbTable.cpp:120-144 | adding a column to a table of width w and then deleting column w gives back the original table |
| DbTable.DBTable.DelRow | src/db/dbTable.cpp:131-136 | row c is removed and the other rows keep their order; the multiset of rows loses exactly that row; the width is kept |
| DbTable.DBTable.DelCol | src/db/dbTable.cpp:138-144 | every row has cell c erased, and a table of width w+1 becomes width w |
| DbTable.DeleteThenAppendColumn | src/db/dbTable.cpp:120-144 | deleting column c and adding its cells back keeps each row's multiset; the table is restored when c was the last column |
| DbTable.DBTable.GetMax | src/db/dbTable.cpp:150-160 | the result is the seeded scan of the source; if row 0 is null it is NaN even when other cells hold data, otherwise it is the maximum of the non-null cells |
| Aggregates.SeededMaxByFirstCell | src/db/dbTable.cpp:154-159 | the scan seeded from row 0 returns None when row 0 is null, and otherwise returns the true maximum |
| Aggregates.SeededMaxMissesData | src/db/dbTable.cpp:154-159 | for the column [null, 5] the seeded scan gives NaN while the maximum of the data is 5 |
| Aggregates.ScanBound | src/db/dbTable.cpp:155-158 | the running maximum stays an int32 |
| DbTable.DBTable.GetMaxOfData | src/db/dbTable.cpp:146-160 | the corrected maximum: NaN exactly when every cell is null, otherwise the largest non-null cell |
| Aggregates.DataMax | src/db/dbTable.cpp:146-160 | None iff the column has no data; otherwise a non-null cell of the column that is at least every non-null cell |
| DbTable.DBTable.GetMin | src/db/dbTable.cpp:162-172 | the result is the minimum of the non-null cells, or NaN when all cells are null; nulls never win because `INT_MAX` is the largest int32 |
| Aggregates.DataMin | src/db/dbTable.cpp:162-172 | None iff the column has no data; otherwise a non-null cell of the column that is at most every non-null cell |
| DbTable.DBTable.GetSum | src/db/dbTable.cpp:174-186 | NaN exactly when no cell is non-null (the flag), otherwise the sum of the non-null cells |
| Aggregates.DataSum | src/db/dbTable.cpp:182 | a column with no data sums to 0 |
| Aggregates.DataSumAppend | src/db/dbTable.cpp:180-184 | the sum over two consecutive stretches of rows is the sum of the two sums |
| Aggregates.DataSumPermutation | src/db/dbTable.cpp:174-186 | the sum does not depend on row order, so sorting keeps it |
| Aggregates.DataSumRemove | src/db/dbTable.cpp:174-186 | taking one cell out of a column subtracts exactly that cell's contribution from the sum |
| DbTable.DBTable.GetCount | src/db/dbTable.cpp:188-199 | the count is the number of non-null cells (duplicates included), equal to the number of non-null row indices and at most the number of rows |
| Aggregates.DataCount | src/db/dbTable.cpp:193-197 | the count is at most the column length, and it is 0 exactly when every cell is null |
| Aggregates.DataCountIsIndexCount | src/db/dbTable.cpp:188-199 | the count equals the size of the set of row indices holding data |
| Aggregates.DataCountByMultiset | src/db/dbTable.cpp:188-199 | the count is the column length minus the number of null cells |
| Aggregates.DataCountPermutation | src/db/dbTable.cpp:188-199 | the count does not depend on row order |
| DbTable.DBTable.GetAve | src/db/dbTable.cpp:201-206 | NaN exactly when the count is 0; otherwise sum / count, which lies between the column's minimum and maximum |
| DbTable.AverageWithinRange | src/db/dbTable.cpp:201-206 | the average times the count gives back the sum, and the average lies between the minimum and the maximum |
| Aggregates.SumWithinRange | src/db/dbTable.cpp:174-206 | min·count ≤ sum ≤ max·count for a column with data |
| DbSort.Less | src/db/dbTable.cpp:97-107 | the comparator: the first key column where the two rows differ decides by `<`, and equal keys give false; no contract of its own, the lemmas below state its order properties |
| DbSort.LessIrreflexive | src/db/dbTable.cpp:97-107 | no row is less than itself |
| DbSort.LessAsymmetric | src/db/dbTable.cpp:97-107 | if r1 < r2 then not r2 < r1 |
| DbSort.LessTransitive | src/db/dbTable.cpp:97-107 | the comparator is transitive, so it is a strict weak order as the sort needs |
| DbSort.IncomparableIffAgree | src/db/dbTable.cpp:102-106 | two rows are incomparable iff they agree on every key column |
| DbSort.NullSortsLast | src/db/dbTable.cpp:102-106 | a null key sorts after any data in that key when the earlier keys agree |
| DbSort.SelectLeast | src/db/dbTable.cpp:208-214 | the index returned holds a least row of the rest of the array, and it is the first position whenever that row is already least |
| DbSort.SelectionStep | src/db/dbTable.cpp:208-214 | swapping a least remaining row into position i extends the sorted prefix by one |
| DbSort.SortedHead | src/db/dbTable.cpp:208-214 | in a sorted table no later row is less than an earlier one |
| DbSort.Swap | src/db/dbTable.cpp:212 | exchanging two rows keeps the multiset of rows |
| DbSort.SortRows | src/db/dbTable.cpp:208-214 | the array ends sorted by the comparator and is a permutation of its old contents; in addition, this selection sort leaves an already sorted array as it was, which `std::sort` does not promise |
| DbTable.DBTable.Sort | src/db/dbTable.cpp:208-214 | the rows end sorted by the key columns and form a permutation of the old rows; the width is kept; in addition, the model's selection sort leaves a sorted table unchanged, which `std::sort` does not promise |
| DbTable.DBTable.PrintSummary | src/db/dbTable.cpp:233-242 | the line shows the row count, the column count and the number of non-null cells in the first nCols columns |
| Aggregates.TotalData | src/db/dbTable.cpp:236-239 | the non-null count is at most #rows · #cols |
| Aggregates.TotalDataByColumns | src/db/dbTable.cpp:236-239 | counting row by row gives the same total as adding the per-column counts of getCount |
| Aggregates.ColumnsTotalAppendRow | src/db/dbTable.cpp:236-239 | adding a row adds its non-null cells to the per-column total |
| Aggregates.ColumnsTotalOfNoRows | src/db/dbTable.cpp:236-239 | an empty table has no data |
| Aggregates.DataCountSnoc | src/db/dbTable.cpp:239 | appending a cell adds 1 to the count exactly when it is not null |
| DbTable.DBTable.NRows | src/db/dbTable.cpp:124 | `nRows()`, the loop bound of every column loop; no contract of its own, it is the length of the table that the methods' contracts speak of |
| DbTable.DBTable.NCols | src/db/dbTable.cpp:42 | `nCols()`, the length of row 0 (0 with no rows); no contract of its own, its uses are stated through `PrintSummary` and `TotalDataByColumns` |
| Aggregates.MaxScan | src/db/dbTable.cpp:154-158 | the running maximum of the `getMax` loop, seeded from row 0; no contract of its own, `ScanBound` states it stays an int32 and `SeededMaxByFirstCell` what it returns |
| Aggregates.SeededMax | src/db/dbTable.cpp:154-159 | `getMax` as written, NaN when the scan ends at `INT_MAX`; no contract of its own, `SeededMaxByFirstCell` and `SeededMaxMissesData` state its properties |
| Render.RowLeading | src/db/dbTable.cpp:27-30 | the cells before the last, each followed by a space, a null promoted to 46; no contract of its own, `LeadingWithoutNulls` and `RowTextShowsNullAsCode` state its properties |
| Render.RowText | src/db/dbTable.cpp:22-33 | the row printer as written; no contract of its own, `RowTextShowsNullAsCode` and `RowTextWithoutNulls` state its properties |
| Render.TableLine | src/db/dbTable.cpp:42-49 | one line of the table printer, the first nCols cells each right-aligned in 6 characters; no contract of its own, `TableLineSlots` states where each cell sits |
| Render.TableText | src/db/dbTable.cpp:35-52 | the table printer, every row as a `TableLine` ended by a newline; no contract of its own, its lines are described by `TableLineSlots` |
| Render.ColumnText | src/db/dbTable.cpp:216-231 | the column printer, each cell left-aligned in 2 characters, then a newline; no contract of its own, `ColumnTextSlots` states where each cell sits |
| Render.SummaryText | src/db/dbTable.cpp:240-241 | the summary line for the three counts; no contract of its own, `PrintSummary` states which counts it is given |
| Render.CellText | src/db/dbTable.cpp:44-47 | a cell prints as "." iff it is null; any other cell prints as decimal text that reads back as the cell, with no space |
| Render.RowTextShowsNullAsCode | src/db/dbTable.cpp:27-31 | as written, the row printer prints [1, null, 3] as "1 46 3" |
| Render.RowTextIntended | src/db/dbTable.cpp:24-26 | the row printer its comment describes, cells joined by one space with null as '.'; no contract of its own, `RowTextIntendedExample`, `ReadRowIntended` and `RowTextWithoutNulls` state its properties |
| Render.RowTextIntendedExample | src/db/dbTable.cpp:24-26 | the printer its comment describes prints [1, null, 3] as "1 . 3" |
| Render.ReadRowIntended | src/db/dbTable.cpp:24-26 | the intended row text splits back on spaces into the cells, nulls included: nothing is lost |
| Render.RowTextWithoutNulls | src/db/dbTable.cpp:22-33 | on a row without nulls the printer as written and the intended one print the same text |
| Render.LeadingWithoutNulls | src/db/dbTable.cpp:27-31 | with no nulls, the cells before the last, each followed by a space, then the last cell, are the cells joined by spaces |
| Render.CellTextsTail | src/db/dbTable.cpp:27-30 | printing the cells of a row is printing its first cell, then the rest |
| Render.TableLineSlots | src/db/dbTable.cpp:35-52 | when each cell fits in 6 characters, a table line is 6·nCols long and cell j sits right-aligned in characters 6j to 6j+6 |
| Render.ColumnTextSlots | src/db/dbTable.cpp:216-231 | when each cell fits in 2 characters, the column text is 2·nRows+1 long and row i's cell sits left-aligned in characters 2i to 2i+2 |
| Text.Find | src/db/dbTable.cpp:63 | a position found is at or after the start and holds the character |
| Text.FindFirst | src/db/dbTable.cpp:63 | the position found is the first one; when nothing is found, no later position holds the character |
| Text.FindShift | src/db/dbTable.cpp:74 | searching behind a prefix finds the position found in the rest, shifted by the prefix length |
| Text.FindAfterPrefix | src/db/dbTable.cpp:68 | in p + [ch] + rest with ch not in p, the first ch is at the position just after p |
| Text.SplitAt | src/db/dbTable.cpp:68-75 | no piece cut at the separator contains the separator |
| Text.SplitCount | src/db/dbTable.cpp:68-75 | the inner loop runs once per separator in the text |
| Text.SplitShift | src/db/dbTable.cpp:68-75 | splitting behind a prefix gives the pieces of the rest |
| Text.SplitJoin | src/db/dbTable.cpp:67-75 | pieces without the separator, joined and ended by the separator, split back into the same pieces |
| Text.JoinAvoids | src/db/dbTable.cpp:67-75 | joining pieces that avoid a character (not the separator) yields text that avoids it |
| Text.FormatInt | src/db/dbTable.cpp:29-31 | the decimal text of an integer is valid integer text and reads back as that integer |
| Text.ParseInt | src/db/dbTable.cpp:72 | `stoi` on decimal text with an optional leading '-'; no contract of its own, `FormatInt` and `ParseFormatNat` state that it reads back the decimal text of any integer |
| Text.ParseFormatNat | src/db/dbTable.cpp:72 | reading the decimal text of a natural number gives the number back |
| Text.PadLeft | src/db/dbTable.cpp:46-47 | `setw(w) << right`: the result is w long, or as long as t when t is longer, ends with t, and is blank before it |
| Text.PadRight | src/db/dbTable.cpp:226-227 | `setw(w) << left`: the result is w long, or as long as t when t is longer, starts with t, and is blank after it |
| Text.ConcatSlots | src/db/dbTable.cpp:40-50 | concatenating pieces of width w puts piece j at characters w·j to w·j+w |
| Csv.Decode | src/db/dbTable.cpp:72 | an empty field becomes null, any other field its int32 value |
| Csv.RecordFields | src/db/dbTable.cpp:67-75 | a record with k commas has k+1 fields, because line 67 appends the closing comma |
| Csv.ParseRecord | src/db/dbTable.cpp:66-75 | one record becomes a row of k+1 int32 cells |
| Csv.ScanEnds | src/db/dbTable.cpp:63-64 | when the outer loop of the parser stops: each `find` of '\r' must succeed until one returns the position the scan is at, the empty record; no contract of its own, `ScanRecord`, `ScanShift` and `NoEmptyRecordRejected` state its properties, and `Csv.Read` requires it |
| Csv.RecordTexts | src/db/dbTable.cpp:63-79 | the records the scan reads contain no '\r' |
| Csv.ParseRecords | src/db/dbTable.cpp:54-81 | one int32 row per record up to the empty record |
| Csv.ReadFields | src/db/dbTable.cpp:66-75 | the inner loop builds exactly the row `ParseRecord` gives for the record |
| Csv.Read | src/db/dbTable.cpp:54-81 | the parser appends the rows of the input's records, in order, to the table and keeps it valid |
| Csv.DecodeFormatCell | src/db/dbTable.cpp:72 | a cell written as a field reads back as the same cell |
| Csv.ParseFormatRecord | src/db/dbTable.cpp:66-75 | a row written as a record reads back as the same row |
| Csv.ScanShift | src/db/dbTable.cpp:77-78 | scanning behind a prefix reads the records of the rest |
| Csv.ScanRecord | src/db/dbTable.cpp:63-79 | a record followed by '\r' is read as one record, then the scan goes on with the rest |
| Csv.UnparseTexts | src/db/dbTable.cpp:63-79 | the records read from written rows are exactly the written records |
| Csv.ParseUnparse | src/db/dbTable.cpp:54-81 | any writable table written as text is accepted by the parser and parses back to the same rows |
| Csv.NoEmptyRecordRejected | src/db/dbTable.cpp:63-79 | text whose last record is not followed by an empty record, such as "1,2,,4\r5,,7,8\r", is not accepted, because the scan would not stop |

## Left out

- Stream input and output are not modelled. `getline` is replaced by the text given to `Csv.Read`, and the printers return their text instead of writing to `cout`.
- `src/db/dbTable.h` is not part of this model. Its helpers (`DBRow::addData`, `size`, `operator[]`, `DBTable::nRows`, `nCols`, `addRow`) are modelled from how this file uses them.
- DbTable.DBTable.NCols: `nCols()` is declared in `dbTable.h`, so its behaviour on zero rows is not modelled; the model uses 0.
- Float rounding is not modelled. `getMax`, `getMin` and `getSum` return `float`, and `getAve` divides a float by an int. The model computes these exactly, so a sum above 2^24 loses no precision here.
- NaN is modelled as `None`.
- Csv.Decode: `stoi` is modelled only on decimal int32 text with an optional leading '-'. `stoi` also accepts leading whitespace and a '+' sign, reads the longest numeric prefix, and throws on text that is not a number or overflows int32. Those inputs are excluded by `IsField`.
- The field text "2147483647" reads as a null cell, exactly as in the source. The writer never produces it from data, because it writes a null as an empty field.
- Csv.Read: requires `WellFormed`, meaning the scan reaches an empty record. Without one, `end_pos` becomes `npos`, `begin_pos` wraps to 0 and the parser never stops. The model does not capture that non-terminating run.
- Csv.Read: the `DBRow` allocated with `new` at line 66 is never deleted. The model builds the row as a fresh object and does not model the leak.
- DbTable.DBTable.Sort: `std::sort` is not stable. It may reorder rows that compare equal even when the table is already sorted; libstdc++ moves a median-of-three to the front of any range of more than 16 rows. The model uses a selection sort. Its permutation and sortedness clauses hold for any correct sort. Its clause that a sorted table comes back unchanged holds for this selection sort only, not for `std::sort`.
- DbSort.SortRows: the same applies. The clause that an already sorted array is left as it was describes this selection sort, not `std::sort`.
- DbTable.DBTable.GetMax: requires at least one row, because the source reads row 0 unconditionally. The same holds for DbTable.DBTable.GetMin.
- DbTable.DBTable.GetCount: the source comment calls it a count of distinct values, but the code counts every non-null cell. The model follows the code.
- Render.ColumnText: the `printCol` comment asks for one space between cells with no trailing space. The code pads each cell to 2 characters, left-aligned. The model follows the code.
- Render.RowText: requires at least one cell. On an empty row, `r.size()-1` wraps around as an unsigned value.
- The printers are plain functions. Their properties are stated as lemmas (`TableLineSlots`, `ColumnTextSlots`, `RowTextWithoutNulls`), not as the printers' own contracts.
- Bounds checks on column and row indices are preconditions. The source does not check them, and out-of-range access is undefined behaviour there.

## Findings

| source | as written | input that shows it | evidently intended | confidence | as-written member | corrected member |
|---|---|---|---|---|---|---|
| src/db/dbTable.cpp:154-159 | `getMax` seeds the scan with row 0's cell, and the scan never replaces a null seed, since no int32 is larger than `INT_MAX` | column [null, 5] gives NaN | ignore null cells: 5 | not executed | Aggregates.SeededMaxMissesData | DbTable.DBTable.GetMaxOfData |
| src/db/dbTable.cpp:29-31 | the conditional `'.' : r[i]` has type int, so a null prints as 46, and the last cell is printed without a null check | row [1, null, 3] prints "1 46 3" | "1 . 3", nulls as '.' (comment at 24-26) | not executed | Render.RowTextShowsNullAsCode | Render.RowTextIntended, Render.ReadRowIntended |
