/** The text the table's printers produce (operator<< for a row and a table, printCol, printSummary),
    as functions returning that text; where it goes is left to the caller. */
module Render {
  import opened Cells
  import opened Text

  /** A cell as the table and column printers show it: '.' for null, decimal otherwise. */
  function CellText(x: int): (t: string)
    ensures t == "." <==> x == NullCell
    ensures x != NullCell ==> IsIntText(t) && ParseInt(t) == x
    ensures ' ' !in t
  {
    if x == NullCell then "." else FormatInt(x)
  }

  function CellTexts(r: seq<int>): seq<string> {
    seq(|r|, j requires 0 <= j < |r| => CellText(r[j]))
  }

  lemma CellTextsTail(r: seq<int>)
    requires |r| > 0
    ensures CellTexts(r)[0] == CellText(r[0]) && CellTexts(r)[1..] == CellTexts(r[1..])
  {
    forall j | 0 <= j < |r| - 1
      ensures CellTexts(r)[1..][j] == CellTexts(r[1..])[j]
    {
      assert r[1..][j] == r[j + 1];
    }
  }

  // ----- operator<<(ostream&, const DBRow&), as written -----

  /** The cells before the last, each followed by a space. The conditional of dbTable.cpp line 29
      has type int, so a null cell prints as 46, the character code of '.'. */
  function RowLeading(cells: seq<int>): string {
    if |cells| == 0 then ""
    else FormatInt(if cells[0] == NullCell then '.' as int else cells[0]) + " " + RowLeading(cells[1..])
  }

  /** A row as dbTable.cpp lines 22-33 print it: the last cell goes out without a null check. */
  function RowText(r: seq<int>): string
    requires |r| > 0
  {
    RowLeading(r[..|r| - 1]) + FormatInt(r[|r| - 1]) + "\n"
  }

  /** The row [1, null, 3] prints as "1 46 3", not as "1 . 3". */
  lemma RowTextShowsNullAsCode()
    ensures RowText([1, NullCell, 3]) == "1 46 3\n"
  {
    assert '.' as int == 46;
    assert FormatInt(1) == "1" && FormatInt(3) == "3";
    assert FormatNat(46) == FormatNat(4) + [DigitChar(6)];
    assert FormatInt(46) == "46";
    assert [1, NullCell, 3][..2] == [1, NullCell];
    assert [1, NullCell][1..] == [NullCell];
    assert [NullCell][1..] == [];
    assert RowLeading([NullCell]) == "46 ";
    assert RowLeading([1, NullCell]) == "1 46 ";
  }

  // ----- the row printer as its comment describes it -----

  /** Cells separated by one space, no trailing space, null shown as '.'. */
  function RowTextIntended(r: seq<int>): string
    requires |r| > 0
  {
    Join(CellTexts(r), ' ') + "\n"
  }

  lemma RowTextIntendedExample()
    ensures RowTextIntended([1, NullCell, 3]) == "1 . 3\n"
  {
    assert FormatInt(1) == "1" && FormatInt(3) == "3";
    assert CellTexts([1, NullCell, 3]) == ["1", ".", "3"];
    assert ["1", ".", "3"][1..] == [".", "3"];
    assert [".", "3"][1..] == ["3"];
  }

  predicate IsCellText(t: string) {
    t == "." || IsIntText(t)
  }

  function ReadCell(t: string): int
    requires IsCellText(t)
  {
    if t == "." then NullCell else ParseInt(t)
  }

  /** A reader for the intended row text: drop the newline, split on spaces, read each word. */
  function ReadRow(line: string): seq<int>
    requires |line| > 0
    requires forall w :: w in Split(line[..|line| - 1] + " ", ' ') ==> IsCellText(w)
  {
    var words := Split(line[..|line| - 1] + " ", ' ');
    seq(|words|, j requires 0 <= j < |words| => ReadCell(words[j]))
  }

  /** The intended row text loses nothing: reading it back gives the row, nulls included. */
  lemma ReadRowIntended(r: seq<int>)
    requires |r| > 0
    ensures var line := RowTextIntended(r);
            |line| > 0 && (forall w :: w in Split(line[..|line| - 1] + " ", ' ') ==> IsCellText(w))
            && ReadRow(line) == r
  {
    var line := RowTextIntended(r);
    assert line[..|line| - 1] == Join(CellTexts(r), ' ');
    SplitJoin(CellTexts(r), ' ');
  }

  /** The two printers differ only on null cells: on a row without nulls they print the same. */
  lemma {:induction false} RowTextWithoutNulls(r: seq<int>)
    requires |r| > 0 && forall j :: 0 <= j < |r| ==> r[j] != NullCell
    ensures RowText(r) == RowTextIntended(r)
  {
    LeadingWithoutNulls(r[..|r| - 1], r[|r| - 1]);
    assert r[..|r| - 1] + [r[|r| - 1]] == r;
  }

  lemma {:induction false} LeadingWithoutNulls(cells: seq<int>, last: int)
    requires forall j :: 0 <= j < |cells| ==> cells[j] != NullCell
    requires last != NullCell
    ensures RowLeading(cells) + FormatInt(last) == Join(CellTexts(cells + [last]), ' ')
  {
    var all := cells + [last];
    if |cells| == 0 {
      assert CellTexts(all) == [FormatInt(last)];
    } else {
      var tail := cells[1..];
      LeadingWithoutNulls(tail, last);
      assert all[1..] == tail + [last];
      CellTextsTail(all);
      assert Join(CellTexts(all), ' ') == FormatInt(cells[0]) + [' '] + Join(CellTexts(tail + [last]), ' ');
    }
  }

  // ----- operator<<(ostream&, const DBTable&) -----

  /** The first nc cells of a row, each right-aligned in a field of 6 (setw(6) << right). */
  function TableLine(r: seq<int>, nc: nat): string
    requires nc <= |r|
  {
    Concat(seq(nc, j requires 0 <= j < nc => PadLeft(CellText(r[j]), 6)))
  }

  /** Every row as a TableLine over nCols() cells, each line ended by a newline. */
  function TableText(rows: seq<seq<int>>): string
    requires forall i :: 0 <= i < |rows| ==> Width(rows) <= |rows[i]|
  {
    Concat(seq(|rows|, i requires 0 <= i < |rows| => TableLine(rows[i], Width(rows)) + "\n"))
  }

  /** When no cell needs more than 6 characters, cell j of a line sits in characters 6*j up to
      6*j + 6, right-aligned: the columns line up. */
  lemma TableLineSlots(r: seq<int>, nc: nat, j: nat)
    requires nc <= |r| && j < nc
    requires forall k :: 0 <= k < nc ==> |CellText(r[k])| <= 6
    ensures |TableLine(r, nc)| == 6 * nc
    ensures TableLine(r, nc)[6 * j..6 * j + 6] == PadLeft(CellText(r[j]), 6)
  {
    ConcatSlots(seq(nc, k requires 0 <= k < nc => PadLeft(CellText(r[k]), 6)), 6, j);
  }

  // ----- DBTable::printCol -----

  /** The cells of column c, each left-aligned in a field of 2 (setw(2) << left), then a newline. */
  function ColumnText(rows: seq<seq<int>>, c: nat): string
    requires HasColumn(rows, c)
  {
    Concat(seq(|rows|, i requires 0 <= i < |rows| => PadRight(CellText(rows[i][c]), 2))) + "\n"
  }

  /** When no cell of the column needs more than 2 characters, the cell of row i sits in characters
      2*i up to 2*i + 2, left-aligned. */
  lemma ColumnTextSlots(rows: seq<seq<int>>, c: nat, i: nat)
    requires HasColumn(rows, c) && i < |rows|
    requires forall k :: 0 <= k < |rows| ==> |CellText(rows[k][c])| <= 2
    ensures |ColumnText(rows, c)| == 2 * |rows| + 1
    ensures ColumnText(rows, c)[2 * i..2 * i + 2] == PadRight(CellText(rows[i][c]), 2)
  {
    ConcatSlots(seq(|rows|, k requires 0 <= k < |rows| => PadRight(CellText(rows[k][c]), 2)), 2, i);
  }

  // ----- DBTable::printSummary -----

  /** The summary line for nr rows, nc columns and nv non-null cells. */
  function SummaryText(nr: nat, nc: nat, nv: nat): string {
    "(#rows, #cols, #data) = (" + FormatInt(nr) + ", " + FormatInt(nc) + ", " + FormatInt(nv) + ")\n"
  }
}
