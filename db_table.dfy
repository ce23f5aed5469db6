/** DBTable: an ordered vector of rows, edited in place, with per-column aggregates and sorting. */
module DbTable {
  import opened Cells
  import opened Aggregates
  import opened DbRow
  import opened DbSort
  import opened Render

  /** The rows with the cell at c taken out of each. */
  function DeleteColumn(rows: seq<seq<int>>, c: nat): seq<seq<int>>
    requires HasColumn(rows, c)
  {
    seq(|rows|, i requires 0 <= i < |rows| => Erase(rows[i], c))
  }

  /** The rows with d[i] added at the end of row i. */
  function AppendColumn(rows: seq<seq<int>>, d: seq<int>): seq<seq<int>>
    requires |rows| <= |d|
  {
    seq(|rows|, i requires 0 <= i < |rows| => rows[i] + [d[i]])
  }

  /** Adding a column to a table of width w and then deleting column w gives the table back. */
  lemma AppendThenDeleteColumn(rows: seq<seq<int>>, d: seq<int>, w: nat)
    requires HasWidth(rows, w) && |rows| <= |d|
    ensures HasColumn(AppendColumn(rows, d), w)
    ensures DeleteColumn(AppendColumn(rows, d), w) == rows
  {
    var added := AppendColumn(rows, d);
    forall i | 0 <= i < |rows|
      ensures Erase(added[i], w) == rows[i]
    {
      assert added[i] == rows[i] + [d[i]];
    }
  }

  /** Deleting column c and adding the same cells back puts them at the end of each row: every row
      keeps its cells, and the table comes back unchanged only when c was the last column. */
  lemma DeleteThenAppendColumn(rows: seq<seq<int>>, c: nat)
    requires HasColumn(rows, c)
    ensures forall i :: 0 <= i < |rows| ==>
              multiset(AppendColumn(DeleteColumn(rows, c), Column(rows, c))[i]) == multiset(rows[i])
    ensures HasWidth(rows, c + 1) ==> AppendColumn(DeleteColumn(rows, c), Column(rows, c)) == rows
  {
    var back := AppendColumn(DeleteColumn(rows, c), Column(rows, c));
    forall i | 0 <= i < |rows|
      ensures multiset(back[i]) == multiset(rows[i])
      ensures |rows[i]| == c + 1 ==> back[i] == rows[i]
    {
      assert back[i] == Erase(rows[i], c) + [rows[i][c]];
      if |rows[i]| == c + 1 {
        assert rows[i] == rows[i][..c] + [rows[i][c]];
      }
    }
  }

  class DBTable {
    var table: seq<seq<int>>

    /** Every cell is an int32, so NullCell is the largest value a cell can hold. */
    predicate Valid()
      reads this
    {
      forall i :: 0 <= i < |table| ==> IsInt32Row(table[i])
    }

    constructor ()
      ensures Valid() && table == []
    {
      table := [];
    }

    /** nRows(): the number of rows. */
    function NRows(): nat
      reads this
    {
      |table|
    }

    /** nCols(): the length of row 0, taken as 0 for a table with no rows. */
    function NCols(): nat
      reads this
    {
      Width(table)
    }

    /** reset: no rows are left. */
    method Reset()
      modifies this
      ensures Valid() && table == []
    {
      table := [];
    }

    /** addRow: the row goes after the existing ones. */
    method AddRow(r: seq<int>)
      requires Valid() && IsInt32Row(r)
      modifies this
      ensures Valid() && table == old(table) + [r]
      ensures Rectangular(old(table)) && (old(table) == [] || |r| == Width(old(table))) ==> Rectangular(table)
    {
      table := table + [r];
    }

    /** addCol(d): d[i] goes to the end of row i; the row count stays, the width grows by one. */
    method AddCol(d: seq<int>)
      requires Valid() && |table| <= |d| && IsInt32Row(d)
      modifies this
      ensures Valid() && table == AppendColumn(old(table), d)
      ensures forall w: nat :: HasWidth(old(table), w) ==> HasWidth(table, w + 1)
    {
      var i := 0;
      while i < NRows()
        invariant 0 <= i <= |table| == |old(table)|
        invariant forall k :: 0 <= k < i ==> table[k] == old(table)[k] + [d[k]]
        invariant forall k :: i <= k < |table| ==> table[k] == old(table)[k]
      {
        table := table[i := table[i] + [d[i]]];
        i := i + 1;
      }
      assert table == AppendColumn(old(table), d);
    }

    /** delRow(c): row c leaves, the others keep their order. */
    method DelRow(c: nat)
      requires Valid() && c < |table|
      modifies this
      ensures Valid() && table == old(table)[..c] + old(table)[c + 1..]
      ensures multiset(table) + multiset{old(table)[c]} == multiset(old(table))
      ensures forall w: nat :: HasWidth(old(table), w) ==> HasWidth(table, w)
    {
      assert table == table[..c] + [table[c]] + table[c + 1..];
      table := table[..c] + table[c + 1..];
    }

    /** delCol(c): removeCell(c) on every row, that is Erase (RemoveCell's contract) applied to each
        row value; the row count stays, the width shrinks by one. */
    method DelCol(c: nat)
      requires Valid() && HasColumn(table, c)
      modifies this
      ensures Valid() && table == DeleteColumn(old(table), c)
      ensures forall w: nat :: HasWidth(old(table), w + 1) ==> HasWidth(table, w)
    {
      var i := 0;
      while i < NRows()
        invariant 0 <= i <= |table| == |old(table)|
        invariant forall k :: 0 <= k < i ==> table[k] == Erase(old(table)[k], c)
        invariant forall k :: i <= k < |table| ==> table[k] == old(table)[k]
      {
        table := table[i := Erase(table[i], c)];
        i := i + 1;
      }
      assert table == DeleteColumn(old(table), c);
    }

    /** getMax(c) as written: the running maximum starts from row 0. When that cell is null the
        answer is NaN (None) whatever the other rows hold; otherwise it is the largest non-null cell. */
    method GetMax(c: nat) returns (r: Option<int>)
      requires Valid() && |table| > 0 && HasColumn(table, c)
      ensures r == SeededMax(Column(table, c))
      ensures table[0][c] == NullCell ==> r == None
      ensures table[0][c] != NullCell ==> r == DataMax(Column(table, c))
    {
      ghost var col := Column(table, c);
      var max := table[0][c];
      var i := 1;
      assert col[..1] == [max];
      while i < NRows()
        invariant 1 <= i <= |table|
        invariant max == MaxScan(col[..i])
      {
        assert col[..i + 1][..i] == col[..i];
        var x := table[i][c];
        max := if max < x && x != IntMax then x else max;
        i := i + 1;
      }
      assert col[..i] == col;
      r := if max == IntMax then None else Some(max);
      SeededMaxByFirstCell(col);
    }

    /** getMax(c) as its comment describes it: the largest non-null cell of column c, NaN (None)
        exactly when every cell is null or there are no rows. */
    method GetMaxOfData(c: nat) returns (r: Option<int>)
      requires Valid() && HasColumn(table, c)
      ensures r == DataMax(Column(table, c))
    {
      ghost var col := Column(table, c);
      var found, max := false, 0;
      var i := 0;
      while i < NRows()
        invariant 0 <= i <= |table|
        invariant (if found then Some(max) else None) == DataMax(col[..i])
      {
        assert col[..i + 1][..i] == col[..i];
        var x := table[i][c];
        if x != NullCell && (!found || max < x) {
          found, max := true, x;
        }
        i := i + 1;
      }
      assert col[..i] == col;
      r := if found then Some(max) else None;
    }

    /** getMin(c): the smallest non-null cell of column c, NaN (None) exactly when every cell is
        null. A null never wins because NullCell is the largest int32. */
    method GetMin(c: nat) returns (r: Option<int>)
      requires Valid() && |table| > 0 && HasColumn(table, c)
      ensures r == DataMin(Column(table, c))
    {
      ghost var col := Column(table, c);
      var min := table[0][c];
      var i := 1;
      assert col[..1] == [min];
      while i < NRows()
        invariant 1 <= i <= |table|
        invariant min <= NullCell
        invariant (if min == NullCell then None else Some(min)) == DataMin(col[..i])
      {
        assert col[..i + 1][..i] == col[..i];
        var x := table[i][c];
        min := if min > x then x else min;
        i := i + 1;
      }
      assert col[..i] == col;
      r := if min == IntMax then None else Some(min);
    }

    /** getSum(c): the sum of the non-null cells of column c, NaN (None) exactly when there are
        none, with no rows included. */
    method GetSum(c: nat) returns (r: Option<int>)
      requires Valid() && HasColumn(table, c)
      ensures r.None? <==> DataCount(Column(table, c)) == 0
      ensures r.Some? ==> r.value == DataSum(Column(table, c))
    {
      ghost var col := Column(table, c);
      var flag, sum := 0, 0;
      var i := 0;
      while i < NRows()
        invariant 0 <= i <= |table|
        invariant sum == DataSum(col[..i])
        invariant flag != 0 <==> DataCount(col[..i]) > 0
      {
        assert col[..i + 1][..i] == col[..i];
        var x := table[i][c];
        sum := sum + if x == IntMax then 0 else x;
        flag := if x != IntMax then 1 else flag;
        i := i + 1;
      }
      assert col[..i] == col;
      r := if flag == 0 then None else Some(sum);
    }

    /** getCount(c): how many rows hold a non-null cell c, equal values counted each time. */
    method GetCount(c: nat) returns (n: nat)
      requires Valid() && HasColumn(table, c)
      ensures n == DataCount(Column(table, c))
      ensures n == |DataIndices(Column(table, c))| && n <= |table|
    {
      ghost var col := Column(table, c);
      var count := 0;
      var i := 0;
      while i < NRows()
        invariant 0 <= i <= |table|
        invariant count == DataCount(col[..i])
      {
        assert col[..i + 1][..i] == col[..i];
        count := if table[i][c] == IntMax then count else count + 1;
        i := i + 1;
      }
      assert col[..i] == col;
      n := count;
      DataCountIsIndexCount(col);
    }

    /** getAve(c): NaN (None) when getCount(c) is 0, otherwise getSum(c) / getCount(c), which lies
        between the smallest and the largest non-null cell. */
    method GetAve(c: nat) returns (r: Option<real>)
      requires Valid() && HasColumn(table, c)
      ensures r.None? <==> DataCount(Column(table, c)) == 0
      ensures r.Some? ==> r.value == DataSum(Column(table, c)) as real / DataCount(Column(table, c)) as real
      ensures r.Some? ==> DataMin(Column(table, c)).value as real <= r.value <= DataMax(Column(table, c)).value as real
    {
      ghost var col := Column(table, c);
      var n := GetCount(c);
      if n == 0 {
        r := None;
      } else {
        var s := GetSum(c);
        assert s.value == DataSum(col) && n == DataCount(col);
        r := Some(s.value as real / n as real);
        AverageWithinRange(col);
      }
    }

    /** sort(s): the rows end up a permutation of what they were, with no row less than the one
        before it under s; rows already in order stay as they are. */
    method Sort(s: DBSort)
      requires Valid() && AllHaveKeys(s.sortOrder, table)
      modifies this
      ensures Valid() && multiset(table) == multiset(old(table))
      ensures AllHaveKeys(s.sortOrder, table) && Sorted(s.sortOrder, table)
      ensures Sorted(s.sortOrder, old(table)) ==> table == old(table)
      ensures forall w: nat :: HasWidth(old(table), w) ==> HasWidth(table, w)
    {
      var rows := table;
      var a := new seq<int>[|rows|](i requires 0 <= i < |rows| => rows[i]);
      assert a[..] == rows;
      SortRows(a, s.sortOrder);
      table := a[..];
      forall i | 0 <= i < |table|
        ensures table[i] in old(table)
      {
        assert table[i] in multiset(old(table));
      }
    }

    /** printSummary: the row count, nCols() and the number of non-null cells among the first
        nCols() cells of every row. */
    method PrintSummary() returns (text: string)
      requires forall i :: 0 <= i < |table| ==> NCols() <= |table[i]|
      ensures text == SummaryText(|table|, NCols(), TotalData(table, NCols()))
    {
      var nr, nc, nv := NRows(), NCols(), 0;
      var i := 0;
      while i < nr
        invariant 0 <= i <= nr
        invariant nv == TotalData(table[..i], nc)
      {
        var j := 0;
        assert table[..i + 1][..i] == table[..i];
        while j < nc
          invariant 0 <= j <= nc
          invariant nv == TotalData(table[..i], nc) + DataCount(table[i][..j])
        {
          assert table[i][..j + 1][..j] == table[i][..j];
          if table[i][j] != IntMax {
            nv := nv + 1;
          }
          j := j + 1;
        }
        i := i + 1;
      }
      assert table[..nr] == table;
      text := SummaryText(nr, nc, nv);
    }
  }

  /** The exact average of the non-null cells lies between their minimum and their maximum. */
  lemma AverageWithinRange(col: seq<int>)
    requires DataCount(col) > 0
    ensures var a := DataSum(col) as real / DataCount(col) as real;
            a * DataCount(col) as real == DataSum(col) as real
            && DataMin(col).value as real <= a <= DataMax(col).value as real
  {
    SumWithinRange(col);
    QuotientBounds(DataMin(col).value, DataMax(col).value, DataSum(col), DataCount(col));
  }

  lemma QuotientBounds(lo: int, hi: int, s: int, n: nat)
    requires n > 0 && lo * n <= s <= hi * n
    ensures s as real / n as real * n as real == s as real
    ensures lo as real <= s as real / n as real <= hi as real
  {
    assert (lo * n) as real == lo as real * n as real;
    assert (hi * n) as real == hi as real * n as real;
  }
}
