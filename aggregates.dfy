/** What the column aggregates of DBTable compute, stated over the column's cells top to bottom.
    Every definition peels the last cell, the order in which the source's loops visit them. */
module Aggregates {
  import opened Cells

  /** Number of non-null cells, duplicates included. */
  function DataCount(col: seq<int>): (n: nat)
    ensures n <= |col|
    ensures n == 0 <==> forall i :: 0 <= i < |col| ==> col[i] == NullCell
  {
    assert forall i :: 0 <= i < |col| - 1 ==> col[..|col| - 1][i] == col[i];
    if |col| == 0 then 0
    else DataCount(col[..|col| - 1]) + (if col[|col| - 1] != NullCell then 1 else 0)
  }

  /** Sum of the non-null cells; 0 when there are none. */
  function DataSum(col: seq<int>): (s: int)
    ensures DataCount(col) == 0 ==> s == 0
  {
    if |col| == 0 then 0
    else DataSum(col[..|col| - 1]) + (if col[|col| - 1] != NullCell then col[|col| - 1] else 0)
  }

  /** Largest non-null cell, None when every cell is null. */
  function DataMax(col: seq<int>): (r: Option<int>)
    ensures r.None? <==> DataCount(col) == 0
    ensures r.Some? ==> r.value in col && r.value != NullCell
    ensures r.Some? ==> forall i :: 0 <= i < |col| && col[i] != NullCell ==> col[i] <= r.value
  {
    if |col| == 0 then None
    else
      var m, x := DataMax(col[..|col| - 1]), col[|col| - 1];
      assert col == col[..|col| - 1] + [x];
      assert forall i :: 0 <= i < |col| - 1 ==> col[..|col| - 1][i] == col[i];
      if x == NullCell || (m.Some? && x <= m.value) then m else Some(x)
  }

  /** Smallest non-null cell, None when every cell is null. */
  function DataMin(col: seq<int>): (r: Option<int>)
    ensures r.None? <==> DataCount(col) == 0
    ensures r.Some? ==> r.value in col && r.value != NullCell
    ensures r.Some? ==> forall i :: 0 <= i < |col| && col[i] != NullCell ==> r.value <= col[i]
  {
    if |col| == 0 then None
    else
      var m, x := DataMin(col[..|col| - 1]), col[|col| - 1];
      assert col == col[..|col| - 1] + [x];
      assert forall i :: 0 <= i < |col| - 1 ==> col[..|col| - 1][i] == col[i];
      if x == NullCell || (m.Some? && m.value <= x) then m else Some(x)
  }

  /** The running maximum of getMax as written: seeded with the first cell, replaced only by a
      larger cell that is not INT_MAX. */
  function MaxScan(col: seq<int>): int
    requires |col| > 0
  {
    if |col| == 1 then col[0]
    else
      var m, x := MaxScan(col[..|col| - 1]), col[|col| - 1];
      if m < x && x != IntMax then x else m
  }

  /** getMax's answer: NaN (None) when the running maximum ends at INT_MAX. */
  function SeededMax(col: seq<int>): Option<int>
    requires |col| > 0
  {
    var m := MaxScan(col);
    if m == IntMax then None else Some(m)
  }

  /** Over int32 cells the seeded maximum depends on the first cell: a null there makes it None
      whatever follows; otherwise it is the largest non-null cell. */
  lemma {:induction false} SeededMaxByFirstCell(col: seq<int>)
    requires |col| > 0 && IsInt32Row(col)
    ensures col[0] == NullCell ==> SeededMax(col) == None
    ensures col[0] != NullCell ==> SeededMax(col) == DataMax(col)
  {
    var n := |col| - 1;
    if n == 0 {
      assert col[..0] == [];
    } else {
      var p := col[..n];
      assert p[0] == col[0];
      SeededMaxByFirstCell(p);
      assert MaxScan(p) <= IntMax by { ScanBound(p); }
    }
  }

  lemma {:induction false} ScanBound(col: seq<int>)
    requires |col| > 0 && IsInt32Row(col)
    ensures IsInt32(MaxScan(col))
  {
    if |col| > 1 {
      ScanBound(col[..|col| - 1]);
    }
  }

  /** A column whose first cell is null but whose second holds 5: the seeded maximum is None,
      although the largest non-null cell is 5. */
  lemma SeededMaxMissesData()
    ensures SeededMax([NullCell, 5]) == None
    ensures DataMax([NullCell, 5]) == Some(5)
  {
    assert [NullCell, 5][..1] == [NullCell];
    assert [NullCell][..0] == [];
    assert MaxScan([NullCell]) == NullCell;
    assert MaxScan([NullCell, 5]) == NullCell;
  }

  /** The indices of the non-null cells. */
  function DataIndices(col: seq<int>): set<nat> {
    set i: nat | i < |col| && col[i] != NullCell
  }

  /** getCount counts cells, not distinct values: it is the number of positions holding data. */
  lemma {:induction false} DataCountIsIndexCount(col: seq<int>)
    ensures DataCount(col) == |DataIndices(col)|
  {
    if |col| > 0 {
      var n := |col| - 1;
      DataCountIsIndexCount(col[..n]);
      if col[n] != NullCell {
        assert DataIndices(col) == DataIndices(col[..n]) + {n};
      } else {
        assert DataIndices(col) == DataIndices(col[..n]);
      }
    }
  }

  /** Cells minus null cells, counted as a multiset. */
  lemma {:induction false} DataCountByMultiset(col: seq<int>)
    ensures DataCount(col) == |col| - multiset(col)[NullCell]
  {
    if |col| > 0 {
      var n := |col| - 1;
      assert col == col[..n] + [col[n]];
      DataCountByMultiset(col[..n]);
    }
  }

  /** Reordering the cells (as sorting the rows does) keeps the count. */
  lemma DataCountPermutation(a: seq<int>, b: seq<int>)
    requires multiset(a) == multiset(b)
    ensures DataCount(a) == DataCount(b)
  {
    DataCountByMultiset(a);
    DataCountByMultiset(b);
    assert |a| == |multiset(a)| == |multiset(b)| == |b|;
  }

  lemma {:induction false} DataSumAppend(a: seq<int>, b: seq<int>)
    ensures DataSum(a + b) == DataSum(a) + DataSum(b)
    decreases |b|
  {
    if |b| == 0 {
      assert a + b == a;
    } else {
      var n := |b| - 1;
      assert (a + b)[..|a + b| - 1] == a + b[..n];
      DataSumAppend(a, b[..n]);
    }
  }

  /** Reordering the cells keeps the sum. */
  lemma {:induction false} DataSumPermutation(a: seq<int>, b: seq<int>)
    requires multiset(a) == multiset(b)
    ensures DataSum(a) == DataSum(b)
    decreases |a|
  {
    if |a| == 0 {
      assert |b| == |multiset(b)| == 0;
    } else {
      var n := |a| - 1;
      var x := a[n];
      assert a == a[..n] + [x];
      assert multiset(a) == multiset(a[..n]) + multiset{x};
      assert x in multiset(b);
      var k :| 0 <= k < |b| && b[k] == x;
      var b' := b[..k] + b[k + 1..];
      RemoveOne(b, k);
      assert multiset(a[..n]) == multiset(b');
      DataSumPermutation(a[..n], b');
      DataSumAppend(a[..n], [x]);
      DataSumRemove(b, k);
    }
  }

  /** Taking out the cell at k removes one copy of it. */
  lemma RemoveOne(b: seq<int>, k: nat)
    requires k < |b|
    ensures multiset(b[..k] + b[k + 1..]) == multiset(b) - multiset{b[k]}
  {
    SplitAround(b, k);
    assert multiset(b) == multiset(b[..k]) + multiset{b[k]} + multiset(b[k + 1..]);
  }

  lemma SplitAround(b: seq<int>, k: nat)
    requires k < |b|
    ensures b == (b[..k] + [b[k]]) + b[k + 1..]
  {
  }

  /** The sum with the cell at k is the sum without it plus that cell's share. */
  lemma DataSumRemove(b: seq<int>, k: nat)
    requires k < |b|
    ensures DataSum(b) == DataSum(b[..k] + b[k + 1..]) + DataSum([b[k]])
  {
    var front, x, back := b[..k], b[k], b[k + 1..];
    SplitAround(b, k);
    DataSumAppend(front + [x], back);
    DataSumAppend(front, [x]);
    DataSumAppend(front, back);
    assert DataSum(b) == DataSum(front) + DataSum([x]) + DataSum(back);
  }

  /** The average lies between the smallest and the largest non-null cell:
      min * count <= sum <= max * count. */
  lemma {:induction false} SumWithinRange(col: seq<int>)
    requires DataCount(col) > 0
    ensures DataMin(col).value * DataCount(col) <= DataSum(col) <= DataMax(col).value * DataCount(col)
  {
    var n := |col| - 1;
    var p, x := col[..n], col[n];
    if x == NullCell {
      SumWithinRange(p);
      assert DataCount(col) == DataCount(p) && DataSum(col) == DataSum(p);
    } else if DataCount(p) == 0 {
      assert DataSum(col) == x;
    } else {
      SumWithinRange(p);
      var c := DataCount(p);
      assert DataCount(col) == c + 1;
      assert DataSum(col) == DataSum(p) + x;
      BoundsStep(DataMin(p).value, DataMax(p).value, DataMin(col).value, DataMax(col).value,
                 x, c, DataSum(p));
    }
  }

  lemma BoundsStep(lo: int, hi: int, lo': int, hi': int, x: int, c: nat, s: int)
    requires lo * c <= s <= hi * c
    requires lo' == (if lo <= x then lo else x) && hi' == (if x <= hi then hi else x)
    ensures lo' * (c + 1) <= s + x <= hi' * (c + 1)
  {
    assert lo' * c <= lo * c by { MulMonotone(lo', lo, c); }
    assert hi * c <= hi' * c by { MulMonotone(hi, hi', c); }
    assert lo' * (c + 1) == lo' * c + lo';
    assert hi' * (c + 1) == hi' * c + hi';
  }

  lemma MulMonotone(a: int, b: int, c: nat)
    requires a <= b
    ensures a * c <= b * c
  {
  }

  /** Non-null cells among the first nc cells of each row: the count printSummary reports. */
  function TotalData(rows: seq<seq<int>>, nc: nat): (n: nat)
    requires forall i :: 0 <= i < |rows| ==> nc <= |rows[i]|
    ensures n <= |rows| * nc
  {
    if |rows| == 0 then 0
    else
      var last := rows[|rows| - 1];
      assert (|rows| - 1) * nc + nc == |rows| * nc;
      TotalData(rows[..|rows| - 1], nc) + DataCount(last[..nc])
  }

  /** getCount summed over the first k columns. */
  function ColumnsTotal(rows: seq<seq<int>>, k: nat): nat
    requires forall i :: 0 <= i < |rows| ==> k <= |rows[i]|
  {
    if k == 0 then 0 else ColumnsTotal(rows, k - 1) + DataCount(Column(rows, k - 1))
  }

  /** One more cell counts one more exactly when it is not null. */
  lemma DataCountSnoc(col: seq<int>, x: int)
    ensures DataCount(col + [x]) == DataCount(col) + (if x != NullCell then 1 else 0)
  {
    assert (col + [x])[..|col|] == col;
  }

  lemma {:induction false} ColumnsTotalAppendRow(rows: seq<seq<int>>, r: seq<int>, k: nat)
    requires forall i :: 0 <= i < |rows| ==> k <= |rows[i]|
    requires k <= |r|
    ensures ColumnsTotal(rows + [r], k) == ColumnsTotal(rows, k) + DataCount(r[..k])
  {
    if k > 0 {
      ColumnsTotalAppendRow(rows, r, k - 1);
      var col, x := Column(rows, k - 1), r[k - 1];
      assert Column(rows + [r], k - 1) == col + [x];
      DataCountSnoc(col, x);
      assert r[..k] == r[..k - 1] + [x];
      DataCountSnoc(r[..k - 1], x);
    }
  }

  /** The summary's data count equals the sum of getCount over every column. */
  lemma {:induction false} TotalDataByColumns(rows: seq<seq<int>>, nc: nat)
    requires forall i :: 0 <= i < |rows| ==> nc <= |rows[i]|
    ensures TotalData(rows, nc) == ColumnsTotal(rows, nc)
  {
    if |rows| == 0 {
      ColumnsTotalOfNoRows(nc);
    } else {
      var n := |rows| - 1;
      assert rows == rows[..n] + [rows[n]];
      TotalDataByColumns(rows[..n], nc);
      ColumnsTotalAppendRow(rows[..n], rows[n], nc);
    }
  }

  lemma {:induction false} ColumnsTotalOfNoRows(k: nat)
    ensures ColumnsTotal([], k) == 0
  {
    if k > 0 {
      ColumnsTotalOfNoRows(k - 1);
    }
  }
}
