/** DBRow: one row of the table, an ordered sequence of int cells updated in place. */
module DbRow {
  import opened Cells

  /** The row with the cell at position c taken out and the later cells moved one place left
      (vector::erase at dbTable.cpp line 90). */
  function Erase(r: seq<int>, c: nat): (r': seq<int>)
    requires c < |r|
    ensures |r'| == |r| - 1
    ensures forall j :: 0 <= j < c ==> r'[j] == r[j]
    ensures forall j :: c <= j < |r'| ==> r'[j] == r[j + 1]
    ensures multiset(r') + multiset{r[c]} == multiset(r)
  {
    assert r == r[..c] + [r[c]] + r[c + 1..];
    r[..c] + r[c + 1..]
  }

  class DBRow {
    var data: seq<int>

    constructor ()
      ensures data == []
    {
      data := [];
    }

    /** addData: append one cell (a value or NullCell) at the end. */
    method AddData(x: int)
      modifies this
      ensures data == old(data) + [x]
    {
      data := data + [x];
    }

    /** removeCell(c): the cell at c leaves the row, the others keep their order. */
    method RemoveCell(c: nat)
      requires c < |data|
      modifies this
      ensures data == Erase(old(data), c)
    {
      data := data[..c] + data[c + 1..];
    }
  }
}
