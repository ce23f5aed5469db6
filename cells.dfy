/** Cells of the in-memory table: 32-bit C++ ints, with INT_MAX reserved as the null sentinel. */
module Cells {

  /** The "no data" answer of an aggregate: None stands for the NaN the source returns. */
  datatype Option<T> = None | Some(value: T)

  const IntMin: int := -0x8000_0000
  const IntMax: int := 0x7fff_ffff

  /** A null (empty) cell. It is INT_MAX, so it compares above every real value. */
  const NullCell: int := IntMax

  predicate IsInt32(x: int) {
    IntMin <= x <= IntMax
  }

  predicate IsInt32Row(r: seq<int>) {
    forall j :: 0 <= j < |r| ==> IsInt32(r[j])
  }

  /** nCols(): the length of the first row, 0 for a table without rows. */
  function Width(rows: seq<seq<int>>): nat {
    if |rows| == 0 then 0 else |rows[0]|
  }

  /** Every row has exactly `w` cells. */
  predicate HasWidth(rows: seq<seq<int>>, w: nat) {
    forall i :: 0 <= i < |rows| ==> |rows[i]| == w
  }

  /** Every row has the same length. */
  predicate Rectangular(rows: seq<seq<int>>) {
    HasWidth(rows, Width(rows))
  }

  /** Every row has a cell at position c. */
  predicate HasColumn(rows: seq<seq<int>>, c: nat) {
    forall i :: 0 <= i < |rows| ==> c < |rows[i]|
  }

  /** The cells at position c, top to bottom. */
  function Column(rows: seq<seq<int>>, c: nat): seq<int>
    requires HasColumn(rows, c)
  {
    seq(|rows|, i requires 0 <= i < |rows| => rows[i][c])
  }
}
