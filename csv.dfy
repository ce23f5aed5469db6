/** operator>>(ifstream&, DBTable&): the line of text holds every record, records end with '\r'
    and fields end with ','. Each record becomes one row, appended in input order. */
module Csv {
  import opened Cells
  import opened Text
  import opened DbRow
  import opened DbTable

  /** A field the parser accepts: empty, or decimal text of an int32 (what stoi is given). */
  predicate IsField(f: string) {
    f == "" || (IsIntText(f) && IsInt32(ParseInt(f)))
  }

  /** dbTable.cpp line 72: an empty field becomes null; any other is converted with stoi. */
  function Decode(f: string): (x: int)
    requires IsField(f)
    ensures IsInt32(x)
  {
    if f == "" then NullCell else ParseInt(f)
  }

  /** The fields of one record: the comma appended at dbTable.cpp line 67 ends the last field,
      so a record with k commas has k + 1 fields. */
  function RecordFields(rec: string): (fields: seq<string>)
    ensures |fields| == multiset(rec)[','] + 1
  {
    assert multiset(rec + ",") == multiset(rec) + multiset{','};
    assert (rec + ",")[0..] == rec + ",";
    SplitCount(rec + ",", ',', 0);
    Split(rec + ",", ',')
  }

  predicate IsRecord(rec: string) {
    forall f :: f in RecordFields(rec) ==> IsField(f)
  }

  /** The row one record becomes: one int32 cell per field. */
  function ParseRecord(rec: string): (row: seq<int>)
    requires IsRecord(rec)
    ensures |row| == multiset(rec)[','] + 1 && IsInt32Row(row)
  {
    var fields := RecordFields(rec);
    seq(|fields|, j requires 0 <= j < |fields| => Decode(fields[j]))
  }

  /** The record scan from position b: each record runs up to the next '\r', and the scan stops at
      the first empty record, which must be there (without one the source wraps begin_pos round
      to 0 and never stops). */
  predicate ScanEnds(s: string, b: nat)
    decreases |s| - b
  {
    match Find(s, '\r', b)
    case None => false
    case Some(e) => e == b || ScanEnds(s, e + 1)
  }

  /** The texts of the records the scan from b meets before the empty one, in input order. */
  function RecordTexts(s: string, b: nat): (texts: seq<string>)
    requires ScanEnds(s, b)
    ensures forall i :: 0 <= i < |texts| ==> '\r' !in texts[i]
    decreases |s| - b
  {
    var e := Find(s, '\r', b).value;
    FindFirst(s, '\r', b);
    assert forall k :: 0 <= k < e - b ==> s[b..e][k] != '\r';
    if e == b then [] else [s[b..e]] + RecordTexts(s, e + 1)
  }

  /** Input operator>> reads to the end: the scan stops, and every record before the stop is made
      of fields stoi accepts. */
  predicate WellFormed(s: string) {
    ScanEnds(s, 0) && forall i :: 0 <= i < |RecordTexts(s, 0)| ==> IsRecord(RecordTexts(s, 0)[i])
  }

  /** The rows read from the line: one per record, in input order. */
  function ParseRecords(s: string): (rows: seq<seq<int>>)
    requires WellFormed(s)
    ensures |rows| == |RecordTexts(s, 0)|
    ensures forall i :: 0 <= i < |rows| ==> IsInt32Row(rows[i])
  {
    var texts := RecordTexts(s, 0);
    seq(|texts|, i requires 0 <= i < |texts| => ParseRecord(texts[i]))
  }

  /** Taking the next piece off the pieces still to be read. */
  lemma DropOne(pieces: seq<string>, k: nat, piece: string, after: seq<string>)
    requires k <= |pieces| && pieces[k..] == [piece] + after
    ensures k < |pieces| && pieces[k] == piece && pieces[k + 1..] == after
  {
    assert pieces[k..][0] == piece;
    assert pieces[k + 1..] == pieces[k..][1..];
  }

  /** dbTable.cpp lines 66-75: the record, with a comma appended to end its last field, is cut at
      each comma and every field is decoded, in order, into a new row. */
  method ReadFields(rec: string) returns (row: DBRow)
    requires IsRecord(rec)
    ensures fresh(row) && row.data == ParseRecord(rec)
  {
    var rowStr := rec + ",";
    row := new DBRow();
    ghost var pieces := Split(rowStr, ',');
    ghost var k: nat := 0;
    var rowBeginPos: nat := 0;
    var rowEndPos := Find(rowStr, ',', 0);
    while rowEndPos.Some?
      invariant rowEndPos == Find(rowStr, ',', rowBeginPos)
      invariant k == |row.data| <= |pieces|
      invariant pieces[k..] == SplitAt(rowStr, ',', rowBeginPos)
      invariant forall j :: 0 <= j < k ==> row.data[j] == Decode(pieces[j])
      modifies row
      decreases |rowStr| - rowBeginPos
    {
      var rowEndAt := rowEndPos.value;
      var valueStr := rowStr[rowBeginPos..rowEndAt];
      DropOne(pieces, k, valueStr, SplitAt(rowStr, ',', rowEndAt + 1));
      row.AddData(Decode(valueStr));
      k := k + 1;
      rowBeginPos := rowEndAt + 1;
      rowEndPos := Find(rowStr, ',', rowBeginPos);
    }
  }

  /** Appending the next row to a table that holds a prefix of the rows extends the prefix. */
  lemma AppendNext(base: seq<seq<int>>, rows: seq<seq<int>>, n: nat, table: seq<seq<int>>, r: seq<int>)
    requires n < |rows| && rows[n] == r && table == base + rows[..n]
    ensures table + [r] == base + rows[..n + 1]
  {
    assert rows[..n + 1] == rows[..n] + [r];
  }

  /** operator>>: the rows parsed from the line are appended to the table. */
  method Read(datastr: string, t: DBTable)
    requires t.Valid() && WellFormed(datastr)
    modifies t
    ensures t.Valid() && t.table == old(t.table) + ParseRecords(datastr)
  {
    ghost var texts := RecordTexts(datastr, 0);
    ghost var rows := ParseRecords(datastr);
    ghost var n: nat := 0;
    var beginPos: nat := 0;
    var endPos := Find(datastr, '\r', 0);
    while endPos != Some(beginPos)
      invariant endPos == Find(datastr, '\r', beginPos)
      invariant ScanEnds(datastr, beginPos)
      invariant n <= |texts| && texts[n..] == RecordTexts(datastr, beginPos)
      invariant t.Valid() && t.table == old(t.table) + rows[..n]
      decreases |datastr| - beginPos
    {
      var endAt := endPos.value;
      var rec := datastr[beginPos..endAt];
      DropOne(texts, n, rec, RecordTexts(datastr, endAt + 1));
      var row := ReadFields(rec);
      ghost var before := t.table;
      t.AddRow(row.data);
      AppendNext(old(t.table), rows, n, before, row.data);
      n := n + 1;
      beginPos := endAt + 1;
      endPos := Find(datastr, '\r', beginPos);
    }
    assert rows[..n] == rows;
  }

  // ----- writing a table in the format the parser reads -----

  /** A cell as a field: empty for null, decimal otherwise. */
  function FormatCell(x: int): string {
    if x == NullCell then "" else FormatInt(x)
  }

  function FormatRecord(row: seq<int>): string
    requires |row| > 0
  {
    Join(seq(|row|, j requires 0 <= j < |row| => FormatCell(row[j])), ',')
  }

  /** Each row as a record ended by '\r', then the empty record that stops the scan. */
  function Unparse(rows: seq<seq<int>>): string
    requires forall i :: 0 <= i < |rows| ==> |rows[i]| > 0
  {
    if |rows| == 0 then "\r" else FormatRecord(rows[0]) + "\r" + Unparse(rows[1..])
  }

  /** Rows the format can carry: int32 cells, and no row whose record would be empty (a row with
      no cells, or with a single null cell, would read as the end of the input). */
  predicate Writable(rows: seq<seq<int>>) {
    forall i :: 0 <= i < |rows| ==> IsInt32Row(rows[i]) && |rows[i]| > 0 && rows[i] != [NullCell]
  }

  /** One cell written as a field and read back. */
  lemma DecodeFormatCell(x: int)
    requires IsInt32(x)
    ensures IsField(FormatCell(x)) && Decode(FormatCell(x)) == x
    ensures ',' !in FormatCell(x) && '\r' !in FormatCell(x)
  {
  }

  /** One row written as a record and read back. */
  lemma ParseFormatRecord(row: seq<int>)
    requires IsInt32Row(row) && |row| > 0 && row != [NullCell]
    ensures '\r' !in FormatRecord(row) && |FormatRecord(row)| > 0
    ensures IsRecord(FormatRecord(row)) && ParseRecord(FormatRecord(row)) == row
  {
    var fields := seq(|row|, j requires 0 <= j < |row| => FormatCell(row[j]));
    forall j | 0 <= j < |row|
      ensures IsField(fields[j]) && Decode(fields[j]) == row[j]
      ensures ',' !in fields[j] && '\r' !in fields[j]
    {
      DecodeFormatCell(row[j]);
    }
    JoinAvoids(fields, ',', '\r');
    SplitJoin(fields, ',');
    assert RecordFields(FormatRecord(row)) == fields;
    if |row| == 1 {
      assert FormatRecord(row) == FormatInt(row[0]);
    }
  }

  /** Scanning past a prefix `p` of `p + q` is scanning `q`: it stops at the same place and
      meets the same records. */
  lemma {:induction false} ScanShift(p: string, q: string, b: nat)
    ensures ScanEnds(p + q, |p| + b) == ScanEnds(q, b)
    ensures ScanEnds(q, b) ==> RecordTexts(p + q, |p| + b) == RecordTexts(q, b)
    decreases |q| - b
  {
    FindShift(p, q, '\r', b);
    if Find(q, '\r', b).Some? {
      var e := Find(q, '\r', b).value;
      assert (p + q)[|p| + b..|p| + e] == q[b..e];
      if e != b {
        ScanShift(p, q, e + 1);
      }
    }
  }

  /** A non-empty record and its '\r' in front of text the scan gets through add that record. */
  lemma ScanRecord(text: string, rest: string)
    requires |text| > 0 && '\r' !in text && ScanEnds(rest, 0)
    ensures ScanEnds(text + ['\r'] + rest, 0)
    ensures RecordTexts(text + ['\r'] + rest, 0) == [text] + RecordTexts(rest, 0)
  {
    var p := text + ['\r'];
    var s := p + rest;
    FindAfterPrefix(text, '\r', rest);
    assert s[0..|text|] == text;
    ScanShift(p, rest, 0);
  }

  /** The records of what Unparse writes are the rows' records. */
  lemma {:induction false} UnparseTexts(rows: seq<seq<int>>)
    requires Writable(rows)
    ensures ScanEnds(Unparse(rows), 0)
    ensures |RecordTexts(Unparse(rows), 0)| == |rows|
    ensures forall i :: 0 <= i < |rows| ==> RecordTexts(Unparse(rows), 0)[i] == FormatRecord(rows[i])
  {
    var s := Unparse(rows);
    if |rows| == 0 {
      assert Find(s, '\r', 0) == Some(0);
    } else {
      var text, rest := FormatRecord(rows[0]), Unparse(rows[1..]);
      ParseFormatRecord(rows[0]);
      UnparseTexts(rows[1..]);
      ScanRecord(text, rest);
      assert s == text + ['\r'] + rest;
    }
  }

  /** Parsing what Unparse writes gives the rows back. */
  lemma ParseUnparse(rows: seq<seq<int>>)
    requires Writable(rows)
    ensures WellFormed(Unparse(rows)) && ParseRecords(Unparse(rows)) == rows
  {
    UnparseTexts(rows);
    forall i | 0 <= i < |rows|
      ensures IsRecord(FormatRecord(rows[i])) && ParseRecord(FormatRecord(rows[i])) == rows[i]
    {
      ParseFormatRecord(rows[i]);
    }
  }

  /** Without the empty record at the end, the same two records are not accepted: the scan would
      run past the last '\r' and never stop. */
  lemma NoEmptyRecordRejected()
    ensures !WellFormed("1,2,,4\r5,,7,8\r")
  {
    var s := "1,2,,4\r5,,7,8\r";
    assert s[6] == '\r' && s[13] == '\r';
    FindFirst(s, '\r', 0);
    FindFirst(s, '\r', 7);
    FindFirst(s, '\r', 14);
    assert Find(s, '\r', 14) == None;
    assert Find(s, '\r', 7) == Some(13);
    assert Find(s, '\r', 0) == Some(6);
  }
}
