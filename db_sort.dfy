/** DBSort: a list of column indices, primary key first, and the row order it defines. */
module DbSort {
  import opened Cells

  datatype DBSort = DBSort(sortOrder: seq<nat>)

  /** Every key column exists in row r. */
  predicate HasKeys(order: seq<nat>, r: seq<int>) {
    forall k :: 0 <= k < |order| ==> order[k] < |r|
  }

  predicate AllHaveKeys(order: seq<nat>, rows: seq<seq<int>>) {
    forall i :: 0 <= i < |rows| ==> HasKeys(order, rows[i])
  }

  /** DBSort::operator(): the first key column on which r1 and r2 differ decides by <; rows that
      agree on every key are not less. */
  function Less(order: seq<nat>, r1: seq<int>, r2: seq<int>): bool
    requires HasKeys(order, r1) && HasKeys(order, r2)
  {
    if |order| == 0 then false
    else if r1[order[0]] != r2[order[0]] then r1[order[0]] < r2[order[0]]
    else Less(order[1..], r1, r2)
  }

  /** r1 and r2 hold the same value in every key column. */
  predicate AgreeOn(order: seq<nat>, r1: seq<int>, r2: seq<int>)
    requires HasKeys(order, r1) && HasKeys(order, r2)
  {
    forall k :: 0 <= k < |order| ==> r1[order[k]] == r2[order[k]]
  }

  lemma {:induction false} LessIrreflexive(order: seq<nat>, r: seq<int>)
    requires HasKeys(order, r)
    ensures !Less(order, r, r)
  {
    if |order| > 0 {
      LessIrreflexive(order[1..], r);
    }
  }

  lemma {:induction false} LessAsymmetric(order: seq<nat>, r1: seq<int>, r2: seq<int>)
    requires HasKeys(order, r1) && HasKeys(order, r2)
    ensures Less(order, r1, r2) ==> !Less(order, r2, r1)
  {
    if |order| > 0 && r1[order[0]] == r2[order[0]] {
      LessAsymmetric(order[1..], r1, r2);
    }
  }

  lemma {:induction false} LessTransitive(order: seq<nat>, r1: seq<int>, r2: seq<int>, r3: seq<int>)
    requires HasKeys(order, r1) && HasKeys(order, r2) && HasKeys(order, r3)
    ensures Less(order, r1, r2) && Less(order, r2, r3) ==> Less(order, r1, r3)
  {
    if |order| > 0 && r1[order[0]] == r2[order[0]] == r3[order[0]] {
      LessTransitive(order[1..], r1, r2, r3);
    }
  }

  /** Neither row is less than the other exactly when they agree on every key: the comparator
      returns false for rows equal on all keys, and only for those. */
  lemma {:induction false} IncomparableIffAgree(order: seq<nat>, r1: seq<int>, r2: seq<int>)
    requires HasKeys(order, r1) && HasKeys(order, r2)
    ensures !Less(order, r1, r2) && !Less(order, r2, r1) <==> AgreeOn(order, r1, r2)
  {
    if |order| > 0 && r1[order[0]] == r2[order[0]] {
      IncomparableIffAgree(order[1..], r1, r2);
      assert AgreeOn(order, r1, r2) <==> AgreeOn(order[1..], r1, r2) by {
        assert forall k :: 0 < k < |order| ==> order[1..][k - 1] == order[k];
      }
    }
  }

  /** Nulls sort last: if r1 and r2 agree on the keys before position k, and in key k r1 holds data
      while r2 is null, then r1 comes first, because NullCell is the largest int32. */
  lemma {:induction false} NullSortsLast(order: seq<nat>, r1: seq<int>, r2: seq<int>, k: nat)
    requires HasKeys(order, r1) && HasKeys(order, r2) && k < |order|
    requires forall j :: 0 <= j < k ==> r1[order[j]] == r2[order[j]]
    requires IsInt32(r1[order[k]]) && r1[order[k]] != NullCell && r2[order[k]] == NullCell
    ensures Less(order, r1, r2) && !Less(order, r2, r1)
  {
    if k > 0 {
      assert forall j :: 0 <= j < k - 1 ==> order[1..][j] == order[j + 1];
      NullSortsLast(order[1..], r1, r2, k - 1);
    }
  }

  /** No row is less than a row before it. */
  predicate Sorted(order: seq<nat>, rows: seq<seq<int>>)
    requires AllHaveKeys(order, rows)
  {
    forall i, j :: 0 <= i < j < |rows| ==> !Less(order, rows[j], rows[i])
  }

  /** The position of a least row of rows[i..]: no later row is less than it. It stays at i when no
      row of rows[i..] is less than rows[i]. */
  method SelectLeast(rows: seq<seq<int>>, order: seq<nat>, i: nat) returns (m: nat)
    requires i < |rows| && AllHaveKeys(order, rows)
    ensures i <= m < |rows|
    ensures forall k :: i <= k < |rows| ==> !Less(order, rows[k], rows[m])
    ensures (forall k :: i < k < |rows| ==> !Less(order, rows[k], rows[i])) ==> m == i
  {
    m := i;
    var j := i + 1;
    LessIrreflexive(order, rows[i]);
    while j < |rows|
      invariant i <= m < |rows| && i < j <= |rows|
      invariant forall k :: i <= k < j ==> !Less(order, rows[k], rows[m])
      invariant (forall k :: i < k < |rows| ==> !Less(order, rows[k], rows[i])) ==> m == i
    {
      if Less(order, rows[j], rows[m]) {
        forall k | i <= k < j
          ensures !Less(order, rows[k], rows[j])
        {
          LessTransitive(order, rows[k], rows[j], rows[m]);
        }
        m := j;
      }
      LessIrreflexive(order, rows[j]);
      j := j + 1;
    }
  }

  /** The first i rows are sorted and none of the later rows is less than any of them. */
  predicate SortedUpTo(order: seq<nat>, rows: seq<seq<int>>, i: nat)
    requires AllHaveKeys(order, rows) && i <= |rows|
  {
    && (forall p, q :: 0 <= p < q < i ==> !Less(order, rows[q], rows[p]))
    && (forall p, q :: 0 <= p < i <= q < |rows| ==> !Less(order, rows[q], rows[p]))
  }

  /** Moving a least row of rows[i..] to position i extends the sorted prefix by one. */
  lemma SelectionStep(order: seq<nat>, rows: seq<seq<int>>, i: nat, m: nat)
    requires AllHaveKeys(order, rows) && i <= m < |rows|
    requires SortedUpTo(order, rows, i)
    requires forall k :: i <= k < |rows| ==> !Less(order, rows[k], rows[m])
    ensures AllHaveKeys(order, rows[i := rows[m]][m := rows[i]])
    ensures SortedUpTo(order, rows[i := rows[m]][m := rows[i]], i + 1)
  {
    var s := rows[i := rows[m]][m := rows[i]];
    assert forall k :: 0 <= k < |rows| ==> s[k] == rows[k] || s[k] == rows[i] || s[k] == rows[m];
    assert forall k :: i < k < |rows| ==> s[k] == rows[k] || (k == m && s[k] == rows[i]);
  }

  /** Exchange the rows at positions i and m. */
  method Swap(a: array<seq<int>>, i: nat, m: nat)
    requires i < a.Length && m < a.Length
    modifies a
    ensures a[..] == old(a[..])[i := old(a[m])][m := old(a[i])]
    ensures multiset(a[..]) == multiset(old(a[..]))
  {
    a[i], a[m] := a[m], a[i];
  }

  /** In a sorted vector no row after position i is less than the row at i. */
  lemma SortedHead(order: seq<nat>, rows: seq<seq<int>>, i: nat)
    requires AllHaveKeys(order, rows) && Sorted(order, rows) && i < |rows|
    ensures forall k :: i < k < |rows| ==> !Less(order, rows[k], rows[i])
  {
  }

  /** std::sort(_table.begin(), _table.end(), s) on the row vector, as a selection sort in place.
      It leaves a sorted permutation; an already sorted vector is left as it was. */
  method SortRows(a: array<seq<int>>, order: seq<nat>)
    requires AllHaveKeys(order, a[..])
    modifies a
    ensures multiset(a[..]) == multiset(old(a[..]))
    ensures AllHaveKeys(order, a[..]) && Sorted(order, a[..])
    ensures Sorted(order, old(a[..])) ==> a[..] == old(a[..])
  {
    var i := 0;
    while i < a.Length
      invariant 0 <= i <= a.Length
      invariant multiset(a[..]) == multiset(old(a[..]))
      invariant AllHaveKeys(order, a[..]) && SortedUpTo(order, a[..], i)
      invariant Sorted(order, old(a[..])) ==> a[..] == old(a[..])
    {
      ghost var before := a[..];
      var m := SelectLeast(a[..], order, i);
      SelectionStep(order, before, i, m);
      if Sorted(order, old(a[..])) {
        SortedHead(order, before, i);
      }
      Swap(a, i, m);
      i := i + 1;
    }
  }
}
