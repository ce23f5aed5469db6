/** Character-level helpers of the parser and the renderers: std::string::find, splitting on a
    delimiter, decimal conversion (stoi and operator<< on int) and setw padding. */
module Text {
  import opened Cells

  /** std::string::find for one character: the first index at or after `from` holding `ch`;
      None plays the part of npos. */
  function Find(s: string, ch: char, from: nat): (r: Option<nat>)
    ensures r.Some? ==> from <= r.value < |s| && s[r.value] == ch
    decreases |s| - from
  {
    if from >= |s| then None
    else if s[from] == ch then Some(from)
    else Find(s, ch, from + 1)
  }

  /** Find returns the FIRST occurrence: no `ch` is skipped, and npos means there is none. */
  lemma {:induction false} FindFirst(s: string, ch: char, from: nat)
    ensures Find(s, ch, from).Some? ==> forall k :: from <= k < Find(s, ch, from).value ==> s[k] != ch
    ensures Find(s, ch, from).None? ==> forall k :: from <= k < |s| ==> s[k] != ch
    decreases |s| - from
  {
    if from < |s| && s[from] != ch {
      FindFirst(s, ch, from + 1);
    }
  }

  /** Searching past a prefix `p` of `p + q` is searching `q`, with positions shifted by |p|. */
  lemma {:induction false} FindShift(p: string, q: string, ch: char, b: nat)
    ensures Find(q, ch, b).None? ==> Find(p + q, ch, |p| + b).None?
    ensures Find(q, ch, b).Some? ==> Find(p + q, ch, |p| + b) == Some(|p| + Find(q, ch, b).value)
    decreases |q| - b
  {
    if b < |q| {
      assert (p + q)[|p| + b] == q[b];
      if q[b] != ch {
        FindShift(p, q, ch, b + 1);
      }
    }
  }

  /** The first occurrence of `ch` in `p + [ch] + rest`, when `p` has none, ends `p`. */
  lemma FindAfterPrefix(p: string, ch: char, rest: string)
    requires ch !in p
    ensures Find(p + [ch] + rest, ch, 0) == Some(|p|)
  {
    var s := p + [ch] + rest;
    assert s[|p|] == ch;
    FindFirst(s, ch, 0);
  }

  /** The pieces of `s` from position `from` on, each ended by `sep`, found left to right with
      Find as the parser's loops do; text after the last `sep` is not a piece. */
  function SplitAt(s: string, sep: char, from: nat): (pieces: seq<string>)
    ensures forall i :: 0 <= i < |pieces| ==> sep !in pieces[i]
    decreases |s| - from
  {
    match Find(s, sep, from)
    case None => []
    case Some(e) =>
      FindFirst(s, sep, from);
      assert forall k :: 0 <= k < e - from ==> s[from..e][k] != sep;
      [s[from..e]] + SplitAt(s, sep, e + 1)
  }

  /** All the pieces of `s`. */
  function Split(s: string, sep: char): seq<string> {
    SplitAt(s, sep, 0)
  }

  /** Every occurrence of `sep` from `from` on ends exactly one piece. */
  lemma {:induction false} SplitCount(s: string, sep: char, from: nat)
    requires from <= |s|
    ensures |SplitAt(s, sep, from)| == multiset(s[from..])[sep]
    decreases |s| - from
  {
    var r := Find(s, sep, from);
    if r.None? {
      NoMoreSeparators(s, sep, from);
    } else {
      OneMoreSeparator(s, sep, from, r.value);
      SplitCount(s, sep, r.value + 1);
    }
  }

  lemma NoMoreSeparators(s: string, sep: char, from: nat)
    requires from <= |s| && Find(s, sep, from).None?
    ensures SplitAt(s, sep, from) == [] && multiset(s[from..])[sep] == 0
  {
    FindFirst(s, sep, from);
    assert forall k :: 0 <= k < |s| - from ==> s[from..][k] != sep;
  }

  lemma OneMoreSeparator(s: string, sep: char, from: nat, e: nat)
    requires Find(s, sep, from) == Some(e)
    ensures e < |s| && |SplitAt(s, sep, from)| == 1 + |SplitAt(s, sep, e + 1)|
    ensures multiset(s[from..])[sep] == 1 + multiset(s[e + 1..])[sep]
  {
    FindFirst(s, sep, from);
    var head := s[from..e];
    assert s[from..] == head + [sep] + s[e + 1..];
    assert forall k :: 0 <= k < |head| ==> head[k] != sep;
    assert multiset(head)[sep] == 0;
  }

  /** Splitting past a prefix `p` of `p + q` is splitting `q`. */
  lemma {:induction false} SplitShift(p: string, q: string, sep: char, b: nat)
    ensures SplitAt(p + q, sep, |p| + b) == SplitAt(q, sep, b)
    decreases |q| - b
  {
    FindShift(p, q, sep, b);
    match Find(q, sep, b)
    case None =>
    case Some(e) =>
      assert (p + q)[|p| + b..|p| + e] == q[b..e];
      SplitShift(p, q, sep, e + 1);
  }

  /** The pieces written one after the other with `sep` between neighbours. */
  function Join(pieces: seq<string>, sep: char): string
    requires |pieces| > 0
  {
    if |pieces| == 1 then pieces[0] else pieces[0] + [sep] + Join(pieces[1..], sep)
  }

  /** A character that is in no piece and is not the separator is not in the joined text. */
  lemma {:induction false} JoinAvoids(pieces: seq<string>, sep: char, ch: char)
    requires |pieces| > 0 && ch != sep
    requires forall i :: 0 <= i < |pieces| ==> ch !in pieces[i]
    ensures ch !in Join(pieces, sep)
  {
    if |pieces| > 1 {
      JoinAvoids(pieces[1..], sep, ch);
    }
  }

  /** Splitting text that was joined with `sep`, once a final `sep` is appended, gives the pieces back. */
  lemma {:induction false} SplitJoin(pieces: seq<string>, sep: char)
    requires |pieces| > 0
    requires forall i :: 0 <= i < |pieces| ==> sep !in pieces[i]
    ensures Split(Join(pieces, sep) + [sep], sep) == pieces
  {
    var p := pieces[0];
    var rest := if |pieces| == 1 then [] else Join(pieces[1..], sep) + [sep];
    var s := Join(pieces, sep) + [sep];
    assert s == (p + [sep]) + rest;
    FindAfterPrefix(p, sep, rest);
    assert s[0..|p|] == p;
    SplitShift(p + [sep], rest, sep, 0);
    if |pieces| > 1 {
      SplitJoin(pieces[1..], sep);
    }
  }

  predicate IsDigit(c: char) {
    '0' <= c <= '9'
  }

  predicate AllDigits(t: string) {
    forall i :: 0 <= i < |t| ==> IsDigit(t[i])
  }

  function DigitChar(d: nat): (c: char)
    requires d < 10
    ensures IsDigit(c) && c as int - '0' as int == d
  {
    ('0' as int + d) as char
  }

  /** Decimal digits of n, most significant first, without leading zeros. */
  function FormatNat(n: nat): (t: string)
    ensures |t| > 0 && AllDigits(t)
    ensures |t| > 1 ==> t[0] != '0'
  {
    if n < 10 then [DigitChar(n)] else FormatNat(n / 10) + [DigitChar(n % 10)]
  }

  /** The value of a string of decimal digits. */
  function ParseNat(t: string): nat
    requires AllDigits(t)
  {
    if |t| == 0 then 0 else ParseNat(t[..|t| - 1]) * 10 + (t[|t| - 1] as int - '0' as int)
  }

  lemma {:induction false} ParseFormatNat(n: nat)
    ensures ParseNat(FormatNat(n)) == n
  {
    if n >= 10 {
      var t := FormatNat(n);
      assert t[..|t| - 1] == FormatNat(n / 10);
      ParseFormatNat(n / 10);
    }
  }

  /** Text stoi accepts in this model: an optional '-' followed by at least one decimal digit. */
  predicate IsIntText(t: string) {
    |t| > 0 && if t[0] == '-' then |t| > 1 && AllDigits(t[1..]) else AllDigits(t)
  }

  /** stoi on well-formed decimal text. */
  function ParseInt(t: string): int
    requires IsIntText(t)
  {
    if t[0] == '-' then -(ParseNat(t[1..]) as int) else ParseNat(t)
  }

  /** operator<< on an int: decimal digits, with a leading '-' for a negative value. */
  function FormatInt(x: int): (t: string)
    ensures IsIntText(t) && ParseInt(t) == x
    ensures forall i :: 0 <= i < |t| ==> t[i] == '-' || IsDigit(t[i])
  {
    if x < 0 then
      ParseFormatNat(-x);
      var t := "-" + FormatNat(-x);
      assert t[1..] == FormatNat(-x);
      t
    else
      ParseFormatNat(x);
      FormatNat(x)
  }

  /** n spaces. */
  function Spaces(n: nat): (s: string)
    ensures |s| == n && forall i :: 0 <= i < n ==> s[i] == ' '
  {
    seq(n, _ => ' ')
  }

  /** setw(w) << right: t ends the field, with spaces in front up to width w; longer text is kept whole. */
  function PadLeft(t: string, w: nat): (r: string)
    ensures |r| == if |t| < w then w else |t|
    ensures r[|r| - |t|..] == t
    ensures forall i :: 0 <= i < |r| - |t| ==> r[i] == ' '
  {
    if |t| < w then Spaces(w - |t|) + t else t
  }

  /** setw(w) << left: t starts the field, with spaces after it up to width w; longer text is kept whole. */
  function PadRight(t: string, w: nat): (r: string)
    ensures |r| == if |t| < w then w else |t|
    ensures r[..|t|] == t
    ensures forall i :: |t| <= i < |r| ==> r[i] == ' '
  {
    if |t| < w then t + Spaces(w - |t|) else t
  }

  /** The pieces written one after another. */
  function Concat(pieces: seq<string>): string {
    if |pieces| == 0 then "" else Concat(pieces[..|pieces| - 1]) + pieces[|pieces| - 1]
  }

  /** When every piece is w characters wide, piece j occupies characters w*j up to w*j + w. */
  lemma {:induction false} ConcatSlots(pieces: seq<string>, w: nat, j: nat)
    requires forall k :: 0 <= k < |pieces| ==> |pieces[k]| == w
    requires j < |pieces|
    ensures |Concat(pieces)| == w * |pieces|
    ensures w * j + w <= |Concat(pieces)| && Concat(pieces)[w * j..w * j + w] == pieces[j]
  {
    var n := |pieces| - 1;
    var front := pieces[..n];
    var whole := Concat(pieces);
    ConcatLength(front, w);
    assert whole == Concat(front) + pieces[n];
    assert w * |pieces| == w * n + w;
    if j < n {
      ConcatSlots(front, w, j);
      assert w * j + w <= w * n by { MulLe(j + 1, n, w); }
      assert whole[w * j..w * j + w] == Concat(front)[w * j..w * j + w];
    } else {
      assert w * j + w == |whole|;
      assert w * j == |Concat(front)|;
    }
  }

  lemma {:induction false} ConcatLength(pieces: seq<string>, w: nat)
    requires forall k :: 0 <= k < |pieces| ==> |pieces[k]| == w
    ensures |Concat(pieces)| == w * |pieces|
  {
    if |pieces| > 0 {
      ConcatLength(pieces[..|pieces| - 1], w);
      assert w * |pieces| == w * (|pieces| - 1) + w;
    }
  }

  lemma MulLe(a: nat, b: nat, w: nat)
    requires a <= b
    ensures w * a <= w * b
  {
  }
}
