/**
 local_getline: a line read piece by piece into a buffer that grows, with newlines inside quotes kept when
 CSV is read.  A NUL byte makes the scan of a piece stop early and the rest of the piece is lost.
 */
module ShellLine {
  import opened Basics
  import opened ByteSeq

  /** The reader's quote state after byte c. */
  predicate Toggled(c: Byte, inQuote: bool)
  {
    if c == DOUBLE then !inQuote else inQuote
  }

  /** Whether s[p] is a stop: with quotes honoured, a stop inside them does not count. */
  predicate StopsAt(s: seq<Byte>, p: nat, inQuote: bool, stop: Byte, csv: bool)
    requires p < |s|
  {
    s[p] == stop && (!Toggled(s[p], inQuote) || !csv)
  }

  /** The first stop from p on, or the end. */
  function NextStop(s: seq<Byte>, p: nat, inQuote: bool, stop: Byte, csv: bool): (e: nat)
    requires p <= |s|
    ensures p <= e <= |s|
    ensures e < |s| ==> s[e] == stop
    decreases |s| - p
  {
    if p == |s| || StopsAt(s, p, inQuote, stop, csv) then p
    else NextStop(s, p + 1, Toggled(s[p], inQuote), stop, csv)
  }

  ghost predicate OddQuotes(s: seq<Byte>)
  {
    multiset(s)[34] % 2 == 1
  }

  /** Behind s[k], counted from p on, the reader is inside quotes. */
  ghost predicate InQuotes(s: seq<Byte>, p: nat, k: nat, inQuote: bool)
    requires p <= k < |s|
  {
    OddQuotes(s[p..k + 1]) != inQuote
  }

  lemma QuotesStep(s: seq<Byte>, p: nat, k: nat, inQuote: bool)
    requires p <= k < |s|
    ensures InQuotes(s, p, k, inQuote) == if k == p then Toggled(s[p], inQuote)
                                          else InQuotes(s, p + 1, k, Toggled(s[p], inQuote))
  {
    assert s[p..p + 1] == [s[p]];
    assert s[p..k + 1] == [s[p]] + s[p + 1..k + 1];
  }

  /** Every stop that is passed over stands inside quotes, and the one found does not; quotes count in CSV only. */
  lemma {:induction false} NextStopIs(s: seq<Byte>, p: nat, inQuote: bool, stop: Byte, csv: bool)
    requires p <= |s|
    ensures var e := NextStop(s, p, inQuote, stop, csv);
            && (forall k | p <= k < e && s[k] == stop :: csv && InQuotes(s, p, k, inQuote))
            && (e < |s| ==> s[e] == stop && (csv ==> !InQuotes(s, p, e, inQuote)))
    decreases |s| - p
  {
    hide InQuotes, Toggled;
    if p < |s| {
      forall k | p <= k < |s|
        ensures InQuotes(s, p, k, inQuote) == if k == p then Toggled(s[p], inQuote)
                                              else InQuotes(s, p + 1, k, Toggled(s[p], inQuote))
      {
        QuotesStep(s, p, k, inQuote);
      }
      if !StopsAt(s, p, inQuote, stop, csv) {
        NextStopIs(s, p + 1, Toggled(s[p], inQuote), stop, csv);
      }
    }
  }

  datatype Line = Line(text: seq<Byte>, next: nat)

  // ------------------------------------------------------- piece by piece

  const FIRST_SIZE := 100
  const ROOM := 100

  /** The buffer size before the next piece, with n bytes in it. */
  function Grown(nLine: nat, n: nat): (size: nat)
    ensures n < nLine ==> n + ROOM <= size
  {
    if n + ROOM > nLine then nLine * 2 + ROOM else nLine
  }

  /** Where a piece of at most `limit` bytes ends: behind the first newline, or when it is full, or with the input. */
  function PieceEnd(input: seq<Byte>, pos: nat, limit: nat): (e: nat)
    requires pos <= |input|
    ensures pos <= e <= |input| && e <= pos + limit
    ensures 0 < limit ==> (e == pos <==> pos == |input|)
    ensures forall k | pos <= k < e - 1 :: input[k] != NEWLINE
    ensures e == |input| || e == pos + limit || (pos < e && input[e - 1] == NEWLINE)
    decreases limit
  {
    if pos == |input| || limit == 0 then pos
    else if input[pos] == NEWLINE then pos + 1
    else PieceEnd(input, pos + 1, limit - 1)
  }

  /** The quote state after all of s. */
  predicate QuoteAfter(s: seq<Byte>, inQuote: bool)
  {
    if s == [] then inQuote else Toggled(s[|s| - 1], QuoteAfter(s[..|s| - 1], inQuote))
  }

  /** A line without its newline, and without a carriage return before that. */
  function Stripped(t: seq<Byte>): (r: seq<Byte>)
    requires t != []
    ensures |r| < |t|
  {
    var n := |t| - 1;
    if 0 < n && t[n - 1] == RETURN then t[..n - 1] else t[..n]
  }

  /** The text ends in a newline that counts. */
  predicate EndsLine(t: seq<Byte>, inQuote: bool, csv: bool)
  {
    t != [] && t[|t| - 1] == NEWLINE && (!inQuote || !csv)
  }

  /** The reader with `text` in a buffer of nLine bytes, at position pos of the input. */
  function LineFrom(input: seq<Byte>, pos: nat, text: seq<Byte>, nLine: nat, inQuote: bool, csv: bool)
    : (r: Option<Line>)
    requires pos <= |input| && |text| < nLine
    ensures r.Some? ==> pos <= r.value.next <= |input| && (text == [] ==> pos < r.value.next)
    decreases |input| - pos
  {
    var size := Grown(nLine, |text|);
    var end := PieceEnd(input, pos, size - |text| - 1);
    if end == pos then if text == [] then None else Some(Line(text, pos))
    else
      var more := UpTo(input[pos..end], 0);
      var t, q := text + more, QuoteAfter(more, inQuote);
      UpToLength(input[pos..end], 0);
      if EndsLine(t, q, csv) then Some(Line(Stripped(t), end))
      else LineFrom(input, end, t, size, q, csv)
  }

  lemma UpToLength(s: seq<Byte>, q: Byte)
    ensures |UpTo(s, q)| <= |s|
  {
    UpToSplit(s, q);
  }

  /** The reader's next turn. */
  lemma LineStep(input: seq<Byte>, pos: nat, text: seq<Byte>, nLine: nat, inQuote: bool, csv: bool,
                 size: nat, end: nat, more: seq<Byte>)
    requires pos <= |input| && |text| < nLine && size == Grown(nLine, |text|)
    requires end == PieceEnd(input, pos, size - |text| - 1) && more == UpTo(input[pos..end], 0)
    ensures |text + more| < size
    ensures end == pos ==>
              LineFrom(input, pos, text, nLine, inQuote, csv) == if text == [] then None else Some(Line(text, pos))
    ensures pos < end ==>
              LineFrom(input, pos, text, nLine, inQuote, csv)
              == if EndsLine(text + more, QuoteAfter(more, inQuote), csv) then Some(Line(Stripped(text + more), end))
                 else LineFrom(input, end, text + more, size, QuoteAfter(more, inQuote), csv)
  {
    hide Grown, PieceEnd, UpTo, QuoteAfter, Stripped, EndsLine;
    UpToLength(input[pos..end], 0);
  }

  /** local_getline: the next line and where reading goes on, or None when nothing is left. */
  function ReadLine(input: seq<Byte>, p: nat, csv: bool): (r: Option<Line>)
    requires p <= |input|
    ensures r.Some? ==> p < r.value.next <= |input|
  {
    LineFrom(input, p, [], FIRST_SIZE, false, csv)
  }

  lemma StrippedNulFree(t: seq<Byte>)
    requires t != [] && 0 !in t
    ensures 0 !in Stripped(t)
  {
  }

  lemma UpToNulFree(text: seq<Byte>, piece: seq<Byte>)
    requires 0 !in text
    ensures 0 !in text + UpTo(piece, 0)
  {
    UpToSplit(piece, 0);
  }

  lemma {:induction false} LineFromNulFree(input: seq<Byte>, pos: nat, text: seq<Byte>, nLine: nat,
                                           inQuote: bool, csv: bool)
    requires pos <= |input| && |text| < nLine && 0 !in text
    ensures var r := LineFrom(input, pos, text, nLine, inQuote, csv); r.Some? ==> 0 !in r.value.text
    decreases |input| - pos
  {
    hide LineFrom, QuoteAfter, Grown, PieceEnd, UpTo, Stripped;
    var size := Grown(nLine, |text|);
    var end := PieceEnd(input, pos, size - |text| - 1);
    var more := UpTo(input[pos..end], 0);
    LineStep(input, pos, text, nLine, inQuote, csv, size, end, more);
    UpToNulFree(text, input[pos..end]);
    if pos < end {
      if text + more != [] {
        StrippedNulFree(text + more);
      }
      LineFromNulFree(input, end, text + more, size, QuoteAfter(more, inQuote), csv);
    }
  }

  /** Whatever the input holds, a line is a C string. */
  lemma LineNulFree(input: seq<Byte>, p: nat, csv: bool)
    requires p <= |input|
    ensures ReadLine(input, p, csv).Some? ==> 0 !in ReadLine(input, p, csv).value.text
  {
    LineFromNulFree(input, p, [], FIRST_SIZE, false, csv);
  }

  // ----------------------------------------------------- the plain lines

  /**
   What a line is, without buffers: up to the first newline that counts, less a carriage return before it;
   at the end of the input whatever is left, or None if nothing is.
   */
  function PlainLine(input: seq<Byte>, p: nat, csv: bool): (r: Option<Line>)
    requires p <= |input|
    ensures r.Some? ==> p < r.value.next <= |input| && |r.value.text| <= |input|
  {
    var e := NextStop(input, p, false, NEWLINE, csv);
    if e == |input| then if p == e then None else Some(Line(input[p..], e))
    else if p < e && input[e - 1] == RETURN then Some(Line(input[p..e - 1], e + 1))
    else Some(Line(input[p..e], e + 1))
  }

  /**
   The plain line, without its definition: the text, then 10 or 13 10 or the end of the input; the newline that
   ends it counts, and none before it does.
   */
  lemma PlainLineIs(input: seq<Byte>, p: nat, csv: bool)
    requires p <= |input|
    ensures PlainLine(input, p, csv) == None <==> p == |input|
    ensures PlainLine(input, p, csv).Some? ==>
              var Line(text, next) := PlainLine(input, p, csv).value;
              var end := p + |text|;
              && end <= next <= |input| && p < next && input[p..end] == text
              && (|| (end == next == |input|)
                  || (input[end..next] == [10] && (text != [] ==> text[|text| - 1] != 13))
                  || input[end..next] == [13, 10])
              && (forall k | p <= k < next && (k < next - 1 || end == next) && input[k] == 10 ::
                    csv && InQuotes(input, p, k, false))
              && (end < next && csv ==> !InQuotes(input, p, next - 1, false))
  {
    hide NextStop;
    NextStopIs(input, p, false, NEWLINE, csv);
    assert input[p..] == input[p..|input|];
  }

  /** A piece without a newline before its last byte is passed over up to there. */
  lemma {:induction false} PassPiece(input: seq<Byte>, pos: nat, m: nat, inQuote: bool, csv: bool)
    requires pos <= m <= |input| && forall k | pos <= k < m :: input[k] != NEWLINE
    ensures NextStop(input, pos, inQuote, NEWLINE, csv)
            == NextStop(input, m, QuoteAfter(input[pos..m], inQuote), NEWLINE, csv)
    decreases m - pos
  {
    if pos < m {
      PassPiece(input, pos, m - 1, inQuote, csv);
      assert input[pos..m][..m - 1 - pos] == input[pos..m - 1];
      assert NextStop(input, m - 1, QuoteAfter(input[pos..m - 1], inQuote), NEWLINE, csv)
          == NextStop(input, m, QuoteAfter(input[pos..m], inQuote), NEWLINE, csv);
    } else {
      assert input[pos..m] == [];
    }
  }

  /** What the last byte of a piece does. */
  lemma PieceScanned(input: seq<Byte>, pos: nat, end: nat, inQuote: bool, csv: bool)
    requires pos < end <= |input| && forall k | pos <= k < end - 1 :: input[k] != NEWLINE
    ensures var q := QuoteAfter(input[pos..end], inQuote);
            NextStop(input, pos, inQuote, NEWLINE, csv)
            == if input[end - 1] == NEWLINE && (!q || !csv) then end - 1 else NextStop(input, end, q, NEWLINE, csv)
  {
    PassPiece(input, pos, end - 1, inQuote, csv);
    assert input[pos..end][..end - 1 - pos] == input[pos..end - 1];
  }

  /** No NUL byte stands in the line that starts at p. */
  ghost predicate CleanLine(input: seq<Byte>, p: nat, csv: bool)
    requires p <= |input|
  {
    0 !in input[p..NextStop(input, p, false, NEWLINE, csv)]
  }

  /** Whatever the buffer's sizes and the pieces they make: the reader finds the plain line, if it is clean. */
  lemma {:induction false} PiecesMakeLine(input: seq<Byte>, p: nat, pos: nat, nLine: nat, inQuote: bool, csv: bool)
    requires p <= pos <= |input| && pos - p < nLine && CleanLine(input, p, csv)
    requires NextStop(input, p, false, NEWLINE, csv) == NextStop(input, pos, inQuote, NEWLINE, csv)
    ensures LineFrom(input, pos, input[p..pos], nLine, inQuote, csv) == PlainLine(input, p, csv)
    decreases |input| - pos
  {
    hide LineFrom, PlainLine, QuoteAfter, NextStop, UpTo, Stripped, PieceEnd, Grown, CleanLine;
    var text := input[p..pos];
    var size := Grown(nLine, |text|);
    var end := PieceEnd(input, pos, size - |text| - 1);
    LineStep(input, pos, text, nLine, inQuote, csv, size, end, UpTo(input[pos..end], 0));
    if end == pos {
      NextAtEnd(input, inQuote, csv);
      PlainAtEnd(input, p, csv);
    } else {
      var more := input[pos..end];
      PieceScanned(input, pos, end, inQuote, csv);
      PieceNulFree(input, p, pos, end, csv);
      var q := QuoteAfter(more, inQuote);
      if input[end - 1] == NEWLINE && (!q || !csv) {
        PlainStops(input, p, end, csv);
      } else {
        PiecesMakeLine(input, p, end, size, q, csv);
      }
    }
  }

  lemma PieceNulFree(input: seq<Byte>, p: nat, pos: nat, end: nat, csv: bool)
    requires p <= pos < end <= |input| && CleanLine(input, p, csv)
    requires end <= NextStop(input, p, false, NEWLINE, csv) + 1
    ensures var t := input[p..pos] + UpTo(input[pos..end], 0);
            UpTo(input[pos..end], 0) == input[pos..end] && t == input[p..end] && t[|t| - 1] == input[end - 1]
  {
    hide UpTo, NextStop;
    var e := NextStop(input, p, false, NEWLINE, csv);
    forall k | pos <= k < end
      ensures input[k] != 0
    {
      assert k < e ==> input[p..e][k - p] == input[k];
    }
    UpToWhole(input[pos..end], 0);
  }

  lemma PlainAtEnd(input: seq<Byte>, p: nat, csv: bool)
    requires p <= |input| && NextStop(input, p, false, NEWLINE, csv) == |input|
    ensures PlainLine(input, p, csv) == if p == |input| then None else Some(Line(input[p..|input|], |input|))
  {
    hide NextStop;
    assert input[p..] == input[p..|input|];
  }

  lemma PlainStops(input: seq<Byte>, p: nat, end: nat, csv: bool)
    requires p < end <= |input| && NextStop(input, p, false, NEWLINE, csv) == end - 1
    ensures PlainLine(input, p, csv) == Some(Line(Stripped(input[p..end]), end))
  {
    hide NextStop;
    StrippedIs(input, p, end);
  }

  lemma NextAtEnd(input: seq<Byte>, inQuote: bool, csv: bool)
    ensures NextStop(input, |input|, inQuote, NEWLINE, csv) == |input|
  {
  }

  lemma StrippedIs(input: seq<Byte>, p: nat, end: nat)
    requires p < end <= |input|
    ensures Stripped(input[p..end])
            == input[p..if p < end - 1 && input[end - 2] == RETURN then end - 2 else end - 1]
  {
  }

  /** A NUL byte in the line's range is one of its text: what is taken off the end is none. */
  lemma CleanLineText(input: seq<Byte>, p: nat, csv: bool)
    requires p <= |input|
    ensures CleanLine(input, p, csv)
            <==> (PlainLine(input, p, csv).Some? ==> 0 !in PlainLine(input, p, csv).value.text)
  {
    hide NextStop;
    var e := NextStop(input, p, false, NEWLINE, csv);
    if p < e {
      assert input[p..e] == input[p..e - 1] + [input[e - 1]];
    }
    assert e == |input| ==> input[p..] == input[p..e];
  }

  /** The reader's line is the plain line exactly when that holds no NUL byte, whatever the other lines hold. */
  lemma ReadsPlainLineIff(input: seq<Byte>, p: nat, csv: bool)
    requires p <= |input|
    ensures ReadLine(input, p, csv) == PlainLine(input, p, csv)
            <==> (PlainLine(input, p, csv).Some? ==> 0 !in PlainLine(input, p, csv).value.text)
  {
    hide PlainLine, CleanLine, LineFrom;
    LineNulFree(input, p, csv);
    CleanLineText(input, p, csv);
    if CleanLine(input, p, csv) {
      assert input[p..p] == [];
      PiecesMakeLine(input, p, p, FIRST_SIZE, false, csv);
    }
  }

  /** On input without NUL bytes every line is read plainly. */
  lemma NulFreeLine(input: seq<Byte>, p: nat, csv: bool)
    requires p <= |input| && 0 !in input
    ensures ReadLine(input, p, csv) == PlainLine(input, p, csv)
  {
    hide ReadLine, NextStop;
    ReadsPlainLineIff(input, p, csv);
  }

  /** Two lines, the first with a NUL byte in it. */
  const NUL_LINES: seq<Byte> := [97, 0, 98, NEWLINE, 99, NEWLINE]

  /** The rest of the first line is lost, its newline too. */
  lemma NulJoinsLines(csv: bool)
    ensures ReadLine(NUL_LINES, 0, csv) == Some(Line([97, 99], 6))
  {
    hide LineFrom, UpTo;
    var b := NUL_LINES;
    PieceEndIs(b, 0, 99, 4);
    assert b[0..4] == [97, 0, 98, NEWLINE];
    UpToAt(b[0..4], 0, 1);
    assert b[0..4][..1] == [97] && [97][..0] == [] && [] + [97] == [97];
    LineStep(b, 0, [], FIRST_SIZE, false, csv, 100, 4, [97]);
    PieceEndIs(b, 4, 298, 6);
    assert b[4..6] == [99, NEWLINE];
    UpToAt(b[4..6], 0, 2);
    assert b[4..6][..2] == [99, NEWLINE] && [99, NEWLINE][..1] == [99] && [99][..0] == [];
    assert [97] + [99, NEWLINE] == [97, 99, NEWLINE] && [97, 99, NEWLINE][..2] == [97, 99];
    LineStep(b, 4, [97], 100, false, csv, 300, 6, [99, NEWLINE]);
  }

  // ------------------------------------------------------------- in place

  /** fgets: one piece of at most size - 1 bytes, then a terminator; nothing at the end of the input. */
  method Fgets(z: array<Byte>, at: nat, size: nat, input: seq<Byte>, pos: nat) returns (got: nat)
    requires 2 <= size && at + size <= z.Length && pos <= |input|
    modifies z
    ensures pos + got == PieceEnd(input, pos, size - 1)
    ensures forall k | at <= k < at + got :: z[k] == input[k - at + pos]
    ensures got != 0 ==> z[at + got] == 0
    ensures forall k | 0 <= k < at :: z[k] == old(z[k])
  {
    hide PieceEnd;
    got := 0;
    while got < size - 1 && pos + got < |input| && (got == 0 || input[pos + got - 1] != NEWLINE)
      invariant got <= size - 1 && pos + got <= |input|
      invariant forall k | at <= k < at + got :: z[k] == input[k - at + pos]
      invariant forall k | pos <= k < pos + got - 1 :: input[k] != NEWLINE
      invariant forall k | 0 <= k < at :: z[k] == old(z[k])
    {
      z[at + got] := input[pos + got];
      got := got + 1;
    }
    PieceEndIs(input, pos, size - 1, pos + got);
    if got != 0 {
      z[at + got] := 0;
    }
  }

  lemma {:induction false} PieceEndIs(input: seq<Byte>, pos: nat, limit: nat, e: nat)
    requires pos <= e <= |input| && e <= pos + limit && forall k | pos <= k < e - 1 :: input[k] != NEWLINE
    requires e == |input| || e == pos + limit || (pos < e && input[e - 1] == NEWLINE)
    ensures PieceEnd(input, pos, limit) == e
    decreases limit
  {
    if pos < e && input[pos] != NEWLINE {
      PieceEndIs(input, pos + 1, limit - 1, e);
    }
  }

  /** The inner loop: quotes are counted up to the first zero of the piece. */
  method CountQuotes(z: array<Byte>, n: nat, inQuote: bool, ghost piece: seq<Byte>) returns (m: nat, q: bool)
    requires n + |piece| < z.Length && z[n + |piece|] == 0
    requires forall k | n <= k < n + |piece| :: z[k] == piece[k - n]
    ensures m == n + |UpTo(piece, 0)| && q == QuoteAfter(UpTo(piece, 0), inQuote)
  {
    hide UpTo;
    m, q := n, inQuote;
    assert piece[..0] == [];
    while z[m] != 0
      invariant n <= m <= n + |piece|
      invariant forall k | 0 <= k < m - n :: piece[k] != 0
      invariant q == QuoteAfter(piece[..m - n], inQuote)
      decreases n + |piece| - m
    {
      assert piece[..m - n + 1][..m - n] == piece[..m - n];
      if z[m] == DOUBLE {
        q := !q;
      }
      m := m + 1;
    }
    UpToAt(piece, 0, m - n);
  }

  lemma UpToAt(s: seq<Byte>, q: Byte, n: nat)
    requires n <= |s| && (forall k | 0 <= k < n :: s[k] != q) && (n < |s| ==> s[n] == q)
    ensures UpTo(s, q) == s[..n]
  {
    hide UpTo;
    UpToSplit(s, q);
    var m := |UpTo(s, q)|;
    assert forall k | 0 <= k < m :: UpTo(s, q)[k] == s[k];
  }

  /** realloc to a larger buffer. */
  method Realloc(z: array<Byte>, size: nat) returns (r: array<Byte>)
    requires z.Length <= size
    ensures fresh(r) && r.Length == size
    ensures forall k | 0 <= k < z.Length :: r[k] == z[k]
  {
    r := new Byte[size];
    for i := 0 to z.Length
      invariant forall k | 0 <= k < i :: r[k] == z[k]
    {
      r[i] := z[i];
    }
  }

  /** The last realloc: the line and its terminator fill the buffer. */
  method Trim(z: array<Byte>, n: nat, ghost text: seq<Byte>) returns (r: array<Byte>)
    requires n == |text| && HoldsText(z, 0, text)
    ensures fresh(r) && r[..] == text + [0]
  {
    r := new Byte[n + 1];
    for i := 0 to n + 1
      invariant forall k | 0 <= k < i :: r[k] == z[k]
    {
      r[i] := z[i];
    }
    assert r[..n] == z[0..n];
  }

  /** The buffer's first n bytes are t. */
  ghost predicate Starts(z: array<Byte>, t: seq<Byte>)
    reads z
  {
    |t| < z.Length && forall k | 0 <= k < |t| :: z[k] == t[k]
  }

  lemma PieceTaken(z: array<Byte>, text: seq<Byte>, piece: seq<Byte>)
    requires |text| + |piece| < z.Length && Starts(z, text)
    requires forall k | |text| <= k < |text| + |piece| :: z[k] == piece[k - |text|]
    ensures Starts(z, text + UpTo(piece, 0))
  {
    hide UpTo;
    UpToSplit(piece, 0);
    StartsJoined(z, text, UpTo(piece, 0), piece);
  }

  lemma StartsJoined(z: array<Byte>, s: seq<Byte>, t: seq<Byte>, piece: seq<Byte>)
    requires |s| + |piece| < z.Length && Starts(z, s) && t <= piece
    requires forall k | |s| <= k < |s| + |piece| :: z[k] == piece[k - |s|]
    ensures Starts(z, s + t)
  {
    forall k | 0 <= k < |s + t|
      ensures z[k] == (s + t)[k]
    {
      assert k < |s| || (s + t)[k] == t[k - |s|];
    }
  }

  lemma StartsAt(z: array<Byte>, t: seq<Byte>)
    requires Starts(z, t)
    ensures forall k | 0 <= k < |t| :: z[k] == t[k]
  {
  }

  lemma NowStarts(z: array<Byte>, t: seq<Byte>)
    requires |t| < z.Length && forall k | 0 <= k < |t| :: z[k] == t[k]
    ensures Starts(z, t)
  {
  }

  /** A piece is read behind the text and scanned; `more` is what counts of it. */
  method TakePiece(z: array<Byte>, input: seq<Byte>, pos: nat, inQuote: bool, n: nat, ghost text: seq<Byte>)
    returns (next: nat, m: nat, q: bool)
    requires pos <= |input| && n == |text| && n + 2 <= z.Length && Starts(z, text)
    modifies z
    ensures next == PieceEnd(input, pos, z.Length - n - 1)
    ensures next == pos ==> Starts(z, text)
    ensures pos < next ==>
              var more := UpTo(input[pos..next], 0);
              m == |text + more| && q == QuoteAfter(more, inQuote) && Starts(z, text + more)
  {
    hide PieceEnd, UpTo, QuoteAfter;
    StartsAt(z, text);
    var got := Fgets(z, n, z.Length - n, input, pos);
    next, m, q := pos + got, n, inQuote;
    if got == 0 {
      NowStarts(z, text);
    } else {
      ghost var piece := input[pos..next];
      assert forall k | n <= k < n + |piece| :: z[k] == piece[k - n];
      NowStarts(z, text);
      m, q := CountQuotes(z, n, inQuote, piece);
      PieceTaken(z, text, piece);
    }
  }

  /** The loop of local_getline: however long the line, the buffer always has room for the next piece. */
  method ReadPieces(input: seq<Byte>, pos: nat, csvFlag: bool)
    returns (found: bool, z: array<Byte>, n: nat, next: nat, ghost text: seq<Byte>)
    requires pos <= |input|
    ensures ReadLine(input, pos, csvFlag) == if found then Some(Line(text, next)) else None
    ensures found ==> fresh(z) && n == |text| && HoldsText(z, 0, text)
  {
    hide LineFrom, PieceEnd, UpTo, QuoteAfter, Starts, HoldsText;
    var nLine, inQuote := FIRST_SIZE, false;
    z := new Byte[nLine];
    n, next, found, text := 0, pos, true, [];
    NowStarts(z, text);
    while true
      invariant fresh(z) && n == |text| < nLine == z.Length && next <= |input| && found && Starts(z, text)
      invariant ReadLine(input, pos, csvFlag) == LineFrom(input, next, text, nLine, inQuote, csvFlag)
      decreases |input| - next
    {
      ghost var sizeBefore := nLine;
      if n + ROOM > nLine {
        nLine := nLine * 2 + ROOM;
        StartsAt(z, text);
        z := Realloc(z, nLine);
        NowStarts(z, text);
      }
      var start := next;
      var m, q;
      next, m, q := TakePiece(z, input, next, inQuote, n, text);
      LineStep(input, start, text, sizeBefore, inQuote, csvFlag, nLine, next, UpTo(input[start..next], 0));
      if next == start {
        if n == 0 {
          found := false;
          return;
        }
        CutAt(z, n, text, text);
        return;
      }
      text := text + UpTo(input[start..next], 0);
      n, inQuote := m, q;
      StartsAt(z, text);
      if n > 0 && z[n - 1] == NEWLINE && (!inQuote || !csvFlag) {
        n := n - 1;
        if n > 0 && z[n - 1] == RETURN {
          n := n - 1;
        }
        ghost var line := Stripped(text);
        CutAt(z, n, text, line);
        text := line;
        return;
      }
    }
  }

  /** The terminator goes behind the first n bytes. */
  method CutAt(z: array<Byte>, n: nat, ghost text: seq<Byte>, ghost line: seq<Byte>)
    requires Starts(z, text) && n == |line| <= |text| && text[..n] == line
    modifies z
    ensures HoldsText(z, 0, line)
  {
    StartsAt(z, text);
    z[n] := 0;
    assert z[0..n] == text[..n];
  }

  /** local_getline: the line and its terminator in a buffer of their size, or null at the end of the input. */
  method GetLine(input: seq<Byte>, pos: nat, csvFlag: bool) returns (zLine: array?<Byte>, next: nat)
    requires pos <= |input|
    ensures match ReadLine(input, pos, csvFlag)
            case None => zLine == null
            case Some(line) => zLine != null && fresh(zLine) && zLine[..] == line.text + [0] && next == line.next
  {
    hide ReadLine;
    var found, z, n, end;
    ghost var text;
    found, z, n, end, text := ReadPieces(input, pos, csvFlag);
    zLine, next := null, end;
    if found {
      zLine := Trim(z, n, text);
    }
  }
}
