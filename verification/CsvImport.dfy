/**
 The .import side of the shell on its own buffers: the column split that writes terminators over the
 separators, and the dequoting that moves bytes down in place.
 */
module CsvImport {
  import opened Basics
  import opened ByteSeq
  import opened ShellLine
  import opened SqlQuote
  import opened CsvText

  // ------------------------------------------------------------- columns

  datatype Span = Span(start: nat, end: nat)

  /** Where the columns of a line stand. */
  function Spans(line: seq<Byte>, p: nat, sep: Byte): (r: seq<Span>)
    requires p <= |line|
    ensures |r| == |Columns(line, p, sep)|
    decreases |line| - p
  {
    var e := NextStop(line, p, false, sep, true);
    if e == |line| then [Span(p, e)] else [Span(p, e)] + Spans(line, e + 1, sep)
  }

  ghost predicate InOrder(spans: seq<Span>, p: nat, n: nat)
  {
    && (forall k | 0 <= k < |spans| :: p <= spans[k].start <= spans[k].end <= n)
    && (forall j, k | 0 <= j < k < |spans| :: spans[j].end < spans[k].start)
  }

  lemma {:induction false} SpansInOrder(line: seq<Byte>, p: nat, sep: Byte)
    requires p <= |line|
    ensures InOrder(Spans(line, p, sep), p, |line|)
    decreases |line| - p
  {
    hide Columns;
    var e := NextStop(line, p, false, sep, true);
    if e < |line| {
      SpansInOrder(line, e + 1, sep);
      var rest := Spans(line, e + 1, sep);
      assert forall k | 0 < k < 1 + |rest| :: ([Span(p, e)] + rest)[k] == rest[k - 1];
    }
  }

  lemma {:induction false} ColumnAt(line: seq<Byte>, p: nat, sep: Byte, k: nat)
    requires p <= |line| && k < |Spans(line, p, sep)|
    ensures var s := Spans(line, p, sep)[k];
            p <= s.start <= s.end <= |line| && Columns(line, p, sep)[k] == line[s.start..s.end]
    decreases |line| - p
  {
    var e := NextStop(line, p, false, sep, true);
    if e < |line| && 0 < k {
      ColumnAt(line, e + 1, sep, k - 1);
    }
  }

  /** Each span stands in the buffer's bytes b as a string. */
  ghost predicate SpansHeld(b: seq<Byte>, line: seq<Byte>, spans: seq<Span>)
  {
    forall k | 0 <= k < |spans| ::
      spans[k].start <= spans[k].end <= |line| && TextAt(b, spans[k].start, line[spans[k].start..spans[k].end])
  }

  lemma SpansKept(was: seq<Byte>, b: seq<Byte>, line: seq<Byte>, spans: seq<Span>, p: nat)
    requires SpansHeld(was, line, spans) && (forall k | 0 <= k < |spans| :: spans[k].end < p)
    requires |b| == |was| && forall k | 0 <= k < p && k < |b| :: b[k] == was[k]
    ensures SpansHeld(b, line, spans)
  {
    forall k | 0 <= k < |spans|
      ensures TextAt(b, spans[k].start, line[spans[k].start..spans[k].end])
    {
      var s := spans[k];
      assert TextAt(was, s.start, line[s.start..s.end]);
      assert b[s.start..s.end] == was[s.start..s.end];
    }
  }

  /** The column that starts at `from` has been read up to i. */
  ghost predicate Reading(line: seq<Byte>, from: nat, i: nat, inQuote: bool, sep: Byte)
  {
    from <= i <= |line| && NextStop(line, from, false, sep, true) == NextStop(line, i, inQuote, sep, true)
  }

  lemma ReadOn(line: seq<Byte>, from: nat, i: nat, inQuote: bool, sep: Byte)
    requires Reading(line, from, i, inQuote, sep) && i < |line| && !StopsAt(line, i, inQuote, sep, true)
    ensures Reading(line, from, i + 1, Toggled(line[i], inQuote), sep)
  {
  }

  lemma ColumnEnds(line: seq<Byte>, from: nat, i: nat, inQuote: bool, sep: Byte, done: seq<Span>)
    requires Reading(line, from, i, inQuote, sep) && (i < |line| ==> StopsAt(line, i, inQuote, sep, true))
    ensures i == |line| ==> Spans(line, from, sep) == [Span(from, i)]
    ensures i < |line| ==> Reading(line, i + 1, i + 1, false, sep)
    ensures i < |line| ==>
              done + Spans(line, from, sep) == (done + [Span(from, i)]) + Spans(line, i + 1, sep)
  {
    if i < |line| {
      Regroup(done, [Span(from, i)], Spans(line, i + 1, sep));
    }
  }

  /**
   The split: every separator outside quotes becomes a terminator, and the starts of the first nCol
   columns are noted.
   */
  method SplitColumns(z: array<Byte>, nCol: nat, sep: Byte, ghost line: seq<Byte>)
    returns (count: nat, azCol: array<nat>)
    requires HoldsText(z, 0, line) && 0 !in line && 0 < nCol && sep != 0
    modifies z
    ensures fresh(azCol) && azCol.Length == nCol + 1
    ensures var spans := Spans(line, 0, sep);
            && count == |spans| && SpansHeld(z[..], line, spans)
            && forall k | 0 <= k < nCol && k < count :: azCol[k] == spans[k].start
  {
    hide Spans, Columns, NextStop, Reading, SpansHeld;
    azCol := new nat[nCol + 1];
    azCol[0] := 0;
    var i, at, inQuote := 0, 0, false;
    ghost var from: nat := 0;
    ghost var done: seq<Span> := [];
    StartReading(z[..], line, sep);
    while z[at] != 0
      invariant HoldsRest(z, 0, at, line) && from <= at && i == |done|
      invariant Reading(line, from, at, inQuote, sep)
      invariant Spans(line, 0, sep) == done + Spans(line, from, sep)
      invariant SpansHeld(z[..], line, done) && forall k | 0 <= k < |done| :: done[k].end < from
      invariant forall k | from <= k < at :: z[k] == line[k]
      invariant forall k | 0 <= k < nCol && k < i :: azCol[k] == done[k].start
      invariant i < nCol ==> azCol[i] == from
      decreases |line| - at
    {
      var c := z[at];
      ghost var quoteBefore := inQuote;
      if c == DOUBLE {
        inQuote := !inQuote;
      }
      if !inQuote && c == sep {
        ghost var was := z[..];
        ColumnEnds(line, from, at, quoteBefore, sep, done);
        z[at] := 0;
        SpansKept(was, z[..], line, done, from);
        SpanJoins(z[..], line, done, from, at);
        done := done + [Span(from, at)];
        from := at + 1;
        i := i + 1;
        if i < nCol {
          azCol[i] := at + 1;
        }
      } else {
        ReadOn(line, from, at, quoteBefore, sep);
      }
      at := at + 1;
    }
    ColumnEnds(line, from, at, inQuote, sep, done);
    SpanJoins(z[..], line, done, from, at);
    count := i + 1;
  }

  lemma StartReading(b: seq<Byte>, line: seq<Byte>, sep: Byte)
    ensures Reading(line, 0, 0, false, sep) && SpansHeld(b, line, [])
    ensures [] + Spans(line, 0, sep) == Spans(line, 0, sep)
  {
  }

  lemma SpanJoins(b: seq<Byte>, line: seq<Byte>, done: seq<Span>, from: nat, at: nat)
    requires SpansHeld(b, line, done) && from <= at <= |line| && at < |b| && b[at] == 0
    requires forall k | from <= k < at :: b[k] == line[k]
    ensures SpansHeld(b, line, done + [Span(from, at)])
  {
    assert b[from..at] == line[from..at];
  }

  /** `done` is what dequoting makes of the column's bytes before j. */
  ghost predicate DoneBefore(f: Field, j: nat, done: Field)
  {
    Dequote(f) == done + DequoteFrom(f, j)
  }

  /** One turn of the dequoting loop: the byte to keep, and where the next turn reads; none at the closing quote. */
  method NextUnquoted(z: array<Byte>, p: nat, j: nat, ghost f: Field, ghost done: Field)
    returns (more: bool, c: Byte, next: nat)
    requires HoldsRest(z, p, j, f) && j < p + |f| && 0 !in f && DoneBefore(f, j - p, done)
    ensures more ==> j < next <= p + |f| && DoneBefore(f, next - p, done + [c])
    ensures !more ==> Dequote(f) == done
  {
    hide DequoteFrom, Dequote;
    DequoteStep(f, j - p, done);
    DequoteEnd(f, |f|, done);
    next := j;
    if z[next] == DOUBLE {
      next := next + 1;
      if z[next] == 0 {
        return false, 0, next;
      }
    }
    more, c, next := true, z[next], next + 1;
  }

  /** The dequoting loop: two cursors over one column, the write cursor always behind. */
  method DequoteColumn(z: array<Byte>, p: nat, ghost f: Field)
    requires HoldsText(z, p, f) && 0 !in f
    modifies z
    ensures HoldsText(z, p, Dequote(f))
    ensures forall k | 0 <= k < z.Length && !(p <= k <= p + |f|) :: z[k] == old(z[k])
  {
    hide DequoteFrom, Dequote, HoldsText, DoneBefore;
    DequoteStart(f);
    TextIsRest(z, p, f);
    if z[p] == DOUBLE {
      var j, k := p + 1, p;
      ghost var done := [];
      while z[j] != 0
        invariant p <= k < j && HoldsRest(z, p, j, f) && DoneBefore(f, j - p, done)
        invariant z[p..k] == done
        invariant forall i | 0 <= i < z.Length && !(p <= i <= p + |f|) :: z[i] == old(z[i])
        decreases p + |f| - j
      {
        var more, c, next := NextUnquoted(z, p, j, f, done);
        if !more {
          break;
        }
        PutByte(z, p, k, c, done);
        done := done + [c];
        j, k := next, k + 1;
      }
      if j == p + |f| {
        AllDone(f, done);
      }
      Terminate(z, p, k, done);
    }
  }

  lemma AllDone(f: Field, done: Field)
    requires DoneBefore(f, |f|, done)
    ensures Dequote(f) == done
  {
    DequoteEnd(f, |f|, done);
  }

  /** One byte more of the text behind p. */
  method PutByte(z: array<Byte>, p: nat, k: nat, c: Byte, ghost s: seq<Byte>)
    requires p <= k < z.Length && z[p..k] == s
    modifies z
    ensures z[p..k + 1] == s + [c]
    ensures forall i | 0 <= i < z.Length && i != k :: z[i] == old(z[i])
  {
    z[k] := c;
    assert z[p..k] == s;
  }

  /** The byte at k becomes the terminator of the text behind p. */
  method Terminate(z: array<Byte>, p: nat, k: nat, ghost s: seq<Byte>)
    requires p <= k < z.Length && z[p..k] == s
    modifies z
    ensures HoldsText(z, p, s)
    ensures forall i | 0 <= i < z.Length && i != k :: z[i] == old(z[i])
  {
    z[k] := 0;
    assert z[p..k] == s;
  }

  lemma DequoteStart(f: Field)
    ensures if f != [] && f[0] == DOUBLE then DoneBefore(f, 1, []) else Dequote(f) == f
  {
  }

  lemma DequoteStep(f: Field, j: nat, done: Field)
    requires j < |f|
    ensures f[j] != DOUBLE ==> done + DequoteFrom(f, j) == (done + [f[j]]) + DequoteFrom(f, j + 1)
    ensures f[j] == DOUBLE && j + 1 < |f| ==>
              done + DequoteFrom(f, j) == (done + [f[j + 1]]) + DequoteFrom(f, j + 2)
    ensures f[j] == DOUBLE && j + 1 == |f| ==> done + DequoteFrom(f, j) == done + DequoteFrom(f, j + 1)
  {
    if f[j] != DOUBLE {
      Regroup(done, [f[j]], DequoteFrom(f, j + 1));
    } else if j + 1 < |f| {
      Regroup(done, [f[j + 1]], DequoteFrom(f, j + 2));
    }
  }

  lemma DequoteEnd(f: Field, j: nat, done: Field)
    requires |f| <= j
    ensures done + DequoteFrom(f, j) == done
  {
  }

  /** The columns before i stand dequoted in the buffer, the others as they were split. */
  ghost predicate DequotedTo(b: seq<Byte>, line: seq<Byte>, spans: seq<Span>, i: nat)
  {
    forall k | 0 <= k < |spans| :: ColumnHeld(b, line, spans[k], k < i)
  }

  ghost predicate ColumnHeld(b: seq<Byte>, line: seq<Byte>, s: Span, dequoted: bool)
  {
    s.start <= s.end <= |line|
    && TextAt(b, s.start, if dequoted then Dequote(line[s.start..s.end]) else line[s.start..s.end])
  }

  /** Dequoting one column touches no other. */
  lemma DequotedNext(was: seq<Byte>, b: seq<Byte>, line: seq<Byte>, spans: seq<Span>, i: nat)
    requires DequotedTo(was, line, spans, i) && i < |spans| && InOrder(spans, 0, |line|) && |b| == |was|
    requires ColumnHeld(b, line, spans[i], true)
    requires forall k | 0 <= k < |b| && !(spans[i].start <= k <= spans[i].end) :: b[k] == was[k]
    ensures DequotedTo(b, line, spans, i + 1)
  {
    hide Dequote;
    forall k | 0 <= k < |spans|
      ensures ColumnHeld(b, line, spans[k], k < i + 1)
    {
      var s := spans[k];
      assert ColumnHeld(was, line, s, k < i);
      if k != i {
        var t := if k < i then Dequote(line[s.start..s.end]) else line[s.start..s.end];
        assert b[s.start..s.start + |t|] == was[s.start..s.start + |t|];
      }
    }
  }

  lemma SplitIsUndequoted(b: seq<Byte>, line: seq<Byte>, spans: seq<Span>)
    requires SpansHeld(b, line, spans)
    ensures DequotedTo(b, line, spans, 0)
  {
  }

  lemma {:induction false} DequoteAllAt(cols: seq<Field>, k: nat)
    requires k < |cols|
    ensures DequoteAll(cols)[k] == Dequote(cols[k])
  {
    if 0 < k {
      DequoteAllAt(cols[1..], k - 1);
    }
  }

  /** The value bound for a column: its bytes up to the terminator. */
  method BoundText(z: array<Byte>, p: nat, ghost s: Field) returns (t: Field)
    requires HoldsText(z, p, s) && 0 !in s
    ensures t == s
  {
    TextIsRest(z, p, s);
    var n := p;
    while z[n] != 0
      invariant p <= n && HoldsRest(z, p, n, s)
      decreases p + |s| - n
    {
      n := n + 1;
    }
    t := z[p..n];
  }

  lemma {:induction false} DequoteKeepsOutNul(f: Field, j: nat)
    requires 0 !in f
    ensures 0 !in DequoteFrom(f, j)
    decreases |f| - j
  {
    if j < |f| && f[j] != DOUBLE {
      DequoteKeepsOutNul(f, j + 1);
    } else if j + 1 < |f| {
      DequoteKeepsOutNul(f, j + 2);
    }
  }

  lemma ColumnNulFree(line: seq<Byte>, s: Span)
    requires 0 !in line && s.start <= s.end <= |line|
    ensures 0 !in line[s.start..s.end] && 0 !in Dequote(line[s.start..s.end])
  {
    forall b | b in line[s.start..s.end]
      ensures b in line
    {
    }
    DequoteKeepsOutNul(line[s.start..s.end], 1);
  }

  /**
   One line of the import loop: split, check the number of columns, dequote each column in place, and
   read the bound values only after all of them are done, as the statement does when it is stepped.
   */
  method ImportLine(z: array<Byte>, nCol: nat, sep: Byte, ghost line: seq<Byte>) returns (ok: bool, row: Row)
    requires HoldsText(z, 0, line) && 0 !in line && 0 < nCol && sep != 0
    modifies z
    ensures ok == (|Columns(line, 0, sep)| == nCol)
    ensures ok ==> row == DequoteAll(Columns(line, 0, sep))
  {
    hide Spans, Columns, SpansHeld, DequotedTo, InOrder, Dequote, DequoteAll, HoldsText;
    ghost var spans, cols := Spans(line, 0, sep), Columns(line, 0, sep);
    row := [];
    var count, azCol := SplitColumns(z, nCol, sep, line);
    if count != nCol {
      return false, row;
    }
    ok := true;
    SplitIsUndequoted(z[..], line, spans);
    SpansInOrder(line, 0, sep);
    for i := 0 to nCol
      invariant DequotedTo(z[..], line, spans, i)
      invariant forall k | 0 <= k < nCol :: azCol[k] == spans[k].start
    {
      ghost var was := z[..];
      ColumnBefore(z, line, spans, i);
      DequoteColumn(z, azCol[i], line[spans[i].start..spans[i].end]);
      ColumnAfter(z, line, spans[i]);
      DequotedNext(was, z[..], line, spans, i);
    }
    for i := 0 to nCol
      invariant DequotedTo(z[..], line, spans, nCol)
      invariant forall k | 0 <= k < nCol :: azCol[k] == spans[k].start
      invariant |row| == i && forall k | 0 <= k < i :: row[k] == DequoteAll(cols)[k]
    {
      ColumnAt(line, 0, sep, i);
      DequoteAllAt(cols, i);
      ColumnDone(z, line, spans, i);
      var t := BoundText(z, azCol[i], Dequote(cols[i]));
      row := row + [t];
    }
  }

  lemma ColumnBefore(z: array<Byte>, line: seq<Byte>, spans: seq<Span>, i: nat)
    requires DequotedTo(z[..], line, spans, i) && i < |spans| && 0 !in line
    ensures var s := spans[i];
            && s.start <= s.end <= |line| && HoldsText(z, s.start, line[s.start..s.end])
            && 0 !in line[s.start..s.end]
  {
    var s := spans[i];
    assert ColumnHeld(z[..], line, s, false);
    TextHeld(z, s.start, line[s.start..s.end]);
    ColumnNulFree(line, s);
  }

  lemma ColumnAfter(z: array<Byte>, line: seq<Byte>, s: Span)
    requires s.start <= s.end <= |line| && HoldsText(z, s.start, Dequote(line[s.start..s.end]))
    ensures ColumnHeld(z[..], line, s, true)
  {
    TextHeld(z, s.start, Dequote(line[s.start..s.end]));
  }

  lemma ColumnDone(z: array<Byte>, line: seq<Byte>, spans: seq<Span>, i: nat)
    requires DequotedTo(z[..], line, spans, |spans|) && i < |spans| && 0 !in line
    ensures var s := spans[i];
            && s.start <= s.end <= |line| && HoldsText(z, s.start, Dequote(line[s.start..s.end]))
            && 0 !in Dequote(line[s.start..s.end])
  {
    var s := spans[i];
    assert ColumnHeld(z[..], line, s, true);
    TextHeld(z, s.start, Dequote(line[s.start..s.end]));
    ColumnNulFree(line, s);
  }

  /** The import loop: rows until a line has the wrong number of columns, which rolls everything back. */
  method ImportTable(input: seq<Byte>, nCol: nat, sep: Byte) returns (rows: seq<Row>, ok: bool)
    requires 0 < nCol && sep != 0
    ensures Imported(rows, ok) == Import(input, 0, nCol, sep)
  {
    hide Import, ReadLine, Columns, DequoteAll;
    rows, ok := [], true;
    var pos := 0;
    while true
      invariant pos <= |input| && ok
      invariant Import(input, 0, nCol, sep) == Prepend(rows, Import(input, pos, nCol, sep))
      decreases |input| - pos
    {
      ImportStep(input, pos, nCol, sep, rows);
      var zLine, next := GetLine(input, pos, true);
      if zLine == null {
        break;
      }
      ghost var line := ReadLine(input, pos, true).value.text;
      LineIsText(zLine, input, pos, line);
      var good, row := ImportLine(zLine, nCol, sep, line);
      if !good {
        ok := false;
        break;
      }
      rows := rows + [row];
      pos := next;
    }
  }

  function Prepend(rows: seq<Row>, r: Imported): Imported
  {
    Imported(rows + r.rows, r.ok)
  }

  lemma ImportStep(input: seq<Byte>, p: nat, nCol: nat, sep: Byte, rows: seq<Row>)
    requires p <= |input|
    ensures match ReadLine(input, p, true)
            case None => Prepend(rows, Import(input, p, nCol, sep)) == Imported(rows, true)
            case Some(line) =>
              p < line.next <= |input| &&
              var cols := Columns(line.text, 0, sep);
              if |cols| != nCol then Prepend(rows, Import(input, p, nCol, sep)) == Imported(rows, false)
              else Prepend(rows, Import(input, p, nCol, sep))
                   == Prepend(rows + [DequoteAll(cols)], Import(input, line.next, nCol, sep))
  {
    hide ReadLine, Columns, DequoteAll;
    assert rows + [] == rows;
    match ReadLine(input, p, true)
    case None =>
    case Some(line) =>
      Regroup(rows, [DequoteAll(Columns(line.text, 0, sep))], Import(input, line.next, nCol, sep).rows);
  }

  lemma LineIsText(z: array<Byte>, input: seq<Byte>, p: nat, line: seq<Byte>)
    requires z[..] == line + [0] && p <= |input|
    requires ReadLine(input, p, true).Some? && line == ReadLine(input, p, true).value.text
    ensures HoldsText(z, 0, line) && 0 !in line
  {
    hide ReadLine;
    LineNulFree(input, p, true);
    TextHeld(z, 0, line);
    assert (line + [0])[..|line|] == line;
  }
}
