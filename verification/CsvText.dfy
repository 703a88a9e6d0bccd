/**
 CSV as the shell writes it (output_csv) and as .import reads it back: the text of a table, the reader's
 lines, columns and fields, and the round trip.  The separator is one byte.
 */
module CsvText {
  import opened Basics
  import opened ByteSeq
  import opened ShellLine
  import opened SqlQuote

  type Field = seq<Byte>
  type Row = seq<Field>

  // ------------------------------------------------------------- writing

  /** The table needCsvQuote. */
  predicate NeedCsvQuote(c: Byte)
  {
    c <= 32 || c == DOUBLE || c == SINGLE || 127 <= c
  }

  predicate MustQuote(z: Field, sep: Byte)
  {
    z == [] || exists k :: 0 <= k < |z| && (NeedCsvQuote(z[k]) || z[k] == sep)
  }

  function FieldText(z: Field, sep: Byte): seq<Byte>
  {
    if MustQuote(z, sep) then Quoted(z, DOUBLE) else z
  }

  /** A field, or what stands for SQL NULL. */
  function ValueText(z: Option<Field>, nullvalue: seq<Byte>, sep: Byte): seq<Byte>
  {
    if z.None? then nullvalue else FieldText(z.value, sep)
  }

  /** A row without its newline. */
  function RowText(row: seq<Option<Field>>, nullvalue: seq<Byte>, sep: Byte): seq<Byte>
  {
    if row == [] then []
    else ValueText(row[0], nullvalue, sep)
         + (if |row| == 1 then [] else [sep] + RowText(row[1..], nullvalue, sep))
  }

  /** output_csv. */
  method OutputCsv(output: seq<Byte>, z: Option<Field>, nullvalue: seq<Byte>, sep: Byte, bSep: bool)
    returns (r: seq<Byte>)
    ensures r == output + ValueText(z, nullvalue, sep) + if bSep then [sep] else []
    ensures r == output
                 + (if z.None? then nullvalue
                    else if z.value != [] && (forall k | 0 <= k < |z.value| ::
                                                33 <= z.value[k] < 127 && z.value[k] !in [34, 39, sep]) then z.value
                    else [34] + Doubled(z.value, 34) + [34])
                 + (if bSep then [sep] else [])
  {
    hide Doubled;
    r := output;
    if z.None? {
      r := r + nullvalue;
    } else {
      var s := z.value;
      var i := 0;
      while i < |s|
        invariant i <= |s| && forall k | 0 <= k < i :: !NeedCsvQuote(s[k]) && s[k] != sep
      {
        if NeedCsvQuote(s[i]) || s[i] == sep {
          assert MustQuote(s, sep);
          i := 0;
          break;
        }
        i := i + 1;
      }
      if i == 0 {
        var body := [];
        assert s[..0] == [];
        DoubledNothing(s[..0], DOUBLE);
        for k := 0 to |s|
          invariant body == Doubled(s[..k], DOUBLE)
        {
          DoubledSnoc(s, k, DOUBLE);
          body := body + if s[k] == DOUBLE then [DOUBLE, DOUBLE] else [s[k]];
        }
        assert s[..|s|] == s;
        r := r + ([DOUBLE] + body + [DOUBLE]);
      } else {
        r := r + s;
      }
    }
    if bSep {
      r := r + [sep];
    }
  }

  lemma RowStep(row: seq<Option<Field>>, i: nat, nullvalue: seq<Byte>, sep: Byte)
    requires i < |row|
    ensures RowText(row[i..], nullvalue, sep)
            == ValueText(row[i], nullvalue, sep) + (if i < |row| - 1 then [sep] else [])
               + RowText(row[i + 1..], nullvalue, sep)
  {
    hide ValueText;
    assert row[i..][1..] == row[i + 1..];
    Regroup(ValueText(row[i], nullvalue, sep), if i < |row| - 1 then [sep] else [],
            RowText(row[i + 1..], nullvalue, sep));
  }

  /** One row of CSV output: separators between the values, a newline at the end. */
  method OutputRow(output: seq<Byte>, row: seq<Option<Field>>, nullvalue: seq<Byte>, sep: Byte)
    returns (r: seq<Byte>)
    ensures r == output + RowText(row, nullvalue, sep) + [NEWLINE]
  {
    hide RowText, ValueText;
    r := output;
    assert row[0..] == row;
    for i := 0 to |row|
      invariant output + RowText(row, nullvalue, sep) == r + RowText(row[i..], nullvalue, sep)
    {
      RowStep(row, i, nullvalue, sep);
      ghost var piece := ValueText(row[i], nullvalue, sep);
      ghost var rest := RowText(row[i + 1..], nullvalue, sep);
      ghost var mark := if i < |row| - 1 then [sep] else [];
      Regroup(r, piece, mark);
      Regroup(r, piece + mark, rest);
      r := OutputCsv(r, row[i], nullvalue, sep, i < |row| - 1);
    }
    RowNothing(row[|row|..], nullvalue, sep);
    assert r + [] == r;
    r := r + [NEWLINE];
  }

  lemma RowNothing(row: seq<Option<Field>>, nullvalue: seq<Byte>, sep: Byte)
    requires row == []
    ensures RowText(row, nullvalue, sep) == []
  {
  }

  // ------------------------------------------------------------- reading

  /** The columns of a line. */
  function Columns(line: seq<Byte>, p: nat, sep: Byte): (cols: seq<Field>)
    requires p <= |line|
    ensures cols != []
    decreases |line| - p
  {
    var e := NextStop(line, p, false, sep, true);
    if e == |line| then [line[p..]] else [line[p..e]] + Columns(line, e + 1, sep)
  }

  function Joined(cols: seq<Field>, sep: Byte): seq<Byte>
  {
    if |cols| <= 1 then if cols == [] then [] else cols[0]
    else cols[0] + ([sep] + Joined(cols[1..], sep))
  }

  /** Separators in a column stand inside quotes, and the one behind it does not. */
  ghost predicate ColumnOk(c: Field, sep: Byte, last: bool)
  {
    && (forall k | 0 <= k < |c| && c[k] == sep :: OddQuotes(c[..k + 1]))
    && (!last ==> !OddQuotes(c + [sep]))
  }

  /** The split, without its definition: joined again it is the line, and exactly separators outside quotes split. */
  lemma {:induction false} ColumnsAre(line: seq<Byte>, p: nat, sep: Byte)
    requires p <= |line|
    ensures var cols := Columns(line, p, sep);
            && Joined(cols, sep) == line[p..]
            && forall i | 0 <= i < |cols| :: ColumnOk(cols[i], sep, i == |cols| - 1)
    decreases |line| - p
  {
    hide NextStop, ColumnOk;
    var e := NextStop(line, p, false, sep, true);
    FirstColumn(line, p, e, sep);
    if e < |line| {
      ColumnsAre(line, e + 1, sep);
      var rest := Columns(line, e + 1, sep);
      assert ([line[p..e]] + rest)[1..] == rest;
      assert line[p..] == line[p..e] + ([sep] + line[e + 1..]);
    } else {
      assert line[p..] == line[p..e];
    }
  }

  lemma FirstColumn(line: seq<Byte>, p: nat, e: nat, sep: Byte)
    requires p <= |line| && e == NextStop(line, p, false, sep, true)
    ensures p <= e <= |line| && ColumnOk(line[p..e], sep, e == |line|)
  {
    hide NextStop, OddQuotes;
    NextStopIs(line, p, false, sep, true);
    forall k | 0 <= k < e - p && line[p..e][k] == sep
      ensures OddQuotes(line[p..e][..k + 1])
    {
      SameQuotes(line, p, e, k, sep);
    }
    assert e < |line| ==> line[p..e] + [sep] == line[p..e + 1];
  }

  lemma SameQuotes(line: seq<Byte>, p: nat, e: nat, k: nat, sep: Byte)
    requires p <= e <= |line| && k < e - p && line[p..e][k] == sep
    requires forall i | p <= i < e && line[i] == sep :: InQuotes(line, p, i, false)
    ensures OddQuotes(line[p..e][..k + 1])
  {
    hide OddQuotes;
    assert line[p + k] == sep;
    assert InQuotes(line, p, p + k, false);
    assert line[p..e][..k + 1] == line[p..p + k + 1];
  }

  /** A quoted column from j on: every quote stands for the byte after it, the last one for nothing. */
  function DequoteFrom(f: Field, j: nat): (r: Field)
    ensures |r| <= if j <= |f| then |f| - j else 0
    decreases |f| - j
  {
    if |f| <= j then []
    else if f[j] != DOUBLE then [f[j]] + DequoteFrom(f, j + 1)
    else if j + 1 == |f| then []
    else [f[j + 1]] + DequoteFrom(f, j + 2)
  }

  function Dequote(f: Field): (r: Field)
    ensures |r| <= |f|
  {
    if f == [] || f[0] != DOUBLE then f else DequoteFrom(f, 1)
  }

  /** A quote inside a quoted column that is not doubled is dropped; a column that is not quoted stays as it is. */
  lemma DequoteExamples()
    ensures Dequote([34, 97, 34, 98, 34]) == [97, 98] && Dequote([34]) == [] && Dequote([34, 97]) == [97]
    ensures Dequote([97, 34, 34]) == [97, 34, 34] && Dequote([]) == []
  {
    assert DequoteFrom([34, 97, 34, 98, 34], 4) == [];
    assert DequoteFrom([34, 97, 34, 98, 34], 2) == [98];
  }

  /** SQL NULL is written as the null value, without quotes. */
  lemma NullExample(nullvalue: seq<Byte>)
    ensures RowText([None, Some([97]), None], nullvalue, 44) == nullvalue + ([44] + ([97] + ([44] + nullvalue)))
  {
    var row: seq<Option<Field>> := [None, Some([97]), None];
    assert row[1..] == [Some([97]), None] && row[1..][1..] == [None];
    assert FieldText([97], 44) == [97];
    assert RowText([None], nullvalue, 44) == nullvalue + [];
    assert RowText(row[1..], nullvalue, 44) == [97] + ([44] + nullvalue);
  }

  function DequoteAll(cols: seq<Field>): (r: Row)
    ensures |r| == |cols|
  {
    if cols == [] then [] else [Dequote(cols[0])] + DequoteAll(cols[1..])
  }

  /** The rows bound before the first line with a wrong number of columns; ok when there is none. */
  datatype Imported = Imported(rows: seq<Row>, ok: bool)

  function Import(input: seq<Byte>, p: nat, nCol: nat, sep: Byte): Imported
    requires p <= |input|
    decreases |input| - p
  {
    match ReadLine(input, p, true)
    case None => Imported([], true)
    case Some(line) =>
      var cols := Columns(line.text, 0, sep);
      if |cols| != nCol then Imported([], false)
      else
        var rest := Import(input, line.next, nCol, sep);
        Imported([DequoteAll(cols)] + rest.rows, rest.ok)
  }

  /** The lines of the input. */
  function Lines(input: seq<Byte>, p: nat): seq<seq<Byte>>
    requires p <= |input|
    decreases |input| - p
  {
    match ReadLine(input, p, true)
    case None => []
    case Some(line) => [line.text] + Lines(input, line.next)
  }

  /** The line is one with nCol columns, and the row is its fields. */
  predicate RowIs(line: seq<Byte>, row: Row, nCol: nat, sep: Byte)
  {
    |Columns(line, 0, sep)| == nCol && row == DequoteAll(Columns(line, 0, sep))
  }

  lemma {:induction false} ImportRows(input: seq<Byte>, p: nat, nCol: nat, sep: Byte)
    requires p <= |input|
    ensures var lines, r := Lines(input, p), Import(input, p, nCol, sep);
            && (if r.ok then |r.rows| == |lines|
                else |r.rows| < |lines| && |Columns(lines[|r.rows|], 0, sep)| != nCol)
            && (forall i | 0 <= i < |r.rows| :: RowIs(lines[i], r.rows[i], nCol, sep))
    decreases |input| - p
  {
    hide ReadLine, Columns, DequoteAll;
    match ReadLine(input, p, true)
    case None =>
    case Some(line) =>
      var lines, r := Lines(input, p), Import(input, p, nCol, sep);
      if |Columns(line.text, 0, sep)| == nCol {
        ImportRows(input, line.next, nCol, sep);
        var rest := Lines(input, line.next);
        assert lines == [line.text] + rest;
      }
  }

  /** The import succeeds exactly when every line has nCol columns; the rows are those of the lines before. */
  lemma ImportIs(input: seq<Byte>, nCol: nat, sep: Byte)
    ensures var lines, r := Lines(input, 0), Import(input, 0, nCol, sep);
            && (r.ok <==> forall i | 0 <= i < |lines| :: |Columns(lines[i], 0, sep)| == nCol)
            && |r.rows| <= |lines| && (r.ok ==> |r.rows| == |lines|)
            && (!r.ok ==> |r.rows| < |lines| && |Columns(lines[|r.rows|], 0, sep)| != nCol)
            && forall i | 0 <= i < |r.rows| :: RowIs(lines[i], r.rows[i], nCol, sep)
  {
    hide Lines, Import, Columns;
    ImportRows(input, 0, nCol, sep);
    var lines, r := Lines(input, 0), Import(input, 0, nCol, sep);
    if r.ok {
      assert forall i | 0 <= i < |lines| :: RowIs(lines[i], r.rows[i], nCol, sep);
    }
  }

  // ---------------------------------------------------------- round trip

  /** Bytes that neither stop nor quote are passed over. */
  lemma {:induction false} PassPlain(s: seq<Byte>, p: nat, z: seq<Byte>, stop: Byte)
    requires IsAt(s, p, z) && DOUBLE !in z && stop !in z
    ensures p + |z| <= |s| && NextStop(s, p, false, stop, true) == NextStop(s, p + |z|, false, stop, true)
    decreases |z|
  {
    hide IsAt;
    IsAtBound(s, p, z);
    if z != [] {
      assert z == [z[0]] + z[1..];
      IsAtSplit(s, p, [z[0]], z[1..]);
      IsAtByte(s, p, z, 0);
      PassPlain(s, p + 1, z[1..], stop);
    }
  }

  /** Inside quotes nothing stops, and a doubled quote leaves the reader inside. */
  lemma {:induction false} PassDoubled(s: seq<Byte>, p: nat, z: seq<Byte>, stop: Byte)
    requires IsAt(s, p, Doubled(z, DOUBLE)) && stop != DOUBLE
    ensures p + |Doubled(z, DOUBLE)| <= |s|
    ensures NextStop(s, p, true, stop, true) == NextStop(s, p + |Doubled(z, DOUBLE)|, true, stop, true)
    decreases |z|
  {
    hide IsAt;
    IsAtBound(s, p, Doubled(z, DOUBLE));
    if z != [] {
      var head, rest := if z[0] == DOUBLE then [DOUBLE, DOUBLE] else [z[0]], Doubled(z[1..], DOUBLE);
      IsAtSplit(s, p, head, rest);
      IsAtByte(s, p, head, 0);
      IsAtByte(s, p, head, |head| - 1);
      PassDoubled(s, p + |head|, z[1..], stop);
    }
  }

  lemma PassField(s: seq<Byte>, p: nat, z: Field, sep: Byte, stop: Byte)
    requires IsAt(s, p, FieldText(z, sep)) && stop != DOUBLE && (stop == sep || stop == NEWLINE)
    ensures p + |FieldText(z, sep)| <= |s|
    ensures NextStop(s, p, false, stop, true) == NextStop(s, p + |FieldText(z, sep)|, false, stop, true)
  {
    hide IsAt, Doubled;
    IsAtBound(s, p, FieldText(z, sep));
    if MustQuote(z, sep) {
      var d := Doubled(z, DOUBLE);
      Regroup([DOUBLE], d, [DOUBLE]);
      IsAtSplit(s, p, [DOUBLE], d + [DOUBLE]);
      IsAtSplit(s, p + 1, d, [DOUBLE]);
      IsAtByte(s, p, [DOUBLE], 0);
      IsAtByte(s, p + 1 + |d|, [DOUBLE], 0);
      PassDoubled(s, p + 1, z, stop);
    } else {
      PassPlain(s, p, z, stop);
    }
  }

  function Values(row: Row): (r: seq<Option<Field>>)
    ensures |r| == |row|
  {
    if row == [] then [] else [Some(row[0])] + Values(row[1..])
  }

  function LineText(row: Row, sep: Byte): seq<Byte>
  {
    RowText(Values(row), [], sep)
  }

  lemma LineStep(row: Row, sep: Byte)
    requires row != []
    ensures |row| == 1 ==> LineText(row, sep) == FieldText(row[0], sep)
    ensures |row| > 1 ==> LineText(row, sep) == FieldText(row[0], sep) + ([sep] + LineText(row[1..], sep))
  {
    assert Values(row)[1..] == Values(row[1..]);
  }

  function Texts(row: Row, sep: Byte): seq<Field>
  {
    if row == [] then [] else [FieldText(row[0], sep)] + Texts(row[1..], sep)
  }

  /** A separator that the writer and the reader treat alike. */
  predicate GoodSeparator(sep: Byte)
  {
    sep != DOUBLE && sep != NEWLINE && sep != 0
  }

  /** No newline of a row's text ends the line. */
  lemma {:induction false} PassRow(s: seq<Byte>, p: nat, row: Row, sep: Byte)
    requires IsAt(s, p, LineText(row, sep)) && row != [] && GoodSeparator(sep)
    ensures p + |LineText(row, sep)| <= |s|
    ensures NextStop(s, p, false, NEWLINE, true) == NextStop(s, p + |LineText(row, sep)|, false, NEWLINE, true)
    decreases |row|
  {
    hide IsAt, LineText, FieldText;
    LineStep(row, sep);
    IsAtBound(s, p, LineText(row, sep));
    var head := FieldText(row[0], sep);
    if |row| == 1 {
      PassField(s, p, row[0], sep, NEWLINE);
    } else {
      var rest := LineText(row[1..], sep);
      IsAtSplit(s, p, head, [sep] + rest);
      IsAtSplit(s, p + |head|, [sep], rest);
      IsAtByte(s, p + |head|, [sep], 0);
      PassField(s, p, row[0], sep, NEWLINE);
      PassRow(s, p + |head| + 1, row[1..], sep);
    }
  }

  /** Splitting a row's text gives the texts of its fields. */
  lemma {:induction false} ColumnsOfRow(s: seq<Byte>, p: nat, row: Row, sep: Byte)
    requires IsAt(s, p, LineText(row, sep)) && p + |LineText(row, sep)| == |s| && row != [] && GoodSeparator(sep)
    ensures Columns(s, p, sep) == Texts(row, sep)
    decreases |row|
  {
    hide IsAt, LineText, FieldText;
    LineStep(row, sep);
    var head := FieldText(row[0], sep);
    if |row| == 1 {
      PassField(s, p, row[0], sep, sep);
      IsAtSlice(s, p, head);
      assert s[p..] == s[p..p + |head|];
    } else {
      var rest := LineText(row[1..], sep);
      IsAtSplit(s, p, head, [sep] + rest);
      IsAtSplit(s, p + |head|, [sep], rest);
      IsAtByte(s, p + |head|, [sep], 0);
      PassField(s, p, row[0], sep, sep);
      ColumnsOfRow(s, p + |head| + 1, row[1..], sep);
      IsAtSlice(s, p, head);
    }
  }

  lemma IsAtSlice(b: seq<Byte>, p: nat, s: seq<Byte>)
    requires IsAt(b, p, s)
    ensures p + |s| <= |b| && b[p..p + |s|] == s
  {
  }

  /** Dequoting undoes the doubling. */
  lemma {:induction false} DequoteDoubled(f: Field, j: nat, z: Field)
    requires IsAt(f, j, Doubled(z, DOUBLE) + [DOUBLE]) && j + |Doubled(z, DOUBLE)| + 1 == |f|
    ensures DequoteFrom(f, j) == z
    decreases |z|
  {
    hide IsAt;
    IsAtSplit(f, j, Doubled(z, DOUBLE), [DOUBLE]);
    if z == [] {
      IsAtByte(f, j, [DOUBLE], 0);
    } else {
      var head, rest := if z[0] == DOUBLE then [DOUBLE, DOUBLE] else [z[0]], Doubled(z[1..], DOUBLE);
      IsAtSplit(f, j, head, rest);
      IsAtSplit(f, j + |head|, rest, [DOUBLE]);
      IsAtByte(f, j, head, 0);
      IsAtByte(f, j, head, |head| - 1);
      DequoteDoubled(f, j + |head|, z[1..]);
      assert z == [z[0]] + z[1..];
    }
  }

  lemma DequoteField(z: Field, sep: Byte)
    ensures Dequote(FieldText(z, sep)) == z
  {
    hide IsAt, Doubled;
    if MustQuote(z, sep) {
      var f := FieldText(z, sep);
      Regroup([DOUBLE], Doubled(z, DOUBLE), [DOUBLE]);
      IsAtWhole(f);
      IsAtSplit(f, 0, [DOUBLE], Doubled(z, DOUBLE) + [DOUBLE]);
      DequoteDoubled(f, 1, z);
    }
  }

  lemma {:induction false} DequoteTexts(row: Row, sep: Byte)
    ensures |Texts(row, sep)| == |row| && DequoteAll(Texts(row, sep)) == row
  {
    hide Dequote, FieldText;
    if row != [] {
      DequoteField(row[0], sep);
      DequoteTexts(row[1..], sep);
      assert Texts(row, sep)[1..] == Texts(row[1..], sep);
      assert row == [row[0]] + row[1..];
    }
  }

  /** A row's text is never empty and never ends in a carriage return. */
  lemma {:induction false} RowEnd(row: Row, sep: Byte)
    requires row != []
    ensures var t := LineText(row, sep); t != [] && t[|t| - 1] != RETURN
  {
    hide LineText, Doubled;
    LineStep(row, sep);
    if |row| > 1 {
      hide FieldText;
      RowEnd(row[1..], sep);
    }
  }

  function TableText(rows: seq<Row>, sep: Byte): seq<Byte>
  {
    if rows == [] then [] else LineText(rows[0], sep) + ([NEWLINE] + TableText(rows[1..], sep))
  }

  predicate TableOk(rows: seq<Row>, nCol: nat)
  {
    forall k | 0 <= k < |rows| :: |rows[k]| == nCol
  }

  lemma RowLine(input: seq<Byte>, p: nat, row: Row, sep: Byte)
    requires row != [] && GoodSeparator(sep) && IsAt(input, p, LineText(row, sep) + [NEWLINE])
    ensures p <= |input|
    ensures PlainLine(input, p, true) == Some(Line(LineText(row, sep), p + |LineText(row, sep)| + 1))
  {
    hide IsAt, LineText;
    var t := LineText(row, sep);
    IsAtSplit(input, p, t, [NEWLINE]);
    IsAtByte(input, p + |t|, [NEWLINE], 0);
    PassRow(input, p, row, sep);
    RowEnd(row, sep);
    IsAtByte(input, p, t, |t| - 1);
    IsAtSlice(input, p, t);
  }

  lemma {:induction false} ImportText(input: seq<Byte>, p: nat, rows: seq<Row>, nCol: nat, sep: Byte)
    requires GoodSeparator(sep) && 0 < nCol && TableOk(rows, nCol) && 0 !in input
    requires IsAt(input, p, TableText(rows, sep)) && p + |TableText(rows, sep)| == |input|
    ensures Import(input, p, nCol, sep) == Imported(rows, true)
    decreases |rows|
  {
    hide IsAt, LineText, Columns, DequoteAll, ReadLine, PlainLine;
    NulFreeLine(input, p, true);
    if rows == [] {
      PlainLineIs(input, |input|, true);
    } else {
      var t, rest := LineText(rows[0], sep), TableText(rows[1..], sep);
      Regroup(t, [NEWLINE], rest);
      IsAtSplit(input, p, t + [NEWLINE], rest);
      RowLine(input, p, rows[0], sep);
      IsAtWhole(t);
      ColumnsOfRow(t, 0, rows[0], sep);
      DequoteTexts(rows[0], sep);
      ImportText(input, p + |t| + 1, rows[1..], nCol, sep);
      assert rows == [rows[0]] + rows[1..];
    }
  }

  predicate NulFree(row: Row)
  {
    forall k | 0 <= k < |row| :: 0 !in row[k]
  }

  predicate AllNulFree(rows: seq<Row>)
  {
    forall k | 0 <= k < |rows| :: NulFree(rows[k])
  }

  lemma {:induction false} DoubledNulFree(z: Field)
    requires 0 !in z
    ensures 0 !in Doubled(z, DOUBLE)
  {
    if z != [] {
      DoubledNulFree(z[1..]);
    }
  }

  lemma {:induction false} RowNulFree(row: Row, sep: Byte)
    requires NulFree(row) && sep != 0
    ensures 0 !in LineText(row, sep)
  {
    hide LineText, Doubled;
    if row == [] {
      RowNothing(Values(row), [], sep);
      LineIsRow(row, sep);
    } else {
      LineStep(row, sep);
      DoubledNulFree(row[0]);
      RowNulFree(row[1..], sep);
    }
  }

  lemma {:induction false} TableNulFree(rows: seq<Row>, sep: Byte)
    requires sep != 0 && AllNulFree(rows)
    ensures 0 !in TableText(rows, sep)
  {
    hide LineText;
    if rows != [] {
      RowNulFree(rows[0], sep);
      TableNulFree(rows[1..], sep);
    }
  }

  /**
   Reading back what CSV mode wrote gives the same rows, whatever the fields hold: quotes, separators,
   newlines, carriage returns, nothing at all.
   */
  lemma CsvRoundTrip(rows: seq<Row>, nCol: nat, sep: Byte)
    requires GoodSeparator(sep) && 0 < nCol && TableOk(rows, nCol)
    requires AllNulFree(rows)
    ensures 0 !in TableText(rows, sep) && Import(TableText(rows, sep), 0, nCol, sep) == Imported(rows, true)
  {
    TableNulFree(rows, sep);
    IsAtWhole(TableText(rows, sep));
    ImportText(TableText(rows, sep), 0, rows, nCol, sep);
  }

  /** The rows of a query, one call of the callback each: together they make the table's text. */
  method OutputTable(rows: seq<Row>, sep: Byte) returns (r: seq<Byte>)
    ensures r == TableText(rows, sep)
  {
    hide TableText, LineText;
    r := [];
    assert rows[0..] == rows;
    for i := 0 to |rows|
      invariant TableText(rows, sep) == r + TableText(rows[i..], sep)
    {
      TableStep(rows, i, r, sep);
      r := OutputRow(r, Values(rows[i]), [], sep);
      LineIsRow(rows[i], sep);
    }
    TableNothing(rows[|rows|..], sep);
  }

  lemma LineIsRow(row: Row, sep: Byte)
    ensures LineText(row, sep) == RowText(Values(row), [], sep)
  {
  }

  lemma TableStep(rows: seq<Row>, i: nat, r: seq<Byte>, sep: Byte)
    requires i < |rows|
    ensures r + TableText(rows[i..], sep) == (r + LineText(rows[i], sep) + [NEWLINE]) + TableText(rows[i + 1..], sep)
  {
    hide LineText;
    assert rows[i..][1..] == rows[i + 1..];
    Regroup(r, LineText(rows[i], sep), [NEWLINE]);
    Regroup(LineText(rows[i], sep), [NEWLINE], TableText(rows[i + 1..], sep));
    Regroup(r, LineText(rows[i], sep) + [NEWLINE], TableText(rows[i + 1..], sep));
  }

  lemma TableNothing(rows: seq<Row>, sep: Byte)
    requires rows == []
    ensures TableText(rows, sep) == []
  {
  }

  // ------------------------------------------------- which separators do

  /** Every table of NUL-free fields comes back. */
  ghost predicate RoundTrips(sep: Byte)
  {
    forall rows: seq<Row>, nCol: nat | 0 < nCol && TableOk(rows, nCol) && AllNulFree(rows) ::
      Import(TableText(rows, sep), 0, nCol, sep) == Imported(rows, true)
  }

  const PAIR: Row := [[97], [98]]

  /** Two plain fields, unless the separator is one of their bytes. */
  lemma PairText(sep: Byte)
    requires sep == DOUBLE || sep == NEWLINE
    ensures TableText([PAIR], sep) == [97, sep, 98, NEWLINE]
  {
    LineStep(PAIR, sep);
    assert PAIR[1..] == [[98]];
    LineStep([[98]], sep);
    assert !MustQuote([97], sep) && !MustQuote([98], sep);
    assert [PAIR][1..] == [] && TableText([], sep) == [];
  }

  /** With such a separator the pair does not come back as two columns. */
  lemma PairLost(sep: Byte)
    requires sep == DOUBLE || sep == NEWLINE
    ensures !Import(TableText([PAIR], sep), 0, 2, sep).ok
  {
    PairText(sep);
    var t: seq<Byte> := [97, sep, 98, NEWLINE];
    NulFreeLine(t, 0, true);
    var line := PlainLine(t, 0, true).value.text;
    if sep == NEWLINE {
      assert NextStop(t, 0, false, NEWLINE, true) == NextStop(t, 1, false, NEWLINE, true) == 1;
      assert line == [97];
      assert NextStop(line, 0, false, sep, true) == NextStop(line, 1, false, sep, true) == 1;
    } else {
      QuoteRunsOn(t, NEWLINE);
      assert line == t;
      QuoteRunsOn(t, DOUBLE);
    }
  }

  lemma QuoteRunsOn(t: seq<Byte>, stop: Byte)
    requires t == [97, DOUBLE, 98, NEWLINE] && (stop == DOUBLE || stop == NEWLINE)
    ensures NextStop(t, 0, false, stop, true) == 4
  {
    assert NextStop(t, 4, true, stop, true) == 4;
    assert NextStop(t, 3, true, stop, true) == 4;
    assert NextStop(t, 2, true, stop, true) == 4;
    assert NextStop(t, 1, false, stop, true) == 4;
  }

  /** The separators that bring every table back are exactly those other than a double quote and a newline. */
  lemma RoundTripsIff(sep: Byte)
    requires sep != 0
    ensures RoundTrips(sep) <==> GoodSeparator(sep)
  {
    hide Import, TableText;
    if GoodSeparator(sep) {
      forall rows: seq<Row>, nCol: nat | 0 < nCol && TableOk(rows, nCol) && AllNulFree(rows)
        ensures Import(TableText(rows, sep), 0, nCol, sep) == Imported(rows, true)
      {
        CsvRoundTrip(rows, nCol, sep);
      }
    } else {
      PairLost(sep);
      assert TableOk([PAIR], 2) && NulFree(PAIR);
      assert !RoundTrips(sep);
    }
  }
}
