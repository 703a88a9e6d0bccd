/**
 The column layout of .tables: names go down the rows first, in columns of equal width.  Every name is
 printed once, at a place that its number fixes, and the rows fit the screen when they can.
 */
module TablesLayout {
  import opened Basics
  import opened ByteSeq
  import opened Division

  const SCREEN := 80

  type Names = seq<seq<Byte>>

  function MaxLen(names: Names): (m: nat)
    ensures forall k | 0 <= k < |names| :: |names[k]| <= m
    ensures m == 0 || exists k :: 0 <= k < |names| && |names[k]| == m
  {
    if names == [] then 0
    else
      var m := MaxLen(names[..|names| - 1]);
      if |names[|names| - 1]| > m then |names[|names| - 1]| else m
  }

  /** No name is longer than m. */
  ghost predicate AllWithin(names: Names, m: nat)
  {
    forall k | 0 <= k < |names| :: |names[k]| <= m
  }

  function PrintCols(maxlen: nat): (c: nat)
    ensures 1 <= c
  {
    var c := SCREEN / (maxlen + 2);
    if c < 1 then 1 else c
  }

  function PrintRows(nRow: nat, cols: nat): (r: nat)
    requires 0 < cols
    ensures 0 < nRow ==> 0 < r
  {
    (nRow + cols - 1) / cols
  }

  function Spaces(n: nat): (s: seq<Byte>)
    ensures |s| == n
  {
    seq(n, _ => SPACE)
  }

  function Padded(s: seq<Byte>, width: nat): (p: seq<Byte>)
    ensures |p| == if |s| < width then width else |s|
  {
    if |s| < width then s + Spaces(width - |s|) else s
  }

  /** One cell: names beyond the first column have two spaces before them. */
  function Cell(names: Names, j: nat, rows: nat, maxlen: nat): seq<Byte>
    requires j < |names|
  {
    (if j < rows then [] else [SPACE, SPACE]) + Padded(names[j], maxlen)
  }

  /** A row from name j on: every rows-th name. */
  function RowFrom(names: Names, j: nat, rows: nat, maxlen: nat): seq<Byte>
    requires 0 < rows
    decreases if j < |names| then |names| - j else 0
  {
    if |names| <= j then [] else Cell(names, j, rows, maxlen) + RowFrom(names, j + rows, rows, maxlen)
  }

  /** How many names it holds. */
  function Cells(j: nat, rows: nat, nRow: nat): nat
    requires 0 < rows
    decreases if j < nRow then nRow - j else 0
  {
    if nRow <= j then 0 else 1 + Cells(j + rows, rows, nRow)
  }

  function Listing(names: Names, i: nat, rows: nat, maxlen: nat): seq<Byte>
    requires 0 < rows && i <= rows
    decreases rows - i
  {
    if i == rows then [] else RowFrom(names, i, rows, maxlen) + [NEWLINE] + Listing(names, i + 1, rows, maxlen)
  }

  /** Enough rows, and no more rows than names. */
  lemma RowsBounds(nRow: nat, cols: nat)
    requires 0 < nRow && 0 < cols
    ensures var rows := PrintRows(nRow, cols); 1 <= rows <= nRow && cols * (rows - 1) < nRow <= cols * rows
  {
    var rows := PrintRows(nRow, cols);
    DivBounds(nRow + cols - 1, cols);
    MulGap(cols, nRow, rows);
    MulGap(nRow, 1, cols);
  }

  /** The strided double loop. */
  method PrintGrid(output: seq<Byte>, names: Names, nPrintRow: nat, maxlen: nat) returns (r: seq<Byte>)
    requires 0 < nPrintRow
    ensures r == output + Listing(names, 0, nPrintRow, maxlen)
  {
    hide Listing, RowFrom, Padded;
    r := output;
    for i := 0 to nPrintRow
      invariant output + Listing(names, 0, nPrintRow, maxlen) == r + Listing(names, i, nPrintRow, maxlen)
    {
      ListingStep(names, i, nPrintRow, maxlen, r);
      var j := i;
      ghost var before := r;
      while j < |names|
        invariant before + RowFrom(names, i, nPrintRow, maxlen) == r + RowFrom(names, j, nPrintRow, maxlen)
        decreases |names| - j
      {
        RowStep(names, j, nPrintRow, maxlen, r);
        var zSp := if j < nPrintRow then [] else [SPACE, SPACE];
        r := r + (zSp + Padded(names[j], maxlen));
        j := j + nPrintRow;
      }
      RowEnd(names, j, nPrintRow, maxlen, r);
      r := r + [NEWLINE];
    }
    ListingEnd(names, nPrintRow, maxlen, r);
  }

  /** The .tables loops: widest name, column and row counts, then the names. */
  method PrintTables(output: seq<Byte>, names: Names) returns (r: seq<Byte>)
    ensures r == if names == [] then output
                 else
                   var maxlen := MaxLen(names);
                   output + Listing(names, 0, PrintRows(|names|, PrintCols(maxlen)), maxlen)
  {
    r := output;
    var nRow := |names|;
    if nRow > 0 {
      var maxlen := 0;
      for i := 0 to nRow
        invariant maxlen == MaxLen(names[..i])
      {
        assert names[..i + 1][..i] == names[..i];
        var len := |names[i]|;
        if len > maxlen {
          maxlen := len;
        }
      }
      assert names[..nRow] == names;
      hide Listing, MaxLen;
      var nPrintCol := SCREEN / (maxlen + 2);
      if nPrintCol < 1 {
        nPrintCol := 1;
      }
      var nPrintRow := (nRow + nPrintCol - 1) / nPrintCol;
      assert nPrintRow == PrintRows(nRow, PrintCols(maxlen));
      r := PrintGrid(output, names, nPrintRow, maxlen);
    }
  }

  lemma RowStep(names: Names, j: nat, rows: nat, maxlen: nat, r: seq<Byte>)
    requires 0 < rows && j < |names|
    ensures r + RowFrom(names, j, rows, maxlen)
            == (r + Cell(names, j, rows, maxlen)) + RowFrom(names, j + rows, rows, maxlen)
  {
    hide Cell;
    Regroup(r, Cell(names, j, rows, maxlen), RowFrom(names, j + rows, rows, maxlen));
  }

  lemma RowEnd(names: Names, j: nat, rows: nat, maxlen: nat, r: seq<Byte>)
    requires 0 < rows && |names| <= j
    ensures r + RowFrom(names, j, rows, maxlen) == r
  {
  }

  lemma ListingStep(names: Names, i: nat, rows: nat, maxlen: nat, r: seq<Byte>)
    requires i < rows
    ensures r + Listing(names, i, rows, maxlen)
            == ((r + RowFrom(names, i, rows, maxlen)) + [NEWLINE]) + Listing(names, i + 1, rows, maxlen)
  {
    hide RowFrom;
    var row, rest := RowFrom(names, i, rows, maxlen), Listing(names, i + 1, rows, maxlen);
    Regroup(r, row, [NEWLINE]);
    Regroup(r, row + [NEWLINE], rest);
  }

  lemma ListingEnd(names: Names, rows: nat, maxlen: nat, r: seq<Byte>)
    requires 0 < rows
    ensures r + Listing(names, rows, rows, maxlen) == r
  {
  }

  // -------------------------------------------------------------- layout

  /** c steps of w. */
  function Steps(c: nat, w: nat): nat
  {
    if c == 0 then 0 else Steps(c - 1, w) + w
  }

  lemma {:induction false} StepsIs(c: nat, w: nat)
    ensures Steps(c, w) == c * w
  {
    if 0 < c {
      StepsIs(c - 1, w);
      assert c * w == (c - 1) * w + w;
    }
  }

  /** A row has a c-th cell exactly when there is a name that many strides on. */
  lemma {:induction false} CellsBound(j: nat, rows: nat, nRow: nat, c: nat)
    requires 0 < rows
    ensures c < Cells(j, rows, nRow) <==> j + Steps(c, rows) < nRow
    decreases c
  {
    if 0 < c && j < nRow {
      CellsBound(j + rows, rows, nRow, c - 1);
    }
  }

  /** Beyond the first column every cell is maxlen + 2 wide. */
  lemma {:induction false} LaterWidth(names: Names, j: nat, rows: nat, maxlen: nat)
    requires 0 < rows <= j && AllWithin(names, maxlen)
    ensures |RowFrom(names, j, rows, maxlen)| == Steps(Cells(j, rows, |names|), maxlen + 2)
    decreases if j < |names| then |names| - j else 0
  {
    hide AllWithin, Cell;
    if j < |names| {
      CellWidth(names, j, rows, maxlen);
      LaterWidth(names, j + rows, rows, maxlen);
    }
  }

  lemma CellWidth(names: Names, j: nat, rows: nat, maxlen: nat)
    requires j < |names| && AllWithin(names, maxlen)
    ensures |Cell(names, j, rows, maxlen)| == if j < rows then maxlen else maxlen + 2
  {
  }

  /** A row is as wide as its cells, less the two spaces the first one lacks. */
  lemma RowWidth(names: Names, i: nat, rows: nat, maxlen: nat)
    requires i < rows && i < |names| && AllWithin(names, maxlen)
    ensures |RowFrom(names, i, rows, maxlen)| == Cells(i, rows, |names|) * (maxlen + 2) - 2
  {
    hide AllWithin, Cell;
    var later := Cells(i + rows, rows, |names|);
    CellWidth(names, i, rows, maxlen);
    LaterWidth(names, i + rows, rows, maxlen);
    StepsIs(later + 1, maxlen + 2);
  }

  lemma InTail(row: seq<Byte>, head: seq<Byte>, rest: seq<Byte>, p: nat, s: seq<Byte>)
    requires row == head + rest && IsAt(rest, p, s)
    ensures IsAt(row, |head| + p, s)
  {
    assert row[|head| + p..|head| + p + |s|] == rest[p..p + |s|];
  }

  /** In the rest of a row from its second column on, the c-th cell is two spaces and the name. */
  lemma {:induction false} LaterNameAt(names: Names, j: nat, rows: nat, maxlen: nat, c: nat, k: nat)
    requires 0 < rows <= j && AllWithin(names, maxlen) && k == j + Steps(c, rows) < |names|
    ensures IsAt(RowFrom(names, j, rows, maxlen), Steps(c, maxlen + 2), [SPACE, SPACE] + Padded(names[k], maxlen))
    decreases c
  {
    hide Padded, IsAt;
    var row, rest := RowFrom(names, j, rows, maxlen), RowFrom(names, j + rows, rows, maxlen);
    if c == 0 {
      IsAtWhole(row);
      IsAtSplit(row, 0, [SPACE, SPACE] + Padded(names[k], maxlen), rest);
    } else {
      LaterNameAt(names, j + rows, rows, maxlen, c - 1, k);
      InTail(row, Cell(names, j, rows, maxlen), rest, Steps(c - 1, maxlen + 2),
             [SPACE, SPACE] + Padded(names[k], maxlen));
    }
  }

  /** In a row the c-th cell's name stands padded, and from the second column on two spaces come before it. */
  lemma NameAt(names: Names, i: nat, rows: nat, maxlen: nat, c: nat, k: nat)
    requires i < rows && AllWithin(names, maxlen) && k == i + Steps(c, rows) < |names|
    ensures IsAt(RowFrom(names, i, rows, maxlen), Steps(c, maxlen + 2), Padded(names[k], maxlen))
    ensures 0 < c ==> IsAt(RowFrom(names, i, rows, maxlen), Steps(c, maxlen + 2) - 2, [SPACE, SPACE])
  {
    hide Padded, IsAt;
    var row, rest := RowFrom(names, i, rows, maxlen), RowFrom(names, i + rows, rows, maxlen);
    if c == 0 {
      IsAtWhole(row);
      assert row == Padded(names[k], maxlen) + rest;
      IsAtSplit(row, 0, Padded(names[k], maxlen), rest);
    } else {
      LaterNameAt(names, i + rows, rows, maxlen, c - 1, k);
      InTail(row, Cell(names, i, rows, maxlen), rest, Steps(c - 1, maxlen + 2),
             [SPACE, SPACE] + Padded(names[k], maxlen));
      IsAtSplit(row, Steps(c, maxlen + 2) - 2, [SPACE, SPACE], Padded(names[k], maxlen));
    }
  }

  function RowOf(k: nat, rows: nat): nat
    requires 0 < rows
  {
    k % rows
  }

  function ColumnOf(k: nat, rows: nat): nat
    requires 0 < rows
  {
    k / rows
  }

  /** A name, and blanks up to the width. */
  lemma PaddedIs(row: seq<Byte>, p: nat, s: seq<Byte>, width: nat)
    requires IsAt(row, p, Padded(s, width)) && |s| <= width
    ensures p + width <= |row| && row[p..p + |s|] == s
    ensures forall x | p + |s| <= x < p + width :: row[x] == 32
  {
    var t := Padded(s, width);
    assert t[..|s|] == s && forall x | |s| <= x < width :: t[x] == 32;
    forall x | 0 <= x < width
      ensures row[p + x] == t[x]
    {
      IsAtByte(row, p, t, x);
    }
    assert row[p..p + |s|] == t[..|s|];
    forall x | p + |s| <= x < p + width
      ensures row[x] == 32
    {
      IsAtByte(row, p, t, x - p);
    }
  }

  /** A cell of a row holds a name at p: its bytes, then blanks to the width; two blanks before it unless p is 0. */
  ghost predicate CellShows(row: seq<Byte>, p: nat, name: seq<Byte>, width: nat)
  {
    && |name| <= width && p + width <= |row| && row[p..p + |name|] == name
    && (forall x | p + |name| <= x < p + width :: row[x] == 32)
    && (p == 0 || (2 <= p && row[p - 2] == 32 && row[p - 1] == 32))
  }

  /**
   Every name is printed exactly once: name k stands in row k mod rows at column k / rows, its bytes as they
   are, blanks behind it up to the cell's width, and two blanks before every cell but the first; and row i
   has a column c exactly when i + c * rows is the number of a name.
   */
  lemma NamePlace(names: Names, k: nat, rows: nat, maxlen: nat)
    requires k < |names| && 0 < rows && AllWithin(names, maxlen)
    ensures var i, c := k % rows, ColumnOf(k, rows);
            && 0 <= i < rows && c == k / rows && i + c * rows == k && c < Cells(i, rows, |names|)
            && Steps(c, maxlen + 2) == c * (maxlen + 2)
            && CellShows(RowFrom(names, i, rows, maxlen), Steps(c, maxlen + 2), names[k], maxlen)
  {
    hide Padded, IsAt, RowFrom, Cells;
    var i, c := RowOf(k, rows), ColumnOf(k, rows);
    assert i + c * rows == k;
    StepsIs(c, rows);
    StepsIs(c, maxlen + 2);
    CellsBound(i, rows, |names|, c);
    NameAt(names, i, rows, maxlen, c, k);
    var row, p := RowFrom(names, i, rows, maxlen), Steps(c, maxlen + 2);
    PaddedIs(row, p, names[k], maxlen);
    if 0 < c {
      IsAtByte(row, p - 2, [SPACE, SPACE], 0);
      IsAtByte(row, p - 2, [SPACE, SPACE], 1);
    }
  }

  lemma PlaceIsName(names: Names, i: nat, c: nat, rows: nat)
    requires i < rows
    ensures c < Cells(i, rows, |names|) <==> i + c * rows < |names|
    ensures RowOf(i + c * rows, rows) == i && ColumnOf(i + c * rows, rows) == c
  {
    StepsIs(c, rows);
    CellsBound(i, rows, |names|, c);
    assert rows * c == c * rows;
    DivIs(i + c * rows, rows, c);
    DivBounds(i + c * rows, rows);
  }

  /** Where row i begins in the listing. */
  function RowStart(names: Names, i: nat, rows: nat, maxlen: nat): nat
    requires i <= rows && 0 < rows
  {
    if i == 0 then 0 else RowStart(names, i - 1, rows, maxlen) + |RowFrom(names, i - 1, rows, maxlen)| + 1
  }

  /** The listing is the rows in order, a newline after each. */
  lemma {:induction false} RowPlace(names: Names, i: nat, rows: nat, maxlen: nat)
    requires i < rows
    ensures var all, start := Listing(names, 0, rows, maxlen), RowStart(names, i, rows, maxlen);
            && IsAt(all, start, RowFrom(names, i, rows, maxlen) + [10])
            && IsAt(all, start, Listing(names, i, rows, maxlen))
            && start + |Listing(names, i, rows, maxlen)| == |all|
            && (i + 1 == rows ==> start + |RowFrom(names, i, rows, maxlen)| + 1 == |all|)
  {
    hide RowFrom, IsAt;
    var all, start := Listing(names, 0, rows, maxlen), RowStart(names, i, rows, maxlen);
    if i == 0 {
      IsAtWhole(all);
    } else {
      RowPlace(names, i - 1, rows, maxlen);
      var before := RowFrom(names, i - 1, rows, maxlen) + [NEWLINE];
      IsAtSplit(all, RowStart(names, i - 1, rows, maxlen), before, Listing(names, i, rows, maxlen));
    }
    IsAtSplit(all, start, RowFrom(names, i, rows, maxlen) + [NEWLINE], Listing(names, i + 1, rows, maxlen));
  }

  /** As many columns as 80 bytes hold, two blanks to a column, and one at least. */
  lemma PrintColsIs(maxlen: nat)
    ensures maxlen + 2 <= 80 ==>
              (maxlen + 2) * PrintCols(maxlen) <= 80 < (maxlen + 2) * PrintCols(maxlen) + maxlen + 2
    ensures 80 < maxlen + 2 ==> PrintCols(maxlen) == 1
  {
    DivBounds(80, maxlen + 2);
    if maxlen + 2 <= 80 {
      DivMono(maxlen + 2, 80, maxlen + 2);
    } else {
      MulGap(maxlen + 2, 0, 80 / (maxlen + 2));
    }
  }

  /** No row has more than the computed number of columns. */
  lemma ColumnsBound(names: Names, i: nat, cols: nat)
    requires names != [] && 0 < cols && i < PrintRows(|names|, cols)
    ensures Cells(i, PrintRows(|names|, cols), |names|) <= cols
  {
    hide Cells;
    var rows := PrintRows(|names|, cols);
    RowsBounds(|names|, cols);
    PlaceIsName(names, i, cols, rows);
  }

  /** With so many columns a row is no wider than the screen, or than its only name. */
  lemma RowFits(names: Names, i: nat, cols: nat, maxlen: nat)
    requires AllWithin(names, maxlen) && cols == PrintCols(maxlen) && i < |names| && i < PrintRows(|names|, cols)
    ensures |RowFrom(names, i, PrintRows(|names|, cols), maxlen)| <= if maxlen + 2 <= 80 then 80 else maxlen
  {
    hide RowFrom, Cells;
    var w, rows := maxlen + 2, PrintRows(|names|, cols);
    var cells := Cells(i, rows, |names|);
    PrintColsIs(maxlen);
    ColumnsBound(names, i, cols);
    RowWidth(names, i, rows, maxlen);
    MulGap(w, cells, cols);
  }

  /** The rows fit an 80-column screen exactly when the longest name does. */
  lemma FitsScreen(names: Names)
    requires names != []
    ensures var maxlen := MaxLen(names);
            var rows := PrintRows(|names|, PrintCols(maxlen));
            (forall i | 0 <= i < rows :: |RowFrom(names, i, rows, maxlen)| <= 80) <==> maxlen <= 80
  {
    hide MaxLen, RowFrom, Cells, PrintCols, PrintRows;
    var maxlen := MaxLen(names);
    var cols := PrintCols(maxlen);
    var rows := PrintRows(|names|, cols);
    RowsBounds(|names|, cols);
    forall i | 0 <= i < rows
      ensures |RowFrom(names, i, rows, maxlen)| <= if maxlen + 2 <= 80 then 80 else maxlen
    {
      RowFits(names, i, cols, maxlen);
    }
    if 80 < maxlen {
      PrintColsIs(maxlen);
      PlaceIsName(names, 0, 0, rows);
      ColumnsBound(names, 0, cols);
      RowWidth(names, 0, rows, maxlen);
    }
  }
}
