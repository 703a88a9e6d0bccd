/**
 Files laid end to end over fixed-size pieces (the layout of BEP 3).  `map_file(i, x).piece` of the
 torrent library is the piece that holds byte x of file i: floor division of the running offset.
 */
module PieceLayout {
  import opened Division

  /** Where file i starts in the torrent. */
  function Offset(sizes: seq<nat>, i: nat): nat
    requires i <= |sizes|
  {
    if i == 0 then 0 else Offset(sizes, i - 1) + sizes[i - 1]
  }

  function PieceOf(sizes: seq<nat>, pieceLength: nat, i: nat, x: nat): nat
    requires i < |sizes| && 0 < pieceLength
  {
    (Offset(sizes, i) + x) / pieceLength
  }

  function First(sizes: seq<nat>, pieceLength: nat, i: nat): nat
    requires i < |sizes| && 0 < pieceLength
  {
    PieceOf(sizes, pieceLength, i, 0)
  }

  /** The piece of the last byte; an empty file counts as if it had one byte. */
  function Last(sizes: seq<nat>, pieceLength: nat, i: nat): nat
    requires i < |sizes| && 0 < pieceLength
  {
    PieceOf(sizes, pieceLength, i, if 0 < sizes[i] then sizes[i] - 1 else 0)
  }

  predicate Covers(sizes: seq<nat>, pieceLength: nat, i: nat, j: int)
    requires i < |sizes| && 0 < pieceLength
  {
    First(sizes, pieceLength, i) <= j <= Last(sizes, pieceLength, i)
  }

  /** Every file's last byte lies in one of the torrent's pieces. */
  ghost predicate InTorrent(sizes: seq<nat>, pieceLength: nat, numPieces: nat)
    requires 0 < pieceLength
  {
    forall i | 0 <= i < |sizes| :: Last(sizes, pieceLength, i) < numPieces
  }

  lemma FirstLeLast(sizes: seq<nat>, pieceLength: nat, i: nat)
    requires i < |sizes| && 0 < pieceLength
    ensures First(sizes, pieceLength, i) <= Last(sizes, pieceLength, i)
  {
    DivMono(Offset(sizes, i), Offset(sizes, i) + (if 0 < sizes[i] then sizes[i] - 1 else 0), pieceLength);
  }

  /** A file starts no earlier than the piece where any file before it ends. */
  lemma {:induction false} FilesInOrder(sizes: seq<nat>, pieceLength: nat, i: nat, k: nat)
    requires i < k < |sizes| && 0 < pieceLength
    ensures Last(sizes, pieceLength, i) <= First(sizes, pieceLength, k)
    ensures Offset(sizes, i) + sizes[i] <= Offset(sizes, k)
    decreases k
  {
    if i + 1 < k {
      FilesInOrder(sizes, pieceLength, i, k - 1);
    }
    DivMono(Offset(sizes, i) + (if 0 < sizes[i] then sizes[i] - 1 else 0), Offset(sizes, k), pieceLength);
  }

  /** A file covers exactly the pieces that hold one of its bytes. */
  lemma CoversIff(sizes: seq<nat>, pieceLength: nat, i: nat, j: nat)
    requires i < |sizes| && 0 < pieceLength && 0 < sizes[i]
    ensures Covers(sizes, pieceLength, i, j)
            <==> exists x: nat :: Offset(sizes, i) <= x < Offset(sizes, i) + sizes[i] && Holds(pieceLength, j, x)
  {
    hide Offset;
    var first, end := Offset(sizes, i), Offset(sizes, i) + sizes[i];
    DivBounds(first, pieceLength);
    DivBounds(end - 1, pieceLength);
    if Covers(sizes, pieceLength, i, j) {
      var x := if first / pieceLength == j then first else pieceLength * j;
      MulGap(pieceLength, first / pieceLength, j);
      MulGap(pieceLength, j, (end - 1) / pieceLength);
      assert Holds(pieceLength, j, x);
    }
    if x: nat :| first <= x < end && Holds(pieceLength, j, x) {
      DivIs(x, pieceLength, j);
      DivMono(first, x, pieceLength);
      DivMono(x, end - 1, pieceLength);
    }
  }

  /** Byte x of the torrent lies in piece j. */
  predicate Holds(pieceLength: nat, j: nat, x: nat)
  {
    pieceLength * j <= x < pieceLength * j + pieceLength
  }

  /** An empty file covers the one piece where it stands. */
  lemma EmptyCovers(sizes: seq<nat>, pieceLength: nat, i: nat, j: nat)
    requires i < |sizes| && 0 < pieceLength && sizes[i] == 0
    ensures Covers(sizes, pieceLength, i, j) <==> Holds(pieceLength, j, Offset(sizes, i))
  {
    hide Offset;
    DivBounds(Offset(sizes, i), pieceLength);
    if Holds(pieceLength, j, Offset(sizes, i)) {
      DivIs(Offset(sizes, i), pieceLength, j);
    }
  }

  lemma OffsetIs(sizes: seq<nat>, i: nat)
    requires i < |sizes|
    ensures Offset(sizes, 0) == 0 && Offset(sizes, i + 1) == Offset(sizes, i) + sizes[i]
  {
  }
}
