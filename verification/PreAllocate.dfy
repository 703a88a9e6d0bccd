/**
 Which pieces a task wants (SetOrgPieces), and the staged pre-allocation that opens pieces for
 download behind the allocated part of each file (PreAllocateThread).
 */
module PreAllocate {
  import opened Basics
  import opened Division
  import opened PieceLayout
  import opened PieceScan

  /** What the torrent says of a file, together with its priority. */
  datatype FileInfo = FileInfo(size: nat, wanted: bool, pad: bool)

  /**
   What the file system does with a file: whether it is there at full size, whether open() works,
   and how many posix_fallocate calls are accepted (they return 0 or EINVAL) before the first one fails.
   */
  datatype Disk = Disk(complete: bool, opens: bool, goodCalls: nat)

  function Sizes(files: seq<FileInfo>): (s: seq<nat>)
    ensures |s| == |files| && forall i | 0 <= i < |files| :: s[i] == files[i].size
  {
    seq(|files|, i requires 0 <= i < |files| => files[i].size)
  }

  function Wanted(files: seq<FileInfo>): (w: seq<bool>)
    ensures |w| == |files| && forall i | 0 <= i < |files| :: w[i] == files[i].wanted
  {
    seq(|files|, i requires 0 <= i < |files| => files[i].wanted)
  }

  predicate FileCovers(files: seq<FileInfo>, pieceLength: nat, i: nat, j: int)
    requires i < |files| && 0 < pieceLength
  {
    Covers(Sizes(files), pieceLength, i, j)
  }

  /** Piece j belongs to a wanted file. */
  ghost predicate WantedPiece(files: seq<FileInfo>, pieceLength: nat, j: int)
    requires 0 < pieceLength
  {
    exists i :: 0 <= i < |files| && files[i].wanted && FileCovers(files, pieceLength, i, j)
  }

  /** The bitmap of wanted pieces; bits set by an earlier call stay, and an empty torrent gets one bit. */
  method SetOrgPieces(orgPieces: Bits, files: seq<FileInfo>, pieceLength: nat, numPieces: nat)
    returns (org: Bits)
    requires 0 < pieceLength
    requires InTorrent(Sizes(files), pieceLength, if numPieces == 0 then 1 else numPieces)
    ensures |org| == if numPieces == 0 then 1 else numPieces
    ensures forall j | 0 <= j < |org| ::
              org[j] <==> (j < |orgPieces| && orgPieces[j]) || WantedPiece(files, pieceLength, j)
  {
    var n := if numPieces <= 0 then 1 else numPieces;
    org := Resized(orgPieces, n, false);
    ghost var base := org;
    for i := 0 to |files|
      invariant |org| == n
      invariant forall j | 0 <= j < n :: org[j] <==>
                  (base[j] || exists k :: 0 <= k < i && files[k].wanted && FileCovers(files, pieceLength, k, j))
    {
      var first := First(Sizes(files), pieceLength, i);
      var last := Last(Sizes(files), pieceLength, i);
      FirstLeLast(Sizes(files), pieceLength, i);
      ghost var before := org;
      for j := first to last + 1
        invariant |org| == n
        invariant forall k | 0 <= k < n :: org[k] == (before[k] || (files[i].wanted && first <= k < j))
      {
        if files[i].wanted || org[j] {
          org := org[j := true];
        } else {
          org := org[j := false];
        }
      }
      assert forall j | 0 <= j < n :: FileCovers(files, pieceLength, i, j) == (first <= j <= last);
    }
  }

  // -------------------------------------------------------------- one file

  /** A posix_fallocate call; ok when the code takes its result for success. */
  datatype Chunk = Chunk(offset: nat, length: nat, ok: bool)

  /** A round of opening inside the loop: `reserved` bytes of the file were accepted, pieces up to `frontier` opened. */
  datatype Opening = Opening(reserved: nat, frontier: nat)

  /**
   What the thread does to the outside, in order.  Leaving share mode makes the torrent want every file until
   the files' own priorities are set; neither is a vector of piece priorities.
   */
  datatype Event =
    | ShareModeOff
    | PrioritizeFiles(wanted: seq<bool>)
    | Reserve(chunk: Chunk)
    | Publish(priorities: seq<int>)

  /** The file system and the torrent handle as the thread sees them. */
  class Host {
    var log: seq<Event>

    constructor ()
      ensures log == []
    {
      log := [];
    }

    /** The k-th call for a file; the first goodCalls of them are accepted. */
    method PosixFallocate(k: nat, goodCalls: nat, offset: nat, length: nat) returns (ok: bool)
      modifies this
      ensures ok <==> k < goodCalls
      ensures log == old(log) + [Reserve(Chunk(offset, length, ok))]
    {
      ok := k < goodCalls;
      log := log + [Reserve(Chunk(offset, length, ok))];
    }

    method LeaveShareMode()
      modifies this
      ensures log == old(log) + [ShareModeOff]
    {
      log := log + [ShareModeOff];
    }

    method SetFilePriorities(wanted: seq<bool>)
      modifies this
      ensures log == old(log) + [PrioritizeFiles(wanted)]
    {
      log := log + [PrioritizeFiles(wanted)];
    }

    method PrioritizePieces(v: seq<int>)
      modifies this
      ensures log == old(log) + [Publish(v)]
    {
      log := log + [Publish(v)];
    }
  }

  /** The first n chunks, each followed by the vector published behind it. */
  function Rounds(chunks: seq<Chunk>, sent: seq<seq<int>>, n: nat): seq<Event>
    requires n <= |chunks| && n <= |sent|
  {
    if n == 0 then [] else Rounds(chunks, sent, n - 1) + [Reserve(chunks[n - 1]), Publish(sent[n - 1])]
  }

  /**
   Everything that happens for one file: n rounds, then the chunk that ends the loop, then the vector that
   opens the rest of the file, if one is sent.
   */
  ghost predicate FileEvents(events: seq<Event>, chunks: seq<Chunk>, sent: seq<seq<int>>, n: nat)
  {
    && |chunks| == (if chunks == [] then n else n + 1) && n <= |sent| <= n + 1
    && events == Rounds(chunks, sent, n) + (if chunks == [] then [] else [Reserve(chunks[n])])
                 + (if |sent| == n then [] else [Publish(sent[n])])
  }

  /** v opens first..frontier and leaves the other pieces as they were before. */
  ghost predicate OpensTo(v: seq<int>, before: seq<int>, first: nat, frontier: nat)
  {
    |v| == |before| && forall j | 0 <= j < |v| :: v[j] == if first <= j <= frontier then 1 else before[j]
  }

  /** The first vectors sent are those of the loop's openings. */
  ghost predicate SentBehind(sent: seq<seq<int>>, openings: seq<Opening>, before: seq<int>, first: nat)
  {
    |openings| <= |sent| && forall k | 0 <= k < |openings| :: OpensTo(sent[k], before, first, openings[k].frontier)
  }

  /** Every piece open in v is open in w. */
  ghost predicate OpensWithin(v: seq<int>, w: seq<int>)
  {
    |v| == |w| && forall j | 0 <= j < |v| && v[j] == 1 :: w[j] == 1
  }

  ghost predicate AllWithin(sent: seq<seq<int>>, w: seq<int>)
  {
    forall k | 0 <= k < |sent| :: OpensWithin(sent[k], w)
  }

  /** Bytes are reserved and vectors published, none of which opens a piece that is not open in w. */
  ghost predicate EventsWithin(events: seq<Event>, w: seq<int>)
  {
    forall k | 0 <= k < |events| :: EventWithin(events[k], w)
  }

  ghost predicate EventWithin(e: Event, w: seq<int>)
  {
    e.Reserve? || (e.Publish? && OpensWithin(e.priorities, w))
  }

  /** The vector in force after sending: the last one sent, or the one before. */
  ghost predicate InForce(sent: seq<seq<int>>, before: seq<int>, now: seq<int>)
  {
    now == if sent == [] then before else sent[|sent| - 1]
  }

  /**
   The frontier after whole chunks (`cur` a multiple of the piece length, below the file's size):
   it does not pass the file's last piece, every byte in an earlier piece is allocated, and the
   frontier piece itself is not, for it holds byte `cur`.
   */
  lemma FrontierFacts(sizes: seq<nat>, pieceLength: nat, i: nat, cur: nat, q: nat)
    requires i < |sizes| && 0 < pieceLength
    requires cur == pieceLength * q && cur < sizes[i]
    ensures cur / pieceLength == q
    ensures PieceOf(sizes, pieceLength, i, cur) == First(sizes, pieceLength, i) + q <= Last(sizes, pieceLength, i)
    ensures forall x: nat | x < sizes[i] && PieceOf(sizes, pieceLength, i, x) < First(sizes, pieceLength, i) + q ::
              x < cur
  {
    var off := Offset(sizes, i);
    DivIs(cur, pieceLength, q);
    DivBounds(off, pieceLength);
    assert pieceLength * (off / pieceLength + q) == pieceLength * (off / pieceLength) + cur;
    DivIs(off + cur, pieceLength, off / pieceLength + q);
    DivMono(off + cur, off + sizes[i] - 1, pieceLength);
    forall x: nat | x < sizes[i] && PieceOf(sizes, pieceLength, i, x) < First(sizes, pieceLength, i) + q
      ensures x < cur
    {
      if cur <= x {
        DivMono(off + cur, off + x, pieceLength);
      }
    }
  }

  /** Entries lo..hi of the priority vector become 1. */
  method OpenRange(priority: array<int>, lo: nat, hi: nat)
    requires hi < priority.Length
    modifies priority
    ensures forall j | 0 <= j < priority.Length :: priority[j] == if lo <= j <= hi then 1 else old(priority[j])
  {
    var j := lo;
    while j <= hi
      invariant lo <= j <= (if lo <= hi then hi + 1 else lo)
      invariant forall k | 0 <= k < priority.Length :: priority[k] == if lo <= k < j then 1 else old(priority[k])
    {
      priority[j] := 1;
      j := j + 1;
    }
  }

  /** Chunk k continues where chunk k - 1 ended, is full unless the file ends first, and follows no failure. */
  ghost predicate ChunkOk(chunks: seq<Chunk>, k: nat, size: nat, each: nat, goodCalls: nat)
    requires k < |chunks|
  {
    && chunks[k].offset == (if k == 0 then 0 else chunks[k - 1].offset + each)
    && chunks[k].offset < size
    && chunks[k].length == (if chunks[k].offset + each > size then size - chunks[k].offset else each)
    && (chunks[k].ok <==> k < goodCalls)
    && (k < |chunks| - 1 ==> chunks[k].ok)
  }

  ghost predicate ChunksInOrder(chunks: seq<Chunk>, size: nat, each: nat, goodCalls: nat)
  {
    forall k | 0 <= k < |chunks| :: ChunkOk(chunks, k, size, each, goodCalls)
  }

  /** The chunks end with a failure, or they reach the end of the file. */
  ghost predicate ChunksComplete(chunks: seq<Chunk>, size: nat)
  {
    if size == 0 then chunks == []
    else
      && chunks != []
      && var c := chunks[|chunks| - 1];
      c.ok ==> c.offset + c.length == size
  }

  lemma {:induction false} ChunkOffsets(chunks: seq<Chunk>, size: nat, each: nat, goodCalls: nat, k: nat)
    requires ChunksInOrder(chunks, size, each, goodCalls) && k < |chunks|
    ensures chunks[k].offset == each * k
  {
    assert ChunkOk(chunks, k, size, each, goodCalls);
    if k > 0 {
      ChunkOffsets(chunks, size, each, goodCalls, k - 1);
    }
  }

  predicate InChunk(c: Chunk, x: int)
  {
    c.offset <= x < c.offset + c.length
  }

  /** Byte x of the file lies in a chunk that fallocate accepted. */
  ghost predicate Allocated(chunks: seq<Chunk>, x: int)
  {
    exists k :: 0 <= k < |chunks| && chunks[k].ok && InChunk(chunks[k], x)
  }

  lemma ChunkHolds(chunks: seq<Chunk>, size: nat, each: nat, goodCalls: nat, k: nat)
    requires ChunksInOrder(chunks, size, each, goodCalls) && k < |chunks|
    ensures chunks[k].offset == each * k < size
    ensures chunks[k].length == (if each * k + each > size then size - each * k else each)
    ensures chunks[k].ok <==> k < goodCalls
  {
    ChunkOffsets(chunks, size, each, goodCalls, k);
    assert ChunkOk(chunks, k, size, each, goodCalls);
  }

  /** The bytes fallocate gave the file are exactly those below goodCalls * each. */
  lemma AllocatedExactly(chunks: seq<Chunk>, size: nat, each: nat, goodCalls: nat, x: nat)
    requires 0 < each && x < size
    requires ChunksInOrder(chunks, size, each, goodCalls) && ChunksComplete(chunks, size)
    ensures Allocated(chunks, x) <==> x < each * goodCalls
  {
    if x < each * goodCalls {
      AllocatedBelow(chunks, size, each, goodCalls, x);
    } else if k :| 0 <= k < |chunks| && chunks[k].ok && InChunk(chunks[k], x) {
      ChunkHolds(chunks, size, each, goodCalls, k);
      MulGap(each, k, goodCalls);
      assert false;
    }
  }

  lemma AllocatedBelow(chunks: seq<Chunk>, size: nat, each: nat, goodCalls: nat, x: nat)
    requires 0 < each && x < size && x < each * goodCalls
    requires ChunksInOrder(chunks, size, each, goodCalls) && ChunksComplete(chunks, size)
    ensures Allocated(chunks, x)
  {
    hide ChunksInOrder;
    var n := |chunks|;
    var q := ChunkIndex(x, each, goodCalls);
    ChunkHolds(chunks, size, each, goodCalls, n - 1);
    MulGap(each, n - 1, q);
    ChunkHolds(chunks, size, each, goodCalls, q);
    assert InChunk(chunks[q], x);
  }

  /** Which chunk a byte is in. */
  lemma ChunkIndex(x: nat, each: nat, count: nat) returns (q: nat)
    requires 0 < each && x < each * count
    ensures q < count && each * q <= x < each * q + each
  {
    q := x / each;
    DivBounds(x, each);
    MulGap(each, count - 1, q);
  }

  /** No byte is asked for twice. */
  lemma ChunksDisjoint(chunks: seq<Chunk>, size: nat, each: nat, goodCalls: nat, k: nat, l: nat, x: int)
    requires ChunksInOrder(chunks, size, each, goodCalls) && k < l < |chunks|
    ensures !(InChunk(chunks[k], x) && InChunk(chunks[l], x))
  {
    ChunkOffsets(chunks, size, each, goodCalls, k);
    ChunkOffsets(chunks, size, each, goodCalls, l);
    assert ChunkOk(chunks, k, size, each, goodCalls);
    MulGap(each, k, l);
  }

  /** Never more than ceil(size / each) calls, and exactly that many when none fails. */
  lemma CountChunks(chunks: seq<Chunk>, size: nat, each: nat, goodCalls: nat)
    requires 0 < each
    requires ChunksInOrder(chunks, size, each, goodCalls) && ChunksComplete(chunks, size)
    ensures |chunks| <= (size + each - 1) / each
    ensures size <= each * goodCalls ==> |chunks| == (size + each - 1) / each
  {
    var n := |chunks|;
    if n == 0 {
      DivIs(each - 1, each, 0);
    } else {
      ChunkOffsets(chunks, size, each, goodCalls, n - 1);
      assert ChunkOk(chunks, n - 1, size, each, goodCalls);
      assert each * (n - 1) + each == each * n;
      DivMono(each * n, size + each - 1, each);
      DivIs(each * n, each, n);
      if size <= each * goodCalls {
        MulGap(each, goodCalls, n - 1);
        MulGap(each, goodCalls, n);
        assert chunks[n - 1].ok;
        DivIs(size + each - 1, each, n);
      }
    }
  }

  /** Every opening obeys the frontier rule, for the bytes allocated by then. */
  ghost predicate OpeningsSafe(openings: seq<Opening>, chunks: seq<Chunk>, sizes: seq<nat>, pieceLength: nat, i: nat)
    requires i < |sizes| && 0 < pieceLength && |openings| <= |chunks|
  {
    forall k | 0 <= k < |openings| ::
      OpeningSafe(openings[k], sizes, pieceLength, i, chunks[k].offset + chunks[k].length)
  }

  /**
   With `cur` bytes allocated: no piece past the file's last one is opened, all bytes in pieces before
   the frontier are allocated, and the frontier piece is not (it holds byte `cur`).
   */
  ghost predicate OpeningSafe(o: Opening, sizes: seq<nat>, pieceLength: nat, i: nat, cur: nat)
    requires i < |sizes| && 0 < pieceLength
  {
    && o.reserved == cur < sizes[i]
    && o.frontier <= Last(sizes, pieceLength, i)
    && (forall x: nat | x < sizes[i] && PieceOf(sizes, pieceLength, i, x) < o.frontier :: x < cur)
    && PieceOf(sizes, pieceLength, i, cur) == o.frontier
  }

  lemma ChunkAppended(chunks: seq<Chunk>, c: Chunk, size: nat, each: nat, goodCalls: nat)
    requires ChunksInOrder(chunks, size, each, goodCalls)
    requires chunks != [] ==> chunks[|chunks| - 1].ok
    requires c.offset == (if chunks == [] then 0 else chunks[|chunks| - 1].offset + each) < size
    requires c.length == (if c.offset + each > size then size - c.offset else each)
    requires c.ok <==> |chunks| < goodCalls
    ensures ChunksInOrder(chunks + [c], size, each, goodCalls)
  {
    var longer := chunks + [c];
    forall k | 0 <= k < |longer| ensures ChunkOk(longer, k, size, each, goodCalls) {
      assert k < |chunks| ==> ChunkOk(chunks, k, size, each, goodCalls);
    }
  }

  /** An opening loop and the call that publishes it: the pieces from..frontier join those opened before. */
  method OpenBehind(host: Host, priority: array<int>, from: nat, frontier: nat,
                    ghost before: seq<int>, ghost first: nat)
    requires first <= from <= frontier < priority.Length
    requires (priority[..] == before && from == first) || OpensTo(priority[..], before, first, from)
    modifies host, priority
    ensures host.log == old(host.log) + [Publish(priority[..])]
    ensures OpensTo(priority[..], before, first, frontier)
  {
    OpenRange(priority, from, frontier);
    host.PrioritizePieces(priority[..]);
  }

  lemma SentMore(sent: seq<seq<int>>, v: seq<int>, openings: seq<Opening>, o: Opening, before: seq<int>, first: nat)
    requires SentBehind(sent, openings, before, first) && |sent| == |openings|
    requires OpensTo(v, before, first, o.frontier)
    ensures SentBehind(sent + [v], openings + [o], before, first)
  {
  }

  /** A vector that opens only pieces of the file opens no more than the final one. */
  lemma SentWithin(sent: seq<seq<int>>, openings: seq<Opening>, before: seq<int>, first: nat, last: nat, now: seq<int>)
    requires SentBehind(sent, openings, before, first) && OpensTo(now, before, first, last)
    requires forall k | 0 <= k < |openings| :: openings[k].frontier <= last
    requires |sent| == |openings| || (|sent| == |openings| + 1 && sent[|openings|] == now)
    ensures AllWithin(sent, now)
  {
    forall k | 0 <= k < |sent|
      ensures OpensWithin(sent[k], now)
    {
      assert k < |openings| ==> OpensTo(sent[k], before, first, openings[k].frontier);
    }
  }

  /** What the allocation loop has done so far. */
  ghost predicate LoopState(chunks: seq<Chunk>, openings: seq<Opening>, size: nat, each: nat, goodCalls: nat,
                            done: bool, currentOffset: nat)
  {
    && ChunksInOrder(chunks, size, each, goodCalls)
    && |openings| == (if done then |chunks| - 1 else |chunks|)
    && if done then ChunksComplete(chunks, size) && 0 < size
       else
         && currentOffset == (if chunks == [] then 0 else chunks[|chunks| - 1].offset + each)
         && (chunks != [] ==> currentOffset < size && chunks[|chunks| - 1].ok)
  }

  /** One posix_fallocate call and the two ways it ends the loop. */
  method AllocateChunk(host: Host, chunks: seq<Chunk>, ghost openings: seq<Opening>, size: nat, each: nat,
                       goodCalls: nat, currentOffset: nat)
    returns (chunks': seq<Chunk>, done: bool, next: nat)
    requires LoopState(chunks, openings, size, each, goodCalls, false, currentOffset) && currentOffset < size
    modifies host
    ensures |chunks'| == |chunks| + 1 && chunks'[..|chunks|] == chunks
    ensures host.log == old(host.log) + [Reserve(chunks'[|chunks|])]
    ensures done ==> LoopState(chunks', openings, size, each, goodCalls, true, next)
    ensures !done ==> next == currentOffset + each < size
                      && chunks'[|chunks|].offset + chunks'[|chunks|].length == next
                      && forall o: Opening :: LoopState(chunks', openings + [o], size, each, goodCalls, false, next)
  {
    var eachLen := each;
    if currentOffset + each > size {
      eachLen := size - currentOffset;
    }
    var ok := host.PosixFallocate(|chunks|, goodCalls, currentOffset, eachLen);
    ChunkAppended(chunks, Chunk(currentOffset, eachLen, ok), size, each, goodCalls);
    chunks' := chunks + [Chunk(currentOffset, eachLen, ok)];
    done, next := !ok, currentOffset;
    if ok {
      next := currentOffset + eachLen;
      done := next >= size;
    }
  }

  /** The loop's events so far. */
  ghost predicate LoopEvents(events: seq<Event>, chunks: seq<Chunk>, sent: seq<seq<int>>, done: bool)
  {
    && |chunks| == (if done then |sent| + 1 else |sent|)
    && events == Rounds(chunks, sent, |sent|) + (if done then [Reserve(chunks[|sent|])] else [])
  }

  lemma {:induction false} RoundsKept(chunks: seq<Chunk>, c: seq<Chunk>, sent: seq<seq<int>>, v: seq<seq<int>>, n: nat)
    requires n <= |chunks| && n <= |sent|
    ensures Rounds(chunks + c, sent + v, n) == Rounds(chunks, sent, n)
  {
    if 0 < n {
      RoundsKept(chunks, c, sent, v, n - 1);
    }
  }

  lemma RoundAdded(events: seq<Event>, chunks: seq<Chunk>, sent: seq<seq<int>>, c: Chunk, v: seq<int>)
    requires LoopEvents(events, chunks, sent, false)
    ensures LoopEvents((events + [Reserve(c)]) + [Publish(v)], chunks + [c], sent + [v], false)
    ensures LoopEvents(events + [Reserve(c)], chunks + [c], sent, true)
  {
    RoundsKept(chunks, [c], sent, [v], |sent|);
    RoundsKept(chunks, [c], sent, [], |sent|);
    assert sent + [] == sent;
    assert (events + [Reserve(c)]) + [Publish(v)] == events + [Reserve(c), Publish(v)];
  }

  lemma FileEventsEnd(events: seq<Event>, chunks: seq<Chunk>, sent: seq<seq<int>>, done: bool, v: seq<int>)
    requires LoopEvents(events, chunks, sent, done) && (!done ==> chunks == [])
    ensures FileEvents(events, chunks, sent, |sent|)
    ensures FileEvents(events + [Publish(v)], chunks, sent + [v], |sent|)
  {
    RoundsKept(chunks, [], sent, [v], |sent|);
    assert chunks + [] == chunks;
  }

  lemma {:induction false} RoundsWithin(chunks: seq<Chunk>, sent: seq<seq<int>>, n: nat, w: seq<int>)
    requires n <= |chunks| && n <= |sent| && AllWithin(sent, w)
    ensures EventsWithin(Rounds(chunks, sent, n), w)
  {
    if 0 < n {
      RoundsWithin(chunks, sent, n - 1, w);
    }
  }

  lemma FileEventsWithin(events: seq<Event>, chunks: seq<Chunk>, sent: seq<seq<int>>, n: nat, w: seq<int>)
    requires FileEvents(events, chunks, sent, n) && AllWithin(sent, w)
    ensures EventsWithin(events, w)
  {
    RoundsWithin(chunks, sent, n, w);
  }

  /** The allocation loop; it returns the index up to which it has opened pieces. */
  method AllocateLoop(host: Host, priority: array<int>, sizes: seq<nat>, pieceLength: nat, multiple: nat,
                      i: nat, goodCalls: nat)
    returns (chunks: seq<Chunk>, openings: seq<Opening>, fileDownloadIndex: nat,
             ghost sent: seq<seq<int>>, ghost events: seq<Event>)
    requires i < |sizes| && 0 < pieceLength && 0 < multiple
    requires Last(sizes, pieceLength, i) < priority.Length
    modifies host, priority
    ensures ChunksInOrder(chunks, sizes[i], multiple * pieceLength, goodCalls)
    ensures ChunksComplete(chunks, sizes[i])
    ensures |openings| == if chunks == [] then 0 else |chunks| - 1
    ensures OpeningsSafe(openings, chunks, sizes, pieceLength, i)
    ensures host.log == old(host.log) + events && |sent| == |openings|
    ensures LoopEvents(events, chunks, sent, chunks != [])
    ensures SentBehind(sent, openings, old(priority[..]), First(sizes, pieceLength, i))
    ensures InForce(sent, old(priority[..]), priority[..])
    ensures First(sizes, pieceLength, i) <= fileDownloadIndex <= Last(sizes, pieceLength, i)
    ensures if openings == [] then fileDownloadIndex == First(sizes, pieceLength, i)
            else First(sizes, pieceLength, i) < fileDownloadIndex
                 && OpensTo(priority[..], old(priority[..]), First(sizes, pieceLength, i), fileDownloadIndex)
  {
    hide LoopState, OpeningsSafe, SentBehind, ChunksInOrder, ChunksComplete, LoopEvents;
    ghost var before := priority[..];
    var each: nat := multiple * pieceLength;
    var size, first := sizes[i], First(sizes, pieceLength, i);
    ghost var last := Last(sizes, pieceLength, i);
    FirstLeLast(sizes, pieceLength, i);
    fileDownloadIndex := first;
    var currentOffset: nat := 0;
    chunks, openings, sent, events := [], [], [], [];
    var done := false;
    ghost var q: nat := 0;
    LoopStarts(sizes, pieceLength, i, each, goodCalls, before);
    while !done && currentOffset < size
      invariant LoopState(chunks, openings, size, each, goodCalls, done, currentOffset)
      invariant |openings| <= |chunks| && (!done ==> |openings| == |chunks|)
      invariant OpeningsSafe(openings, chunks, sizes, pieceLength, i)
      invariant host.log == old(host.log) + events && |sent| == |openings| && LoopEvents(events, chunks, sent, done)
      invariant SentBehind(sent, openings, before, first) && InForce(sent, before, priority[..])
      invariant !done ==> currentOffset == pieceLength * q && fileDownloadIndex == first + q
      invariant first <= fileDownloadIndex <= last
      invariant if openings == [] then fileDownloadIndex == first
                else first < fileDownloadIndex && OpensTo(priority[..], before, first, fileDownloadIndex)
      decreases !done, size - currentOffset
    {
      ghost var earlier := chunks;
      chunks, done, currentOffset := AllocateChunk(host, chunks, openings, size, each, goodCalls, currentOffset);
      ghost var c := chunks[|earlier|];
      assert chunks == earlier + [c];
      SafeStill(openings, earlier, chunks, sizes, pieceLength, i);
      RoundAdded(events, earlier, sent, c, []);
      if done {
        events := events + [Reserve(c)];
      } else {
        ChunkBoundary(q, multiple, pieceLength);
        q := q + multiple;
        FrontierFacts(sizes, pieceLength, i, currentOffset, q);
        var currentIndex := currentOffset / pieceLength;
        OpenBehind(host, priority, fileDownloadIndex, currentIndex + first, before, first);
        fileDownloadIndex := currentIndex + first;
        var o := Opening(currentOffset, fileDownloadIndex);
        SafeMore(openings, o, chunks, sizes, pieceLength, i);
        SentMore(sent, priority[..], openings, o, before, first);
        RoundAdded(events, earlier, sent, c, priority[..]);
        events := (events + [Reserve(c)]) + [Publish(priority[..])];
        openings, sent := openings + [o], sent + [priority[..]];
      }
    }
    LoopEnds(chunks, openings, size, each, goodCalls, done, currentOffset);
  }

  /**
   The body for a file that is opened and allocated.  `openings` are the rounds of opening inside the
   loop; the vector published behind a chunk opens the file's pieces up to that round's frontier and
   nothing else.  Whatever fallocate does, the net effect is all or nothing: every piece of the file, if
   it spans at least two.
   */
  method AllocateFile(host: Host, priority: array<int>, sizes: seq<nat>, pieceLength: nat, multiple: nat,
                      i: nat, goodCalls: nat)
    returns (chunks: seq<Chunk>, openings: seq<Opening>, ghost sent: seq<seq<int>>, ghost events: seq<Event>)
    requires i < |sizes| && 0 < pieceLength && 0 < multiple
    requires Last(sizes, pieceLength, i) < priority.Length
    modifies host, priority
    ensures ChunksInOrder(chunks, sizes[i], multiple * pieceLength, goodCalls)
    ensures ChunksComplete(chunks, sizes[i])
    ensures |openings| == if chunks == [] then 0 else |chunks| - 1
    ensures OpeningsSafe(openings, chunks, sizes, pieceLength, i)
    ensures host.log == old(host.log) + events && FileEvents(events, chunks, sent, |openings|)
    ensures SentBehind(sent, openings, old(priority[..]), First(sizes, pieceLength, i))
    ensures InForce(sent, old(priority[..]), priority[..]) && EventsWithin(events, priority[..])
    ensures forall j | 0 <= j < priority.Length :: priority[j] ==
              if First(sizes, pieceLength, i) < Last(sizes, pieceLength, i) && Covers(sizes, pieceLength, i, j)
              then 1 else old(priority[j])
  {
    hide OpeningsSafe, SentBehind, AllWithin, EventsWithin, ChunksInOrder, ChunksComplete, LoopEvents, FileEvents;
    ghost var before := priority[..];
    var first, last := First(sizes, pieceLength, i), Last(sizes, pieceLength, i);
    var fileDownloadIndex;
    chunks, openings, fileDownloadIndex, sent, events :=
      AllocateLoop(host, priority, sizes, pieceLength, multiple, i, goodCalls);
    FileEventsEnd(events, chunks, sent, chunks != [], []);
    if fileDownloadIndex < last {
      OpenBehind(host, priority, fileDownloadIndex, last, before, first);
      SentLast(sent, priority[..], openings, before, first);
      FileEventsEnd(events, chunks, sent, chunks != [], priority[..]);
      events, sent := events + [Publish(priority[..])], sent + [priority[..]];
    }
    FrontiersInFile(openings, chunks, sizes, pieceLength, i);
    if openings == [] && first == last {
      NothingSent(sent, priority[..]);
    } else {
      SentWithin(sent, openings, before, first, last, priority[..]);
    }
    FileEventsWithin(events, chunks, sent, |openings|, priority[..]);
  }

  lemma LoopStarts(sizes: seq<nat>, pieceLength: nat, i: nat, each: nat, goodCalls: nat, before: seq<int>)
    requires i < |sizes| && 0 < pieceLength
    ensures LoopState([], [], sizes[i], each, goodCalls, false, 0) && OpeningsSafe([], [], sizes, pieceLength, i)
    ensures SentBehind([], [], before, First(sizes, pieceLength, i)) && LoopEvents([], [], [], false)
  {
  }

  lemma LoopEnds(chunks: seq<Chunk>, openings: seq<Opening>, size: nat, each: nat, goodCalls: nat,
                 done: bool, currentOffset: nat)
    requires LoopState(chunks, openings, size, each, goodCalls, done, currentOffset) && (done || size <= currentOffset)
    ensures done <==> chunks != []
    ensures ChunksInOrder(chunks, size, each, goodCalls) && ChunksComplete(chunks, size)
    ensures |openings| == if chunks == [] then 0 else |chunks| - 1
  {
  }

  lemma SafeStill(openings: seq<Opening>, chunks: seq<Chunk>, more: seq<Chunk>,
                  sizes: seq<nat>, pieceLength: nat, i: nat)
    requires i < |sizes| && 0 < pieceLength && |openings| <= |chunks|
    requires OpeningsSafe(openings, chunks, sizes, pieceLength, i)
    requires |more| == |chunks| + 1 && more[..|chunks|] == chunks
    ensures OpeningsSafe(openings, more, sizes, pieceLength, i)
  {
    hide OpeningSafe;
    assert forall k | 0 <= k < |chunks| :: more[k] == more[..|chunks|][k];
  }

  lemma SafeMore(openings: seq<Opening>, o: Opening, chunks: seq<Chunk>, sizes: seq<nat>, pieceLength: nat, i: nat)
    requires i < |sizes| && 0 < pieceLength && |chunks| == |openings| + 1
    requires OpeningsSafe(openings, chunks, sizes, pieceLength, i)
    requires OpeningSafe(o, sizes, pieceLength, i, chunks[|openings|].offset + chunks[|openings|].length)
    ensures OpeningsSafe(openings + [o], chunks, sizes, pieceLength, i)
  {
    hide OpeningSafe;
  }

  lemma FrontiersInFile(openings: seq<Opening>, chunks: seq<Chunk>, sizes: seq<nat>, pieceLength: nat, i: nat)
    requires i < |sizes| && 0 < pieceLength && |openings| <= |chunks|
    requires OpeningsSafe(openings, chunks, sizes, pieceLength, i)
    ensures forall k | 0 <= k < |openings| :: openings[k].frontier <= Last(sizes, pieceLength, i)
  {
    forall k | 0 <= k < |openings|
      ensures openings[k].frontier <= Last(sizes, pieceLength, i)
    {
      assert OpeningSafe(openings[k], sizes, pieceLength, i, chunks[k].offset + chunks[k].length);
    }
  }

  lemma SentLast(sent: seq<seq<int>>, v: seq<int>, openings: seq<Opening>, before: seq<int>, first: nat)
    requires SentBehind(sent, openings, before, first)
    ensures SentBehind(sent + [v], openings, before, first)
  {
  }

  lemma NothingSent(sent: seq<seq<int>>, w: seq<int>)
    requires sent == []
    ensures AllWithin(sent, w)
  {
  }

  lemma ChunkBoundary(q: nat, multiple: nat, pieceLength: nat)
    ensures pieceLength * q + multiple * pieceLength == pieceLength * (q + multiple)
  {
  }

  // ------------------------------------------------------------- all files

  const DEFAULT_MULTIPLE := 50

  /** Files the thread passes over: not wanted, or padding. */
  predicate Skipped(f: FileInfo)
  {
    !f.wanted || f.pad
  }

  /** Files whose open() fails end the loop over the files. */
  predicate Stops(f: FileInfo, d: Disk)
  {
    !Skipped(f) && !d.complete && !d.opens
  }

  /** The first file from k on that ends the loop. */
  function StopFrom(files: seq<FileInfo>, disks: seq<Disk>, k: nat): (stop: nat)
    requires k <= |files| == |disks|
    ensures k <= stop <= |files|
    ensures forall i | k <= i < stop :: !Stops(files[i], disks[i])
    decreases |files| - k
  {
    if k == |files| || Stops(files[k], disks[k]) then k else StopFrom(files, disks, k + 1)
  }

  /** The number of files the thread deals with. */
  function Processed(files: seq<FileInfo>, disks: seq<Disk>): (stop: nat)
    requires |files| == |disks|
    ensures stop <= |files|
  {
    StopFrom(files, disks, 0)
  }

  /** last_download_index after the first k files. */
  function LastOpened(files: seq<FileInfo>, pieceLength: nat, k: nat): nat
    requires k <= |files| && 0 < pieceLength
  {
    if k == 0 then 0
    else if Skipped(files[k - 1]) then LastOpened(files, pieceLength, k - 1)
    else Last(Sizes(files), pieceLength, k - 1)
  }

  /** File i opens its own pieces: it is on disk at full size, or it spans at least two pieces. */
  predicate OpensPieces(files: seq<FileInfo>, disks: seq<Disk>, pieceLength: nat, i: nat)
    requires i < |files| == |disks| && 0 < pieceLength
  {
    !Skipped(files[i])
    && (disks[i].complete || First(Sizes(files), pieceLength, i) < Last(Sizes(files), pieceLength, i))
  }

  /** Piece j is opened by one of the first k files. */
  ghost predicate OpenedByFile(files: seq<FileInfo>, disks: seq<Disk>, pieceLength: nat, k: nat, j: int)
    requires k <= |files| == |disks| && 0 < pieceLength
  {
    exists i :: 0 <= i < k && OpensPieces(files, disks, pieceLength, i) && FileCovers(files, pieceLength, i, j)
  }

  /** The pieces open for download when the thread ends. */
  ghost predicate Opened(files: seq<FileInfo>, disks: seq<Disk>, pieceLength: nat, org: Bits, j: nat)
    requires |files| == |disks| && 0 < pieceLength && j < |org|
  {
    var stop := Processed(files, disks);
    || OpenedByFile(files, disks, pieceLength, stop, j)
    || (LastOpened(files, pieceLength, stop) <= j && org[j])
  }

  lemma OpenedByNext(files: seq<FileInfo>, disks: seq<Disk>, pieceLength: nat, k: nat, j: int)
    requires k < |files| == |disks| && 0 < pieceLength
    ensures OpenedByFile(files, disks, pieceLength, k + 1, j)
            <==> OpenedByFile(files, disks, pieceLength, k, j)
                 || (OpensPieces(files, disks, pieceLength, k) && FileCovers(files, pieceLength, k, j))
  {
  }

  /**
   All that happens for file i, and how it changes the priorities: nothing for a file that is not wanted or is
   padding, and for one that cannot be opened; one vector with all its pieces for a file that is complete; for
   any other file the alternation of chunks and vectors that its size, the chunk length and the calls decide.
   */
  ghost predicate FileTurn(events: seq<Event>, before: seq<int>, after: seq<int>, files: seq<FileInfo>,
                           disks: seq<Disk>, pieceLength: nat, each: nat, i: nat)
    requires i < |files| == |disks| && 0 < pieceLength
  {
    if !files[i].wanted || files[i].pad then events == [] && after == before
    else if disks[i].complete then
      events == [Publish(after)]
      && OpensTo(after, before, First(Sizes(files), pieceLength, i), Last(Sizes(files), pieceLength, i))
    else if !disks[i].opens then events == [] && after == before
    else
      exists chunks: seq<Chunk>, openings: seq<Opening>, sent: seq<seq<int>> ::
        FileRounds(events, before, after, chunks, openings, sent, files, disks[i].goodCalls, pieceLength, each, i)
  }

  ghost predicate FileRounds(events: seq<Event>, before: seq<int>, after: seq<int>, chunks: seq<Chunk>,
                             openings: seq<Opening>, sent: seq<seq<int>>, files: seq<FileInfo>, goodCalls: nat,
                             pieceLength: nat, each: nat, i: nat)
    requires i < |files| && 0 < pieceLength
  {
    && ChunksInOrder(chunks, files[i].size, each, goodCalls) && ChunksComplete(chunks, files[i].size)
    && |openings| == (if chunks == [] then 0 else |chunks| - 1)
    && OpeningsSafe(openings, chunks, Sizes(files), pieceLength, i)
    && FileEvents(events, chunks, sent, |openings|)
    && SentBehind(sent, openings, before, First(Sizes(files), pieceLength, i)) && InForce(sent, before, after)
  }

  /** One turn of the loop over the files. */
  method PreAllocateFile(host: Host, priority: array<int>, files: seq<FileInfo>, disks: seq<Disk>,
                         pieceLength: nat, multiple: nat, i: nat, lastIndex: nat)
    returns (stopped: bool, lastDownloadIndex: nat, ghost events: seq<Event>)
    requires i < |files| == |disks| && 0 < pieceLength && 0 < multiple
    requires InTorrent(Sizes(files), pieceLength, priority.Length)
    modifies host, priority
    ensures stopped <==> files[i].wanted && !files[i].pad && !disks[i].complete && !disks[i].opens
    ensures lastDownloadIndex == if stopped || Skipped(files[i]) then lastIndex else Last(Sizes(files), pieceLength, i)
    ensures host.log == old(host.log) + events && EventsWithin(events, priority[..])
    ensures FileTurn(events, old(priority[..]), priority[..], files, disks, pieceLength, multiple * pieceLength, i)
    ensures forall j | 0 <= j < priority.Length :: priority[j] ==
              if !stopped && OpensPieces(files, disks, pieceLength, i) && FileCovers(files, pieceLength, i, j)
              then 1 else old(priority[j])
  {
    hide First, Last, FileRounds;
    var sizes := Sizes(files);
    stopped, lastDownloadIndex, events := false, lastIndex, [];
    if Skipped(files[i]) {
    } else if disks[i].complete {
      FirstLeLast(sizes, pieceLength, i);
      assert Last(sizes, pieceLength, i) < priority.Length;
      OpenRange(priority, First(sizes, pieceLength, i), Last(sizes, pieceLength, i));
      host.PrioritizePieces(priority[..]);
      events := [Publish(priority[..])];
      lastDownloadIndex := Last(sizes, pieceLength, i);
    } else if !disks[i].opens {
      stopped := true;
    } else {
      assert Last(sizes, pieceLength, i) < priority.Length;
      events := AllocateAt(host, priority, files, disks[i].goodCalls, pieceLength, multiple, i);
      lastDownloadIndex := Last(sizes, pieceLength, i);
    }
  }

  /** A file that was opened is allocated. */
  method AllocateAt(host: Host, priority: array<int>, files: seq<FileInfo>, goodCalls: nat,
                    pieceLength: nat, multiple: nat, i: nat)
    returns (ghost events: seq<Event>)
    requires i < |files| && 0 < pieceLength && 0 < multiple && Last(Sizes(files), pieceLength, i) < priority.Length
    modifies host, priority
    ensures host.log == old(host.log) + events && EventsWithin(events, priority[..])
    ensures exists chunks: seq<Chunk>, openings: seq<Opening>, sent: seq<seq<int>> ::
              FileRounds(events, old(priority[..]), priority[..], chunks, openings, sent, files, goodCalls,
                         pieceLength, multiple * pieceLength, i)
    ensures forall j | 0 <= j < priority.Length :: priority[j] ==
              if First(Sizes(files), pieceLength, i) < Last(Sizes(files), pieceLength, i)
                 && FileCovers(files, pieceLength, i, j) then 1 else old(priority[j])
  {
    hide First, Last, ChunksInOrder, ChunksComplete, OpeningsSafe, FileEvents, SentBehind, InForce, EventsWithin;
    ghost var before := priority[..];
    var chunks, openings;
    ghost var sent;
    chunks, openings, sent, events :=
      AllocateFile(host, priority, Sizes(files), pieceLength, multiple, i, goodCalls);
    assert FileRounds(events, before, priority[..], chunks, openings, sent, files, goodCalls,
                      pieceLength, multiple * pieceLength, i);
  }

  lemma PublishedOnce(w: seq<int>)
    ensures EventsWithin([Publish(w)], w)
  {
  }

  /** Events that open no more than an earlier vector open no more than anything that vector is within. */
  lemma WithinLater(events: seq<Event>, more: seq<Event>, before: seq<int>, now: seq<int>)
    requires EventsWithin(events, before) && OpensWithin(before, now) && EventsWithin(more, now)
    ensures EventsWithin(events + more, now)
  {
    forall k | 0 <= k < |events + more|
      ensures EventWithin((events + more)[k], now)
    {
      if k < |events| {
        assert EventWithin(events[k], before);
      }
    }
  }

  /** The closing sweep: wanted pieces from `from` on are opened, and the result is published. */
  method Sweep(host: Host, priority: array<int>, org: Bits, from: nat)
    requires |org| == priority.Length
    modifies host, priority
    ensures forall k | 0 <= k < priority.Length ::
              priority[k] == if from <= k && org[k] then 1 else old(priority[k])
    ensures host.log == old(host.log) + [Publish(priority[..])]
  {
    var j := from;
    while j < priority.Length
      invariant from <= j
      invariant forall k | 0 <= k < priority.Length ::
                  priority[k] == if from <= k < j && org[k] then 1 else old(priority[k])
      invariant host.log == old(host.log)
    {
      if org[j] {
        priority[j] := 1;
      }
      j := j + 1;
    }
    host.PrioritizePieces(priority[..]);
  }

  /** The vector is 1 on the pieces that the first k files opened and 0 elsewhere. */
  ghost predicate ShowsFiles(v: seq<int>, files: seq<FileInfo>, disks: seq<Disk>, pieceLength: nat, k: nat)
    requires k <= |files| == |disks| && 0 < pieceLength
  {
    forall j | 0 <= j < |v| :: v[j] == if OpenedByFile(files, disks, pieceLength, k, j) then 1 else 0
  }

  lemma ShowsNext(before: seq<int>, now: seq<int>, files: seq<FileInfo>, disks: seq<Disk>, pieceLength: nat, i: nat)
    requires i < |files| == |disks| && 0 < pieceLength && |before| == |now|
    requires ShowsFiles(before, files, disks, pieceLength, i)
    requires forall j | 0 <= j < |now| :: now[j] ==
               if OpensPieces(files, disks, pieceLength, i) && FileCovers(files, pieceLength, i, j)
               then 1 else before[j]
    ensures ShowsFiles(now, files, disks, pieceLength, i + 1)
  {
    hide OpensPieces, FileCovers, OpenedByFile;
    forall j | 0 <= j < |now|
      ensures now[j] == if OpenedByFile(files, disks, pieceLength, i + 1, j) then 1 else 0
    {
      OpenedByNext(files, disks, pieceLength, i, j);
    }
  }

  lemma ShowsNothing(v: seq<int>, files: seq<FileInfo>, disks: seq<Disk>, pieceLength: nat)
    requires |files| == |disks| && 0 < pieceLength && forall j | 0 <= j < |v| :: v[j] == 0
    ensures ShowsFiles(v, files, disks, pieceLength, 0)
  {
  }

  /** The files' turns, one behind the other. */
  function Turns(turns: seq<seq<Event>>): seq<Event>
  {
    if turns == [] then [] else Turns(turns[..|turns| - 1]) + turns[|turns| - 1]
  }

  /** What the thread has done after k files: v[k] are the priorities then. */
  ghost predicate TurnsDone(turns: seq<seq<Event>>, v: seq<seq<int>>, files: seq<FileInfo>, disks: seq<Disk>,
                            pieceLength: nat, each: nat)
    requires |turns| <= |files| == |disks| && 0 < pieceLength
  {
    |v| == |turns| + 1 && forall i | 0 <= i < |turns| :: TurnDone(turns, v, files, disks, pieceLength, each, i)
  }

  ghost predicate TurnDone(turns: seq<seq<Event>>, v: seq<seq<int>>, files: seq<FileInfo>, disks: seq<Disk>,
                           pieceLength: nat, each: nat, i: nat)
    requires i < |turns| <= |files| == |disks| && 0 < pieceLength && |v| == |turns| + 1
  {
    FileTurn(turns[i], v[i], v[i + 1], files, disks, pieceLength, each, i)
  }

  lemma TurnAdded(turns: seq<seq<Event>>, v: seq<seq<int>>, events: seq<Event>, now: seq<int>,
                  files: seq<FileInfo>, disks: seq<Disk>, pieceLength: nat, each: nat)
    requires |turns| < |files| == |disks| && 0 < pieceLength && TurnsDone(turns, v, files, disks, pieceLength, each)
    requires FileTurn(events, v[|turns|], now, files, disks, pieceLength, each, |turns|)
    ensures TurnsDone(turns + [events], v + [now], files, disks, pieceLength, each)
    ensures Turns(turns + [events]) == Turns(turns) + events
  {
    hide FileTurn;
    var t, w := turns + [events], v + [now];
    assert t[..|t| - 1] == turns;
    forall i | 0 <= i < |t|
      ensures TurnDone(t, w, files, disks, pieceLength, each, i)
    {
      assert i < |turns| ==> TurnDone(turns, v, files, disks, pieceLength, each, i);
    }
  }

  /** Before the first file. */
  lemma TurnsStart(v: seq<int>, files: seq<FileInfo>, disks: seq<Disk>, pieceLength: nat, each: nat)
    requires |files| == |disks| && 0 < pieceLength
    ensures TurnsDone([], [v], files, disks, pieceLength, each) && Turns([]) == []
  {
  }

  /** What the thread has done after the zero vector: the turns of the files it deals with, and the sweep's vector. */
  ghost predicate ThreadEvents(events: seq<Event>, turns: seq<seq<Event>>, v: seq<seq<int>>, final: seq<int>,
                               files: seq<FileInfo>, disks: seq<Disk>, pieceLength: nat, each: nat)
    requires |files| == |disks| && 0 < pieceLength
  {
    && |turns| == Processed(files, disks) && TurnsDone(turns, v, files, disks, pieceLength, each)
    && v[0] == seq(|final|, _ => 0)
    && events == [Publish(v[0])] + Turns(turns) + (if |final| == 0 then [] else [Publish(final)])
  }

  /**
   The loop over the files.  After i files the priorities show what those files opened.
   */
  method PreAllocateFiles(host: Host, priority: array<int>, files: seq<FileInfo>, disks: seq<Disk>,
                          pieceLength: nat, multiple: nat)
    returns (lastDownloadIndex: nat, ghost turns: seq<seq<Event>>, ghost v: seq<seq<int>>)
    requires |files| == |disks| && 0 < pieceLength && 0 < multiple
    requires InTorrent(Sizes(files), pieceLength, priority.Length)
    requires forall j | 0 <= j < priority.Length :: priority[j] == 0
    modifies host, priority
    ensures |turns| == Processed(files, disks) && lastDownloadIndex == LastOpened(files, pieceLength, |turns|)
    ensures TurnsDone(turns, v, files, disks, pieceLength, multiple * pieceLength)
    ensures v[0] == old(priority[..]) && v[|turns|] == priority[..]
    ensures host.log == old(host.log) + Turns(turns) && EventsWithin(Turns(turns), priority[..])
    ensures ShowsFiles(priority[..], files, disks, pieceLength, |turns|)
  {
    hide OpenedByFile, OpensPieces, FileCovers, EventsWithin, ShowsFiles, FileTurn, TurnsDone, Turns;
    ghost var each: nat := multiple * pieceLength;
    lastDownloadIndex, turns, v := 0, [], [priority[..]];
    TurnsStart(priority[..], files, disks, pieceLength, each);
    ShowsNothing(priority[..], files, disks, pieceLength);
    NothingWithin(priority[..]);
    var i := 0;
    var stopped := false;
    while i < |files| && !stopped
      invariant 0 <= i == |turns| <= |files| && |v| == i + 1 && (stopped ==> i < |files|)
      invariant Processed(files, disks) == if stopped then i else StopFrom(files, disks, i)
      invariant lastDownloadIndex == LastOpened(files, pieceLength, i)
      invariant ShowsFiles(priority[..], files, disks, pieceLength, i)
      invariant TurnsDone(turns, v, files, disks, pieceLength, each)
      invariant v[0] == old(priority[..]) && v[i] == priority[..]
      invariant host.log == old(host.log) + Turns(turns) && EventsWithin(Turns(turns), priority[..])
      decreases !stopped, |files| - i
    {
      ghost var before, more := priority[..], [];
      stopped, lastDownloadIndex, more :=
        PreAllocateFile(host, priority, files, disks, pieceLength, multiple, i, lastDownloadIndex);
      if stopped {
        StoppedTurn(more, before, priority[..], files, disks, pieceLength, each, i);
      } else {
        assert OpensWithin(before, priority[..]);
        WithinLater(Turns(turns), more, before, priority[..]);
        TurnAdded(turns, v, more, priority[..], files, disks, pieceLength, each);
        ShowsNext(before, priority[..], files, disks, pieceLength, i);
        Regroup(old(host.log), Turns(turns), more);
        turns, v := turns + [more], v + [priority[..]];
        i := i + 1;
      }
    }
  }

  lemma NothingWithin(w: seq<int>)
    ensures EventsWithin(Turns([]), w)
  {
  }

  lemma StoppedTurn(events: seq<Event>, before: seq<int>, after: seq<int>, files: seq<FileInfo>, disks: seq<Disk>,
                    pieceLength: nat, each: nat, i: nat)
    requires i < |files| == |disks| && 0 < pieceLength && Stops(files[i], disks[i])
    requires FileTurn(events, before, after, files, disks, pieceLength, each, i)
    ensures events == [] && after == before
  {
  }

  /**
   The thread: its final priorities are 1 on exactly the opened pieces and 0 elsewhere, and they are the last
   ones published.  First of all share mode is left and the files' priorities are set; then every piece is
   closed; then come the turns of the files, up to the first that cannot be opened; then the sweep.  Nothing
   published from the zero vector on opens any other piece.
   */
  method PreAllocateThread(host: Host, files: seq<FileInfo>, disks: seq<Disk>, pieceLength: nat,
                           dynamicAllocate: int, numPieces: nat, org: Bits)
    returns (priority: array<int>, ghost events: seq<Event>, ghost turns: seq<seq<Event>>, ghost v: seq<seq<int>>)
    requires |files| == |disks| && 0 < pieceLength && numPieces == |org|
    requires InTorrent(Sizes(files), pieceLength, numPieces)
    modifies host
    ensures fresh(priority) && priority.Length == numPieces
    ensures forall j | 0 <= j < numPieces ::
              priority[j] == if Opened(files, disks, pieceLength, org, j) then 1 else 0
    ensures host.log == old(host.log) + [ShareModeOff, PrioritizeFiles(Wanted(files))] + events
    ensures ThreadEvents(events, turns, v, priority[..], files, disks, pieceLength,
                         (if dynamicAllocate > 0 then dynamicAllocate else 50) * pieceLength)
    ensures events[0] == Publish(seq(numPieces, _ => 0)) && events[|events| - 1] == Publish(priority[..])
    ensures EventsWithin(events, priority[..])
  {
    hide OpenedByFile, OpensPieces, FileCovers, Stops, EventsWithin, ShowsFiles, Wanted, Turns, TurnsDone, Processed;
    var multiple := if dynamicAllocate > 0 then dynamicAllocate else DEFAULT_MULTIPLE;
    priority := new int[numPieces](_ => 0);
    host.LeaveShareMode();
    host.SetFilePriorities(Wanted(files));
    host.PrioritizePieces(priority[..]);
    ghost var zero := priority[..];
    assert zero == seq(numPieces, _ => 0);
    PublishedOnce(zero);
    var lastDownloadIndex;
    lastDownloadIndex, turns, v := PreAllocateFiles(host, priority, files, disks, pieceLength, multiple);
    ghost var before := priority[..];
    assert OpensWithin(zero, before);
    WithinLater([Publish(zero)], Turns(turns), zero, before);
    events := [Publish(zero)] + Turns(turns);
    LastOpenedInTorrent(files, pieceLength, |turns|, numPieces);
    if lastDownloadIndex < numPieces {
      Sweep(host, priority, org, lastDownloadIndex);
      PublishedOnce(priority[..]);
      WithinLater(events, [Publish(priority[..])], before, priority[..]);
      events := events + [Publish(priority[..])];
    } else {
      NoFiles(files, disks, turns);
    }
    FinallyOpened(before, priority[..], files, disks, pieceLength, org);
  }

  lemma NoFiles(files: seq<FileInfo>, disks: seq<Disk>, turns: seq<seq<Event>>)
    requires |files| == |disks| == 0 && |turns| == Processed(files, disks)
    ensures Turns(turns) == []
  {
  }

  /** A torrent without pieces has no files here, so some piece is left for the sweep unless there is nothing at all. */
  lemma LastOpenedInTorrent(files: seq<FileInfo>, pieceLength: nat, k: nat, numPieces: nat)
    requires k <= |files| && 0 < pieceLength && InTorrent(Sizes(files), pieceLength, numPieces)
    ensures LastOpened(files, pieceLength, k) < numPieces || (numPieces == 0 && |files| == 0)
  {
    if |files| != 0 {
      assert 0 <= Last(Sizes(files), pieceLength, 0) < numPieces;
    }
  }

  lemma FinallyOpened(before: seq<int>, now: seq<int>, files: seq<FileInfo>, disks: seq<Disk>,
                      pieceLength: nat, org: Bits)
    requires |files| == |disks| && 0 < pieceLength && |before| == |now| == |org|
    requires ShowsFiles(before, files, disks, pieceLength, Processed(files, disks))
    requires forall k | 0 <= k < |now| ::
               now[k] == if LastOpened(files, pieceLength, Processed(files, disks)) <= k && org[k] then 1 else before[k]
    ensures forall j | 0 <= j < |now| :: now[j] == if Opened(files, disks, pieceLength, org, j) then 1 else 0
  {
    hide OpenedByFile, LastOpened, Processed;
  }

  // ------------------------------------------------------- what is reserved

  /** Byte x lies in a chunk whose reservation was accepted. */
  ghost predicate ReservedIn(events: seq<Event>, x: nat)
  {
    exists e :: e in events && e.Reserve? && e.chunk.ok && e.chunk.offset <= x < e.chunk.offset + e.chunk.length
  }

  lemma {:induction false} RoundsReserve(chunks: seq<Chunk>, sent: seq<seq<int>>, n: nat, c: Chunk)
    requires n <= |chunks| && n <= |sent|
    ensures Reserve(c) in Rounds(chunks, sent, n) <==> exists k :: 0 <= k < n && chunks[k] == c
  {
    if 0 < n {
      RoundsReserve(chunks, sent, n - 1, c);
      assert Rounds(chunks, sent, n) == Rounds(chunks, sent, n - 1) + [Reserve(chunks[n - 1]), Publish(sent[n - 1])];
    }
  }

  /** The reservations of a file are its chunks. */
  lemma EventsReserve(events: seq<Event>, chunks: seq<Chunk>, sent: seq<seq<int>>, n: nat, c: Chunk)
    requires FileEvents(events, chunks, sent, n)
    ensures Reserve(c) in events <==> exists k :: 0 <= k < |chunks| && chunks[k] == c
  {
    hide Rounds;
    RoundsReserve(chunks, sent, n, c);
  }

  lemma ReservedIffAllocated(events: seq<Event>, chunks: seq<Chunk>, sent: seq<seq<int>>, n: nat, x: nat)
    requires FileEvents(events, chunks, sent, n)
    ensures ReservedIn(events, x) <==> Allocated(chunks, x)
  {
    hide FileEvents;
    if ReservedIn(events, x) {
      var e :| e in events && e.Reserve? && e.chunk.ok && e.chunk.offset <= x < e.chunk.offset + e.chunk.length;
      EventsReserve(events, chunks, sent, n, e.chunk);
      var k :| 0 <= k < |chunks| && chunks[k] == e.chunk;
      assert InChunk(chunks[k], x);
    }
    if Allocated(chunks, x) {
      var k :| 0 <= k < |chunks| && chunks[k].ok && InChunk(chunks[k], x);
      EventsReserve(events, chunks, sent, n, chunks[k]);
      assert Reserve(chunks[k]) in events;
    }
  }

  /**
   In the turn of a wanted real file that is not complete and can be opened, byte x is reserved exactly if it
   lies below the accepted calls times the chunk length; so if its calls succeed, all of it is.
   */
  lemma FileReserved(turns: seq<seq<Event>>, v: seq<seq<int>>, files: seq<FileInfo>, disks: seq<Disk>,
                     pieceLength: nat, each: nat, i: nat, x: nat)
    requires i < |turns| <= |files| == |disks| && 0 < pieceLength && 0 < each
    requires TurnsDone(turns, v, files, disks, pieceLength, each)
    requires files[i].wanted && !files[i].pad && !disks[i].complete && disks[i].opens && x < files[i].size
    ensures ReservedIn(turns[i], x) <==> x < each * disks[i].goodCalls
    ensures files[i].size <= each * disks[i].goodCalls ==> ReservedIn(turns[i], x)
  {
    hide OpeningsSafe, FileEvents, ReservedIn, ChunksInOrder, ChunksComplete, SentBehind, InForce;
    assert TurnDone(turns, v, files, disks, pieceLength, each, i);
    var chunks: seq<Chunk>, openings: seq<Opening>, sent: seq<seq<int>> :|
      FileRounds(turns[i], v[i], v[i + 1], chunks, openings, sent, files, disks[i].goodCalls, pieceLength, each, i);
    ReservedIffAllocated(turns[i], chunks, sent, |openings|, x);
    AllocatedExactly(chunks, files[i].size, each, disks[i].goodCalls, x);
  }

  /**
   The vector published behind chunk k opens the file's pieces through the one that holds the first byte not
   yet reserved, and no piece beyond.
   */
  lemma FrontierIs(events: seq<Event>, before: seq<int>, after: seq<int>, chunks: seq<Chunk>, openings: seq<Opening>,
                   sent: seq<seq<int>>, files: seq<FileInfo>, goodCalls: nat, pieceLength: nat, each: nat, i: nat,
                   k: nat, j: nat)
    requires i < |files| && 0 < pieceLength && k < |openings| && j < |before|
    requires FileRounds(events, before, after, chunks, openings, sent, files, goodCalls, pieceLength, each, i)
    ensures each * k + each < files[i].size && |sent[k]| == |before|
    ensures var offset := Offset(Sizes(files), i);
            sent[k][j] == if offset / pieceLength <= j <= (offset + (each * k + each)) / pieceLength then 1
                          else before[j]
  {
    hide FileEvents, InForce, ChunksInOrder;
    ChunkHolds(chunks, files[i].size, each, goodCalls, k);
    assert OpeningSafe(openings[k], Sizes(files), pieceLength, i, chunks[k].offset + chunks[k].length);
    assert OpensTo(sent[k], before, First(Sizes(files), pieceLength, i), openings[k].frontier);
  }

  /** In the turn of any other file nothing is reserved; padding and unwanted files are not touched at all. */
  lemma NothingElseReserved(turns: seq<seq<Event>>, v: seq<seq<int>>, files: seq<FileInfo>, disks: seq<Disk>,
                            pieceLength: nat, each: nat, i: nat)
    requires i < |turns| <= |files| == |disks| && 0 < pieceLength
    requires TurnsDone(turns, v, files, disks, pieceLength, each)
    ensures !files[i].wanted || files[i].pad ==> turns[i] == [] && v[i + 1] == v[i]
    ensures !files[i].wanted || files[i].pad || disks[i].complete ==> forall e | e in turns[i] :: !e.Reserve?
  {
    hide OpensTo, FileRounds;
    assert TurnDone(turns, v, files, disks, pieceLength, each, i);
  }

  /** The files dealt with are those before the first wanted real file that is not complete and cannot be opened. */
  lemma {:induction false} StopFromIs(files: seq<FileInfo>, disks: seq<Disk>, k: nat)
    requires k <= |files| == |disks|
    ensures forall i | k <= i < StopFrom(files, disks, k) ::
              !(files[i].wanted && !files[i].pad && !disks[i].complete && !disks[i].opens)
    ensures var stop := StopFrom(files, disks, k);
            stop < |files| ==>
              files[stop].wanted && !files[stop].pad && !disks[stop].complete && !disks[stop].opens
    decreases |files| - k
  {
    if k < |files| && !Stops(files[k], disks[k]) {
      StopFromIs(files, disks, k + 1);
    }
  }

  // ------------------------------------------------------ what it amounts to

  lemma {:induction false} LastOpenedIsLast(files: seq<FileInfo>, pieceLength: nat, k: nat, i: nat)
    requires k <= i < |files| && 0 < pieceLength
    ensures LastOpened(files, pieceLength, k) <= First(Sizes(files), pieceLength, i)
    decreases k
  {
    if k > 0 {
      if Skipped(files[k - 1]) {
        LastOpenedIsLast(files, pieceLength, k - 1, i);
      } else {
        FilesInOrder(Sizes(files), pieceLength, k - 1, i);
      }
    }
  }

  /** Never a piece outside the wanted ones, whatever fails. */
  lemma OpenedOnlyWanted(files: seq<FileInfo>, disks: seq<Disk>, pieceLength: nat, org: Bits, j: nat)
    requires |files| == |disks| && 0 < pieceLength && j < |org|
    requires forall k | 0 <= k < |org| && WantedPiece(files, pieceLength, k) :: org[k]
    requires Opened(files, disks, pieceLength, org, j)
    ensures org[j]
  {
    var stop := Processed(files, disks);
    if OpenedByFile(files, disks, pieceLength, stop, j) {
      var i :| 0 <= i < stop && OpensPieces(files, disks, pieceLength, i) && FileCovers(files, pieceLength, i, j);
      assert WantedPiece(files, pieceLength, j);
    }
  }

  /** A wanted file that may open nothing itself: padding, or a file inside a single piece. */
  predicate Risky(files: seq<FileInfo>, pieceLength: nat, i: nat)
    requires i < |files| && 0 < pieceLength
  {
    files[i].wanted && (files[i].pad || First(Sizes(files), pieceLength, i) == Last(Sizes(files), pieceLength, i))
  }

  /** A wanted real file over two pieces or more. */
  predicate Large(files: seq<FileInfo>, pieceLength: nat, i: nat)
    requires i < |files| && 0 < pieceLength
  {
    !Skipped(files[i]) && First(Sizes(files), pieceLength, i) < Last(Sizes(files), pieceLength, i)
  }

  /** Piece j is shared with a large file, or no wanted real file ends in a later piece. */
  predicate PieceSafe(files: seq<FileInfo>, pieceLength: nat, j: int)
    requires 0 < pieceLength
  {
    || (exists k :: 0 <= k < |files| && Large(files, pieceLength, k) && FileCovers(files, pieceLength, k, j))
    || (forall k | 0 <= k < |files| && !Skipped(files[k]) :: Last(Sizes(files), pieceLength, k) <= j)
  }

  /** What a caller can check on the list of files alone: every piece of every risky file is safe. */
  predicate SafeLayout(files: seq<FileInfo>, pieceLength: nat)
    requires 0 < pieceLength
  {
    forall i | 0 <= i < |files| && Risky(files, pieceLength, i) ::
      forall j | First(Sizes(files), pieceLength, i) <= j <= Last(Sizes(files), pieceLength, i) ::
        PieceSafe(files, pieceLength, j)
  }

  /** Every wanted piece is open in the end. */
  ghost predicate AllOpened(files: seq<FileInfo>, disks: seq<Disk>, pieceLength: nat, org: Bits)
    requires |files| == |disks| && 0 < pieceLength
  {
    forall j | 0 <= j < |org| && org[j] :: Opened(files, disks, pieceLength, org, j)
  }

  lemma {:induction false} LastOpenedBounds(files: seq<FileInfo>, pieceLength: nat, k: nat)
    requires k <= |files| && 0 < pieceLength
    ensures LastOpened(files, pieceLength, k) == 0
            || exists i :: 0 <= i < k && !Skipped(files[i])
                           && LastOpened(files, pieceLength, k) == Last(Sizes(files), pieceLength, i)
    ensures forall i | 0 <= i < k && !Skipped(files[i]) ::
              Last(Sizes(files), pieceLength, i) <= LastOpened(files, pieceLength, k)
  {
    hide Last, Sizes;
    if 0 < k {
      LastOpenedBounds(files, pieceLength, k - 1);
      if !Skipped(files[k - 1]) {
        forall i | 0 <= i < k - 1 && !Skipped(files[i])
          ensures Last(Sizes(files), pieceLength, i) <= Last(Sizes(files), pieceLength, k - 1)
        {
          FilesInOrder(Sizes(files), pieceLength, i, k - 1);
          FirstLeLast(Sizes(files), pieceLength, k - 1);
        }
      }
    }
  }

  /** A piece of a file that the loop does not reach is left for the sweep. */
  lemma SweepReaches(files: seq<FileInfo>, disks: seq<Disk>, pieceLength: nat, org: Bits, i: nat, j: nat)
    requires i < |files| == |disks| && 0 < pieceLength && j < |org| && org[j]
    requires Processed(files, disks) <= i && FileCovers(files, pieceLength, i, j)
    ensures Opened(files, disks, pieceLength, org, j)
  {
    LastOpenedIsLast(files, pieceLength, Processed(files, disks), i);
  }

  /** A safe piece is opened, whatever fails. */
  lemma SafePieceOpened(files: seq<FileInfo>, disks: seq<Disk>, pieceLength: nat, org: Bits, j: nat)
    requires |files| == |disks| && 0 < pieceLength && j < |org| && org[j]
    ensures PieceSafe(files, pieceLength, j) ==> Opened(files, disks, pieceLength, org, j)
  {
    hide FileCovers, First, Last;
    var stop := Processed(files, disks);
    if k :| 0 <= k < |files| && Large(files, pieceLength, k) && FileCovers(files, pieceLength, k, j) {
      if stop <= k {
        SweepReaches(files, disks, pieceLength, org, k, j);
      } else {
        assert OpensPieces(files, disks, pieceLength, k);
        assert OpenedByFile(files, disks, pieceLength, stop, j);
      }
    } else if PieceSafe(files, pieceLength, j) {
      LastOpenedBounds(files, pieceLength, stop);
    }
  }

  /** In a safe layout every wanted piece is opened, whatever fails. */
  lemma SafeLayoutOpensAll(files: seq<FileInfo>, disks: seq<Disk>, pieceLength: nat, org: Bits)
    requires |files| == |disks| && 0 < pieceLength && SafeLayout(files, pieceLength)
    requires forall j | 0 <= j < |org| :: org[j] <==> WantedPiece(files, pieceLength, j)
    ensures AllOpened(files, disks, pieceLength, org)
  {
    hide PieceSafe, First, Last, Opened, StopFrom;
    var stop := Processed(files, disks);
    forall j: nat | j < |org| && org[j]
      ensures Opened(files, disks, pieceLength, org, j)
    {
      var i :| 0 <= i < |files| && files[i].wanted && FileCovers(files, pieceLength, i, j);
      if stop <= i {
        SweepReaches(files, disks, pieceLength, org, i, j);
      } else if OpensPieces(files, disks, pieceLength, i) {
        OpenedByThat(files, disks, pieceLength, org, i, j);
      } else {
        FirstLeLast(Sizes(files), pieceLength, i);
        assert Risky(files, pieceLength, i);
        SafePieceOpened(files, disks, pieceLength, org, j);
      }
    }
  }

  lemma OpenedByThat(files: seq<FileInfo>, disks: seq<Disk>, pieceLength: nat, org: Bits, i: nat, j: nat)
    requires i < |files| == |disks| && 0 < pieceLength && j < |org|
    requires i < Processed(files, disks) && OpensPieces(files, disks, pieceLength, i)
    requires FileCovers(files, pieceLength, i, j)
    ensures Opened(files, disks, pieceLength, org, j)
  {
  }

  /** A disk with nothing on it, where every open() works and no byte can be reserved. */
  function EmptyDisks(n: nat): (d: seq<Disk>)
    ensures |d| == n
  {
    seq(n, _ => Disk(false, true, 0))
  }

  lemma {:induction false} EmptyDisksNeverStop(files: seq<FileInfo>, k: nat)
    requires k <= |files|
    ensures StopFrom(files, EmptyDisks(|files|), k) == |files|
    decreases |files| - k
  {
    if k < |files| {
      EmptyDisksNeverStop(files, k + 1);
    }
  }

  /** On an empty disk a piece is opened only if it is safe. */
  lemma OpenedOnEmptyDisk(files: seq<FileInfo>, pieceLength: nat, org: Bits, j: nat)
    requires 0 < pieceLength && j < |org| && Opened(files, EmptyDisks(|files|), pieceLength, org, j)
    ensures PieceSafe(files, pieceLength, j)
  {
    hide First, Last, FileCovers;
    var disks := EmptyDisks(|files|);
    EmptyDisksNeverStop(files, 0);
    if OpenedByFile(files, disks, pieceLength, |files|, j) {
      var k :| 0 <= k < |files| && OpensPieces(files, disks, pieceLength, k) && FileCovers(files, pieceLength, k, j);
      assert Large(files, pieceLength, k);
    } else {
      LastOpenedBounds(files, pieceLength, |files|);
    }
  }

  /**
   "Ensure all piece can be download" holds for every course of the file system's calls exactly when the
   layout is safe.
   */
  lemma AllWantedOpenedIff(files: seq<FileInfo>, pieceLength: nat, org: Bits)
    requires 0 < pieceLength && InTorrent(Sizes(files), pieceLength, |org|)
    requires forall j | 0 <= j < |org| :: org[j] <==> WantedPiece(files, pieceLength, j)
    ensures (forall disks: seq<Disk> | |disks| == |files| :: AllOpened(files, disks, pieceLength, org))
            <==> SafeLayout(files, pieceLength)
  {
    hide AllOpened, Opened, PieceSafe, First, Last, SafeLayout;
    if SafeLayout(files, pieceLength) {
      forall disks: seq<Disk> | |disks| == |files|
        ensures AllOpened(files, disks, pieceLength, org)
      {
        SafeLayoutOpensAll(files, disks, pieceLength, org);
      }
    } else if AllOpened(files, EmptyDisks(|files|), pieceLength, org) {
      AllOpenedIsSafe(files, pieceLength, org);
    }
  }

  lemma AllOpenedIsSafe(files: seq<FileInfo>, pieceLength: nat, org: Bits)
    requires 0 < pieceLength && InTorrent(Sizes(files), pieceLength, |org|)
    requires forall j | 0 <= j < |org| :: org[j] <==> WantedPiece(files, pieceLength, j)
    requires AllOpened(files, EmptyDisks(|files|), pieceLength, org)
    ensures SafeLayout(files, pieceLength)
  {
    hide Opened, PieceSafe, Offset;
    forall i, j | 0 <= i < |files| && Risky(files, pieceLength, i)
                  && First(Sizes(files), pieceLength, i) <= j <= Last(Sizes(files), pieceLength, i)
      ensures PieceSafe(files, pieceLength, j)
    {
      assert FileCovers(files, pieceLength, i, j);
      assert WantedPiece(files, pieceLength, j);
      OpenedOnEmptyDisk(files, pieceLength, org, j);
    }
  }

  /**
   The usual torrent: every wanted file is real and on disk or spans two pieces; then the opened pieces are
   exactly the wanted ones, whatever fails.
   */
  lemma ExactWhenNoSmallFiles(files: seq<FileInfo>, disks: seq<Disk>, pieceLength: nat, org: Bits)
    requires |files| == |disks| && 0 < pieceLength
    requires InTorrent(Sizes(files), pieceLength, |org|)
    requires forall j | 0 <= j < |org| :: org[j] <==> WantedPiece(files, pieceLength, j)
    requires forall i | 0 <= i < |files| && files[i].wanted :: OpensPieces(files, disks, pieceLength, i)
    ensures forall j | 0 <= j < |org| :: org[j] <==> Opened(files, disks, pieceLength, org, j)
  {
    hide Opened, FileCovers, StopFrom, First, Last;
    forall j: nat | j < |org|
      ensures org[j] <==> Opened(files, disks, pieceLength, org, j)
    {
      if org[j] {
        var i :| 0 <= i < |files| && files[i].wanted && FileCovers(files, pieceLength, i, j);
        if Processed(files, disks) <= i {
          SweepReaches(files, disks, pieceLength, org, i, j);
        } else {
          OpenedByThat(files, disks, pieceLength, org, i, j);
        }
      } else if Opened(files, disks, pieceLength, org, j) {
        OpenedOnlyWanted(files, disks, pieceLength, org, j);
      }
    }
  }

  const SMALL_FILES := [FileInfo(4, true, false), FileInfo(8, true, false)]
  const SMALL_DISKS := [Disk(false, true, 9), Disk(false, true, 9)]

  lemma SmallSizes()
    ensures Sizes(SMALL_FILES) == [4, 8]
  {
    var s := Sizes(SMALL_FILES);
    assert |s| == 2 && s[0] == 4 && s[1] == 8;
  }

  lemma SmallLayout()
    ensures First([4, 8], 4, 0) == Last([4, 8], 4, 0) == 0
    ensures First([4, 8], 4, 1) == 1 && Last([4, 8], 4, 1) == 2
  {
    var sizes: seq<nat> := [4, 8];
    assert Offset(sizes, 0) == 0;
    assert Offset(sizes, 1) == 0 + sizes[0] == 4;
    assert PieceOf(sizes, 4, 0, 0) == 0 / 4 == 0 && PieceOf(sizes, 4, 0, 3) == 3 / 4 == 0;
    assert PieceOf(sizes, 4, 1, 0) == 4 / 4 == 1 && PieceOf(sizes, 4, 1, 7) == 11 / 4 == 2;
  }

  /**
   A fresh single-piece file followed by a larger one, over pieces of 4 bytes: all three pieces are
   wanted and every call succeeds, and piece 0 is never opened.
   */
  lemma SmallFileNeverOpened()
    ensures InTorrent(Sizes(SMALL_FILES), 4, 3)
    ensures forall j | 0 <= j < 3 :: WantedPiece(SMALL_FILES, 4, j)
    ensures forall j | 0 <= j < 3 :: Opened(SMALL_FILES, SMALL_DISKS, 4, [true, true, true], j) <==> j != 0
  {
    hide Sizes, First, Last;
    SmallSizes();
    SmallLayout();
    var files, disks := SMALL_FILES, SMALL_DISKS;
    assert FileCovers(files, 4, 0, 0) && FileCovers(files, 4, 1, 1) && FileCovers(files, 4, 1, 2);
    assert StopFrom(files, disks, 2) == 2 && StopFrom(files, disks, 1) == 2;
    assert LastOpened(files, 4, 2) == 2;
    assert OpensPieces(files, disks, 4, 1);
  }
}
