/**
 The shared state of one HDFS download task (GroupClusterTask): which pieces are had, which are
 being downloaded, and which came back with a bad hash.  A worker picks its next piece under the
 task's mutex, by a cyclic scan from a random start and, once the scan finds nothing, from the
 queue of hash-failed pieces.
 */
module PieceScan {
  import opened Division

  type Bits = seq<bool>

  /** The k-th position of a walk over n positions that starts at `start` and wraps around. */
  function Cyc(start: nat, k: nat, n: nat): (i: nat)
    requires start < n && k < n
    ensures i < n
  {
    if start + k < n then start + k else start + k - n
  }

  /** How many steps after `start` the walk reaches position i. */
  function Dist(start: nat, i: nat, n: nat): (k: nat)
    requires start < n && i < n
    ensures k < n && Cyc(start, k, n) == i
  {
    if start <= i then i - start else i + n - start
  }

  /** The walk goes up by one and wraps at n, and the two functions are each other's inverse. */
  lemma WalkIs(start: nat, k: nat, n: nat)
    requires start < n && k < n
    ensures Cyc(start, k, n) == (start + k) % n && Dist(start, Cyc(start, k, n), n) == k
  {
    Wraps(start + k, n);
  }

  lemma Wraps(x: nat, n: nat)
    requires x < 2 * n
    ensures x % n == if x < n then x else x - n
  {
    DivIs(x, n, if x < n then 0 else 1);
  }

  /** libtorrent's bitfield resize: old bits stay, new ones take the given value. */
  function Resized(b: Bits, n: nat, v: bool): (r: Bits)
    ensures |r| == n
    ensures forall i | 0 <= i < n :: r[i] == if i < |b| then b[i] else v
  {
    seq(n, i requires 0 <= i < n => if i < |b| then b[i] else v)
  }

  /** A piece still to fetch: the bitmap does not have it, and neither did the torrent when asked. */
  predicate Missing(have: Bits, answers: Bits, i: nat)
    requires i < |have| == |answers|
  {
    !have[i] && !answers[i]
  }

  /** A missing piece nobody has marked. */
  predicate Free(have: Bits, down: Bits, answers: Bits, i: nat)
    requires i < |have| == |down| == |answers|
  {
    Missing(have, answers, i) && !down[i]
  }

  /**
   What the scan must return, said without the loop.  `answers[i]` is the torrent's reply to
   have_piece(i) at the moment the scan asks; it asks about each piece at most once.
    - the first free piece in cyclic order, if there is one;
    - else the last marked missing piece in cyclic order;
    - else -1.
   The bitmap gains exactly the pieces the torrent reported on the way.
   */
  ghost predicate ScanSpec(have: Bits, down: Bits, answers: Bits, start: nat, r: int, have': Bits)
    requires start < |have| == |down| == |answers|
  {
    var n := |have|;
    && |have'| == n
    && -1 <= r < n
    && (0 <= r ==> Missing(have, answers, r))
    && if 0 <= r && !down[r] then
         && (forall i | 0 <= i < n && Dist(start, i, n) < Dist(start, r, n) :: !Free(have, down, answers, i))
         && (forall i | 0 <= i < n ::
               have'[i] == (have[i] || (answers[i] && Dist(start, i, n) < Dist(start, r, n))))
       else
         && (forall i | 0 <= i < n :: !Free(have, down, answers, i))
         && (forall i | 0 <= i < n :: have'[i] == (have[i] || answers[i]))
         && (r == -1 ==> forall i | 0 <= i < n :: !Missing(have, answers, i))
         && (0 <= r ==> forall i | 0 <= i < n && Missing(have, answers, i) :: Dist(start, i, n) <= Dist(start, r, n))
  }

  /** The specification leaves no choice: piece and bitmap are functions of the inputs. */
  lemma ScanDeterministic(have: Bits, down: Bits, answers: Bits, start: nat,
                          r1: int, have1: Bits, r2: int, have2: Bits)
    requires start < |have| == |down| == |answers|
    requires ScanSpec(have, down, answers, start, r1, have1)
    requires ScanSpec(have, down, answers, start, r2, have2)
    ensures r1 == r2 && have1 == have2
  {
    assert 0 <= r1 ==> Free(have, down, answers, r1) == !down[r1];
    assert 0 <= r2 ==> Free(have, down, answers, r2) == !down[r2];
    assert 0 <= r1 && 0 <= r2 ==> Dist(start, r1, |have|) == Dist(start, r2, |have|);
  }

  /** The scan gives up exactly when every piece is had, and it never unlearns a piece. */
  lemma ScanExhausted(have: Bits, down: Bits, answers: Bits, start: nat, r: int, have': Bits)
    requires start < |have| == |down| == |answers|
    requires ScanSpec(have, down, answers, start, r, have')
    ensures r == -1 <==> forall i | 0 <= i < |have| :: have'[i]
    ensures forall i | 0 <= i < |have| :: have[i] ==> have'[i]
    ensures forall i | 0 <= i < |have| :: have'[i] ==> have[i] || answers[i]
  {
    if 0 <= r {
      assert !have'[r];
    } else {
      forall i | 0 <= i < |have| ensures have'[i] {
        assert !Missing(have, answers, i);
      }
    }
  }

  /** A marked piece is handed out again only when no unmarked piece is missing. */
  lemma ReissueOnlyWhenNothingFree(have: Bits, down: Bits, answers: Bits, start: nat, r: int, have': Bits)
    requires start < |have| == |down| == |answers|
    requires ScanSpec(have, down, answers, start, r, have')
    ensures (0 <= r && down[r]) <==>
            ((exists i :: 0 <= i < |have| && Missing(have, answers, i))
             && forall i | 0 <= i < |have| && Missing(have, answers, i) :: down[i])
  {
    if 0 <= r {
      assert Missing(have, answers, r);
      if !down[r] {
        assert Free(have, down, answers, r);
      } else {
        forall i | 0 <= i < |have| && Missing(have, answers, i) ensures down[i] {
          assert !Free(have, down, answers, i);
        }
      }
    }
  }

  /** The k-th position of the walk lacks its piece. */
  predicate MissingAt(have: Bits, answers: Bits, start: nat, k: nat)
    requires start < |have| == |answers| && k < |have|
  {
    var i := (start + k) % |have|;
    !have[i] && !answers[i]
  }

  /** The k-th position of the walk lacks its piece and nobody downloads it. */
  predicate FreeAt(have: Bits, down: Bits, answers: Bits, start: nat, k: nat)
    requires start < |have| == |down| == |answers| && k < |have|
  {
    MissingAt(have, answers, start, k) && !down[(start + k) % |have|]
  }

  /** The result along the walk: the first free position; without one the last missing position; without one -1. */
  lemma ScanAlongWalk(have: Bits, down: Bits, answers: Bits, start: nat, r: int, have': Bits)
    requires start < |have| == |down| == |answers|
    requires ScanSpec(have, down, answers, start, r, have')
    ensures r == -1 <==> forall k | 0 <= k < |have| :: !MissingAt(have, answers, start, k)
    ensures 0 <= r ==>
              exists k :: && 0 <= k < |have| && r == (start + k) % |have| && MissingAt(have, answers, start, k)
                          && if FreeAt(have, down, answers, start, k) then
                               forall j | 0 <= j < k :: !FreeAt(have, down, answers, start, j)
                             else
                               && (forall j | 0 <= j < |have| :: !FreeAt(have, down, answers, start, j))
                               && (forall j | k < j < |have| :: !MissingAt(have, answers, start, j))
  {
    var n := |have|;
    forall k: nat | k < n
      ensures MissingAt(have, answers, start, k) <==> Missing(have, answers, Cyc(start, k, n))
      ensures FreeAt(have, down, answers, start, k) <==> Free(have, down, answers, Cyc(start, k, n))
      ensures Dist(start, Cyc(start, k, n), n) == k
    {
      WalkIs(start, k, n);
    }
    if 0 <= r {
      var k := Dist(start, r, n);
      assert r == Cyc(start, k, n);
      WalkIs(start, k, n);
      assert MissingAt(have, answers, start, k);
    } else {
      forall k: nat | k < n
        ensures !MissingAt(have, answers, start, k)
      {
        assert !Missing(have, answers, Cyc(start, k, n));
      }
    }
  }

  /** What `steps` unsuccessful steps of the scan have established. */
  ghost predicate ScanProgress(have: Bits, down: Bits, answers: Bits, start: nat, steps: nat, last: int, now: Bits)
    requires start < |have| == |down| == |answers|
  {
    var n := |have|;
    && |now| == n
    && -1 <= last < n
    && (0 <= last ==> Missing(have, answers, last) && down[last])
    && forall j | 0 <= j < n :: PositionDone(have, down, answers, start, steps, last, now, j)
  }

  /** The part of ScanProgress that concerns piece j. */
  ghost predicate PositionDone(have: Bits, down: Bits, answers: Bits, start: nat, steps: nat, last: int, now: Bits,
                               j: nat)
    requires start < |have| == |down| == |answers| == |now|
    requires j < |have| && last < |have|
  {
    var d := Dist(start, j, |have|);
    if d < steps then
      && now[j] == (have[j] || answers[j])
      && (Missing(have, answers, j) ==> down[j] && 0 <= last && d <= Dist(start, last, |have|))
    else now[j] == have[j] && j != last
  }

  /** The four branches of the scan's body, at the position it reaches next. */
  lemma ScanAdvance(have: Bits, down: Bits, answers: Bits, start: nat, steps: nat, last: int, now: Bits)
    requires start < |have| == |down| == |answers| && steps < |have|
    requires ScanProgress(have, down, answers, start, steps, last, now)
    ensures var i := Cyc(start, steps, |have|);
            && now[i] == have[i]
            && (have[i] ==> ScanProgress(have, down, answers, start, steps + 1, last, now))
            && (!have[i] && answers[i] ==>
                  ScanProgress(have, down, answers, start, steps + 1, last, now[i := true]))
            && (Missing(have, answers, i) && down[i] ==> ScanProgress(have, down, answers, start, steps + 1, i, now))
  {
    var n, next := |have|, steps + 1;
    var i := Cyc(start, steps, n);
    assert PositionDone(have, down, answers, start, steps, last, now, i);
    if !have[i] && answers[i] {
      var after := now[i := true];
      forall j: nat | j < n ensures PositionDone(have, down, answers, start, next, last, after, j) {
        assert PositionDone(have, down, answers, start, steps, last, now, j);
        assert j != i ==> Dist(start, j, n) != steps;
      }
    } else if !Free(have, down, answers, i) {
      var last' := if have[i] then last else i;
      forall j: nat | j < n ensures PositionDone(have, down, answers, start, next, last', now, j) {
        assert PositionDone(have, down, answers, start, steps, last, now, j);
        assert j != i ==> Dist(start, j, n) != steps;
      }
    }
  }

  /** The branch that ends the scan: the position it reaches is free. */
  lemma ScanFound(have: Bits, down: Bits, answers: Bits, start: nat, steps: nat, last: int, now: Bits)
    requires start < |have| == |down| == |answers| && steps < |have|
    requires ScanProgress(have, down, answers, start, steps, last, now)
    requires Free(have, down, answers, Cyc(start, steps, |have|))
    ensures ScanSpec(have, down, answers, start, Cyc(start, steps, |have|), now)
  {
    var i := Cyc(start, steps, |have|);
    assert Dist(start, i, |have|) == steps;
    forall j: nat | j < |have|
      ensures Dist(start, j, |have|) < steps ==> !Free(have, down, answers, j)
      ensures now[j] == (have[j] || (answers[j] && Dist(start, j, |have|) < steps))
    {
      assert PositionDone(have, down, answers, start, steps, last, now, j);
    }
  }

  /** Before the first step. */
  lemma ScanStarts(have: Bits, down: Bits, answers: Bits, start: nat)
    requires start < |have| == |down| == |answers|
    ensures ScanProgress(have, down, answers, start, 0, -1, have) && AskedInOrder(have, start, 0, [])
  {
  }

  /** A full round without a free piece: the fallback is the answer. */
  lemma ScanFinish(have: Bits, down: Bits, answers: Bits, start: nat, last: int, now: Bits)
    requires start < |have| == |down| == |answers|
    requires ScanProgress(have, down, answers, start, |have|, last, now)
    ensures ScanSpec(have, down, answers, start, last, now) && (0 <= last < |down| ==> down[last])
  {
    forall j | 0 <= j < |have|
      ensures !Free(have, down, answers, j) && now[j] == (have[j] || answers[j])
      ensures Missing(have, answers, j) ==> 0 <= last && Dist(start, j, |have|) <= Dist(start, last, |have|)
    {
      assert PositionDone(have, down, answers, start, |have|, last, now, j);
    }
  }

  /** Whatever the state and the torrent's answers, the scan has a result. */
  lemma {:induction false} ScanExists(have: Bits, down: Bits, answers: Bits, start: nat, steps: nat, last: int,
                                      now: Bits)
    returns (r: int, have': Bits)
    requires start < |have| == |down| == |answers| == |now| && steps <= |have|
    requires ScanProgress(have, down, answers, start, steps, last, now)
    ensures ScanSpec(have, down, answers, start, r, have') && -1 <= r < |have|
    decreases |have| - steps
  {
    hide ScanProgress, ScanSpec;
    if steps == |have| {
      ScanFinish(have, down, answers, start, last, now);
      r, have' := last, now;
    } else {
      var i := Cyc(start, steps, |have|);
      ScanAdvance(have, down, answers, start, steps, last, now);
      if have[i] {
        r, have' := ScanExists(have, down, answers, start, steps + 1, last, now);
      } else if answers[i] {
        r, have' := ScanExists(have, down, answers, start, steps + 1, last, now[i := true]);
      } else if down[i] {
        r, have' := ScanExists(have, down, answers, start, steps + 1, i, now);
      } else {
        ScanFound(have, down, answers, start, steps, last, now);
        r, have' := i, now;
      }
    }
  }

  /** The part of the task's state that the mutex protects and the pick reads or writes. */
  datatype Shared = Shared(have: Bits, down: Bits, queue: seq<nat>)

  /** The front of the queue is taken, or -1 when it is empty. */
  ghost predicate Popped(queue: seq<nat>, queue': seq<nat>, piece: int)
  {
    if queue == [] then queue' == [] && piece == -1
    else queue == [piece] + queue'
  }

  /** The worker's last piece loses its mark, if the worker is still scanning. */
  function Unmarked(down: Bits, last: int, hashFailedMode: bool): (d: Bits)
    requires last < |down|
    ensures |d| == |down|
  {
    if !hashFailedMode && 0 <= last then down[last := false] else down
  }

  /**
   One pick: in scan mode the last piece is unmarked and a scanned piece is marked and returned;
   an exhausted scan switches the worker to hash-failed mode for good, and from then on pieces come
   only from the queue.
   */
  ghost predicate PickSpec(s: Shared, last: int, mode: bool, start: nat, answers: Bits,
                           s': Shared, piece: int, mode': bool)
    requires start < |s.have| == |s.down| == |answers|
    requires last < |s.have|
  {
    var cleared := Unmarked(s.down, last, mode);
    if mode then
      && s'.have == s.have && s'.down == s.down && mode' && Popped(s.queue, s'.queue, piece)
    else if mode' then
      && ScanSpec(s.have, cleared, answers, start, -1, s'.have)
      && s'.down == cleared && Popped(s.queue, s'.queue, piece)
    else
      && 0 <= piece
      && ScanSpec(s.have, cleared, answers, start, piece, s'.have)
      && s'.down == cleared[piece := true] && s'.queue == s.queue
  }

  /** A pick always has a result. */
  lemma PickExists(s: Shared, last: int, mode: bool, start: nat, answers: Bits)
    returns (s': Shared, piece: int, mode': bool)
    requires start < |s.have| == |s.down| == |answers| && last < |s.have|
    ensures PickSpec(s, last, mode, start, answers, s', piece, mode')
  {
    hide ScanSpec, ScanProgress;
    var front := if s.queue == [] then -1 else s.queue[0];
    var rest := if s.queue == [] then [] else s.queue[1..];
    if mode {
      s', piece, mode' := s.(queue := rest), front, true;
    } else {
      var cleared := Unmarked(s.down, last, mode);
      ScanStarts(s.have, cleared, answers, start);
      var r, have' := ScanExists(s.have, cleared, answers, start, 0, -1, s.have);
      if r < 0 {
        s', piece, mode' := Shared(have', cleared, rest), front, true;
      } else {
        s', piece, mode' := Shared(have', cleared[r := true], s.queue), r, false;
      }
    }
  }

  /** The torrent handle as the scan sees it: what it replies about each piece, and what it has been asked. */
  class Torrent {
    const answers: Bits
    var asked: seq<nat>

    constructor (answers: Bits)
      ensures this.answers == answers && asked == []
    {
      this.answers, asked := answers, [];
    }

    method HavePiece(i: nat) returns (have: bool)
      requires i < |answers|
      modifies this`asked
      ensures have == answers[i] && asked == old(asked) + [i]
    {
      have, asked := answers[i], asked + [i];
    }
  }

  /** The pieces asked about in the first `steps` positions: those the bitmap lacks, once each, in cyclic order. */
  ghost predicate AskedInOrder(have: Bits, start: nat, steps: nat, asked: seq<nat>)
    requires start < |have|
  {
    && (forall k | 0 <= k < |asked| :: asked[k] < |have|)
    && (forall k, l | 0 <= k < l < |asked| :: Dist(start, asked[k], |have|) < Dist(start, asked[l], |have|))
    && (forall i: nat | i < |have| :: i in asked <==> !have[i] && Dist(start, i, |have|) < steps)
  }

  lemma AskedStep(have: Bits, start: nat, steps: nat, asked: seq<nat>)
    requires start < |have| && steps < |have| && AskedInOrder(have, start, steps, asked)
    ensures var i := Cyc(start, steps, |have|);
            AskedInOrder(have, start, steps + 1, if have[i] then asked else asked + [i])
  {
    var n, i := |have|, Cyc(start, steps, |have|);
    var after := if have[i] then asked else asked + [i];
    assert Dist(start, i, n) == steps;
    forall k | 0 <= k < |asked|
      ensures Dist(start, asked[k], n) < steps
    {
      assert asked[k] in asked;
    }
    forall j: nat | j < n
      ensures j in after <==> !have[j] && Dist(start, j, n) < steps + 1
    {
      assert Dist(start, j, n) == steps ==> j == i;
    }
  }

  class GroupClusterTask {
    const numPieces: nat
    var piecesHave: Bits
    var piecesDownloading: Bits
    var hashFailedPieces: seq<nat>
    var threadsNum: int

    ghost predicate Valid()
      reads this
    {
      0 < numPieces == |piecesHave| == |piecesDownloading|
      && forall k | 0 <= k < |hashFailedPieces| :: hashFailedPieces[k] < numPieces
    }

    function View(): Shared
      reads this
    {
      Shared(piecesHave, piecesDownloading, hashFailedPieces)
    }

    constructor (n: nat, threads: int)
      ensures numPieces == n && threadsNum == threads
      ensures View() == Shared([], [], [])
    {
      numPieces := n;
      threadsNum := threads;
      piecesHave, piecesDownloading, hashFailedPieces := [], [], [];
    }

    /** The bitmap set-up: a piece of priority zero counts as had from the beginning. */
    method StartDownload(priorities: seq<int>)
      requires |priorities| == numPieces
      modifies this
      ensures |piecesHave| == numPieces
      ensures forall i | 0 <= i < numPieces ::
                piecesHave[i] <==> (i < |old(piecesHave)| && old(piecesHave)[i]) || priorities[i] == 0
      ensures piecesDownloading == Resized(old(piecesDownloading), numPieces, false)
      ensures hashFailedPieces == old(hashFailedPieces)
      ensures threadsNum == if old(threadsNum) <= numPieces then old(threadsNum)
                            else if numPieces < 3 then 3 else numPieces
    {
      piecesHave := Resized(piecesHave, numPieces, false);
      ghost var base := piecesHave;
      for i := 0 to numPieces
        invariant |piecesHave| == numPieces
        invariant forall j | 0 <= j < numPieces :: piecesHave[j] == (base[j] || (j < i && priorities[j] == 0))
        invariant piecesDownloading == old(piecesDownloading) && hashFailedPieces == old(hashFailedPieces)
        invariant threadsNum == old(threadsNum)
      {
        if priorities[i] == 0 {
          piecesHave := piecesHave[i := true];
        }
      }
      piecesDownloading := Resized(piecesDownloading, numPieces, false);
      if numPieces < threadsNum {
        threadsNum := numPieces;
        if threadsNum < 3 {
          threadsNum := 3;
        }
      }
    }

    /**
     The do-while scan.  The torrent is asked about exactly the pieces the bitmap lacks among the positions
     looked at, in cyclic order and once each.
     */
    method GetUndownloadedPiece(random: nat, torrent: Torrent) returns (pieceIndex: int)
      requires Valid() && |torrent.answers| == numPieces
      modifies this`piecesHave, torrent`asked
      ensures Valid()
      ensures ScanSpec(old(piecesHave), piecesDownloading, torrent.answers, random % numPieces, pieceIndex, piecesHave)
      ensures old(torrent.asked) <= torrent.asked
      ensures AskedInOrder(old(piecesHave), random % numPieces,
                           if 0 <= pieceIndex && !piecesDownloading[pieceIndex]
                             then Dist(random % numPieces, pieceIndex, numPieces) + 1 else numPieces,
                           torrent.asked[|old(torrent.asked)|..])
    {
      hide ScanProgress, ScanSpec, AskedInOrder;
      var n := numPieces;
      var start := random % n;
      pieceIndex := -1;
      var pieceDownloading := -1;
      var i := start;
      ghost var steps: nat := 0;
      var more := true;
      ghost var have := piecesHave;
      ghost var asked: seq<nat> := [];
      ScanStarts(have, piecesDownloading, torrent.answers, start);
      while more
        invariant Valid() && n == numPieces && start < n && i < n && steps <= n
        invariant more == (pieceIndex < 0 && steps < n)
        invariant pieceIndex < 0 ==> i == if steps < n then Cyc(start, steps, n) else start
        invariant -1 <= pieceIndex < n && -1 <= pieceDownloading < n
        invariant pieceIndex < 0 ==>
                    ScanProgress(have, piecesDownloading, torrent.answers, start, steps, pieceDownloading, piecesHave)
        invariant 0 <= pieceIndex ==>
                    ScanSpec(have, piecesDownloading, torrent.answers, start, pieceIndex, piecesHave)
                    && !piecesDownloading[pieceIndex] && steps == Dist(start, pieceIndex, n) + 1
        invariant torrent.asked == old(torrent.asked) + asked && AskedInOrder(have, start, steps, asked)
        decreases n - steps
      {
        ScanAdvance(have, piecesDownloading, torrent.answers, start, steps, pieceDownloading, piecesHave);
        AskedStep(have, start, steps, asked);
        Wraps(i + 1, n);
        if piecesHave[i] {
        } else {
          var has := torrent.HavePiece(i);
          asked := asked + [i];
          if has {
            piecesHave := piecesHave[i := true];
          } else if piecesDownloading[i] {
            pieceDownloading := i;
          } else {
            ScanFound(have, piecesDownloading, torrent.answers, start, steps, pieceDownloading, piecesHave);
            pieceIndex := i;
          }
        }
        steps := steps + 1;
        i := (i + 1) % n;
        more := pieceIndex < 0 && i != start;
      }
      if pieceIndex < 0 {
        ScanFinish(have, piecesDownloading, torrent.answers, start, pieceDownloading, piecesHave);
      }
      if pieceIndex < 0 && 0 <= pieceDownloading {
        pieceIndex := pieceDownloading;
      }
      assert torrent.asked[|old(torrent.asked)|..] == asked;
    }

    /** The pick itself, run with the mutex held. */
    method GetPieceToDownload(lastPiece: int, mode: bool, random: nat, torrent: Torrent)
      returns (pieceIndex: int, mode': bool)
      requires Valid() && |torrent.answers| == numPieces && -1 <= lastPiece < numPieces
      modifies this, torrent`asked
      ensures Valid() && threadsNum == old(threadsNum)
      ensures PickSpec(old(View()), lastPiece, mode, random % numPieces, torrent.answers, View(), pieceIndex, mode')
      ensures -1 <= pieceIndex < numPieces
      ensures mode ==> mode' && piecesHave == old(piecesHave)
      ensures !mode ==> (mode' <==> forall i | 0 <= i < numPieces :: piecesHave[i])
      ensures !mode' ==> 0 <= pieceIndex && hashFailedPieces == old(hashFailedPieces)
      ensures mode' && old(hashFailedPieces) == [] ==> pieceIndex == -1 && hashFailedPieces == []
      ensures mode' && old(hashFailedPieces) != [] ==>
                pieceIndex == old(hashFailedPieces)[0] && hashFailedPieces == old(hashFailedPieces)[1..]
      ensures forall i | 0 <= i < numPieces ::
                piecesDownloading[i] == if !mode' && i == pieceIndex then true
                                        else if !mode && i == lastPiece then false else old(piecesDownloading)[i]
    {
      pieceIndex, mode' := -1, mode;
      if !mode' {
        if 0 <= lastPiece {
          piecesDownloading := piecesDownloading[lastPiece := false];
        }
        ghost var have, down := piecesHave, piecesDownloading;
        pieceIndex := GetUndownloadedPiece(random, torrent);
        ScanExhausted(have, down, torrent.answers, random % numPieces, pieceIndex, piecesHave);
        if 0 <= pieceIndex {
          piecesDownloading := piecesDownloading[pieceIndex := true];
          return;
        }
        mode' := true;
      }
      if hashFailedPieces != [] {
        pieceIndex := hashFailedPieces[0];
        hashFailedPieces := hashFailedPieces[1..];
      }
    }

    /** The push that an alert makes before it notifies one sleeper. */
    method AddHashFailedPiece(pieceIndex: nat)
      requires Valid() && pieceIndex < numPieces
      modifies this`hashFailedPieces
      ensures Valid()
      ensures hashFailedPieces == old(hashFailedPieces) + [pieceIndex]
    {
      hashFailedPieces := hashFailedPieces + [pieceIndex];
    }
  }
}
