/**
 The download workers of one HDFS task as a transition system.  Any number of threads run
 GroupClusterTask::Download over one shared state; each mutex region is one step, and everything
 a thread does between two regions (the pause check, the read, the hash check) is a step that
 leaves the shared state alone.  The torrent may gain or lose pieces at any moment, the stop flag
 may be raised at any moment, and sleepers may wake for no reason.
 */
module ClusterWorkers {
  import opened PieceScan

  /** Where a thread stands between two of its steps. */
  datatype Pc =
    | Created    // before the region that counts it
    | LoopHead   // about to test should_stop_ and the pause flag
    | AtPick     // about to take the mutex and pick
    | Sleeping   // in cond_.wait, mutex released
    | Woken      // returned from the wait, about to pick again
    | Got        // left the region with pieceIndex, about to test should_stop_
    | Reading    // reading, hashing and handing over pieceIndex
    | Exited

  /** `mode` is get_from_hash_failed, `piece` the thread's piece_index. */
  datatype Worker = Worker(pc: Pc, piece: int, mode: bool)

  /** Hash-failed pieces pushed so far, those of them read again and handed over, and those taken and given up. */
  datatype Ledger = Ledger(pushed: multiset<nat>, handed: multiset<nat>, forgotten: multiset<nat>)

  datatype State = State(
    torrent: Bits,         // what the torrent has now
    shared: Shared,        // what the mutex protects
    skip: Bits,            // pieces of priority zero at StartDownload
    workers: seq<Worker>,
    unsent: nat,           // hash-failed pieces pushed whose notify_one is still to come
    ledger: Ledger,        // history: what became of the hash-failed pieces
    stop: bool,
    reissued: bool,        // history: a piece already marked has been handed out
    lost: bool)            // history: the torrent has lost a piece

  // ---------------------------------------------------------------- the steps

  ghost predicate Init(s: State)
  {
    && 0 < |s.torrent| == |s.shared.have| == |s.shared.down| == |s.skip|
    && s.shared.have == s.skip
    && (forall i | 0 <= i < |s.skip| :: !s.shared.down[i])
    && s.shared.queue == [] && s.workers == [] && s.unsent == 0
    && s.ledger == Ledger(multiset{}, multiset{}, multiset{})
    && !s.reissued && !s.lost
  }

  /** The dispatcher starts a thread. */
  ghost predicate CreateStep(s: State, s': State)
  {
    s' == s.(workers := s.workers + [Worker(Created, -1, false)])
  }

  /** What a step does with the piece in a thread's hand. */
  datatype Fate =
    | Kept
    | HandedOver  // read, the hash is right, given to the torrent
    | Dropped     // read or hash failed, or the stop flag was seen before reading

  /** A step of a thread outside the mutex (or in a region that only counts). */
  ghost predicate LocalMove(pc: Pc, pc': Pc, stop: bool, stop': bool, fate: Fate)
  {
    match pc
    case Created => pc' == LoopHead && stop' == stop && fate == Kept
    case LoopHead => (pc' == if stop then Exited else AtPick) && stop' == stop && fate == Kept
    case Got => (if stop then pc' == Exited && fate == Dropped else pc' == Reading && fate == Kept) && stop' == stop
    case Reading =>
      || (pc' == LoopHead && stop' == stop && fate != Kept)       // handed over, or a failure that is retried
      || (pc' == Exited && stop && stop' && fate == HandedOver)   // handed over, and the flag seen
      || (pc' == Exited && stop' && fate == Dropped)              // fatal failure, which raises the flag
    case Sleeping => pc' == Woken && stop' == stop && fate == Kept  // spurious, or one target of notify_all
    case _ => false
  }

  /** A hash-failed piece in a thread's hand leaves it. */
  function Settled(ledger: Ledger, w: Worker, fate: Fate): Ledger
  {
    if !w.mode || w.piece < 0 then ledger
    else
      match fate
      case Kept => ledger
      case HandedOver => ledger.(handed := ledger.handed + multiset{w.piece})
      case Dropped => ledger.(forgotten := ledger.forgotten + multiset{w.piece})
  }

  ghost predicate LocalStep(s: State, s': State, w: nat, fate: Fate)
  {
    && w < |s.workers| == |s'.workers|
    && s' == s.(workers := s.workers[w := s.workers[w].(pc := s'.workers[w].pc)], stop := s'.stop,
                ledger := Settled(s.ledger, s.workers[w], fate))
    && LocalMove(s.workers[w].pc, s'.workers[w].pc, s.stop, s'.stop, fate)
  }

  /** The torrent's pieces change; losing one is remembered. */
  ghost predicate TorrentMoves(s: State, s': State)
  {
    && |s'.torrent| == |s.torrent|
    && (s'.lost <==> s.lost || exists i :: 0 <= i < |s.torrent| && s.torrent[i] && !s'.torrent[i])
  }

  ghost predicate TorrentStep(s: State, s': State)
  {
    && s' == s.(torrent := s'.torrent, lost := s'.lost)
    && TorrentMoves(s, s')
  }

  /**
   The pick region of thread w.  The torrent may change while the scan runs, so an answer lies
   between what the torrent had before and what it has after (if it lost nothing).  A thread that
   gets a piece, or finds the stop flag up, leaves; the others fall asleep, all in one region.
   */
  ghost predicate PickStep(s: State, s': State, w: nat, start: nat, answers: Bits)
  {
    && w < |s.workers|
    && s.workers[w].pc in {AtPick, Woken}
    && start < |s.shared.have| == |s.shared.down| == |s.torrent| == |answers|
    && s.workers[w].piece < |s.shared.have|
    && TorrentMoves(s, s')
    && (s'.lost || forall i | 0 <= i < |answers| :: (s.torrent[i] ==> answers[i]) && (answers[i] ==> s'.torrent[i]))
    && |s'.workers| == |s.workers|
    && var before, after := s.workers[w], s'.workers[w];
    && PickSpec(s.shared, before.piece, before.mode, start, answers, s'.shared, after.piece, after.mode)
    && (after.pc == if 0 <= after.piece || s.stop then Got else Sleeping)
    && s' == s.(torrent := s'.torrent, lost := s'.lost, shared := s'.shared,
                workers := s.workers[w := after],
                reissued := s.reissued
                            || (!after.mode && 0 <= after.piece < |s.shared.down|
                                && Unmarked(s.shared.down, before.piece, before.mode)[after.piece]))
  }

  /** An alert pushes a hash-failed piece; the notification follows later. */
  ghost predicate PushStep(s: State, s': State, p: nat)
  {
    && p < |s.shared.have|
    && s' == s.(shared := s.shared.(queue := s.shared.queue + [p]), unsent := s.unsent + 1,
                ledger := s.ledger.(pushed := s.ledger.pushed + multiset{p}))
  }

  /** notify_one wakes one sleeper, and does nothing when nobody sleeps. */
  ghost predicate NotifyStep(s: State, s': State, w: nat)
  {
    && 0 < s.unsent
    && if Asleep(s) then
         && w < |s.workers| && s.workers[w].pc == Sleeping
         && s' == s.(unsent := s.unsent - 1, workers := s.workers[w := s.workers[w].(pc := Woken)])
       else s' == s.(unsent := s.unsent - 1)
  }

  ghost predicate StopStep(s: State, s': State)
  {
    s' == s.(stop := true)
  }

  ghost predicate Next(s: State, s': State)
  {
    || CreateStep(s, s')
    || (exists w: nat, fate: Fate :: LocalStep(s, s', w, fate))
    || TorrentStep(s, s')
    || (exists w: nat, start: nat, answers: Bits :: PickStep(s, s', w, start, answers))
    || (exists p: nat :: PushStep(s, s', p))
    || (exists w: nat :: NotifyStep(s, s', w))
    || StopStep(s, s')
  }

  ghost predicate IsRun(run: seq<State>)
  {
    && run != [] && Init(run[0])
    && forall i | 0 <= i < |run| - 1 :: Next(run[i], run[i + 1])
  }

  // ----------------------------------------------------------- the invariants

  ghost predicate Asleep(s: State)
  {
    exists w :: 0 <= w < |s.workers| && s.workers[w].pc == Sleeping
  }

  /** Threads that were woken and have not picked since. */
  function CountWoken(ws: seq<Worker>): nat
  {
    if ws == [] then 0 else CountWoken(ws[..|ws| - 1]) + (if ws[|ws| - 1].pc == Woken then 1 else 0)
  }

  /** A scan-mode thread still responsible for a piece. */
  predicate Holds(w: Worker, p: int)
  {
    !w.mode && 0 <= p && w.piece == p
  }

  ghost predicate Shape(s: State)
  {
    && 0 < |s.torrent| == |s.shared.have| == |s.shared.down| == |s.skip|
    && forall k | 0 <= k < |s.shared.queue| :: s.shared.queue[k] < |s.torrent|
  }

  ghost predicate WorkerOk(w: Worker, n: nat, stop: bool)
  {
    && -1 <= w.piece < n
    && (w.pc == Created ==> w.piece == -1 && !w.mode)
    && (w.pc in {Sleeping, Woken} ==> w.mode && w.piece == -1)
    && (w.pc == Reading ==> 0 <= w.piece)
    && (w.pc == Got && w.piece == -1 ==> stop)
    && (w.pc == Exited ==> stop)
  }

  ghost predicate WorkersOk(s: State)
  {
    forall i | 0 <= i < |s.workers| :: WorkerOk(s.workers[i], |s.torrent|, s.stop)
  }

  /** Every mark belongs to a piece some scan-mode thread holds. */
  ghost predicate MarksHeld(s: State)
    requires Shape(s)
  {
    forall p | 0 <= p < |s.torrent| && s.shared.down[p] ::
      exists w :: 0 <= w < |s.workers| && Holds(s.workers[w], p)
  }

  /** Held pieces are marked, and no piece has two holders. */
  ghost predicate HoldsExact(s: State)
    requires Shape(s) && WorkersOk(s)
  {
    && (forall w | 0 <= w < |s.workers| && Holds(s.workers[w], s.workers[w].piece) ::
          s.shared.down[s.workers[w].piece])
    && (forall v, w | 0 <= v < w < |s.workers| && Holds(s.workers[v], s.workers[v].piece) ::
          !Holds(s.workers[w], s.workers[v].piece))
  }

  /** Nothing unwanted is held, and the bitmap only knows unwanted pieces and pieces the torrent had. */
  ghost predicate BitmapSound(s: State)
    requires Shape(s) && WorkersOk(s)
  {
    && (forall i | 0 <= i < |s.skip| && s.skip[i] :: s.shared.have[i])
    && (forall w | 0 <= w < |s.workers| && Holds(s.workers[w], s.workers[w].piece) :: !s.skip[s.workers[w].piece])
    && (!s.lost ==> forall i | 0 <= i < |s.skip| && s.shared.have[i] :: s.skip[i] || s.torrent[i])
    && (forall w | 0 <= w < |s.workers| && s.workers[w].mode :: forall i | 0 <= i < |s.skip| :: s.shared.have[i])
  }

  /** While anyone sleeps, every queued piece has a notification or a woken thread on its way. */
  ghost predicate WakeupsCover(s: State)
  {
    Asleep(s) ==> |s.shared.queue| <= s.unsent + CountWoken(s.workers)
  }

  ghost predicate Inv(s: State)
  {
    && Shape(s) && WorkersOk(s) && MarksHeld(s)
    && (!s.reissued ==> HoldsExact(s))
    && BitmapSound(s) && WakeupsCover(s)
  }

  // ------------------------------------------------------------ preservation

  lemma {:induction false} CountWokenUpdate(ws: seq<Worker>, i: nat, w: Worker)
    requires i < |ws|
    ensures CountWoken(ws[i := w]) + (if ws[i].pc == Woken then 1 else 0)
         == CountWoken(ws) + (if w.pc == Woken then 1 else 0)
  {
    var last := |ws| - 1;
    if i == last {
      assert ws[i := w][..last] == ws[..last];
    } else {
      assert ws[i := w][..last] == ws[..last][i := w];
      CountWokenUpdate(ws[..last], i, w);
    }
  }

  lemma InitInv(s: State)
    requires Init(s)
    ensures Inv(s)
  {
  }

  lemma CreateInv(s: State, s': State)
    requires Inv(s) && CreateStep(s, s')
    ensures Inv(s')
  {
    var k := |s.workers|;
    assert s'.workers[..k] == s.workers;
    assert !Holds(s'.workers[k], s'.workers[k].piece);
    forall w | 0 <= w < |s'.workers| ensures WorkerOk(s'.workers[w], |s'.torrent|, s'.stop) {
      assert w < k ==> WorkerOk(s.workers[w], |s.torrent|, s.stop);
    }
    CreateKeepsHolding(s, s');
    if Asleep(s') {
      var v :| 0 <= v < |s'.workers| && s'.workers[v].pc == Sleeping;
      assert s.workers[v].pc == Sleeping;
    }
  }

  lemma CreateKeepsHolding(s: State, s': State)
    requires Inv(s) && CreateStep(s, s') && WorkersOk(s')
    ensures MarksHeld(s') && (!s'.reissued ==> HoldsExact(s')) && BitmapSound(s')
  {
    assert !Holds(s'.workers[|s.workers|], s'.workers[|s.workers|].piece);
    forall p | 0 <= p < |s'.torrent| && s'.shared.down[p]
      ensures exists w :: 0 <= w < |s'.workers| && Holds(s'.workers[w], p)
    {
      var w :| 0 <= w < |s.workers| && Holds(s.workers[w], p);
      assert Holds(s'.workers[w], p);
    }
  }

  /** A thread that keeps its piece and mode disturbs no mark, whatever its new place. */
  lemma MoveKeepsHolding(s: State, s': State, w: nat, pc: Pc)
    requires Inv(s) && w < |s.workers|
    requires s'.workers == s.workers[w := s.workers[w].(pc := pc)]
    requires s'.shared == s.shared && s'.skip == s.skip && s'.torrent == s.torrent
    requires s'.reissued == s.reissued && s'.lost == s.lost
    requires WorkersOk(s')
    ensures MarksHeld(s') && (!s'.reissued ==> HoldsExact(s')) && BitmapSound(s')
  {
    forall p | 0 <= p < |s'.torrent| && s'.shared.down[p]
      ensures exists v :: 0 <= v < |s'.workers| && Holds(s'.workers[v], p)
    {
      var v :| 0 <= v < |s.workers| && Holds(s.workers[v], p);
      assert Holds(s'.workers[v], p);
    }
  }

  lemma LocalInv(s: State, s': State, w: nat, fate: Fate)
    requires Inv(s) && LocalStep(s, s', w, fate)
    ensures Inv(s')
  {
    assert WorkersOk(s') by {
      forall i | 0 <= i < |s'.workers| ensures WorkerOk(s'.workers[i], |s'.torrent|, s'.stop) {
        assert WorkerOk(s.workers[i], |s.torrent|, s.stop);
      }
    }
    MoveKeepsHolding(s, s', w, s'.workers[w].pc);
    CountWokenUpdate(s.workers, w, s'.workers[w]);
    if Asleep(s') {
      var v :| 0 <= v < |s'.workers| && s'.workers[v].pc == Sleeping;
      assert s.workers[v].pc == Sleeping;
    }
  }

  lemma NotifyInv(s: State, s': State, w: nat)
    requires Inv(s) && NotifyStep(s, s', w)
    ensures Inv(s')
  {
    if Asleep(s) {
      assert WorkersOk(s') by {
        forall i | 0 <= i < |s'.workers| ensures WorkerOk(s'.workers[i], |s'.torrent|, s'.stop) {
          assert WorkerOk(s.workers[i], |s.torrent|, s.stop);
        }
      }
      MoveKeepsHolding(s, s', w, Woken);
      CountWokenUpdate(s.workers, w, s'.workers[w]);
    }
  }

  lemma QuietInv(s: State, s': State, p: nat)
    requires Inv(s)
    requires TorrentStep(s, s') || PushStep(s, s', p) || StopStep(s, s')
    ensures Inv(s')
  {
    assert WorkersOk(s') by {
      forall i | 0 <= i < |s'.workers| ensures WorkerOk(s'.workers[i], |s'.torrent|, s'.stop) {
        assert WorkerOk(s.workers[i], |s.torrent|, s.stop);
      }
    }
  }

  lemma PoppedFacts(queue: seq<nat>, queue': seq<nat>, piece: int, n: nat)
    requires Popped(queue, queue', piece)
    requires forall k | 0 <= k < |queue| :: queue[k] < n
    ensures -1 <= piece < n && (piece == -1 <==> queue == [])
    ensures |queue'| == if queue == [] then 0 else |queue| - 1
    ensures forall k | 0 <= k < |queue'| :: queue'[k] < n
  {
    if queue != [] {
      assert queue[0] == piece;
      assert forall k | 0 <= k < |queue'| :: queue'[k] == queue[k + 1];
    }
  }

  /** The pick keeps the marks held, and exact until a marked piece is handed out. */
  lemma PickKeepsMarks(s: State, s': State, w: nat, start: nat, answers: Bits)
    requires Inv(s) && PickStep(s, s', w, start, answers)
    requires Shape(s') && WorkersOk(s')
    ensures MarksHeld(s') && (!s'.reissued ==> HoldsExact(s'))
  {
    var before, after := s.workers[w], s'.workers[w];
    forall p | 0 <= p < |s'.torrent| && s'.shared.down[p]
      ensures exists v :: 0 <= v < |s'.workers| && Holds(s'.workers[v], p)
    {
      if !after.mode && p == after.piece {
        assert Holds(s'.workers[w], p);
      } else {
        assert s.shared.down[p] && (before.mode || p != before.piece);
        var v :| 0 <= v < |s.workers| && Holds(s.workers[v], p);
        assert Holds(s'.workers[v], p);
      }
    }
    if !s'.reissued {
      forall v | 0 <= v < |s'.workers| && v != w && Holds(s'.workers[v], s'.workers[v].piece)
        ensures s'.shared.down[s'.workers[v].piece] && !Holds(after, s'.workers[v].piece)
      {
        assert Holds(s.workers[v], s.workers[v].piece);
        assert !Holds(before, s.workers[v].piece);
      }
    }
  }

  lemma PickKeepsBitmap(s: State, s': State, w: nat, start: nat, answers: Bits)
    requires Inv(s) && PickStep(s, s', w, start, answers)
    requires Shape(s') && WorkersOk(s')
    ensures BitmapSound(s')
  {
    var before, after := s.workers[w], s'.workers[w];
    if !before.mode {
      var cleared := Unmarked(s.shared.down, before.piece, before.mode);
      ScanExhausted(s.shared.have, cleared, answers, start, if after.mode then -1 else after.piece, s'.shared.have);
    }
  }

  lemma PickKeepsWakeups(s: State, s': State, w: nat, start: nat, answers: Bits)
    requires Inv(s) && PickStep(s, s', w, start, answers)
    ensures WakeupsCover(s')
  {
    var before, after := s.workers[w], s'.workers[w];
    CountWokenUpdate(s.workers, w, after);
    if after.mode {
      PoppedFacts(s.shared.queue, s'.shared.queue, after.piece, |s.torrent|);
    }
    if Asleep(s') && after.pc != Sleeping {
      var v :| 0 <= v < |s'.workers| && s'.workers[v].pc == Sleeping;
      assert s.workers[v].pc == Sleeping;
    }
  }

  lemma PickInv(s: State, s': State, w: nat, start: nat, answers: Bits)
    requires Inv(s) && PickStep(s, s', w, start, answers)
    ensures Inv(s')
  {
    if s'.workers[w].mode {
      PoppedFacts(s.shared.queue, s'.shared.queue, s'.workers[w].piece, |s.torrent|);
    }
    assert WorkersOk(s') by {
      forall i | 0 <= i < |s'.workers| ensures WorkerOk(s'.workers[i], |s'.torrent|, s'.stop) {
        assert WorkerOk(s.workers[i], |s.torrent|, s.stop);
      }
    }
    PickKeepsMarks(s, s', w, start, answers);
    PickKeepsBitmap(s, s', w, start, answers);
    PickKeepsWakeups(s, s', w, start, answers);
  }

  lemma NextInv(s: State, s': State)
    requires Inv(s) && Next(s, s')
    ensures Inv(s')
  {
    if CreateStep(s, s') {
      CreateInv(s, s');
    } else if w: nat, fate: Fate :| LocalStep(s, s', w, fate) {
      LocalInv(s, s', w, fate);
    } else if w: nat, start: nat, answers: Bits :| PickStep(s, s', w, start, answers) {
      PickInv(s, s', w, start, answers);
    } else if w: nat :| NotifyStep(s, s', w) {
      NotifyInv(s, s', w);
    } else if p: nat :| PushStep(s, s', p) {
      QuietInv(s, s', p);
    } else {
      QuietInv(s, s', 0);
    }
  }

  lemma {:induction false} RunInv(run: seq<State>, i: nat)
    requires IsRun(run) && i < |run|
    ensures Inv(run[i])
  {
    hide Next, Inv;
    if i == 0 {
      InitInv(run[0]);
    } else {
      RunInv(run, i - 1);
      NextInv(run[i - 1], run[i - 1 + 1]);
    }
  }
}
