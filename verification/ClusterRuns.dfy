/**
 What holds in every run of the workers: held marks, distinct holders, no lost wake-up, a justified switch of
 mode, and an account of every hash-failed piece.
 */
module ClusterRuns {
  import opened PieceScan
  import opened ClusterWorkers

  // ------------------------------------------------- what holds in every run

  /** A marked piece always has a scan-mode holder; the holder is gone only once the stop flag is up. */
  lemma MarkedPiecesAreHeld(run: seq<State>, i: nat, p: nat)
    requires IsRun(run) && i < |run| && p < |run[i].shared.down|
    requires run[i].shared.down[p]
    ensures exists w :: 0 <= w < |run[i].workers| && Holds(run[i].workers[w], p)
                        && (run[i].workers[w].pc == Exited ==> run[i].stop)
  {
    RunInv(run, i);
    var w :| 0 <= w < |run[i].workers| && Holds(run[i].workers[w], p);
    assert WorkerOk(run[i].workers[w], |run[i].torrent|, run[i].stop);
  }

  /** Until a marked piece is handed out: holders are distinct, and the marks are exactly the held pieces. */
  lemma DistinctUntilReissue(run: seq<State>, i: nat)
    requires IsRun(run) && i < |run| && !run[i].reissued
    ensures forall p | 0 <= p < |run[i].shared.down| ::
              run[i].shared.down[p] <==> exists w :: 0 <= w < |run[i].workers| && Holds(run[i].workers[w], p)
    ensures forall v, w, p | 0 <= v < w < |run[i].workers| && Holds(run[i].workers[v], p) ::
              !Holds(run[i].workers[w], p)
  {
    RunInv(run, i);
  }

  ghost predicate HeldByAnother(s: State, w: nat, p: nat)
  {
    exists v :: 0 <= v < |s.workers| && v != w && Holds(s.workers[v], p)
  }

  /** For thread w there was no alternative: whatever is missing afterwards, another thread held before. */
  ghost predicate NoAlternative(s: State, s': State, w: nat)
  {
    w < |s.workers| && forall p | 0 <= p < |s'.shared.have| :: s'.shared.have[p] || HeldByAnother(s, w, p)
  }

  /** A pick by thread w that had no alternative. */
  ghost predicate ForcedPick(s: State, s': State, w: nat, start: nat, answers: Bits)
  {
    PickStep(s, s', w, start, answers) && NoAlternative(s, s', w)
  }

  ghost predicate ReissueForced(s: State, s': State)
  {
    exists w: nat, start: nat, answers: Bits :: ForcedPick(s, s', w, start, answers)
  }

  /** The first hand-out of a marked piece is a pick whose every missing piece is held by another thread. */
  lemma FirstReissueIsForced(run: seq<State>, i: nat)
    requires IsRun(run) && i + 1 < |run| && !run[i].reissued && run[i + 1].reissued
    ensures ReissueForced(run[i], run[i + 1])
  {
    var s, s' := run[i], run[i + 1];
    RunInv(run, i);
    assert Next(s, s');
    var w: nat, start: nat, answers: Bits :| PickStep(s, s', w, start, answers);
    var before, after := s.workers[w], s'.workers[w];
    var cleared := Unmarked(s.shared.down, before.piece, before.mode);
    forall p | 0 <= p < |s'.shared.have| && !s'.shared.have[p]
      ensures HeldByAnother(s, w, p)
    {
      assert !Free(s.shared.have, cleared, answers, p);
      assert cleared[p] && s.shared.down[p];
      var v :| 0 <= v < |s.workers| && Holds(s.workers[v], p);
      assert v != w;
    }
    assert NoAlternative(s, s', w);
    assert ForcedPick(s, s', w, start, answers);
  }

  /**
   No lost wake-up: while anyone sleeps, the queue is covered by notifications still to be sent and
   threads already woken; so once both are drained, nothing waits in the queue.
   */
  lemma NoLostWakeup(run: seq<State>, i: nat)
    requires IsRun(run) && i < |run| && Asleep(run[i])
    ensures |run[i].shared.queue| <= run[i].unsent + CountWoken(run[i].workers)
    ensures run[i].unsent == 0 && (forall w | 0 <= w < |run[i].workers| :: run[i].workers[w].pc != Woken)
            ==> run[i].shared.queue == []
  {
    RunInv(run, i);
    if forall w | 0 <= w < |run[i].workers| :: run[i].workers[w].pc != Woken {
      NobodyWoken(run[i].workers);
    }
  }

  lemma {:induction false} NobodyWoken(ws: seq<Worker>)
    requires forall w | 0 <= w < |ws| :: ws[w].pc != Woken
    ensures CountWoken(ws) == 0
  {
    if ws != [] {
      NobodyWoken(ws[..|ws| - 1]);
    }
  }

  ghost predicate KeepsPieces(s: State, s': State)
  {
    forall p | 0 <= p < |s.torrent| && p < |s'.torrent| :: s.torrent[p] ==> s'.torrent[p]
  }

  /** The torrent loses nothing in the first i steps. */
  ghost predicate TorrentGrows(run: seq<State>, i: nat)
    requires i < |run|
  {
    forall k, l | 0 <= k < i && l == k + 1 :: KeepsPieces(run[k], run[l])
  }

  lemma StepLosesNothing(s: State, s': State)
    requires Next(s, s') && KeepsPieces(s, s')
    ensures s'.lost == s.lost && s'.skip == s.skip
  {
    if w: nat, fate: Fate :| LocalStep(s, s', w, fate) {
    } else if w: nat, start: nat, answers: Bits :| PickStep(s, s', w, start, answers) {
      assert TorrentMoves(s, s');
    } else if TorrentStep(s, s') {
    } else if w: nat :| NotifyStep(s, s', w) {
    } else if p: nat :| PushStep(s, s', p) {
    }
  }

  /** A run whose torrent never loses a piece never raises the history flag, and priorities are fixed. */
  lemma {:induction false} NeverLost(run: seq<State>, i: nat)
    requires IsRun(run) && i < |run|
    requires TorrentGrows(run, i)
    ensures !run[i].lost && run[i].skip == run[0].skip
  {
    if i > 0 {
      NeverLost(run, i - 1);
      assert Next(run[i - 1], run[i - 1 + 1]);
      StepLosesNothing(run[i - 1], run[i]);
    }
  }

  /**
   If the torrent never loses a piece: once any thread has switched to hash-failed mode (only such a
   thread can sleep), every piece whose priority was non-zero at StartDownload is had.
   */
  lemma HashFailedModeJustified(run: seq<State>, i: nat, w: nat, p: nat)
    requires IsRun(run) && i < |run| && w < |run[i].workers| && p < |run[0].shared.have|
    requires TorrentGrows(run, i)
    requires run[i].workers[w].mode || run[i].workers[w].pc == Sleeping
    requires !run[0].shared.have[p]
    ensures p < |run[i].torrent| && run[i].torrent[p]
  {
    RunInv(run, i);
    NeverLost(run, i);
    assert WorkerOk(run[i].workers[w], |run[i].torrent|, run[i].stop);
  }

  lemma StepKeepsMode(s: State, s': State, w: nat)
    requires Next(s, s') && w < |s.workers| && s.workers[w].mode
    ensures w < |s'.workers| && s'.workers[w].mode
  {
    hide PickSpec, TorrentMoves, LocalMove;
    if v: nat, fate: Fate :| LocalStep(s, s', v, fate) {
    } else if v: nat, start: nat, answers: Bits :| PickStep(s, s', v, start, answers) {
      PickKeepsMode(s, s', v, start, answers);
    } else if v: nat :| NotifyStep(s, s', v) {
    } else if p: nat :| PushStep(s, s', p) {
    }
  }

  lemma PickKeepsMode(s: State, s': State, w: nat, start: nat, answers: Bits)
    requires PickStep(s, s', w, start, answers)
    ensures s.workers[w].mode ==> s'.workers[w].mode
  {
  }

  /** Threads stay in the record, and the switch to hash-failed mode is one-way. */
  lemma {:induction false} ModeIsOneWay(run: seq<State>, i: nat, j: nat, w: nat)
    requires IsRun(run) && i <= j < |run| && w < |run[i].workers| && run[i].workers[w].mode
    ensures w < |run[j].workers| && run[j].workers[w].mode
  {
    hide Next, Init;
    if i < j {
      ModeIsOneWay(run, i, j - 1, w);
      assert Next(run[j - 1], run[j - 1 + 1]);
      StepKeepsMode(run[j - 1], run[j], w);
    }
  }

  /** What a thread reads is a piece of the torrent, and in scan mode one of non-zero priority. */
  lemma ReadsOnlyWantedPieces(run: seq<State>, i: nat, w: nat)
    requires IsRun(run) && i < |run| && w < |run[i].workers| && run[i].workers[w].pc == Reading
    ensures 0 <= run[i].workers[w].piece < |run[i].torrent| == |run[i].skip|
    ensures !run[i].workers[w].mode ==> !run[i].skip[run[i].workers[w].piece]
  {
    RunInv(run, i);
    assert WorkerOk(run[i].workers[w], |run[i].torrent|, run[i].stop);
    assert !run[i].workers[w].mode ==> Holds(run[i].workers[w], run[i].workers[w].piece);
  }

  // -------------------------------------- what becomes of hash-failed pieces

  /** The thread has taken p from the queue and neither handed it over nor given it up. */
  predicate InHand(w: Worker, p: nat)
  {
    w.mode && w.piece == p && (w.pc == Got || w.pc == Reading)
  }

  function CountInHand(ws: seq<Worker>, p: nat): nat
  {
    if ws == [] then 0 else CountInHand(ws[..|ws| - 1], p) + (if InHand(ws[|ws| - 1], p) then 1 else 0)
  }

  lemma {:induction false} CountInHandUpdate(ws: seq<Worker>, i: nat, w: Worker, p: nat)
    requires i < |ws|
    ensures CountInHand(ws[i := w], p) + (if InHand(ws[i], p) then 1 else 0)
         == CountInHand(ws, p) + (if InHand(w, p) then 1 else 0)
  {
    hide InHand;
    var last := |ws| - 1;
    if i == last {
      assert ws[i := w][..last] == ws[..last];
    } else {
      assert ws[i := w][..last] == ws[..last][i := w];
      CountInHandUpdate(ws[..last], i, w, p);
    }
  }

  /** Every push of p is accounted for: queued, in a thread's hand, handed over or forgotten. */
  ghost predicate Accounted(s: State, p: nat)
  {
    s.ledger.pushed[p]
    == multiset(s.shared.queue)[p] + CountInHand(s.workers, p) + s.ledger.handed[p] + s.ledger.forgotten[p]
  }

  lemma PoppedCount(queue: seq<nat>, queue': seq<nat>, piece: int, p: nat)
    requires Popped(queue, queue', piece)
    ensures multiset(queue)[p] == multiset(queue')[p] + if piece == p then 1 else 0
  {
    if queue != [] {
      assert multiset([piece] + queue') == multiset([piece]) + multiset(queue');
    }
  }

  lemma PickAccounted(s: State, s': State, w: nat, start: nat, answers: Bits, p: nat)
    requires PickStep(s, s', w, start, answers) && Accounted(s, p)
    ensures Accounted(s', p)
  {
    hide CountInHand, ScanSpec, TorrentMoves;
    var after := s'.workers[w];
    CountInHandUpdate(s.workers, w, after, p);
    if after.mode {
      PoppedCount(s.shared.queue, s'.shared.queue, after.piece, p);
    }
  }

  lemma LocalAccounted(s: State, s': State, w: nat, fate: Fate, p: nat)
    requires LocalStep(s, s', w, fate) && Accounted(s, p)
    ensures Accounted(s', p)
  {
    hide CountInHand;
    CountInHandUpdate(s.workers, w, s'.workers[w], p);
  }

  lemma PushAccounted(s: State, s': State, q: nat, p: nat)
    requires PushStep(s, s', q) && Accounted(s, p)
    ensures Accounted(s', p)
  {
    hide CountInHand;
    assert multiset(s.shared.queue + [q]) == multiset(s.shared.queue) + multiset{q};
  }

  lemma OtherAccounted(s: State, s': State, w: nat, p: nat)
    requires CreateStep(s, s') || TorrentStep(s, s') || NotifyStep(s, s', w) || StopStep(s, s')
    requires Accounted(s, p)
    ensures Accounted(s', p)
  {
    if CreateStep(s, s') {
      assert s'.workers[..|s.workers|] == s.workers;
    } else if NotifyStep(s, s', w) && Asleep(s) {
      CountInHandUpdate(s.workers, w, s'.workers[w], p);
    }
  }

  lemma NextAccounted(s: State, s': State, p: nat)
    requires Next(s, s') && Accounted(s, p)
    ensures Accounted(s', p)
  {
    hide Accounted, LocalStep, PickStep, PushStep, CreateStep, TorrentStep, NotifyStep, StopStep;
    if w: nat, fate: Fate :| LocalStep(s, s', w, fate) {
      LocalAccounted(s, s', w, fate, p);
    } else if w: nat, start: nat, answers: Bits :| PickStep(s, s', w, start, answers) {
      PickAccounted(s, s', w, start, answers, p);
    } else if q: nat :| PushStep(s, s', q) {
      PushAccounted(s, s', q, p);
    } else if w: nat :| NotifyStep(s, s', w) {
      OtherAccounted(s, s', w, p);
    } else {
      OtherAccounted(s, s', 0, p);
    }
  }

  /** Conservation in every run: no hash-failed piece is lost or doubled on the way. */
  lemma {:induction false} HashFailedPiecesAccounted(run: seq<State>, i: nat, p: nat)
    requires IsRun(run) && i < |run|
    ensures Accounted(run[i], p)
  {
    hide Next;
    if 0 < i {
      HashFailedPiecesAccounted(run, i - 1, p);
      assert Next(run[i - 1], run[i - 1 + 1]);
      NextAccounted(run[i - 1], run[i], p);
    }
  }

  /** A thread in hash-failed mode gives up the piece in its hand. */
  ghost predicate GivesUp(s: State, s': State, w: nat)
  {
    LocalStep(s, s', w, Dropped) && s.workers[w].mode && 0 <= s.workers[w].piece
  }

  ghost predicate SomeoneGivesUp(s: State, s': State)
  {
    exists w: nat :: GivesUp(s, s', w)
  }

  /**
   A hash-failed piece is forgotten exactly when the thread that took it fails to read it or gets a wrong
   hash, retried or not, or sees the stop flag before it reads: such a piece goes back to no queue.
   */
  lemma ForgottenIff(s: State, s': State)
    requires Next(s, s')
    ensures s'.ledger.forgotten != s.ledger.forgotten <==> SomeoneGivesUp(s, s')
  {
    hide PickSpec, TorrentMoves;
    if w: nat :| GivesUp(s, s', w) {
      var p := s.workers[w].piece;
      assert s'.ledger.forgotten[p] == s.ledger.forgotten[p] + 1;
    } else if w: nat, fate: Fate :| LocalStep(s, s', w, fate) {
      assert !GivesUp(s, s', w);
    }
  }

  /** If no thread gives a piece up, every pushed piece is queued, in a thread's hand, or handed over again. */
  lemma {:induction false} NothingForgotten(run: seq<State>, i: nat)
    requires IsRun(run) && i < |run|
    requires forall k, l | 0 <= k < i && l == k + 1 :: !SomeoneGivesUp(run[k], run[l])
    ensures run[i].ledger.forgotten == multiset{}
  {
    hide Next, SomeoneGivesUp;
    if 0 < i {
      NothingForgotten(run, i - 1);
      assert Next(run[i - 1], run[i - 1 + 1]);
      ForgottenIff(run[i - 1], run[i]);
    }
  }
}
