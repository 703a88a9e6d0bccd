/**
 What the workers of ClusterWorkers can and cannot still do: nothing new once the stop flag is up, the queue in
 its order, and always some step of their own.
 */
module ClusterProgress {
  import opened PieceScan
  import opened ClusterWorkers

  // ------------------------------------------------- the stop flag, the queue

  /** Once the flag is up it stays up. */
  lemma StopStays(s: State, s': State)
    requires Next(s, s') && s.stop
    ensures s'.stop
  {
    hide PickSpec, TorrentMoves;
    if w: nat, fate: Fate :| LocalStep(s, s', w, fate) {
    } else if w: nat, start: nat, answers: Bits :| PickStep(s, s', w, start, answers) {
    } else if w: nat :| NotifyStep(s, s', w) {
    } else if p: nat :| PushStep(s, s', p) {
    }
  }

  /** What a thread can still do once the flag is up. */
  predicate Winding(pc: Pc, pc': Pc)
  {
    match pc
    case Created => pc' in {Created, LoopHead}
    case LoopHead => pc' in {LoopHead, Exited}
    case Exited => pc' == Exited
    case Got => pc' in {Got, Exited}
    case Reading => true
    case Sleeping => true
    case _ => pc' != Reading && pc' != Sleeping
  }

  lemma StepWinds(s: State, s': State, w: nat)
    requires Next(s, s') && s.stop && w < |s.workers|
    ensures w < |s'.workers|
    ensures Winding(s.workers[w].pc, s'.workers[w].pc)
    ensures s'.workers[w].pc == Reading ==> s.workers[w].pc == Reading
    ensures s'.workers[w].pc == Sleeping ==> s.workers[w].pc == Sleeping
  {
    hide PickSpec, TorrentMoves;
    if v: nat, fate: Fate :| LocalStep(s, s', v, fate) {
    } else if v: nat, start: nat, answers: Bits :| PickStep(s, s', v, start, answers) {
    } else if v: nat :| NotifyStep(s, s', v) {
    } else if p: nat :| PushStep(s, s', p) {
    }
  }

  /**
   After the stop flag has risen a thread that is not reading never reads again, one that is awake never
   sleeps, and one that is about to test the flag never picks.
   */
  lemma {:induction false} NoWorkAfterStop(run: seq<State>, i: nat, j: nat, w: nat)
    requires IsRun(run) && i <= j < |run| && w < |run[i].workers| && run[i].stop
    ensures w < |run[j].workers| && run[j].stop
    ensures run[j].workers[w].pc == Reading ==> run[i].workers[w].pc == Reading
    ensures run[j].workers[w].pc == Sleeping ==> run[i].workers[w].pc == Sleeping
    ensures run[i].workers[w].pc in {Created, LoopHead, Exited} ==> run[j].workers[w].pc in {Created, LoopHead, Exited}
    decreases j
  {
    hide Next, Init;
    if i < j {
      NoWorkAfterStop(run, i, j - 1, w);
      assert Next(run[j - 1], run[j - 1 + 1]);
      StopStays(run[j - 1], run[j]);
      StepWinds(run[j - 1], run[j], w);
    }
  }

  /** The queue is first in, first out: a step takes its front, or adds behind its end, or leaves it alone. */
  lemma QueueIsFifo(s: State, s': State)
    requires Next(s, s')
    ensures || s'.shared.queue == s.shared.queue
            || (exists p: nat :: s'.shared.queue == s.shared.queue + [p])
            || (s.shared.queue != [] && s'.shared.queue == s.shared.queue[1..]
                && exists w :: 0 <= w < |s'.workers| && TookFront(s, s'.workers[w]))
  {
    hide ScanSpec, TorrentMoves;
    if w: nat, start: nat, answers: Bits :| PickStep(s, s', w, start, answers) {
      var after := s'.workers[w];
      if after.mode && s.shared.queue != [] {
        assert s.shared.queue == [after.piece] + s'.shared.queue;
        assert s.shared.queue[0] == after.piece;
        assert TookFront(s, s'.workers[w]);
      }
    } else if w: nat, fate: Fate :| LocalStep(s, s', w, fate) {
    } else if w: nat :| NotifyStep(s, s', w) {
    } else if p: nat :| PushStep(s, s', p) {
    }
  }

  predicate TookFront(s: State, w: Worker)
  {
    s.shared.queue != [] && w.mode && w.pc == Got && w.piece == s.shared.queue[0]
  }

  // --------------------------------------------------- no thread is ever stuck

  ghost predicate CanMove(s: State, w: nat)
    requires w < |s.workers|
  {
    exists s' :: Next(s, s') && w < |s'.workers| && s'.workers[w].pc != s.workers[w].pc
  }

  /** Where a thread outside the mutex may go next. */
  lemma LocalMoves(s: State, w: nat, pc: Pc, fate: Fate)
    requires w < |s.workers| && pc != s.workers[w].pc && LocalMove(s.workers[w].pc, pc, s.stop, s.stop, fate)
    ensures CanMove(s, w)
  {
    hide LocalMove;
    var s' := s.(workers := s.workers[w := s.workers[w].(pc := pc)], ledger := Settled(s.ledger, s.workers[w], fate));
    assert LocalStep(s, s', w, fate);
    assert Next(s, s');
  }

  /** Thread w can take a step to this place, with this fate of its piece and this flag. */
  ghost predicate CanGo(s: State, w: nat, pc: Pc, fate: Fate, stop: bool)
    requires w < |s.workers|
  {
    exists s' :: LocalStep(s, s', w, fate) && s'.workers[w].pc == pc && s'.stop == stop
  }

  lemma LocalGoes(s: State, w: nat, pc: Pc, fate: Fate, stop: bool)
    requires w < |s.workers|
    ensures CanGo(s, w, pc, fate, stop) <==> LocalMove(s.workers[w].pc, pc, s.stop, stop, fate)
  {
    hide LocalMove;
    if LocalMove(s.workers[w].pc, pc, s.stop, stop, fate) {
      var s' := s.(workers := s.workers[w := s.workers[w].(pc := pc)], stop := stop,
                   ledger := Settled(s.ledger, s.workers[w], fate));
      assert LocalStep(s, s', w, fate);
    }
  }

  /**
   How a read ends: the piece is handed over, and the thread goes on, or exits if it sees the flag; or it is
   dropped, and the thread retries, or raises the flag and exits.  There is no other way.
   */
  lemma ReadEnds(s: State, w: nat, pc: Pc, fate: Fate, stop: bool)
    requires w < |s.workers| && s.workers[w].pc == Reading
    ensures CanGo(s, w, pc, fate, stop)
            <==> || (pc, fate, stop) == (LoopHead, HandedOver, s.stop)
                 || (pc, fate, stop) == (LoopHead, Dropped, s.stop)
                 || ((pc, fate, stop) == (Exited, HandedOver, true) && s.stop)
                 || (pc, fate, stop) == (Exited, Dropped, true)
  {
    LocalGoes(s, w, pc, fate, stop);
  }

  /** What the threads cannot prevent: pushes, a changing torrent, the flag, a new thread. */
  lemma EnvironmentIsFree(s: State, p: nat, torrent: Bits)
    requires p < |s.shared.have| && |torrent| == |s.torrent|
    ensures exists s' :: Next(s, s') && s'.shared.queue == s.shared.queue + [p] && s'.unsent == s.unsent + 1
    ensures exists s' :: Next(s, s') && s'.torrent == torrent
    ensures exists s' :: Next(s, s') && s'.stop
    ensures exists s' :: Next(s, s') && s'.workers == s.workers + [Worker(Created, -1, false)]
  {
    var pushed := s.(shared := s.shared.(queue := s.shared.queue + [p]), unsent := s.unsent + 1,
                     ledger := s.ledger.(pushed := s.ledger.pushed + multiset{p}));
    assert PushStep(s, pushed, p);
    assert Next(s, pushed);
    var lost := s.lost || exists i :: 0 <= i < |s.torrent| && s.torrent[i] && !torrent[i];
    var moved := s.(torrent := torrent, lost := lost);
    assert TorrentStep(s, moved);
    assert Next(s, moved);
    assert Next(s, s.(stop := true));
    assert Next(s, s.(workers := s.workers + [Worker(Created, -1, false)]));
  }

  lemma PickMoves(s: State, w: nat)
    requires Inv(s) && w < |s.workers| && s.workers[w].pc in {AtPick, Woken}
    ensures CanMove(s, w)
  {
    var before := s.workers[w];
    assert WorkerOk(before, |s.torrent|, s.stop);
    var shared', piece, mode' := PickExists(s.shared, before.piece, before.mode, 0, s.torrent);
    var after := Worker(if 0 <= piece || s.stop then Got else Sleeping, piece, mode');
    var again := !mode' && 0 <= piece < |s.shared.down| && Unmarked(s.shared.down, before.piece, before.mode)[piece];
    var s' := s.(shared := shared', workers := s.workers[w := after], reissued := s.reissued || again);
    assert PickStep(s, s', w, 0, s.torrent);
    assert Next(s, s');
  }

  /** In every state a run can reach, each thread that has not exited can take a step of its own. */
  lemma NobodyIsStuck(s: State, w: nat)
    requires Inv(s) && w < |s.workers| && s.workers[w].pc != Exited
    ensures CanMove(s, w)
  {
    hide Inv, Next, CanMove;
    match s.workers[w].pc
    case Created => LocalMoves(s, w, LoopHead, Kept);
    case LoopHead => LocalMoves(s, w, if s.stop then Exited else AtPick, Kept);
    case AtPick => PickMoves(s, w);
    case Sleeping => LocalMoves(s, w, Woken, Kept);
    case Woken => PickMoves(s, w);
    case Got => LocalMoves(s, w, if s.stop then Exited else Reading, if s.stop then Dropped else Kept);
    case Reading => LocalMoves(s, w, LoopHead, HandedOver);
  }
}
