/**
 The global cap on HDFS download threads.  One dispatcher (GroupManager::ClusterDownload) pops tasks
 from a queue and starts threads for them; each thread lowers the counter when it ends
 (DeleteClusterThreadNum).  A thread is created before it is counted, so it may even end before it
 is counted, and then the guarded decrement does nothing.
 */
module ThreadCap {

  type TaskId = nat

  /** What queue_lock_ protects. */
  datatype Board = Board(count: int, queue: seq<TaskId>)

  /** DeleteClusterThreadNum's effect. */
  function Uncounted(b: Board): Board
  {
    if 0 < b.count then b.(count := b.count - 1) else b
  }

  /** The region after a thread was created: count it, and requeue the task when the cap is passed. */
  function Counted(b: Board, task: TaskId, cap: int): Board
  {
    if b.count + 1 > cap then Board(b.count + 1, b.queue + [task]) else b.(count := b.count + 1)
  }

  class ClusterQueue {
    var currentClusterThreadNum: int
    var clusterQueueTasks: seq<TaskId>

    function View(): Board
      reads this
    {
      Board(currentClusterThreadNum, clusterQueueTasks)
    }

    constructor ()
      ensures View() == Board(0, [])
    {
      currentClusterThreadNum, clusterQueueTasks := 0, [];
    }

    method PushClusterThreadQueue(task: TaskId)
      modifies this
      ensures View() == old(View()).(queue := old(clusterQueueTasks) + [task])
    {
      clusterQueueTasks := clusterQueueTasks + [task];
    }

    method DeleteClusterThreadNum()
      modifies this
      ensures View() == Uncounted(old(View())) && clusterQueueTasks == old(clusterQueueTasks)
      ensures currentClusterThreadNum
              == if 0 < old(currentClusterThreadNum) then old(currentClusterThreadNum) - 1
                 else old(currentClusterThreadNum)
    {
      if currentClusterThreadNum > 0 {
        currentClusterThreadNum := currentClusterThreadNum - 1;
      }
    }

    /** The dispatcher's first region: a task only below the cap and only from a non-empty queue. */
    method TakeTask(cap: int) returns (found: bool, task: TaskId)
      modifies this
      ensures found <==> old(currentClusterThreadNum) < cap && old(clusterQueueTasks) != []
      ensures found ==> old(View()) == Board(currentClusterThreadNum, [task] + clusterQueueTasks)
      ensures !found ==> View() == old(View())
    {
      found, task := false, 0;
      if currentClusterThreadNum < cap {
        if clusterQueueTasks == [] {
          return;
        }
        found, task := true, clusterQueueTasks[0];
        clusterQueueTasks := clusterQueueTasks[1..];
      }
    }

    /** The dispatcher's second region; `full` ends the loop over the task's threads. */
    method CountThread(task: TaskId, cap: int) returns (full: bool)
      modifies this
      ensures View() == Counted(old(View()), task, cap)
      ensures currentClusterThreadNum == old(currentClusterThreadNum) + 1
      ensures full <==> cap < currentClusterThreadNum
      ensures clusterQueueTasks == if full then old(clusterQueueTasks) + [task] else old(clusterQueueTasks)
    {
      currentClusterThreadNum := currentClusterThreadNum + 1;
      full := currentClusterThreadNum > cap;
      if full {
        clusterQueueTasks := clusterQueueTasks + [task];
      }
    }
  }

  // ------------------------------------------------------ the whole protocol

  /** The dispatcher's place: idle, inside the for loop, or between create_thread and the count. */
  datatype Dispatcher = Idle | Looping(task: TaskId) | Created(task: TaskId)

  /** `live` counts the threads created whose DeleteClusterThreadNum has not run; `leaked` the decrements skipped. */
  datatype State = State(board: Board, dispatcher: Dispatcher, live: nat, leaked: nat,
                         pushed: multiset<TaskId>,   // history: tasks handed to the dispatcher
                         dismissed: multiset<TaskId>)  // history: tasks it has let go for good

  datatype Action = Push(task: TaskId) | Take | Drop | Create | Count | LoopEnd | ThreadEnds

  predicate Enabled(s: State, a: Action, cap: int)
  {
    match a
    case Push(_) => true
    case Take => s.dispatcher.Idle? && s.board.count < cap && s.board.queue != []
    case Drop => s.dispatcher.Looping?     // CheckIfThreadnumOut or IsStoped: the task is forgotten
    case Create => s.dispatcher.Looping?   // i < threads_num
    case Count => s.dispatcher.Created?
    case LoopEnd => s.dispatcher.Looping?  // i reached threads_num
    case ThreadEnds => 0 < s.live
  }

  function Step(s: State, a: Action, cap: int): State
    requires Enabled(s, a, cap)
  {
    match a
    case Push(task) =>
      s.(board := s.board.(queue := s.board.queue + [task]), pushed := s.pushed + multiset{task})
    case Take => s.(board := s.board.(queue := s.board.queue[1..]), dispatcher := Looping(s.board.queue[0]))
    case Drop => s.(dispatcher := Idle, dismissed := s.dismissed + multiset{s.dispatcher.task})
    case Create => s.(dispatcher := Created(s.dispatcher.task), live := s.live + 1)
    case Count =>
      var b := Counted(s.board, s.dispatcher.task, cap);
      s.(board := b, dispatcher := if b.count > cap then Idle else Looping(s.dispatcher.task))
    case LoopEnd => s.(dispatcher := Idle, dismissed := s.dismissed + multiset{s.dispatcher.task})
    case ThreadEnds =>
      s.(board := Uncounted(s.board), live := s.live - 1,
         leaked := if s.board.count > 0 then s.leaked else s.leaked + 1)
  }

  const START := State(Board(0, []), Idle, 0, 0, multiset{}, multiset{})

  predicate Leads(p: State, a: Action, cap: int, s: State)
  {
    Enabled(p, a, cap) && Step(p, a, cap) == s
  }

  /** The state after a run of actions, if every one of them was enabled. */
  ghost predicate Reaches(run: seq<Action>, cap: int, s: State)
    decreases |run|
  {
    if run == [] then s == START
    else
      var front, last := run[..|run| - 1], run[|run| - 1];
      exists p: State :: Reaches(front, cap, p) && Leads(p, last, cap, s)
  }

  /** Threads created but not yet counted: none or one. */
  function Pending(s: State): nat
  {
    if s.dispatcher.Created? then 1 else 0
  }

  ghost predicate Inv(s: State, cap: int)
  {
    && 0 <= s.board.count <= cap + 1
    && (!s.dispatcher.Idle? ==> s.board.count <= cap)
    && s.board.count + Pending(s) == s.live + s.leaked
    && s.leaked <= 1
  }

  lemma StepInv(s: State, a: Action, cap: nat)
    requires Inv(s, cap) && Enabled(s, a, cap)
    ensures Inv(Step(s, a, cap), cap)
  {
  }

  lemma InvAtStart(cap: nat)
    ensures Inv(START, cap)
  {
  }

  lemma {:induction false} ReachesInv(run: seq<Action>, cap: nat, s: State)
    requires Reaches(run, cap, s)
    ensures Inv(s, cap)
    decreases |run|
  {
    hide Step, Enabled, Inv;
    if run == [] {
      InvAtStart(cap);
    } else {
      var front, last := run[..|run| - 1], run[|run| - 1];
      var p :| Reaches(front, cap, p) && Leads(p, last, cap, s);
      ReachesInv(front, cap, p);
      StepInv(p, last, cap);
    }
  }

  /**
   Conservation over every run: counter + (one created but uncounted) = live threads + skipped
   decrements, and a decrement is skipped at most once in the whole life of the process.
   */
  lemma {:induction false} CounterConservation(run: seq<Action>, cap: nat, s: State)
    requires Reaches(run, cap, s)
    ensures s.board.count + Pending(s) == s.live + s.leaked && s.leaked <= 1
    ensures s.live <= s.board.count + Pending(s)
  {
    ReachesInv(run, cap, s);
  }

  /** The cap: never more than N + 1 live threads, and after the skipped decrement never more than N. */
  lemma ThreadCapHolds(run: seq<Action>, cap: nat, s: State)
    requires Reaches(run, cap, s)
    ensures s.live <= cap + 1
    ensures s.leaked == 1 ==> s.live <= cap
  {
    ReachesInv(run, cap, s);
  }

  /**
   When the cap is passed: by the creation of a thread while the counter stands at the cap and no decrement
   has ever been skipped, and by nothing else.
   */
  lemma CapPassedIff(run: seq<Action>, cap: nat, s: State, a: Action)
    requires Reaches(run, cap, s) && Enabled(s, a, cap) && s.live <= cap
    ensures Step(s, a, cap).live > cap <==> a.Create? && s.board.count == cap && s.leaked == 0
  {
    ReachesInv(run, cap, s);
  }

  /** And a thread is never created while the cap is passed already. */
  lemma CreateBelowCap(run: seq<Action>, cap: nat, s: State)
    requires Reaches(run, cap, s) && Enabled(s, Create, cap)
    ensures s.live <= cap && (Step(s, Create, cap).live > cap <==> s.board.count == cap && s.leaked == 0)
  {
    ReachesInv(run, cap, s);
  }

  /** A decrement is skipped exactly when the only live thread ends uncounted and none was skipped before. */
  lemma SkippedDecrement(run: seq<Action>, cap: nat, s: State)
    requires Reaches(run, cap, s) && Enabled(s, ThreadEnds, cap)
    ensures Step(s, ThreadEnds, cap).leaked != s.leaked
            <==> s.dispatcher.Created? && s.live == 1 && s.leaked == 0
  {
    ReachesInv(run, cap, s);
  }

  /** Once skipped, the decrement is never made up for: from then on the counter overstates the threads by one. */
  lemma LeakIsPermanent(s: State, a: Action, cap: nat)
    requires Inv(s, cap) && Enabled(s, a, cap) && s.leaked == 1
    ensures Step(s, a, cap).leaked == 1
    ensures Step(s, a, cap).board.count + Pending(Step(s, a, cap)) == Step(s, a, cap).live + 1
  {
  }

  /** How often the dispatcher holds task t: once or not at all. */
  function Held(d: Dispatcher, t: TaskId): nat
  {
    if !d.Idle? && d.task == t then 1 else 0
  }

  /** Every push of t is accounted for: in the queue, in the dispatcher's hand, or let go. */
  ghost predicate TaskAccounted(s: State, t: TaskId)
  {
    s.pushed[t] == multiset(s.board.queue)[t] + Held(s.dispatcher, t) + s.dismissed[t]
  }

  lemma QueuedMore(queue: seq<TaskId>, x: TaskId, t: TaskId)
    ensures multiset(queue + [x])[t] == multiset(queue)[t] + (if x == t then 1 else 0)
  {
    assert multiset(queue + [x]) == multiset(queue) + multiset{x};
  }

  lemma QueuedLess(queue: seq<TaskId>, t: TaskId)
    requires queue != []
    ensures multiset(queue)[t] == multiset(queue[1..])[t] + (if queue[0] == t then 1 else 0)
  {
    assert queue == [queue[0]] + queue[1..];
    assert multiset([queue[0]] + queue[1..]) == multiset{queue[0]} + multiset(queue[1..]);
  }

  lemma StepAccounts(s: State, a: Action, cap: int, t: TaskId)
    requires Enabled(s, a, cap) && TaskAccounted(s, t)
    ensures TaskAccounted(Step(s, a, cap), t)
  {
    match a
    case Push(task) => QueuedMore(s.board.queue, task, t);
    case Take => QueuedLess(s.board.queue, t);
    case Count => QueuedMore(s.board.queue, s.dispatcher.task, t);
    case _ =>
  }

  /** Conservation of tasks over every run: none is lost or doubled between the queue and the dispatcher. */
  lemma {:induction false} TasksConserved(run: seq<Action>, cap: int, s: State, t: TaskId)
    requires Reaches(run, cap, s)
    ensures s.pushed[t] == multiset(s.board.queue)[t] + Held(s.dispatcher, t) + s.dismissed[t]
    decreases |run|
  {
    hide Step, Enabled;
    if run != [] {
      var front, last := run[..|run| - 1], run[|run| - 1];
      var p :| Reaches(front, cap, p) && Leads(p, last, cap, s);
      TasksConserved(front, cap, p, t);
      StepAccounts(p, last, cap, t);
    }
  }

  /** A task is let go only by a dispatcher that is between two threads of it, never at the cap. */
  lemma DismissedIff(s: State, a: Action, cap: int)
    requires Enabled(s, a, cap)
    ensures Step(s, a, cap).dismissed != s.dismissed <==> a.Drop? || a.LoopEnd?
  {
    if a.Drop? || a.LoopEnd? {
      assert Step(s, a, cap).dismissed[s.dispatcher.task] == s.dismissed[s.dispatcher.task] + 1;
    }
  }

  /** A task is taken exactly by an idle dispatcher below the cap, and it is the one that has waited longest. */
  lemma TakesTheFront(s: State, cap: int)
    ensures Enabled(s, Take, cap) <==> s.dispatcher == Idle && s.board.count < cap && s.board.queue != []
    ensures Enabled(s, Take, cap) ==>
              var r := Step(s, Take, cap);
              s.board.queue == [r.dispatcher.task] + r.board.queue && r.board.count == s.board.count && r.live == s.live
  {
  }

  /** Where the dispatcher and the threads can go: no state is left without a way on. */
  lemma EnabledIff(s: State, cap: int, task: TaskId)
    ensures Enabled(s, Push(task), cap)
    ensures s.dispatcher.Looping? <==> Enabled(s, Drop, cap)
    ensures s.dispatcher.Looping? <==> Enabled(s, Create, cap)
    ensures s.dispatcher.Looping? <==> Enabled(s, LoopEnd, cap)
    ensures s.dispatcher.Created? <==> Enabled(s, Count, cap)
    ensures 0 < s.live <==> Enabled(s, ThreadEnds, cap)
  {
  }

  /** Counting a thread past the cap sends its task to the end of the queue; below it the task stays in hand. */
  lemma CountAtCap(s: State, cap: int)
    requires Enabled(s, Count, cap)
    ensures var r := Step(s, Count, cap);
            && r.board.count == s.board.count + 1 && r.live == s.live
            && (s.board.count + 1 > cap ==>
                  r.board.queue == s.board.queue + [s.dispatcher.task] && r.dispatcher == Idle)
            && (s.board.count + 1 <= cap ==>
                  r.board.queue == s.board.queue && r.dispatcher == Looping(s.dispatcher.task))
  {
  }

  lemma ReachesStep(run: seq<Action>, cap: nat, p: State, a: Action)
    requires Reaches(run, cap, p) && Enabled(p, a, cap)
    ensures Reaches(run + [a], cap, Step(p, a, cap))
  {
    assert (run + [a])[..|run + [a]| - 1] == run;
    assert (run + [a])[|run + [a]| - 1] == a;
    assert Leads(p, a, cap, Step(p, a, cap));
  }

  /** A run that leaves N + 1 live threads: the bound cannot be lowered, for any cap of at least one. */
  lemma BoundIsReached(cap: nat) returns (run: seq<Action>, s: State)
    requires 1 <= cap
    ensures Reaches(run, cap, s) && s.live == cap + 1 && s.dispatcher.Idle?
  {
    run, s := [], START;
    ReachesStep(run, cap, s, Push(0));
    run, s := run + [Push(0)], Step(s, Push(0), cap);
    ReachesStep(run, cap, s, Take);
    run, s := run + [Take], Step(s, Take, cap);
    for k := 0 to cap + 1
      invariant Reaches(run, cap, s) && s.board.count == s.live == k && s.leaked == 0
      invariant if k <= cap then s.dispatcher.Looping? else s.dispatcher.Idle?
    {
      ReachesStep(run, cap, s, Create);
      run, s := run + [Create], Step(s, Create, cap);
      ReachesStep(run, cap, s, Count);
      run, s := run + [Count], Step(s, Count, cap);
    }
  }

  /** A run after which no thread is live, yet the counter stands at one. */
  lemma LeakHappens(cap: nat) returns (run: seq<Action>, s: State)
    requires 1 <= cap
    ensures Reaches(run, cap, s) && s.live == 0 && s.board.count == 1 && s.dispatcher.Looping?
  {
    run, s := [], START;
    run, s := OneMore(run, cap, s, Push(0));
    run, s := OneMore(run, cap, s, Take);
    run, s := OneMore(run, cap, s, Create);
    run, s := OneMore(run, cap, s, ThreadEnds);
    run, s := OneMore(run, cap, s, Count);
  }

  lemma OneMore(run: seq<Action>, cap: nat, p: State, a: Action) returns (more: seq<Action>, s: State)
    requires Reaches(run, cap, p) && Enabled(p, a, cap)
    ensures Reaches(more, cap, s) && s == Step(p, a, cap)
  {
    more, s := run + [a], Step(p, a, cap);
    ReachesStep(run, cap, p, a);
  }
}
