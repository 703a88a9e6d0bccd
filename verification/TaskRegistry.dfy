/**
 The group manager's task registry: infohash_map_, torrent_map_ and finished_infohash_list_, the
 operations that change them, and what every sequence of such operations keeps.
 */
module TaskRegistry {

  import opened Basics

  /** A task object: its identity, its torrent, and its infohash at the time it is added.  A null pointer is None. */
  datatype Task = Task(id: nat, handle: nat, infohash: string, isTorrentUrl: bool)

  datatype Finished = Finished(infohash: string, task: Option<Task>)

  datatype Status = Success | ErrorParams | AddTaskExist | TaskNotExist

  datatype State = State(infohashMap: map<string, Option<Task>>, torrentMap: map<nat, Task>,
                         finished: seq<Finished>, changed: bool)

  const INFOHASH_LENGTH := 40

  predicate Running(s: State, t: Task)
  {
    exists k :: k in s.infohashMap && s.infohashMap[k] == Some(t)
  }

  predicate InFinished(s: State, t: Task)
  {
    exists f :: f in s.finished && f.task == Some(t)
  }

  predicate DistinctTasks(list: seq<Finished>)
  {
    forall i, j | 0 <= i < j < |list| :: list[i].task != list[j].task
  }

  /** torrent_map_ holds exactly the non-null tasks of infohash_map_, each under its own handle. */
  predicate MapsAgree(s: State)
  {
    && (forall k | k in s.infohashMap && s.infohashMap[k].Some? ::
          var t := s.infohashMap[k].value; t.handle in s.torrentMap && s.torrentMap[t.handle] == t)
    && (forall h | h in s.torrentMap :: s.torrentMap[h].handle == h && Running(s, s.torrentMap[h]))
  }

  predicate OneKeyEach(s: State)
  {
    forall k, l | k in s.infohashMap && l in s.infohashMap && s.infohashMap[k].Some?
                  && s.infohashMap[k] == s.infohashMap[l] :: k == l
  }

  /** No null in the finished list, no task in it twice, none of them still running. */
  predicate FinishedOk(s: State)
  {
    && (forall f | f in s.finished :: f.task.Some? && !Running(s, f.task.value))
    && DistinctTasks(s.finished)
  }

  predicate Inv(s: State)
  {
    MapsAgree(s) && OneKeyEach(s) && FinishedOk(s)
  }

  // ---------------------------------------------------------------- steps

  predicate CanAdd(t: Task)
  {
    t.infohash != "" && (|t.infohash| == INFOHASH_LENGTH || t.isTorrentUrl)
  }

  function Added(s: State, task: Option<Task>): (r: (State, Status))
  {
    if task.None? then (s, ErrorParams)
    else
      var t := task.value;
      if CanAdd(t) && t.infohash !in s.infohashMap then
        (s.(infohashMap := s.infohashMap[t.infohash := task], torrentMap := s.torrentMap[t.handle := t]), Success)
      else (s, AddTaskExist)
  }

  /** The move to the finished list; a null entry stays where it is. */
  function Removed(s: State, handle: nat, infohash: string): State
    requires infohash in s.infohashMap
  {
    if s.infohashMap[infohash].None? then s
    else
      State(s.infohashMap - {infohash}, s.torrentMap - {handle},
            s.finished + [Finished(infohash, s.infohashMap[infohash])], true)
  }

  predicate RekeyArguments(url: string, infohash: string)
  {
    url != "" && |infohash| == INFOHASH_LENGTH
  }

  /** GetFinishedTaskByInfohash: what the first finished entry with this infohash holds; none is like null. */
  function FinishedTask(list: seq<Finished>, infohash: string): Option<Task>
  {
    if list == [] || infohash == "" then None
    else if list[0].infohash == infohash then list[0].task
    else FinishedTask(list[1..], infohash)
  }

  /** It is the task of the first entry with a non-empty infohash that equals the one asked for. */
  lemma {:induction false} FinishedTaskIs(list: seq<Finished>, infohash: string, i: nat)
    requires i < |list| && infohash != "" && list[i].infohash == infohash
    requires forall k | 0 <= k < i :: list[k].infohash != infohash
    ensures FinishedTask(list, infohash) == list[i].task
  {
    if 0 < i {
      FinishedTaskIs(list[1..], infohash, i - 1);
    }
  }

  lemma {:induction false} FinishedTaskNone(list: seq<Finished>, infohash: string)
    requires infohash == "" || forall k | 0 <= k < |list| :: list[k].infohash != infohash
    ensures FinishedTask(list, infohash) == None
  {
    if list != [] && infohash != "" {
      FinishedTaskNone(list[1..], infohash);
    }
  }

  predicate RekeyMoves(s: State, url: string, infohash: string)
  {
    RekeyArguments(url, infohash) && url in s.infohashMap
  }

  /** Where the source does not read an end iterator: the URL is a key, or finished entries do not have it either. */
  predicate RekeyDefined(s: State, url: string, infohash: string)
  {
    RekeyArguments(url, infohash) ==> url in s.infohashMap || FinishedTask(s.finished, url).None?
  }

  /** The re-key of a task found in infohash_map_: `insert` leaves an entry that is already there. */
  function Rekeyed(s: State, url: string, infohash: string): State
  {
    if !RekeyMoves(s, url, infohash) then s
    else
      var inserted := if infohash in s.infohashMap then s.infohashMap
                      else s.infohashMap[infohash := s.infohashMap[url]];
      s.(infohashMap := inserted - {url})
  }

  /** operator[] on an unknown infohash adds a null entry. */
  function LookedUp(s: State, infohash: string): State
  {
    if infohash == "" || infohash in s.infohashMap then s
    else s.(infohashMap := s.infohashMap[infohash := None])
  }

  /** Timeout -1 means never. */
  predicate Expired(endTime: int, now: int, timeout: int)
  {
    now - endTime > timeout && timeout != -1
  }

  type EndTimes = Task -> int

  function Kept(list: seq<Finished>, ends: EndTimes, now: int, timeout: int): seq<Finished>
  {
    if list == [] then []
    else
      var first := list[0];
      (if ExpiredAt(first, ends, now, timeout) then [] else [first])
      + Kept(list[1..], ends, now, timeout)
  }

  function TimedOut(s: State, ends: EndTimes, now: int, timeout: int): State
  {
    var kept := Kept(s.finished, ends, now, timeout);
    s.(finished := kept, changed := s.changed || |kept| < |s.finished|)
  }

  // ------------------------------------------------------------- the class

  class GroupManager {
    var infohashMap: map<string, Option<Task>>
    var torrentMap: map<nat, Task>
    var finished: seq<Finished>
    var changed: bool

    ghost function View(): State
      reads this
    {
      State(infohashMap, torrentMap, finished, changed)
    }

    constructor ()
      ensures View() == State(map[], map[], [], true) && Inv(View())
    {
      infohashMap, torrentMap, finished, changed := map[], map[], [], true;
    }

    method AddTaskToMap(task: Option<Task>) returns (status: Status)
      modifies this
      ensures (View(), status) == Added(old(View()), task)
      ensures status == Success
              <==> task.Some? && task.value.infohash != "" && task.value.infohash !in old(infohashMap)
                   && (|task.value.infohash| == 40 || task.value.isTorrentUrl)
      ensures status == Success ==>
                && infohashMap == old(infohashMap)[task.value.infohash := task]
                && torrentMap == old(torrentMap)[task.value.handle := task.value]
      ensures status != Success ==>
                && infohashMap == old(infohashMap) && torrentMap == old(torrentMap)
                && status == if task.None? then ErrorParams else AddTaskExist
      ensures finished == old(finished) && changed == old(changed)
    {
      if task.None? {
        return ErrorParams;
      }
      var isAddSuccess := false;
      var t := task.value;
      if t.infohash != "" && (|t.infohash| == INFOHASH_LENGTH || t.isTorrentUrl) {
        if t.infohash !in infohashMap {
          infohashMap := infohashMap[t.infohash := task];
          torrentMap := torrentMap[t.handle := t];
          isAddSuccess := true;
        }
      }
      status := if isAddSuccess then Success else AddTaskExist;
    }

    /** The source reads the entry before it tests that there is one. */
    method RemoveTorrentTmp(handle: nat, infohash: string)
      requires infohash in infohashMap
      modifies this
      ensures View() == Removed(old(View()), handle, infohash)
      ensures old(infohashMap)[infohash].Some? ==>
                && infohashMap == old(infohashMap) - {infohash} && torrentMap == old(torrentMap) - {handle}
                && finished == old(finished) + [Finished(infohash, old(infohashMap)[infohash])] && changed
      ensures old(infohashMap)[infohash].None? ==> View() == old(View())
    {
      var task := infohashMap[infohash];
      if task.None? {
        return;
      }
      finished := finished + [Finished(infohash, task)];
      changed := true;
      infohashMap := infohashMap - {infohash};
      torrentMap := torrentMap - {handle};
    }

    method GetFinishedTaskByInfohash(infohash: string) returns (task: Option<Task>)
      ensures task == FinishedTask(finished, infohash)
    {
      if infohash == "" {
        return None;
      }
      var it := 0;
      assert finished[0..] == finished;
      while it < |finished|
        invariant it <= |finished| && FinishedTask(finished, infohash) == FinishedTask(finished[it..], infohash)
      {
        if finished[it].infohash == infohash {
          return finished[it].task;
        }
        assert finished[it..][1..] == finished[it + 1..];
        it := it + 1;
      }
      task := None;
    }

    method UpdateInfohashByTorrentUrl(torrentUrl: string, infohash: string)
      requires RekeyDefined(View(), torrentUrl, infohash)
      modifies this
      ensures View() == Rekeyed(old(View()), torrentUrl, infohash)
      ensures torrentMap == old(torrentMap) && finished == old(finished) && changed == old(changed)
      ensures torrentUrl == "" || |infohash| != 40 || torrentUrl !in old(infohashMap) ==>
                infohashMap == old(infohashMap)
      ensures torrentUrl != "" && |infohash| == 40 && torrentUrl in old(infohashMap) ==>
                && (forall k :: k in infohashMap <==> k != torrentUrl && (k == infohash || k in old(infohashMap)))
                && forall k | k in infohashMap ::
                     infohashMap[k] == old(infohashMap)[if k in old(infohashMap) then k else torrentUrl]
    {
      if torrentUrl == "" || infohash == "" || |infohash| != INFOHASH_LENGTH {
        return;
      }
      if torrentUrl !in infohashMap {
        var finishedTask := GetFinishedTaskByInfohash(torrentUrl);
        if finishedTask.None? {
          return;
        }
        assert false;
      } else {
        var task := infohashMap[torrentUrl];
        if infohash !in infohashMap {
          infohashMap := infohashMap[infohash := task];
        }
        infohashMap := infohashMap - {torrentUrl};
      }
    }

    /** The lookup in SetTaskOptions. */
    method TaskOfOptions(infohash: string) returns (status: Status)
      requires infohash != ""
      modifies this
      ensures View() == LookedUp(old(View()), infohash)
      ensures infohash in infohashMap && torrentMap == old(torrentMap) && finished == old(finished)
      ensures if infohash in old(infohashMap) then infohashMap == old(infohashMap)
              else infohashMap == old(infohashMap)[infohash := None]
      ensures status == if infohashMap[infohash].None? then TaskNotExist else Success
    {
      if infohash !in infohashMap {
        infohashMap := infohashMap[infohash := None];
      }
      status := if infohashMap[infohash].None? then TaskNotExist else Success;
    }

    /** The erase loop of TimerCallback.  Its branch for a null task goes round without moving on. */
    method EraseTimedOut(ends: EndTimes, now: int, timeout: int)
      requires NoNull(finished, 0)
      modifies this
      ensures View() == TimedOut(old(View()), ends, now, timeout)
      ensures infohashMap == old(infohashMap) && torrentMap == old(torrentMap)
      ensures changed <==> old(changed) || |finished| < |old(finished)|
    {
      hide Kept, NoNull, ExpiredAt;
      var it := 0;
      KeptStart(finished, ends, now, timeout);
      while it < |finished|
        invariant it <= |finished| <= |old(finished)|
        invariant infohashMap == old(infohashMap) && torrentMap == old(torrentMap)
        invariant NoNull(finished, it)
        invariant KeptAfter(finished, it, ends, now, timeout) == Kept(old(finished), ends, now, timeout)
        invariant changed == (old(changed) || |finished| < |old(finished)|)
        decreases |finished| - it
      {
        NoNullAt(finished, it);
        var task := finished[it].task;
        if task.None? {
          assert false;
        }
        KeptStep(finished, it, ends, now, timeout);
        if now - ends(task.value) > timeout && timeout != -1 {
          finished := Without(finished, it);
          changed := true;
        } else {
          it := it + 1;
        }
      }
      KeptEnd(finished, ends, now, timeout);
    }
  }

  predicate NoNull(list: seq<Finished>, from: nat)
  {
    forall i | from <= i < |list| :: list[i].task.Some?
  }

  predicate ExpiredAt(f: Finished, ends: EndTimes, now: int, timeout: int)
  {
    f.task.Some? && Expired(ends(f.task.value), now, timeout)
  }

  /** list.erase(it). */
  function Without(list: seq<Finished>, it: nat): seq<Finished>
    requires it < |list|
  {
    list[..it] + list[it + 1..]
  }

  function KeptAfter(list: seq<Finished>, it: nat, ends: EndTimes, now: int, timeout: int): seq<Finished>
    requires it <= |list|
  {
    list[..it] + Kept(list[it..], ends, now, timeout)
  }

  lemma KeptStart(list: seq<Finished>, ends: EndTimes, now: int, timeout: int)
    ensures KeptAfter(list, 0, ends, now, timeout) == Kept(list, ends, now, timeout)
  {
    assert list[0..] == list && [] + Kept(list, ends, now, timeout) == Kept(list, ends, now, timeout);
  }

  lemma KeptEnd(list: seq<Finished>, ends: EndTimes, now: int, timeout: int)
    ensures KeptAfter(list, |list|, ends, now, timeout) == list
  {
  }

  lemma NoNullAt(list: seq<Finished>, it: nat)
    requires NoNull(list, it) && it < |list|
    ensures list[it].task.Some? && NoNull(list, it + 1) && NoNull(Without(list, it), it)
  {
  }

  lemma KeptStep(list: seq<Finished>, it: nat, ends: EndTimes, now: int, timeout: int)
    requires it < |list| && list[it].task.Some?
    ensures KeptAfter(list, it, ends, now, timeout)
            == if Expired(ends(list[it].task.value), now, timeout)
               then KeptAfter(Without(list, it), it, ends, now, timeout)
               else KeptAfter(list, it + 1, ends, now, timeout)
  {
    var rest := list[it + 1..];
    assert list[it..][1..] == rest;
    if Expired(ends(list[it].task.value), now, timeout) {
      var w := Without(list, it);
      assert w[..it] == list[..it] && w[it..] == rest;
      assert [] + Kept(rest, ends, now, timeout) == Kept(rest, ends, now, timeout);
    } else {
      hide Kept;
      Regroup(list[..it], [list[it]], Kept(rest, ends, now, timeout));
      assert list[..it + 1] == list[..it] + [list[it]];
    }
  }

  // -------------------------------------------------------------- runs

  datatype Action =
    | Add(task: Option<Task>)
    | Remove(handle: nat, infohash: string)
    | Rekey(url: string, newInfohash: string)
    | LookUp(key: string)
    | Timer(ends: EndTimes, now: int, timeout: int)

  predicate Known(s: State, t: Task)
  {
    Running(s, t) || InFinished(s, t)
  }

  /** What the callers see to: new tasks with new handles, removals and re-keys of what is registered. */
  ghost predicate Allowed(s: State, a: Action)
  {
    match a
    case Add(task) => task.Some? ==> !Known(s, task.value) && task.value.handle !in s.torrentMap
    case Remove(handle, infohash) =>
      infohash in s.infohashMap
      && (s.infohashMap[infohash].Some? ==> s.infohashMap[infohash].value.handle == handle)
    case Rekey(url, infohash) =>
      RekeyDefined(s, url, infohash) && (RekeyMoves(s, url, infohash) ==> infohash !in s.infohashMap)
    case LookUp(_) => true
    case Timer(_, _, _) => true
  }

  ghost function After(s: State, a: Action): State
    requires Allowed(s, a)
  {
    match a
    case Add(task) => Added(s, task).0
    case Remove(handle, infohash) => Removed(s, handle, infohash)
    case Rekey(url, infohash) => Rekeyed(s, url, infohash)
    case LookUp(key) => LookedUp(s, key)
    case Timer(ends, now, timeout) => TimedOut(s, ends, now, timeout)
  }

  lemma AddKeepsInv(s: State, t: Task)
    requires Inv(s) && !Known(s, t) && t.handle !in s.torrentMap
    ensures Inv(Added(s, Some(t)).0)
  {
    var r := Added(s, Some(t)).0;
    if r != s {
      assert r.infohashMap[t.infohash] == Some(t);
      forall u | Running(s, u)
        ensures Running(r, u)
      {
        var k :| k in s.infohashMap && s.infohashMap[k] == Some(u);
        assert r.infohashMap[k] == Some(u);
      }
      assert Running(r, t);
    }
  }

  /** A removal keeps the registry sound exactly when the handle is that of the registered task. */
  lemma RemoveKeepsInvIff(s: State, handle: nat, infohash: string)
    requires Inv(s) && infohash in s.infohashMap
    ensures Inv(Removed(s, handle, infohash))
            <==> (s.infohashMap[infohash].Some? ==> s.infohashMap[infohash].value.handle == handle)
  {
    var r := Removed(s, handle, infohash);
    if s.infohashMap[infohash].Some? && s.infohashMap[infohash].value.handle != handle {
      var t := s.infohashMap[infohash].value;
      assert t.handle in r.torrentMap && !Running(r, t);
    } else if s.infohashMap[infohash].Some? {
      var t := s.infohashMap[infohash].value;
      forall h | h in r.torrentMap
        ensures Running(r, r.torrentMap[h])
      {
        var k :| k in s.infohashMap && s.infohashMap[k] == Some(s.torrentMap[h]);
        assert k in r.infohashMap && r.infohashMap[k] == Some(r.torrentMap[h]);
      }
      assert !Running(r, t);
      assert Running(s, t);
    }
  }

  /**
   A re-key keeps the registry sound exactly when the new infohash is not registered yet, or the entry
   it moves is a null one: over a registered infohash the task would be dropped from one map only.
   */
  lemma RekeyKeepsInvIff(s: State, url: string, infohash: string)
    requires Inv(s) && RekeyMoves(s, url, infohash)
    ensures Inv(Rekeyed(s, url, infohash)) <==> infohash !in s.infohashMap || s.infohashMap[url].None?
  {
    var r := Rekeyed(s, url, infohash);
    if infohash !in s.infohashMap || s.infohashMap[url].None? {
      forall u: Task | Running(s, u)
        ensures Running(r, u)
      {
        var k :| k in s.infohashMap && s.infohashMap[k] == Some(u);
        var l := if k == url then infohash else k;
        assert l in r.infohashMap && r.infohashMap[l] == Some(u);
      }
      RekeyKeepsOthers(s, url, infohash);
    } else {
      var t := s.infohashMap[url].value;
      assert t.handle in r.torrentMap && !Running(r, t);
    }
  }

  /** Whatever runs after a re-key ran before it. */
  lemma RekeyKeepsOthers(s: State, url: string, infohash: string)
    requires RekeyMoves(s, url, infohash)
    ensures forall u: Task | Running(Rekeyed(s, url, infohash), u) :: Running(s, u)
  {
    var r := Rekeyed(s, url, infohash);
    forall u: Task | Running(r, u)
      ensures Running(s, u)
    {
      var k :| k in r.infohashMap && r.infohashMap[k] == Some(u);
      var l := if k in s.infohashMap then k else url;
      assert s.infohashMap[l] == Some(u);
    }
  }

  lemma LookUpKeepsInv(s: State, key: string)
    requires Inv(s)
    ensures Inv(LookedUp(s, key)) && forall u: Task :: Running(s, u) <==> Running(LookedUp(s, key), u)
  {
    var r := LookedUp(s, key);
    forall u: Task
      ensures Running(s, u) <==> Running(r, u)
    {
      if Running(s, u) {
        var k :| k in s.infohashMap && s.infohashMap[k] == Some(u);
        assert r.infohashMap[k] == Some(u);
      }
      if Running(r, u) {
        var k :| k in r.infohashMap && r.infohashMap[k] == Some(u);
        assert s.infohashMap[k] == Some(u);
      }
    }
  }

  /** Exactly the entries whose time since the end is within the timeout stay; with timeout -1 all of them. */
  lemma {:induction false} KeptMember(list: seq<Finished>, ends: EndTimes, now: int, timeout: int, f: Finished)
    ensures f in Kept(list, ends, now, timeout)
            <==> f in list && (f.task.Some? ==> now - ends(f.task.value) <= timeout || timeout == -1)
  {
    if list != [] {
      KeptMember(list[1..], ends, now, timeout, f);
      assert list == [list[0]] + list[1..];
    }
  }

  /** One entry at a time. */
  lemma KeptOne(f: Finished, ends: EndTimes, now: int, timeout: int)
    ensures Kept([f], ends, now, timeout)
            == if f.task.Some? && now - ends(f.task.value) > timeout && timeout != -1 then [] else [f]
  {
  }

  /** In their order. */
  lemma {:induction false} KeptSplit(a: seq<Finished>, b: seq<Finished>, ends: EndTimes, now: int, timeout: int)
    ensures Kept(a + b, ends, now, timeout) == Kept(a, ends, now, timeout) + Kept(b, ends, now, timeout)
  {
    hide ExpiredAt;
    if a == [] {
      assert a + b == b;
    } else {
      assert (a + b)[1..] == a[1..] + b;
      KeptSplit(a[1..], b, ends, now, timeout);
      Regroup(if ExpiredAt(a[0], ends, now, timeout) then [] else [a[0]],
                Kept(a[1..], ends, now, timeout), Kept(b, ends, now, timeout));
    }
  }

  lemma {:induction false} KeptDistinct(list: seq<Finished>, ends: EndTimes, now: int, timeout: int)
    requires DistinctTasks(list)
    ensures DistinctTasks(Kept(list, ends, now, timeout))
  {
    hide ExpiredAt;
    if list != [] {
      var rest := list[1..];
      var kept := Kept(rest, ends, now, timeout);
      assert forall i, j | 0 <= i < j < |rest| :: rest[i] == list[i + 1] && rest[j] == list[j + 1];
      KeptDistinct(rest, ends, now, timeout);
      forall k | 0 <= k < |kept|
        ensures list[0].task != kept[k].task
      {
        KeptMember(rest, ends, now, timeout, kept[k]);
        var i :| 0 <= i < |rest| && rest[i] == kept[k];
        assert list[i + 1].task != list[0].task;
      }
    }
  }

  lemma TimerKeepsInv(s: State, ends: EndTimes, now: int, timeout: int)
    requires Inv(s)
    ensures Inv(TimedOut(s, ends, now, timeout))
  {
    var r := TimedOut(s, ends, now, timeout);
    KeptDistinct(s.finished, ends, now, timeout);
    forall f | f in r.finished
      ensures f in s.finished
    {
      KeptMember(s.finished, ends, now, timeout, f);
    }
    assert forall u: Task :: Running(s, u) <==> Running(r, u);
  }

  lemma StepKeepsInv(s: State, a: Action)
    requires Inv(s) && Allowed(s, a)
    ensures Inv(After(s, a))
  {
    hide Inv, Added, Removed, Rekeyed, LookedUp, TimedOut;
    match a
    case Add(task) =>
      if task.Some? {
        AddKeepsInv(s, task.value);
      } else {
        NothingDone(s, "", "");
      }
    case Remove(handle, infohash) => RemoveKeepsInvIff(s, handle, infohash);
    case Rekey(url, infohash) =>
      if RekeyMoves(s, url, infohash) {
        RekeyKeepsInvIff(s, url, infohash);
      } else {
        NothingDone(s, url, infohash);
      }
    case LookUp(key) => LookUpKeepsInv(s, key);
    case Timer(ends, now, timeout) => TimerKeepsInv(s, ends, now, timeout);
  }

  lemma NothingDone(s: State, url: string, infohash: string)
    ensures Added(s, None).0 == s && (!RekeyMoves(s, url, infohash) ==> Rekeyed(s, url, infohash) == s)
  {
  }

  datatype Run = Run(states: seq<State>, actions: seq<Action>)

  ghost predicate StepAt(run: Run, i: nat)
    requires |run.states| == |run.actions| + 1 && i < |run.actions|
  {
    Allowed(run.states[i], run.actions[i]) && run.states[i + 1] == After(run.states[i], run.actions[i])
  }

  ghost predicate IsRun(run: Run)
  {
    && |run.states| == |run.actions| + 1
    && run.states[0] == State(map[], map[], [], true)
    && forall i | 0 <= i < |run.actions| :: StepAt(run, i)
  }

  /** Every state of every run is sound. */
  lemma {:induction false} RunKeepsInv(run: Run, i: nat)
    requires IsRun(run) && i < |run.states|
    ensures Inv(run.states[i])
  {
    if 0 < i {
      RunKeepsInv(run, i - 1);
      assert StepAt(run, i - 1);
      StepKeepsInv(run.states[i - 1], run.actions[i - 1]);
    }
  }

  /** The action times t out. */
  ghost predicate TimesOut(s: State, a: Action, t: Task)
  {
    a.Timer? && InFinished(s, t) && Expired(a.ends(t), a.now, a.timeout)
  }

  lemma StepKeepsTask(s: State, a: Action, t: Task)
    requires Inv(s) && Allowed(s, a) && Known(s, t) && !TimesOut(s, a, t)
    ensures Known(After(s, a), t) && (InFinished(s, t) ==> InFinished(After(s, a), t))
  {
    if InFinished(s, t) {
      var f :| f in s.finished && f.task == Some(t);
      if a.Timer? {
        KeptMember(s.finished, a.ends, a.now, a.timeout, f);
      }
      assert f in After(s, a).finished;
    } else {
      var k :| k in s.infohashMap && s.infohashMap[k] == Some(t);
      RunningStays(s, a, t, k);
    }
  }

  lemma RunningStays(s: State, a: Action, t: Task, k: string)
    requires Allowed(s, a) && k in s.infohashMap && s.infohashMap[k] == Some(t)
    ensures Known(After(s, a), t)
  {
    var r := After(s, a);
    if a.Remove? && a.infohash == k {
      assert r.finished[|s.finished|].task == Some(t);
      assert r.finished[|s.finished|] in r.finished;
    } else {
      var l := if a.Rekey? && RekeyMoves(s, a.url, a.newInfohash) && a.url == k then a.newInfohash else k;
      assert l in r.infohashMap && r.infohashMap[l] == Some(t);
      assert Running(r, t);
    }
  }

  /** Tasks leave only by timeout, and what is finished stays finished until then. */
  lemma {:induction false} LeavesOnlyByTimeout(run: Run, t: Task, i: nat, j: nat)
    requires IsRun(run) && i <= j < |run.states| && Known(run.states[i], t)
    requires forall k | i <= k < j :: !TimesOut(run.states[k], run.actions[k], t)
    ensures Known(run.states[j], t) && (InFinished(run.states[i], t) ==> InFinished(run.states[j], t))
    ensures !(Running(run.states[j], t) && InFinished(run.states[j], t))
    decreases j
  {
    hide Known, InFinished, Inv;
    RunKeepsInv(run, j);
    NotBoth(run.states[j], t);
    if i < j {
      LeavesOnlyByTimeout(run, t, i, j - 1);
      assert StepAt(run, j - 1);
      RunKeepsInv(run, j - 1);
      StepKeepsTask(run.states[j - 1], run.actions[j - 1], t);
    }
  }

  lemma NotBoth(s: State, t: Task)
    requires Inv(s)
    ensures !(Running(s, t) && InFinished(s, t))
  {
  }

  /** What an add does in a run: a usable, unregistered task runs afterwards; any other add changes nothing. */
  lemma AddedIsRunning(run: Run, i: nat, t: Task)
    requires IsRun(run) && i < |run.actions| && run.actions[i] == Add(Some(t))
    ensures var s, r := run.states[i], run.states[i + 1];
            if t.infohash != "" && t.infohash !in s.infohashMap && (|t.infohash| == 40 || t.isTorrentUrl)
            then Running(r, t) && r.infohashMap == s.infohashMap[t.infohash := Some(t)] && r.finished == s.finished
            else r == s
  {
    assert StepAt(run, i);
    assert CanAdd(t) && t.infohash !in run.states[i].infohashMap ==>
        run.states[i + 1].infohashMap[t.infohash] == Some(t);
  }

  /** What a removal does in a run: a task under this infohash stops running and is the last finished one. */
  lemma RemovedIsFinished(run: Run, i: nat, handle: nat, key: string)
    requires IsRun(run) && i < |run.actions| && run.actions[i] == Remove(handle, key)
    ensures key in run.states[i].infohashMap
    ensures run.states[i].infohashMap[key].Some? ==>
              var r, t := run.states[i + 1], run.states[i].infohashMap[key].value;
              !Running(r, t) && r.finished == run.states[i].finished + [Finished(key, Some(t))] && r.changed
  {
    assert StepAt(run, i);
    RunKeepsInv(run, i);
    RunKeepsInv(run, i + 1);
    if run.states[i].infohashMap[key].Some? {
      var r := run.states[i + 1];
      assert r.finished[|r.finished| - 1] in r.finished;
    }
  }

  /** What a re-key does in a run: the entry found under the URL is under the infohash, and no longer under the URL. */
  lemma RekeyedIsFound(run: Run, i: nat, url: string, infohash: string)
    requires IsRun(run) && i < |run.actions| && run.actions[i] == Rekey(url, infohash)
    ensures var s, r := run.states[i], run.states[i + 1];
            if url != "" && |infohash| == 40 && url in s.infohashMap
            then infohash in r.infohashMap && r.infohashMap[infohash] == s.infohashMap[url] && url !in r.infohashMap
                 && r.torrentMap == s.torrentMap && r.finished == s.finished
            else r == s
  {
    assert StepAt(run, i);
  }

  /** What the timer does in a run: a finished task goes exactly when its time is up. */
  lemma TimedOutIff(run: Run, i: nat, t: Task)
    requires IsRun(run) && i < |run.actions| && run.actions[i].Timer? && InFinished(run.states[i], t)
    ensures var a := run.actions[i];
            InFinished(run.states[i + 1], t) <==> a.now - a.ends(t) <= a.timeout || a.timeout == -1
  {
    assert StepAt(run, i);
    var s, r, a := run.states[i], run.states[i + 1], run.actions[i];
    var f :| f in s.finished && f.task == Some(t);
    KeptMember(s.finished, a.ends, a.now, a.timeout, f);
    if g :| g in r.finished && g.task == Some(t) {
      KeptMember(s.finished, a.ends, a.now, a.timeout, g);
    }
  }

  /** The action re-keys the entry under `key`: one that lacks arguments or finds nothing moves none. */
  predicate MovesKey(s: State, a: Action, key: string)
  {
    a.Rekey? && a.url == key && RekeyMoves(s, a.url, a.newInfohash)
  }

  /**
   Setting options of an unknown infohash leaves a null entry; until a re-key moves it, no task can be added
   there.
   */
  lemma {:induction false} NullEntryBlocks(run: Run, key: string, i: nat, j: nat, t: Task)
    requires IsRun(run) && i <= j < |run.states|
    requires key in run.states[i].infohashMap && run.states[i].infohashMap[key].None? && t.infohash == key
    requires forall k | i <= k < j :: !MovesKey(run.states[k], run.actions[k], key)
    ensures key in run.states[j].infohashMap && run.states[j].infohashMap[key].None?
    ensures Added(run.states[j], Some(t)) == (run.states[j], AddTaskExist)
    decreases j
  {
    if i < j {
      NullEntryBlocks(run, key, i, j - 1, t);
      assert StepAt(run, j - 1);
      NullEntryStays(run.states[j - 1], run.actions[j - 1], key);
    }
  }

  lemma NullEntryStays(s: State, a: Action, key: string)
    requires Allowed(s, a) && key in s.infohashMap && s.infohashMap[key].None? && !MovesKey(s, a, key)
    ensures key in After(s, a).infohashMap && After(s, a).infohashMap[key].None?
  {
  }

  predicate HasNull(s: State)
  {
    exists key :: key in s.infohashMap && s.infohashMap[key].None?
  }

  /** A look-up of an infohash that is not registered. */
  predicate LooksUpUnknown(s: State, a: Action)
  {
    a.LookUp? && a.key != "" && a.key !in s.infohashMap
  }

  /** A step makes the first null entry exactly if it is such a look-up. */
  lemma FirstNullIff(s: State, a: Action)
    requires Allowed(s, a) && !HasNull(s)
    ensures HasNull(After(s, a)) <==> LooksUpUnknown(s, a)
  {
    var r := After(s, a);
    if LooksUpUnknown(s, a) {
      assert a.key in r.infohashMap && r.infohashMap[a.key].None?;
    } else {
      forall key | key in r.infohashMap
        ensures r.infohashMap[key].Some?
      {
        var source := if key in s.infohashMap then key else if a.Rekey? then a.url else key;
        assert source in s.infohashMap ==> s.infohashMap[source].Some?;
      }
    }
  }

  /** Null entries come only from options asked for under an unknown infohash. */
  lemma {:induction false} NullsComeFromLookUps(run: Run, i: nat)
    requires IsRun(run) && i < |run.states|
    requires forall k | 0 <= k < i :: !LooksUpUnknown(run.states[k], run.actions[k])
    ensures !HasNull(run.states[i])
  {
    if 0 < i {
      NullsComeFromLookUps(run, i - 1);
      assert StepAt(run, i - 1);
      FirstNullIff(run.states[i - 1], run.actions[i - 1]);
    }
  }
}
