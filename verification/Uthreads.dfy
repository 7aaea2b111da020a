/** The thread library of Ex02/uthreads.cpp with its lists of thread objects, updated in place. Each
    method is proved against the function of Scheduler that says what it does to the thread records. */
module Uthreads {
  import opened Scheduler
  import opened SchedulerRuns

  class Thread {
    const id: int
    var state: State
    var sleep: bool
    var timeToSleep: int
    var quantums: nat

    constructor (id: int)
      ensures this.id == id && Value() == Tcb(id, READY, false, 0, 0)
    {
      this.id := id;
      state, sleep, timeToSleep, quantums := READY, false, 0, 0;
    }

    ghost function Value(): Tcb
      reads this
    {
      Tcb(id, state, sleep, timeToSleep, quantums)
    }
  }

  ghost function Records(threads: seq<Thread>): (r: seq<Tcb>)
    reads threads
    ensures |r| == |threads|
    ensures forall i {:trigger r[i]} :: 0 <= i < |r| ==> r[i] == threads[i].Value()
  {
    seq(|threads|, i requires 0 <= i < |threads| reads threads => threads[i].Value())
  }

  ghost function Ids(threads: seq<Thread>): (r: seq<int>)
    ensures |r| == |threads|
    ensures forall i {:trigger r[i]} :: 0 <= i < |r| ==> r[i] == threads[i].id
  {
    seq(|threads|, i requires 0 <= i < |threads| => threads[i].id)
  }

  /** No two of the listed threads have the same id. */
  ghost predicate Distinct(threads: seq<Thread>) {
    forall i, j {:trigger threads[i], threads[j]} :: 0 <= i < j < |threads| ==> threads[i].id != threads[j].id
  }

  lemma SameThread(threads: seq<Thread>, t: Thread, u: Thread)
    requires Distinct(threads) && t in threads && u in threads && t.id == u.id
    ensures t == u
  {
  }

  lemma FindThread(threads: seq<Thread>, t: Thread)
    requires Distinct(threads) && t in threads
    ensures HasId(Records(threads), t.id) && threads[Find(Records(threads), t.id)] == t
  {
    var i :| 0 <= i < |threads| && threads[i] == t;
    assert Records(threads)[i].id == t.id;
    SameThread(threads, threads[Find(Records(threads), t.id)], t);
  }

  // What writing the fields of one thread object does to the records: that one changes, and no other.

  lemma StateSet(threads: seq<Thread>, was: seq<Tcb>, now: seq<Tcb>, t: Thread, st: State)
    requires Distinct(threads) && t in threads && |was| == |now| == |threads|
    requires forall i {:trigger was[i]} {:trigger now[i]} :: 0 <= i < |threads| ==>
               was[i].id == threads[i].id && now[i] == if threads[i] == t then was[i].(state := st) else was[i]
    ensures now == WithState(was, t.id, st)
  {
    forall i {:trigger now[i]} | 0 <= i < |threads|
      ensures now[i] == WithState(was, t.id, st)[i]
    {
      if threads[i].id == t.id { SameThread(threads, threads[i], t); }
    }
  }

  lemma QuantumCounted(threads: seq<Thread>, was: seq<Tcb>, now: seq<Tcb>, t: Thread)
    requires Distinct(threads) && t in threads && |was| == |now| == |threads|
    requires forall i {:trigger was[i]} {:trigger now[i]} :: 0 <= i < |threads| ==>
               && was[i].id == threads[i].id
               && now[i] == if threads[i] == t then was[i].(quantums := was[i].quantums + 1) else was[i]
    ensures now == WithQuantum(was, t.id)
  {
    forall i {:trigger now[i]} | 0 <= i < |threads|
      ensures now[i] == WithQuantum(was, t.id)[i]
    {
      if threads[i].id == t.id { SameThread(threads, threads[i], t); }
    }
  }

  lemma SleepSet(threads: seq<Thread>, was: seq<Tcb>, now: seq<Tcb>, t: Thread, n: int)
    requires Distinct(threads) && t in threads && |was| == |now| == |threads|
    requires forall i {:trigger was[i]} {:trigger now[i]} :: 0 <= i < |threads| ==>
               && was[i].id == threads[i].id
               && now[i] == if threads[i] == t then was[i].(sleep := true, timeToSleep := n, state := READY)
                            else was[i]
    ensures now == WithSleep(was, t.id, n)
  {
    forall i {:trigger now[i]} | 0 <= i < |threads|
      ensures now[i] == WithSleep(was, t.id, n)[i]
    {
      if threads[i].id == t.id { SameThread(threads, threads[i], t); }
    }
  }

  /** The first position of id is the one that Remove takes out. */
  lemma FirstIs(ids: seq<int>, id: int, i: nat, p: nat)
    requires i < |ids| && ids[i] == id && forall j {:trigger ids[j]} :: 0 <= j < i ==> ids[j] != id
    requires p < |ids| && ids[p] == id && id !in ids[..p]
    ensures i == p
  {
    assert forall j {:trigger ids[j]} | 0 <= j < p :: ids[j] == ids[..p][j] && ids[j] in ids[..p];
  }

  lemma WithoutThread(threads: seq<Thread>, i: nat)
    requires Distinct(threads) && i < |threads|
    ensures var rest := threads[..i] + threads[i + 1..];
            && Distinct(rest)
            && forall t {:trigger t in rest} :: t in rest <==> t in threads && t.id != threads[i].id
  {
    var rest := threads[..i] + threads[i + 1..];
    forall t {:trigger t in rest}
      ensures t in rest <==> t in threads && t.id != threads[i].id
    {
      if t in threads && t.id != threads[i].id {
        var k :| 0 <= k < |threads| && threads[k] == t;
        assert rest[if k < i then k else k - 1] == t;
      }
      if t in rest {
        var k :| 0 <= k < |rest| && rest[k] == t;
        assert threads[if k < i then k else k + 1] == t;
      }
    }
  }

  lemma RecordsWithout(threads: seq<Thread>, i: nat)
    requires Distinct(threads) && i < |threads|
    ensures HasId(Records(threads), threads[i].id)
    ensures Records(threads[..i] + threads[i + 1..]) == RemoveId(Records(threads), threads[i].id)
  {
    var was := Records(threads);
    assert was[i].id == threads[i].id;
    FindThread(threads, threads[i]);
    SameThread(threads, threads[Find(was, threads[i].id)], threads[i]);
    RemoveIdAt(was, threads[i].id);
    assert Records(threads[..i] + threads[i + 1..]) == was[..i] + was[i + 1..];
  }

  lemma RunningIsFirst(s: Sched)
    requires Inv(s)
    ensures s.ready != [] && s.ready[0] == s.running
  {
  }

  lemma MainExists(s: Sched)
    requires Inv(s)
    ensures Exists(s, 0) && HasId(s.all, s.running)
  {
    assert TcbOk(s, s.all[Find(s.all, 0)]);
    RunningTcb(s);
  }

  lemma GoneReady(s: Sched, tid: int, ready: seq<int>)
    requires 0 <= tid < |s.available|
    ensures Gone(s.(ready := ready), tid, ready) == Gone(s, tid, ready)
    ensures Gone(s, tid, ready).ready == ready
  {
  }

  lemma Unqueued(queue: seq<Thread>, id: int)
    requires id !in Ids(queue)
    ensures forall k {:trigger queue[k]} :: 0 <= k < |queue| ==> queue[k].id != id
  {
    forall k {:trigger queue[k]} | 0 <= k < |queue|
      ensures queue[k].id != id
    {
      assert Ids(queue)[k] in Ids(queue);
    }
  }

  /** The state in which time_handler has come to dispatch the next thread. */
  lemma TickIs(s: Sched, before: Sched)
    requires s.ready != []
    requires before == s.(ready := (s.ready + WokenIds(s.all, |s.all|))[1..] + [s.running],
                          all := WithState(Ticked(s.all), s.running, READY))
    ensures before.ready != [] && Dispatch(before) == Tick(s)
  {
    assert before.ready == s.ready[1..] + WokenIds(s.all, |s.all|) + [s.running];
  }

  class Uthreads {
    var readyQueue: seq<Thread>
    var allThreads: seq<Thread>
    var availableId: seq<bool>
    var runningThread: Thread?
    var totalQuantum: nat
    ghost var retired: nat

    ghost function View(): Sched
      reads this, allThreads
    {
      Sched(Ids(readyQueue), Records(allThreads), availableId, if runningThread == null then -1 else runningThread.id,
            totalQuantum, retired)
    }

    /** The threads that the queue and the running pointer refer to are listed ones. */
    ghost predicate Listed()
      reads this
    {
      && Distinct(allThreads)
      && (forall k {:trigger readyQueue[k]} :: 0 <= k < |readyQueue| ==> readyQueue[k] in allThreads)
    }

    ghost predicate Valid()
      reads this, allThreads
    {
      Listed() && runningThread != null && runningThread in allThreads && Inv(View())
    }

    method SearchThread(id: int) returns (t: Thread?)
      ensures t == null <==> !HasId(Records(allThreads), id)
      ensures t != null ==> t in allThreads && t == allThreads[Find(Records(allThreads), id)]
    {
      var i := 0;
      while i < |allThreads|
        invariant i <= |allThreads|
        invariant forall j {:trigger allThreads[j]} :: 0 <= j < i ==> allThreads[j].id != id
      {
        if allThreads[i].id == id {
          assert Records(allThreads)[i].id == id;
          return allThreads[i];
        }
        i := i + 1;
      }
      return null;
    }

    method AvailableIndex() returns (index: int)
      ensures index == if FirstFree(availableId) == |availableId| then -1 else FirstFree(availableId)
    {
      index := 0;
      while index < |availableId|
        invariant 0 <= index <= |availableId|
        invariant forall j :: 0 <= j < index ==> availableId[j]
      {
        if !availableId[index] {
          return;
        }
        index := index + 1;
      }
      index := -1;
    }

    method CheckIfThreadExist(pos: int) returns (code: int)
      ensures code == if Exists(View(), pos) then 0 else -1
    {
      if 0 <= pos < |availableId| && availableId[pos] {
        return 0;
      }
      return -1;
    }

    method DeleteFromReadyQueue(id: int)
      requires Listed()
      modifies this`readyQueue
      ensures Listed() && Ids(readyQueue) == Remove(Ids(old(readyQueue)), id)
    {
      ghost var p := RemoveAt(Ids(readyQueue), id);
      var i := 0;
      while i < |readyQueue|
        invariant i <= |readyQueue| && readyQueue == old(readyQueue)
        invariant forall j {:trigger readyQueue[j]} :: 0 <= j < i ==> readyQueue[j].id != id
      {
        if readyQueue[i].id == id {
          FirstIs(Ids(readyQueue), id, i, p);
          readyQueue := readyQueue[..i] + readyQueue[i + 1..];
          assert Ids(readyQueue) == Ids(old(readyQueue))[..i] + Ids(old(readyQueue))[i + 1..];
          return;
        }
        i := i + 1;
      }
    }

    /** Takes the thread with this id off the list of all threads. */
    method EraseThread(id: int)
      requires Distinct(allThreads) && HasId(Records(allThreads), id)
      modifies this`allThreads
      ensures Records(allThreads) == RemoveId(old(Records(allThreads)), id) && Distinct(allThreads)
      ensures forall t {:trigger t in allThreads} :: t in allThreads <==> t in old(allThreads) && t.id != id
      ensures forall k {:trigger allThreads[k]} :: 0 <= k < |allThreads| ==> allThreads[k] in old(allThreads)
    {
      ghost var was := Records(allThreads);
      var i := 0;
      while allThreads[i].id != id
        invariant i <= Find(was, id) && allThreads == old(allThreads)
        decreases |allThreads| - i
      {
        i := i + 1;
      }
      WithoutThread(allThreads, i);
      RecordsWithout(allThreads, i);
      allThreads := allThreads[..i] + allThreads[i + 1..];
    }

    method SetState(t: Thread, st: State)
      requires Distinct(allThreads) && t in allThreads
      modifies t`state
      ensures Records(allThreads) == WithState(old(Records(allThreads)), t.id, st)
    {
      ghost var was := Records(allThreads);
      t.state := st;
      StateSet(allThreads, was, Records(allThreads), t, st);
    }

    method IncreaseQuantumCounter(t: Thread)
      requires Distinct(allThreads) && t in allThreads
      modifies t`quantums
      ensures Records(allThreads) == WithQuantum(old(Records(allThreads)), t.id)
    {
      ghost var was := Records(allThreads);
      t.quantums := t.quantums + 1;
      QuantumCounted(allThreads, was, Records(allThreads), t);
    }

    /** The common end of the three handlers: the front of the queue becomes the running thread and
        starts a quantum. */
    method RunFront()
      requires Listed() && readyQueue != []
      modifies this`runningThread, this`totalQuantum, allThreads
      ensures Listed() && runningThread == readyQueue[0]
      ensures View() == Dispatch(old(View()))
    {
      runningThread := readyQueue[0];
      totalQuantum := totalQuantum + 1;
      SetState(runningThread, RUNNING);
      IncreaseQuantumCounter(runningThread);
    }

    method BlockHandler(needToBlock: bool)
      requires Listed() && |readyQueue| > 1 && runningThread != null && runningThread in allThreads
      modifies this`readyQueue, this`runningThread, this`totalQuantum, allThreads
      ensures Listed() && runningThread != null && runningThread in allThreads
      ensures var s := old(View());
              View() == Dispatch(s.(ready := s.ready[1..],
                                    all := if needToBlock then WithState(s.all, s.running, BLOCKED) else s.all))
    {
      readyQueue := readyQueue[1..];
      assert Ids(readyQueue) == Ids(old(readyQueue))[1..];
      if needToBlock {
        SetState(runningThread, BLOCKED);
      }
      RunFront();
    }

    /** One sleeper's turn in sleep_check. */
    method CountDown(t: Thread)
      requires Listed() && t in allThreads
      modifies this`readyQueue, t
      ensures Listed() && t.Value() == TickTcb(old(t.Value()))
      ensures Ids(readyQueue) == Ids(old(readyQueue)) + if WakesReady(old(t.Value())) then [t.id] else []
    {
      if t.sleep {
        t.timeToSleep := t.timeToSleep - 1;
        if t.timeToSleep == 0 {
          t.sleep := false;
          if t.state.READY? {
            readyQueue := readyQueue + [t];
            assert Ids(readyQueue) == Ids(old(readyQueue)) + [t.id];
          }
        }
      }
    }

    method SleepCheck()
      requires Listed()
      modifies this`readyQueue, allThreads
      ensures Listed() && Records(allThreads) == Ticked(old(Records(allThreads)))
      ensures Ids(readyQueue) == Ids(old(readyQueue)) + WokenIds(old(Records(allThreads)), |allThreads|)
    {
      hide TickTcb, WakesReady, Records;
      ghost var was := Records(allThreads);
      var i := 0;
      while i < |allThreads|
        invariant i <= |allThreads| && Listed()
        invariant forall j {:trigger allThreads[j]} :: 0 <= j < |allThreads| ==>
                    allThreads[j].Value() == if j < i then TickTcb(was[j]) else was[j]
        invariant Ids(readyQueue) == Ids(old(readyQueue)) + WokenIds(was, i)
      {
        assert allThreads[i].Value() == was[i];
        CountDown(allThreads[i]);
        i := i + 1;
      }
    }

    /** What terminate does once the thread is off the ready queue. */
    method Forget(tid: int)
      requires Distinct(allThreads) && Exists(View(), tid) && HasId(Records(allThreads), tid)
      requires forall k {:trigger readyQueue[k]} :: 0 <= k < |readyQueue| ==>
                 readyQueue[k] in allThreads && readyQueue[k].id != tid
      modifies this`allThreads, this`availableId, this`retired
      ensures Listed() && View() == Gone(old(View()), tid, old(View()).ready)
      ensures forall t {:trigger t in allThreads} :: t in allThreads <==> t in old(allThreads) && t.id != tid
      ensures forall k {:trigger allThreads[k]} :: 0 <= k < |allThreads| ==> allThreads[k] in old(allThreads)
    {
      hide QuantumsOf, RemoveId, HasId;
      retired := retired + QuantumsOf(View(), tid);
      availableId := availableId[tid := false];
      EraseThread(tid);
    }

    method TerminateHandler(tid: int)
      requires Valid() && tid == runningThread.id && |readyQueue| > 1
      requires HasId(Records(allThreads), tid) && Exists(View(), tid)
      modifies this, allThreads
      ensures Listed() && runningThread != null && runningThread in allThreads
      ensures forall t {:trigger t in allThreads} | t in allThreads :: t in old(allThreads)
      ensures View() == Dispatch(Gone(old(View()), tid, old(View()).ready[1..]))
    {
      hide Inv, Dispatch, Gone;
      ghost var s := View();
      readyQueue := readyQueue[1..];
      assert Ids(readyQueue) == s.ready[1..];
      PopFront(s);
      Unqueued(readyQueue, tid);
      GoneReady(s, tid, s.ready[1..]);
      Forget(tid);
      RunFront();
    }

    method TimeHandler()
      requires Valid()
      modifies this`readyQueue, this`runningThread, this`totalQuantum, allThreads
      ensures Valid() && allThreads == old(allThreads)
      ensures View() == Tick(old(View()))
    {
      hide Inv, Tick, Dispatch, WithState, Ticked, WokenIds;
      ghost var s := View();
      RunningIsFirst(s);
      TickKeeps(s);
      SleepCheck();
      MoveToBack();
      SetState(runningThread, READY);
      TickIs(s, View());
      RunFront();
    }

    method MoveToBack()
      requires Listed() && readyQueue != [] && runningThread != null && runningThread in allThreads
      modifies this`readyQueue
      ensures Listed() && readyQueue != []
      ensures Ids(readyQueue) == Ids(old(readyQueue))[1..] + [runningThread.id]
    {
      readyQueue := readyQueue[1..] + [runningThread];
      assert Ids(readyQueue) == Ids(old(readyQueue))[1..] + [runningThread.id];
    }

    constructor ()
      ensures readyQueue == [] && allThreads == [] && runningThread == null
      ensures availableId == seq(MAX_THREAD_NUM, i => false) && totalQuantum == 0 && retired == 0
    {
      readyQueue, allThreads, runningThread := [], [], null;
      availableId := seq(MAX_THREAD_NUM, i => false);
      totalQuantum, retired := 0, 0;
    }

    method UthreadInit(quantumUsecs: int) returns (code: int)
      requires readyQueue == [] && allThreads == []
      requires availableId == seq(MAX_THREAD_NUM, i => false) && totalQuantum == 0 && retired == 0
      modifies this
      ensures quantumUsecs <= 0 ==> code == -1 && unchanged(this)
      ensures quantumUsecs > 0 ==> code == 0 && Valid() && View() == Init() && fresh(set t | t in allThreads)
    {
      hide Inv;
      if quantumUsecs <= 0 {
        return -1;
      }
      var mainThread := new Thread(0);
      mainThread.state := RUNNING;
      availableId := availableId[0 := true];
      allThreads := allThreads + [mainThread];
      readyQueue := readyQueue + [mainThread];
      runningThread := mainThread;
      mainThread.quantums := mainThread.quantums + 1;
      totalQuantum := totalQuantum + 1;
      InitKeeps();
      assert Ids(readyQueue) == [0] && Records(allThreads) == [Tcb(0, RUNNING, false, 0, 1)];
      assert View() == Init();
      return 0;
    }

    method UthreadSpawn(hasEntry: bool) returns (code: int)
      requires Valid()
      modifies this`readyQueue, this`allThreads, this`availableId
      ensures Valid() && View() == Apply(old(View()), SpawnOp(hasEntry))
      ensures code == Answer(old(View()), SpawnOp(hasEntry))
      ensures forall t {:trigger t in allThreads} | t in allThreads :: t in old(allThreads) || fresh(t)
    {
      hide Inv, Dispatch;
      SpawnKeeps(View(), hasEntry);
      if !hasEntry {
        return -1;
      }
      var index := AvailableIndex();
      if index == -1 {
        return -1;
      }
      var t := new Thread(index);
      NewIdIsFresh(index);
      readyQueue := readyQueue + [t];
      allThreads := allThreads + [t];
      availableId := availableId[index := true];
      assert Ids(readyQueue) == Ids(old(readyQueue)) + [index];
      assert Records(allThreads) == old(Records(allThreads)) + [t.Value()];
      return index;
    }

    lemma NewIdIsFresh(id: int)
      requires Valid() && 0 <= id < |availableId| && !availableId[id]
      ensures forall t {:trigger t.id} | t in allThreads :: t.id != id
    {
      FreeIdIsFresh(View(), id);
      forall t {:trigger t.id} | t in allThreads
        ensures t.id != id
      {
        FindThread(allThreads, t);
      }
    }

    /** Terminating the main thread ends the process: exits is then true and every list has been cleared. */
    method UthreadTerminate(tid: int) returns (code: int, exits: bool)
      requires Valid()
      modifies this, allThreads
      ensures exits <==> tid == 0
      ensures exits ==> readyQueue == [] && allThreads == []
      ensures !exits ==> Valid() && View() == Apply(old(View()), TerminateOp(tid))
      ensures !exits ==> code == Answer(old(View()), TerminateOp(tid))
      ensures forall t {:trigger t in allThreads} | t in allThreads :: t in old(allThreads)
    {
      hide Inv, Dispatch, Gone, Terminate, Apply, Answer;
      ghost var s := View();
      MainExists(s);
      var exist := CheckIfThreadExist(tid);
      if tid != 0 { TerminateIs(s, tid); }
      if exist == -1 {
        return -1, false;
      }
      if tid == 0 {
        readyQueue, allThreads := [], [];
        return 0, true;
      }
      if runningThread.id == tid {
        TerminateHandler(tid);
      } else {
        GoneReady(s, tid, Remove(s.ready, tid));
        DeleteFromReadyQueue(tid);
        Unqueued(readyQueue, tid);
        Forget(tid);
        FindThread(old(allThreads), runningThread);
      }
      return 0, false;
    }

    method UthreadBlock(tid: int) returns (code: int)
      requires Valid()
      modifies this`readyQueue, this`runningThread, this`totalQuantum, allThreads
      ensures Valid() && allThreads == old(allThreads) && View() == Apply(old(View()), BlockOp(tid))
      ensures code == Answer(old(View()), BlockOp(tid))
    {
      hide Inv, Dispatch, Apply, Answer, WithState, Records;
      BlockIs(View(), tid);
      var exist := CheckIfThreadExist(tid);
      if tid == 0 || exist == -1 {
        return -1;
      }
      var threadToBlock := SearchThread(tid);
      FindThread(allThreads, runningThread);
      if threadToBlock == runningThread {
        BlockHandler(true);
      } else if threadToBlock.state.READY? {
        BlockReady(threadToBlock);
      }
      return 0;
    }

    method BlockReady(t: Thread)
      requires Listed() && t in allThreads
      modifies this`readyQueue, t`state
      ensures var s := old(View());
              Listed() && View() == s.(ready := Remove(s.ready, t.id), all := WithState(s.all, t.id, BLOCKED))
    {
      hide WithState;
      DeleteFromReadyQueue(t.id);
      SetState(t, BLOCKED);
    }

    method ResumeBlocked(t: Thread)
      requires Listed() && t in allThreads
      modifies this`readyQueue, t`state
      ensures var s := old(View());
              Listed() && View() == s.(all := WithState(s.all, t.id, READY),
                                       ready := if old(t.sleep) then s.ready else s.ready + [t.id])
    {
      hide WithState;
      SetState(t, READY);
      if !t.sleep {
        readyQueue := readyQueue + [t];
        assert Ids(readyQueue) == Ids(old(readyQueue)) + [t.id];
      }
    }

    method UthreadResume(tid: int) returns (code: int)
      requires Valid()
      modifies this`readyQueue, allThreads
      ensures Valid() && allThreads == old(allThreads) && View() == Apply(old(View()), ResumeOp(tid))
      ensures code == Answer(old(View()), ResumeOp(tid))
    {
      hide Inv, Dispatch, Apply, Answer, WithState, Records;
      ResumeIs(View(), tid);
      var exist := CheckIfThreadExist(tid);
      if exist == -1 {
        return -1;
      }
      var threadToResume := SearchThread(tid);
      if threadToResume.state.BLOCKED? {
        ResumeBlocked(threadToResume);
      }
      return 0;
    }

    method SetSleep(t: Thread, n: int)
      requires Distinct(allThreads) && t in allThreads
      modifies t`sleep, t`timeToSleep, t`state
      ensures Records(allThreads) == WithSleep(old(Records(allThreads)), t.id, n)
    {
      ghost var was := Records(allThreads);
      t.sleep := true;
      t.timeToSleep := n;
      t.state := READY;
      SleepSet(allThreads, was, Records(allThreads), t, n);
    }

    method UthreadSleep(numQuantums: int) returns (code: int)
      requires Valid()
      modifies this`readyQueue, this`runningThread, this`totalQuantum, allThreads
      ensures Valid() && allThreads == old(allThreads) && View() == Apply(old(View()), SleepOp(numQuantums))
      ensures code == Answer(old(View()), SleepOp(numQuantums))
    {
      hide Inv, Dispatch, Apply, Answer, WithSleep;
      SleepIs(View(), numQuantums);
      if runningThread.id == 0 {
        return -1;
      }
      SetSleep(runningThread, numQuantums);
      BlockHandler(false);
      return 0;
    }

    /** One call or one tick. */
    method Step(op: Op) returns (code: int)
      requires Valid() && Survives(op)
      modifies this, allThreads
      ensures Valid() && View() == Apply(old(View()), op) && code == Answer(old(View()), op)
      ensures forall t {:trigger t in allThreads} | t in allThreads :: t in old(allThreads) || fresh(t)
    {
      hide Inv, Dispatch, View;
      code := 0;
      match op {
        case SpawnOp(hasEntry) => code := UthreadSpawn(hasEntry);
        case TerminateOp(tid) =>
          var exits;
          code, exits := UthreadTerminate(tid);
        case BlockOp(tid) => code := UthreadBlock(tid);
        case ResumeOp(tid) => code := UthreadResume(tid);
        case SleepOp(n) => code := UthreadSleep(n);
        case TickOp => TimeHandler();
      }
    }

    /** Any sequence of calls and ticks is a run of the scheduler. */
    method Perform(ops: seq<Op>)
      requires Valid() && AllSurvive(ops)
      modifies this, allThreads
      ensures Valid() && View() == Run(old(View()), ops)
    {
      hide Inv, Apply, View;
      var i := 0;
      while i < |ops|
        invariant i <= |ops| && Valid()
        invariant AllSurvive(ops[i..]) && Run(View(), ops[i..]) == Run(old(View()), ops)
        invariant forall t {:trigger t in allThreads} | t in allThreads :: t in old(allThreads) || fresh(t)
      {
        assert ops[i..][0] == ops[i] && ops[i..][1..] == ops[i + 1..];
        assert forall k {:trigger allThreads[k]} | 0 <= k < |allThreads| :: allThreads[k] in allThreads;
        var code := Step(ops[i]);
        i := i + 1;
      }
    }
  }
}
