/** The user-level thread scheduler of Ex02/uthreads.cpp as functions on its state: what each API call
    and each timer tick does to the queues, the thread records and the counters. */
module Scheduler {
  import opened Sums

  const MAX_THREAD_NUM := 100
  const FAILURE: int := -1

  datatype State = READY | RUNNING | BLOCKED

  /** The fields of class thread. */
  datatype Tcb = Tcb(id: int, state: State, sleep: bool, timeToSleep: int, quantums: nat)

  /** ready holds ids; retired is history: the final quantum counters of all terminated threads. */
  datatype Sched = Sched(ready: seq<int>, all: seq<Tcb>, available: seq<bool>, running: int, total: nat, retired: nat)

  // ----- lists -----

  predicate HasId(all: seq<Tcb>, id: int) {
    exists i :: 0 <= i < |all| && all[i].id == id
  }

  /** search_thread: the position of the first thread with this id. */
  function Find(all: seq<Tcb>, id: int): (i: nat)
    requires HasId(all, id)
    ensures i < |all| && all[i].id == id
    ensures forall j :: 0 <= j < i ==> all[j].id != id
  {
    if all[0].id == id then 0
    else
      assert HasId(all[1..], id) by {
        var i :| 0 <= i < |all| && all[i].id == id;
        assert all[1..][i - 1].id == id;
      }
      1 + Find(all[1..], id)
  }

  function Remove<T(==)>(s: seq<T>, x: T): seq<T> {
    if s == [] then [] else if s[0] == x then s[1..] else [s[0]] + Remove(s[1..], x)
  }

  function RemoveId(all: seq<Tcb>, id: int): seq<Tcb> {
    if all == [] then [] else if all[0].id == id then all[1..] else [all[0]] + RemoveId(all[1..], id)
  }

  /** available_index: the first free id, or the length of the table if there is none. */
  function FirstFree(available: seq<bool>): (i: nat)
    ensures i <= |available|
    ensures forall j :: 0 <= j < i ==> available[j]
    ensures i < |available| ==> !available[i]
  {
    if available == [] then 0 else if !available[0] then 0 else 1 + FirstFree(available[1..])
  }

  // ----- updates of one thread -----

  function WithState(all: seq<Tcb>, id: int, st: State): (r: seq<Tcb>)
    ensures |r| == |all|
  {
    seq(|all|, i requires 0 <= i < |all| => if all[i].id == id then all[i].(state := st) else all[i])
  }

  function WithQuantum(all: seq<Tcb>, id: int): (r: seq<Tcb>)
    ensures |r| == |all|
  {
    seq(|all|, i requires 0 <= i < |all| =>
      if all[i].id == id then all[i].(quantums := all[i].quantums + 1) else all[i])
  }

  function WithSleep(all: seq<Tcb>, id: int, n: int): (r: seq<Tcb>)
    ensures |r| == |all|
  {
    seq(|all|, i requires 0 <= i < |all| =>
      if all[i].id == id then all[i].(sleep := true, timeToSleep := n, state := READY) else all[i])
  }

  // ----- sleep_check -----

  function TickTcb(t: Tcb): Tcb {
    if !t.sleep then t
    else if t.timeToSleep - 1 == 0 then t.(timeToSleep := 0, sleep := false)
    else t.(timeToSleep := t.timeToSleep - 1)
  }

  predicate WakesReady(t: Tcb) {
    t.sleep && t.timeToSleep == 1 && t.state.READY?
  }

  /** The ids pushed to the ready queue by sleep_check over the first n threads. */
  function WokenIds(all: seq<Tcb>, n: nat): seq<int>
    requires n <= |all|
  {
    if n == 0 then [] else WokenIds(all, n - 1) + if WakesReady(all[n - 1]) then [all[n - 1].id] else []
  }

  function Ticked(all: seq<Tcb>): (r: seq<Tcb>)
    ensures |r| == |all|
  {
    seq(|all|, i requires 0 <= i < |all| => TickTcb(all[i]))
  }

  // ----- the operations -----

  /** The front of the ready queue becomes the running thread and starts a quantum: the common end of
      block_handler, terminate_handler and time_handler. */
  function Dispatch(s: Sched): Sched
    requires s.ready != []
  {
    s.(running := s.ready[0], total := s.total + 1,
       all := WithQuantum(WithState(s.all, s.ready[0], RUNNING), s.ready[0]))
  }

  function Init(): Sched {
    Sched([0], [Tcb(0, RUNNING, false, 0, 1)], seq(MAX_THREAD_NUM, i => i == 0), 0, 1, 0)
  }

  predicate Exists(s: Sched, tid: int) {
    0 <= tid < |s.available| && s.available[tid]
  }

  function Spawn(s: Sched, hasEntry: bool): (Sched, int) {
    if !hasEntry then (s, FAILURE)
    else
      var id: int := FirstFree(s.available);
      if id == |s.available| then (s, FAILURE)
      else (s.(ready := s.ready + [id], all := s.all + [Tcb(id, READY, false, 0, 0)],
               available := s.available[id := true]), id)
  }

  function QuantumsOf(s: Sched, tid: int): nat {
    if HasId(s.all, tid) then s.all[Find(s.all, tid)].quantums else 0
  }

  /** What terminating the running thread and terminating another have in common. */
  function Gone(s: Sched, tid: int, ready: seq<int>): Sched
    requires 0 <= tid < |s.available|
  {
    s.(ready := ready, available := s.available[tid := false], all := RemoveId(s.all, tid),
       retired := s.retired + QuantumsOf(s, tid))
  }

  /** uthread_terminate for any thread but the main one. */
  function Terminate(s: Sched, tid: int): (Sched, int)
    requires tid != 0
    requires Exists(s, tid) && s.running == tid ==> |s.ready| > 1
  {
    if !Exists(s, tid) then (s, FAILURE)
    else
      if s.running == tid then (Dispatch(Gone(s, tid, s.ready[1..])), 0)
      else (Gone(s, tid, Remove(s.ready, tid)), 0)
  }

  function Block(s: Sched, tid: int): (Sched, int)
    requires Exists(s, tid) ==> HasId(s.all, tid)
    requires Exists(s, tid) && s.running == tid != 0 ==> |s.ready| > 1
  {
    if tid == 0 || !Exists(s, tid) then (s, FAILURE)
    else if s.running == tid then
      (Dispatch(s.(ready := s.ready[1..], all := WithState(s.all, tid, BLOCKED))), 0)
    else if s.all[Find(s.all, tid)].state.READY? then
      (s.(ready := Remove(s.ready, tid), all := WithState(s.all, tid, BLOCKED)), 0)
    else (s, 0)
  }

  function Resume(s: Sched, tid: int): (Sched, int)
    requires Exists(s, tid) ==> HasId(s.all, tid)
  {
    if !Exists(s, tid) then (s, FAILURE)
    else
      var t := s.all[Find(s.all, tid)];
      if t.state.BLOCKED? then
        (s.(all := WithState(s.all, tid, READY), ready := if t.sleep then s.ready else s.ready + [tid]), 0)
      else (s, 0)
  }

  function Sleep(s: Sched, n: int): (Sched, int)
    requires s.running != 0 ==> |s.ready| > 1
  {
    if s.running == 0 then (s, FAILURE)
    else (Dispatch(s.(ready := s.ready[1..], all := WithSleep(s.all, s.running, n))), 0)
  }

  /** time_handler: sleepers count down, then the running thread goes to the back of the queue. */
  function Tick(s: Sched): Sched
    requires s.ready != []
  {
    Dispatch(s.(ready := s.ready[1..] + WokenIds(s.all, |s.all|) + [s.running],
                all := WithState(Ticked(s.all), s.running, READY)))
  }

  // ----- the invariant -----

  ghost predicate DistinctIds(all: seq<Tcb>) {
    forall i, j {:trigger all[i].id, all[j].id} :: 0 <= i < j < |all| ==> all[i].id != all[j].id
  }

  ghost predicate NoRepeats(ready: seq<int>) {
    forall i, j {:trigger ready[i], ready[j]} :: 0 <= i < j < |ready| ==> ready[i] != ready[j]
  }

  ghost predicate Queued(t: Tcb) {
    t.state.RUNNING? || (t.state.READY? && !t.sleep)
  }

  ghost predicate TcbOk(s: Sched, t: Tcb) {
    && 0 <= t.id < |s.available| && s.available[t.id]
    && (t.id in s.ready <==> Queued(t))
    && (t.state.RUNNING? <==> t.id == s.running)
    && (t.state.RUNNING? ==> !t.sleep)
    && (t.id == 0 ==> !t.state.BLOCKED? && !t.sleep)
  }

  function Quantums(all: seq<Tcb>): (ns: seq<nat>)
    ensures |ns| == |all|
  {
    seq(|all|, i requires 0 <= i < |all| => all[i].quantums)
  }

  /** The ready queue has no duplicates and starts with the one RUNNING thread; it holds exactly the
      threads that are RUNNING or READY and not asleep, thread 0 always among them; the ids in use are
      those of all_threads; every quantum started is counted once. */
  ghost predicate Inv(s: Sched) {
    && s.ready != [] && s.ready[0] == s.running
    && NoRepeats(s.ready) && DistinctIds(s.all)
    && HasId(s.all, 0)
    && (forall k {:trigger s.ready[k]} | 0 <= k < |s.ready| :: HasId(s.all, s.ready[k]))
    && (forall i {:trigger s.available[i]} | 0 <= i < |s.available| :: s.available[i] ==> HasId(s.all, i))
    && (forall i {:trigger s.all[i]} | 0 <= i < |s.all| :: TcbOk(s, s.all[i]))
    && s.total == Total(Quantums(s.all)) + s.retired
  }

  // ----- facts about the lists -----

  lemma IdsKept(all: seq<Tcb>, all': seq<Tcb>)
    requires |all'| == |all| && forall i {:trigger all'[i]} :: 0 <= i < |all| ==> all'[i].id == all[i].id
    ensures forall id :: HasId(all', id) <==> HasId(all, id)
    ensures DistinctIds(all) ==> DistinctIds(all')
  {
    forall id
      ensures HasId(all', id) <==> HasId(all, id)
    {
      if i :| 0 <= i < |all| && all[i].id == id { assert all'[i].id == id; }
      if i :| 0 <= i < |all| && all'[i].id == id { assert all[i].id == id; }
    }
    if DistinctIds(all) {
      forall i, j {:trigger all'[i].id, all'[j].id} | 0 <= i < j < |all'|
        ensures all'[i].id != all'[j].id
      {
        assert all[i].id != all[j].id;
      }
    }
  }

  lemma {:induction false} RemoveAt<T>(s: seq<T>, x: T) returns (p: nat)
    ensures x !in s ==> Remove(s, x) == s
    ensures x in s ==> p < |s| && s[p] == x && x !in s[..p] && Remove(s, x) == s[..p] + s[p + 1..]
  {
    p := 0;
    if s != [] && s[0] != x {
      var rest := s[1..];
      var q := RemoveAt(rest, x);
      p := q + 1;
      if x in s {
        assert x in rest;
        assert s[..p] == [s[0]] + rest[..q] && s[p + 1..] == rest[q + 1..];
        assert s[..p] + s[p + 1..] == [s[0]] + (rest[..q] + rest[q + 1..]);
      }
    }
  }

  lemma RemoveFromQueue(ready: seq<int>, x: int)
    requires NoRepeats(ready)
    ensures NoRepeats(Remove(ready, x))
    ensures forall y :: y in Remove(ready, x) <==> y in ready && y != x
  {
    var p := RemoveAt(ready, x);
    if x in ready {
      var r := Remove(ready, x);
      forall y
        ensures y in r <==> y in ready && y != x
      {
        if y in ready && y != x {
          var i :| 0 <= i < |ready| && ready[i] == y;
          if i < p { assert r[i] == y; } else { assert r[i - 1] == y; }
        }
      }
    }
  }

  lemma {:induction false} RemoveIdAt(all: seq<Tcb>, id: int)
    requires HasId(all, id)
    ensures RemoveId(all, id) == all[..Find(all, id)] + all[Find(all, id) + 1..]
  {
    if all[0].id != id {
      var i :| 0 <= i < |all| && all[i].id == id;
      assert all[1..][i - 1].id == id;
      RemoveIdAt(all[1..], id);
    }
  }

  /** Where the i-th of the remaining threads was before. */
  lemma RemoveIdIndex(all: seq<Tcb>, id: int, i: nat) returns (j: nat)
    requires DistinctIds(all) && HasId(all, id) && i < |RemoveId(all, id)|
    ensures j < |all| && RemoveId(all, id)[i] == all[j] && all[j].id != id
  {
    RemoveIdAt(all, id);
    var p := Find(all, id);
    j := if i < p then i else i + 1;
    if j > p { assert all[p].id != all[j].id; }
  }

  lemma RemoveIdIds(all: seq<Tcb>, id: int, x: int)
    requires DistinctIds(all) && HasId(all, id)
    ensures HasId(RemoveId(all, id), x) <==> HasId(all, x) && x != id
  {
    RemoveIdAt(all, id);
    var p, r := Find(all, id), RemoveId(all, id);
    if HasId(all, x) && x != id {
      var i :| 0 <= i < |all| && all[i].id == x;
      if i < p { assert r[i].id == x; } else { assert r[i - 1].id == x; }
    }
    if i :| 0 <= i < |r| && r[i].id == x {
      var j := RemoveIdIndex(all, id, i);
      assert all[j].id == x;
    }
  }

  lemma RemoveIdDistinct(all: seq<Tcb>, id: int)
    requires DistinctIds(all) && HasId(all, id)
    ensures DistinctIds(RemoveId(all, id))
  {
    RemoveIdAt(all, id);
    var p, r := Find(all, id), RemoveId(all, id);
    forall i, j {:trigger r[i].id, r[j].id} | 0 <= i < j < |r|
      ensures r[i].id != r[j].id
    {
      var i', j' := if i < p then i else i + 1, if j < p then j else j + 1;
      assert r[i] == all[i'] && r[j] == all[j'];
      assert all[i'].id != all[j'].id;
    }
  }

  lemma RemoveIdTotal(all: seq<Tcb>, id: int)
    requires HasId(all, id)
    ensures Total(Quantums(RemoveId(all, id))) + all[Find(all, id)].quantums == Total(Quantums(all))
  {
    RemoveIdAt(all, id);
    var p := Find(all, id);
    TotalWithout(Quantums(all), p);
    assert Quantums(RemoveId(all, id)) == Quantums(all)[..p] + Quantums(all)[p + 1..];
  }

  lemma {:induction false} TotalWithout(ns: seq<nat>, p: nat)
    requires p < |ns|
    ensures Total(ns[..p] + ns[p + 1..]) + ns[p] == Total(ns)
    decreases |ns|
  {
    var n := |ns| - 1;
    if p == n {
      assert ns[..p] + ns[p + 1..] == ns[..n];
    } else {
      TotalWithout(ns[..n], p);
      var r := ns[..p] + ns[p + 1..];
      assert r[..|r| - 1] == ns[..n][..p] + ns[..n][p + 1..];
    }
  }

  lemma CountQuantum(all: seq<Tcb>, id: int)
    requires DistinctIds(all) && HasId(all, id)
    ensures Total(Quantums(WithQuantum(all, id))) == Total(Quantums(all)) + 1
  {
    var p := Find(all, id);
    assert Quantums(WithQuantum(all, id)) == Quantums(all)[p := all[p].quantums + 1];
    TotalUpdate(Quantums(all), p, all[p].quantums + 1);
  }

  // ----- the dispatch at the end of every context switch -----

  /** As the invariant asks of a thread, but with no thread RUNNING. */
  ghost predicate IdleOk(s: Sched, t: Tcb) {
    && 0 <= t.id < |s.available| && s.available[t.id]
    && (t.id in s.ready <==> t.state.READY? && !t.sleep)
    && !t.state.RUNNING?
    && (t.id == 0 ==> !t.state.BLOCKED? && !t.sleep)
  }

  /** The state between a thread giving up the processor and the next one being dispatched. */
  ghost predicate Idle(s: Sched) {
    && NoRepeats(s.ready) && DistinctIds(s.all)
    && HasId(s.all, 0)
    && (forall k {:trigger s.ready[k]} | 0 <= k < |s.ready| :: HasId(s.all, s.ready[k]))
    && (forall i {:trigger s.available[i]} | 0 <= i < |s.available| :: s.available[i] ==> HasId(s.all, i))
    && (forall i {:trigger s.all[i]} | 0 <= i < |s.all| :: IdleOk(s, s.all[i]))
    && s.total == Total(Quantums(s.all)) + s.retired
  }

  lemma DispatchKeeps(s: Sched)
    requires Idle(s) && s.ready != []
    ensures Inv(Dispatch(s))
  {
    var s', id := Dispatch(s), s.ready[0];
    var mid := WithState(s.all, id, RUNNING);
    IdsKept(s.all, mid);
    IdsKept(s.all, s'.all);
    assert Quantums(mid) == Quantums(s.all);
    CountQuantum(mid, id);
    forall i {:trigger s'.all[i]} | 0 <= i < |s'.all|
      ensures TcbOk(s', s'.all[i])
    {
      assert IdleOk(s, s.all[i]);
    }
  }

  lemma MainIsQueued(s: Sched)
    requires Inv(s)
    ensures 0 in s.ready && (s.running != 0 ==> |s.ready| > 1)
  {
    var i :| 0 <= i < |s.all| && s.all[i].id == 0;
    assert TcbOk(s, s.all[i]);
  }

  /** The record of the running thread. */
  lemma RunningTcb(s: Sched)
    requires Inv(s)
    ensures HasId(s.all, s.running) && s.all[Find(s.all, s.running)].state.RUNNING?
    ensures Exists(s, s.running)
  {
    assert HasId(s.all, s.ready[0]);
    assert TcbOk(s, s.all[Find(s.all, s.running)]);
  }

  lemma ExistsHasId(s: Sched, tid: int)
    requires Inv(s) && Exists(s, tid)
    ensures HasId(s.all, tid)
  {
    assert s.available[tid];
  }

  lemma PopFront(s: Sched)
    requires Inv(s)
    ensures NoRepeats(s.ready[1..])
    ensures forall y :: y in s.ready[1..] <==> y in s.ready && y != s.running
  {
    forall y
      ensures y in s.ready[1..] <==> y in s.ready && y != s.running
    {
      if y in s.ready && y != s.running {
        var i :| 0 <= i < |s.ready| && s.ready[i] == y;
        assert s.ready[1..][i - 1] == y;
      }
    }
  }

  // ----- every operation keeps the invariant -----

  lemma InitKeeps()
    ensures Inv(Init())
  {
    var s := Init();
    assert s.all[0].id == 0;
    assert Quantums(s.all) == [1] && Total([1]) == Total([]) + 1 by {
      assert [1][..0] == [];
    }
  }

  /** The id that spawn hands out belongs to no thread, listed or queued. */
  lemma FreeIdIsFresh(s: Sched, id: int)
    requires Inv(s) && 0 <= id < |s.available| && !s.available[id]
    ensures !HasId(s.all, id) && id !in s.ready
  {
    forall i {:trigger s.all[i]} | 0 <= i < |s.all|
      ensures s.all[i].id != id
    {
      assert TcbOk(s, s.all[i]);
    }
    assert forall k {:trigger s.ready[k]} | 0 <= k < |s.ready| :: HasId(s.all, s.ready[k]);
  }

  lemma AppendedLists(all: seq<Tcb>, t: Tcb)
    requires DistinctIds(all) && !HasId(all, t.id)
    ensures DistinctIds(all + [t])
    ensures forall x :: HasId(all + [t], x) <==> HasId(all, x) || x == t.id
    ensures Total(Quantums(all + [t])) == Total(Quantums(all)) + t.quantums
  {
    forall x
      ensures HasId(all + [t], x) <==> HasId(all, x) || x == t.id
    {
      if i :| 0 <= i < |all| && all[i].id == x { assert (all + [t])[i].id == x; }
      assert (all + [t])[|all|].id == t.id;
    }
    assert Quantums(all + [t]) == Quantums(all) + [t.quantums];
    assert (Quantums(all) + [t.quantums])[..|all|] == Quantums(all);
  }

  lemma SpawnKeeps(s: Sched, hasEntry: bool)
    requires Inv(s)
    ensures Inv(Spawn(s, hasEntry).0)
  {
    var id: int := FirstFree(s.available);
    if hasEntry && id < |s.available| {
      var s' := Spawn(s, hasEntry).0;
      var t := Tcb(id, READY, false, 0, 0);
      FreeIdIsFresh(s, id);
      AppendedLists(s.all, t);
      forall i {:trigger s'.all[i]} | 0 <= i < |s'.all|
        ensures TcbOk(s', s'.all[i])
      {
        if i < |s.all| { assert TcbOk(s, s.all[i]) && HasId(s.all, s.all[i].id); }
        else { assert s'.ready[|s.ready|] == id; }
      }
    }
  }

  lemma TerminateKeeps(s: Sched, tid: int)
    requires Inv(s) && tid != 0
    ensures Exists(s, tid) && s.running == tid ==> |s.ready| > 1
    ensures Inv(Terminate(s, tid).0)
  {
    MainIsQueued(s);
    if Exists(s, tid) {
      ExistsHasId(s, tid);
      if s.running == tid { TerminateRunningKeeps(s, tid); } else { TerminateOtherKeeps(s, tid); }
    }
  }

  lemma GoneLists(s: Sched, tid: int, ready: seq<int>)
    requires Inv(s) && tid != 0 && Exists(s, tid) && HasId(s.all, tid)
    requires forall y :: y in ready <==> y in s.ready && y != tid
    ensures var g := Gone(s, tid, ready);
            && DistinctIds(g.all) && HasId(g.all, 0)
            && (forall k {:trigger g.ready[k]} | 0 <= k < |g.ready| :: HasId(g.all, g.ready[k]))
            && (forall i {:trigger g.available[i]} | 0 <= i < |g.available| :: g.available[i] ==> HasId(g.all, i))
            && g.total == Total(Quantums(g.all)) + g.retired
  {
    var g := Gone(s, tid, ready);
    RemoveIdDistinct(s.all, tid);
    RemoveIdTotal(s.all, tid);
    RemoveIdIds(s.all, tid, 0);
    forall k {:trigger g.ready[k]} | 0 <= k < |g.ready|
      ensures HasId(g.all, g.ready[k])
    {
      assert g.ready[k] in ready;
      var m :| 0 <= m < |s.ready| && s.ready[m] == g.ready[k];
      assert HasId(s.all, s.ready[m]);
      RemoveIdIds(s.all, tid, g.ready[k]);
    }
    forall i {:trigger g.available[i]} | 0 <= i < |g.available|
      ensures g.available[i] ==> HasId(g.all, i)
    {
      RemoveIdIds(s.all, tid, i);
      assert s.available[i] ==> HasId(s.all, i);
    }
  }

  lemma GoneIsIdle(s: Sched, tid: int, i: nat)
    requires Inv(s) && tid != 0 && Exists(s, tid) && s.running == tid && HasId(s.all, tid)
    requires i < |RemoveId(s.all, tid)|
    ensures IdleOk(Gone(s, tid, s.ready[1..]), RemoveId(s.all, tid)[i])
  {
    PopFront(s);
    var j := RemoveIdIndex(s.all, tid, i);
    assert TcbOk(s, s.all[j]);
  }

  lemma TerminateRunningIs(s: Sched, tid: int)
    requires tid != 0 && Exists(s, tid) && s.running == tid && |s.ready| > 1
    ensures Terminate(s, tid).0 == Dispatch(Gone(s, tid, s.ready[1..]))
  {
  }

  lemma TerminateRunningKeeps(s: Sched, tid: int)
    requires Inv(s) && tid != 0 && Exists(s, tid) && s.running == tid && HasId(s.all, tid) && |s.ready| > 1
    ensures Inv(Terminate(s, tid).0)
  {
    PopFront(s);
    var g := Gone(s, tid, s.ready[1..]);
    GoneLists(s, tid, s.ready[1..]);
    forall i {:trigger g.all[i]} | 0 <= i < |g.all|
      ensures IdleOk(g, g.all[i])
    {
      GoneIsIdle(s, tid, i);
    }
    DispatchKeeps(g);
    TerminateRunningIs(s, tid);
  }

  lemma TerminateOtherKeeps(s: Sched, tid: int)
    requires Inv(s) && tid != 0 && Exists(s, tid) && s.running != tid && HasId(s.all, tid)
    ensures Inv(Terminate(s, tid).0)
  {
    RemoveFromQueue(s.ready, tid);
    FrontStays(s.ready, tid);
    var g := Gone(s, tid, Remove(s.ready, tid));
    GoneLists(s, tid, Remove(s.ready, tid));
    forall i {:trigger g.all[i]} | 0 <= i < |g.all|
      ensures TcbOk(g, g.all[i])
    {
      var j := RemoveIdIndex(s.all, tid, i);
      assert TcbOk(s, s.all[j]);
    }
  }

  lemma FrontStays(ready: seq<int>, x: int)
    requires ready != [] && ready[0] != x
    ensures Remove(ready, x) != [] && Remove(ready, x)[0] == ready[0]
  {
  }

  lemma BlockKeeps(s: Sched, tid: int)
    requires Inv(s)
    ensures Exists(s, tid) ==> HasId(s.all, tid)
    ensures Exists(s, tid) && s.running == tid != 0 ==> |s.ready| > 1
    ensures Inv(Block(s, tid).0)
  {
    MainIsQueued(s);
    if Exists(s, tid) {
      ExistsHasId(s, tid);
      if tid == 0 {
      } else if s.running == tid {
        BlockRunningKeeps(s, tid);
      } else if s.all[Find(s.all, tid)].state.READY? {
        BlockOtherKeeps(s, tid);
      }
    }
  }

  lemma BlockRunningKeeps(s: Sched, tid: int)
    requires Inv(s) && tid != 0 && Exists(s, tid) && s.running == tid && HasId(s.all, tid) && |s.ready| > 1
    ensures Inv(Block(s, tid).0)
  {
    var all' := WithState(s.all, tid, BLOCKED);
    forall i {:trigger all'[i]} | 0 <= i < |all'|
      ensures Relieved(s, s.all[i], all'[i], [])
    {
      assert TcbOk(s, s.all[i]);
    }
    assert s.ready[1..] + [] == s.ready[1..];
    GiveUpKeeps(s, all', []);
  }

  lemma SleepKeeps(s: Sched, n: int)
    requires Inv(s)
    ensures s.running != 0 ==> |s.ready| > 1
    ensures Inv(Sleep(s, n).0)
  {
    MainIsQueued(s);
    if s.running != 0 {
      var all' := WithSleep(s.all, s.running, n);
      forall i {:trigger all'[i]} | 0 <= i < |all'|
        ensures Relieved(s, s.all[i], all'[i], [])
      {
        assert TcbOk(s, s.all[i]);
      }
      assert s.ready[1..] + [] == s.ready[1..];
      GiveUpKeeps(s, all', []);
    }
  }

  lemma {:induction false} WokenIdsAre(all: seq<Tcb>, n: nat, x: int)
    requires n <= |all|
    ensures x in WokenIds(all, n) <==> exists i :: 0 <= i < n && WakesReady(all[i]) && all[i].id == x
  {
    if n > 0 { WokenIdsAre(all, n - 1, x); }
  }

  lemma {:induction false} WokenIdsDistinct(all: seq<Tcb>, n: nat)
    requires DistinctIds(all) && n <= |all|
    ensures NoRepeats(WokenIds(all, n))
  {
    if n > 0 {
      WokenIdsDistinct(all, n - 1);
      var prior := WokenIds(all, n - 1);
      if WakesReady(all[n - 1]) {
        WokenIdsAre(all, n - 1, all[n - 1].id);
        assert all[n - 1].id !in prior;
      }
    }
  }

  lemma TickKeeps(s: Sched)
    requires Inv(s)
    ensures Inv(Tick(s))
  {
    var woken := WokenIds(s.all, |s.all|);
    var extra := woken + [s.running];
    var all' := WithState(Ticked(s.all), s.running, READY);
    RunningTcb(s);
    WokenIdsDistinct(s.all, |s.all|);
    forall x
      ensures x in woken <==> exists i :: 0 <= i < |s.all| && WakesReady(s.all[i]) && s.all[i].id == x
    {
      WokenIdsAre(s.all, |s.all|, x);
    }
    forall x | x in woken
      ensures HasId(s.all, x) && x !in s.ready
    {
      var i :| 0 <= i < |s.all| && WakesReady(s.all[i]) && s.all[i].id == x;
      assert TcbOk(s, s.all[i]);
    }
    forall i {:trigger all'[i]} | 0 <= i < |all'|
      ensures Relieved(s, s.all[i], all'[i], extra)
    {
      TickRelieves(s, i);
    }
    assert s.running in s.ready;
    assert s.ready[1..] + extra == s.ready[1..] + woken + [s.running];
    GiveUpKeeps(s, all', extra);
  }

  lemma SameIdSameThread(all: seq<Tcb>, i: nat, j: nat)
    requires DistinctIds(all) && i < |all| && j < |all| && all[i].id == all[j].id
    ensures i == j
  {
  }

  lemma TickRelieves(s: Sched, i: nat)
    requires Inv(s) && i < |s.all|
    ensures Relieved(s, s.all[i], WithState(Ticked(s.all), s.running, READY)[i],
                     WokenIds(s.all, |s.all|) + [s.running])
  {
    assert TcbOk(s, s.all[i]);
    WokenIdsAre(s.all, |s.all|, s.all[i].id);
    if s.all[i].id in WokenIds(s.all, |s.all|) {
      var j :| 0 <= j < |s.all| && WakesReady(s.all[j]) && s.all[j].id == s.all[i].id;
      SameIdSameThread(s.all, i, j);
    }
  }

  lemma BlockOtherKeeps(s: Sched, tid: int)
    requires Inv(s) && tid != 0 && Exists(s, tid) && s.running != tid && HasId(s.all, tid)
    requires s.all[Find(s.all, tid)].state.READY?
    ensures Inv(Block(s, tid).0)
  {
    var s' := Block(s, tid).0;
    IdsKept(s.all, s'.all);
    RemoveFromQueue(s.ready, tid);
    FrontStays(s.ready, tid);
    assert Quantums(s'.all) == Quantums(s.all);
    forall i {:trigger s'.all[i]} | 0 <= i < |s'.all|
      ensures TcbOk(s', s'.all[i])
    {
      assert TcbOk(s, s.all[i]);
    }
    RemoveKeepsIds(s, tid);
  }

  lemma RemoveKeepsIds(s: Sched, x: int)
    requires Inv(s)
    ensures forall k {:trigger Remove(s.ready, x)[k]} | 0 <= k < |Remove(s.ready, x)| ::
              HasId(s.all, Remove(s.ready, x)[k])
  {
    RemoveFromQueue(s.ready, x);
    var r := Remove(s.ready, x);
    forall k {:trigger r[k]} | 0 <= k < |r|
      ensures HasId(s.all, r[k])
    {
      assert r[k] in r;
      var m :| 0 <= m < |s.ready| && s.ready[m] == r[k];
      assert HasId(s.all, s.ready[m]);
    }
  }

  /** The record of any thread after thread tid has been made READY again. */
  lemma ResumedTcb(s: Sched, tid: int, i: nat)
    requires Inv(s) && HasId(s.all, tid) && s.all[Find(s.all, tid)].state.BLOCKED? && i < |s.all|
    ensures var t := s.all[Find(s.all, tid)];
            var s' := s.(all := WithState(s.all, tid, READY), ready := if t.sleep then s.ready else s.ready + [tid]);
            TcbOk(s', s'.all[i])
  {
    var p := Find(s.all, tid);
    assert TcbOk(s, s.all[p]) && TcbOk(s, s.all[i]);
    if s.all[i].id == tid {
      SameIdSameThread(s.all, i, p);
    }
    assert tid in s.ready + [tid];
  }

  lemma BlockedIsUnqueued(s: Sched, tid: int)
    requires Inv(s) && HasId(s.all, tid) && s.all[Find(s.all, tid)].state.BLOCKED?
    ensures tid !in s.ready
  {
    assert TcbOk(s, s.all[Find(s.all, tid)]);
  }

  lemma AppendedQueue(ready: seq<int>, x: int)
    requires NoRepeats(ready) && x !in ready
    ensures NoRepeats(ready + [x])
  {
  }

  lemma ResumeBlockedKeeps(s: Sched, tid: int)
    requires Inv(s) && HasId(s.all, tid) && s.all[Find(s.all, tid)].state.BLOCKED?
    ensures var t := s.all[Find(s.all, tid)];
            Inv(s.(all := WithState(s.all, tid, READY), ready := if t.sleep then s.ready else s.ready + [tid]))
  {
    hide TcbOk, NoRepeats, DistinctIds;
    var t, all' := s.all[Find(s.all, tid)], WithState(s.all, tid, READY);
    var s' := s.(all := all', ready := if t.sleep then s.ready else s.ready + [tid]);
    IdsKept(s.all, all');
    assert Quantums(all') == Quantums(s.all);
    BlockedIsUnqueued(s, tid);
    AppendedQueue(s.ready, tid);
    forall i {:trigger s'.all[i]} | 0 <= i < |s'.all|
      ensures TcbOk(s', s'.all[i])
    {
      ResumedTcb(s, tid, i);
    }
  }

  lemma ResumeKeeps(s: Sched, tid: int)
    requires Inv(s)
    ensures Exists(s, tid) ==> HasId(s.all, tid)
    ensures Inv(Resume(s, tid).0)
  {
    if Exists(s, tid) {
      ExistsHasId(s, tid);
      hide Inv;
      if s.all[Find(s.all, tid)].state.BLOCKED? { ResumeBlockedKeeps(s, tid); }
    }
  }

  /** The running thread gives up the processor: all' records its new state, and extra is appended. */
  lemma GiveUpKeeps(s: Sched, all': seq<Tcb>, extra: seq<int>)
    requires Inv(s) && |all'| == |s.all|
    requires forall i {:trigger all'[i]} | 0 <= i < |all'| :: Relieved(s, s.all[i], all'[i], extra)
    requires NoRepeats(extra)
    requires forall x | x in extra :: HasId(s.all, x) && (x in s.ready ==> x == s.running)
    requires s.ready[1..] + extra != []
    ensures Idle(s.(ready := s.ready[1..] + extra, all := all'))
    ensures Inv(Dispatch(s.(ready := s.ready[1..] + extra, all := all')))
  {
    var g := s.(ready := s.ready[1..] + extra, all := all');
    IdsKept(s.all, all');
    PopFront(s);
    assert Quantums(all') == Quantums(s.all);
    forall i {:trigger g.all[i]} | 0 <= i < |g.all|
      ensures IdleOk(g, g.all[i])
    {
      assert TcbOk(s, s.all[i]) && Relieved(s, s.all[i], all'[i], extra);
    }
    forall k {:trigger g.ready[k]} | 0 <= k < |g.ready|
      ensures HasId(g.all, g.ready[k])
    {
      if k < |s.ready| - 1 { assert g.ready[k] == s.ready[k + 1]; }
      else { assert g.ready[k] in extra; }
    }
    forall i, j {:trigger g.ready[i], g.ready[j]} | 0 <= i < j < |g.ready|
      ensures g.ready[i] != g.ready[j]
    {
      if i < |s.ready| - 1 <= j {
        assert g.ready[i] == s.ready[1..][i] && g.ready[i] in s.ready[1..];
        assert g.ready[j] in extra;
      } else if j < |s.ready| - 1 {
        assert g.ready[i] == s.ready[i + 1] && g.ready[j] == s.ready[j + 1];
      }
    }
    DispatchKeeps(g);
  }

  /** How one thread's record may change when the running thread gives up the processor. */
  ghost predicate Relieved(s: Sched, t: Tcb, t': Tcb, extra: seq<int>) {
    && t'.id == t.id && t'.quantums == t.quantums && !t'.state.RUNNING?
    && (t.id != s.running ==> t'.state == t.state)
    && (t.id == 0 ==> !t'.state.BLOCKED? && !t'.sleep)
    && (t'.state.READY? && !t'.sleep <==> (t.id in s.ready && t.id != s.running) || t.id in extra)
  }
}
