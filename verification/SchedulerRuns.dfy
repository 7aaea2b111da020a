/** Runs of the scheduler of Ex02: any sequence of API calls and timer ticks. */
module SchedulerRuns {
  import opened Scheduler
  import opened Sums
  import opened Sets
  import opened Wrappers

  datatype Op = SpawnOp(hasEntry: bool) | TerminateOp(tid: int) | BlockOp(tid: int) | ResumeOp(tid: int)
              | SleepOp(n: int) | TickOp

  /** Terminating the main thread ends the process. */
  predicate Survives(op: Op) {
    op != TerminateOp(0)
  }

  ghost function Apply(s: Sched, op: Op): (s': Sched)
    requires Inv(s) && Survives(op)
    ensures Inv(s')
  {
    match op
    case SpawnOp(hasEntry) => SpawnKeeps(s, hasEntry); Spawn(s, hasEntry).0
    case TerminateOp(tid) => TerminateKeeps(s, tid); Terminate(s, tid).0
    case BlockOp(tid) => BlockKeeps(s, tid); Block(s, tid).0
    case ResumeOp(tid) => ResumeKeeps(s, tid); Resume(s, tid).0
    case SleepOp(n) => SleepKeeps(s, n); Sleep(s, n).0
    case TickOp => TickKeeps(s); Tick(s)
  }

  /** What the call returns; a tick returns nothing. */
  ghost function Answer(s: Sched, op: Op): (code: int)
    requires Inv(s) && Survives(op)
  {
    match op
    case SpawnOp(hasEntry) => Spawn(s, hasEntry).1
    case TerminateOp(tid) => TerminateKeeps(s, tid); Terminate(s, tid).1
    case BlockOp(tid) => BlockKeeps(s, tid); Block(s, tid).1
    case ResumeOp(tid) => ResumeKeeps(s, tid); Resume(s, tid).1
    case SleepOp(n) => SleepKeeps(s, n); Sleep(s, n).1
    case TickOp => 0
  }

  // ----- the cases of each call, with the facts that make them well-formed -----

  /** The three outcomes of uthread_terminate on a thread other than the main one. */
  lemma TerminateIs(s: Sched, tid: int)
    requires Inv(s) && tid != 0
    ensures var s', code := Apply(s, TerminateOp(tid)), Answer(s, TerminateOp(tid));
            && Inv(s')
            && (!Exists(s, tid) ==> s' == s && code == -1)
            && (Exists(s, tid) ==> HasId(s.all, tid) && code == 0)
            && (Exists(s, tid) && s.running == tid ==>
                  |s.ready| > 1 && Gone(s, tid, s.ready[1..]).ready != [] && s' == Dispatch(Gone(s, tid, s.ready[1..])))
            && (Exists(s, tid) && s.running != tid ==>
                  tid !in Remove(s.ready, tid) && s' == Gone(s, tid, Remove(s.ready, tid)))
  {
    hide Inv, Dispatch;
    TerminateKeeps(s, tid);
    if Exists(s, tid) {
      ExistsHasId(s, tid);
      if s.running == tid { TerminateRunningIs(s, tid); } else { RemovedIsGone(s, tid); }
    }
  }

  lemma BlockIs(s: Sched, tid: int)
    requires Inv(s)
    ensures var s', code := Apply(s, BlockOp(tid)), Answer(s, BlockOp(tid));
            && Inv(s')
            && (tid == 0 || !Exists(s, tid) ==> s' == s && code == -1)
            && (tid != 0 && Exists(s, tid) ==>
                  && HasId(s.all, tid) && code == 0
                  && if s.running == tid then
                       && |s.ready| > 1
                       && s' == Dispatch(s.(ready := s.ready[1..], all := WithState(s.all, tid, BLOCKED)))
                     else if s.all[Find(s.all, tid)].state.READY? then
                       s' == s.(ready := Remove(s.ready, tid), all := WithState(s.all, tid, BLOCKED))
                     else s' == s)
  {
    hide Inv, Dispatch;
    BlockKeeps(s, tid);
  }

  lemma ResumeIs(s: Sched, tid: int)
    requires Inv(s)
    ensures var s', code := Apply(s, ResumeOp(tid)), Answer(s, ResumeOp(tid));
            && Inv(s')
            && (!Exists(s, tid) ==> s' == s && code == -1)
            && (Exists(s, tid) ==>
                  && HasId(s.all, tid) && code == 0
                  && var t := s.all[Find(s.all, tid)];
                     if !t.state.BLOCKED? then s' == s
                     else s' == s.(all := WithState(s.all, tid, READY),
                                   ready := if t.sleep then s.ready else s.ready + [tid]))
  {
    hide Inv;
    ResumeKeeps(s, tid);
  }

  lemma SleepIs(s: Sched, n: int)
    requires Inv(s)
    ensures var s', code := Apply(s, SleepOp(n)), Answer(s, SleepOp(n));
            && Inv(s')
            && (s.running == 0 ==> s' == s && code == -1)
            && (s.running != 0 ==>
                  && |s.ready| > 1 && code == 0
                  && s' == Dispatch(s.(ready := s.ready[1..], all := WithSleep(s.all, s.running, n))))
  {
    hide Inv, Dispatch;
    SleepKeeps(s, n);
  }

  lemma RemovedIsGone(s: Sched, id: int)
    requires Inv(s)
    ensures id !in Remove(s.ready, id)
  {
    RemoveFromQueue(s.ready, id);
  }

  ghost predicate AllSurvive(ops: seq<Op>) {
    forall k {:trigger ops[k]} :: 0 <= k < |ops| ==> Survives(ops[k])
  }

  ghost function Run(s: Sched, ops: seq<Op>): (s': Sched)
    requires Inv(s) && AllSurvive(ops)
    ensures Inv(s')
    decreases |ops|
  {
    if ops == [] then s else Run(Apply(s, ops[0]), ops[1..])
  }

  /** The operations that end the running thread's quantum: a tick, or the thread blocking itself,
      going to sleep or terminating. */
  predicate Switches(s: Sched, op: Op) {
    match op
    case SpawnOp(_) => false
    case ResumeOp(_) => false
    case TerminateOp(tid) => Exists(s, tid) && s.running == tid
    case BlockOp(tid) => tid != 0 && Exists(s, tid) && s.running == tid
    case SleepOp(_) => s.running != 0
    case TickOp => true
  }

  /** Each context switch starts exactly one quantum, and nothing else does. */
  lemma SwitchStartsQuantum(s: Sched, op: Op)
    requires Inv(s) && Survives(op)
    ensures Apply(s, op).total == s.total + if Switches(s, op) then 1 else 0
    ensures |Apply(s, op).available| == |s.available|
  {
    if op.BlockOp? { BlockKeeps(s, op.tid); }
  }

  ghost function SwitchCount(s: Sched, ops: seq<Op>): nat
    requires Inv(s) && AllSurvive(ops)
    decreases |ops|
  {
    if ops == [] then 0
    else (if Switches(s, ops[0]) then 1 else 0) + SwitchCount(Apply(s, ops[0]), ops[1..])
  }

  /** total_quantum counts the context switches of a run, and at its end it is the sum of the quantum
      counters of the live threads and the final counters of all terminated ones. */
  lemma {:induction false} QuantumsAreConserved(s: Sched, ops: seq<Op>)
    requires Inv(s) && AllSurvive(ops)
    ensures Run(s, ops).total == s.total + SwitchCount(s, ops)
    ensures Run(s, ops).total == Total(Quantums(Run(s, ops).all)) + Run(s, ops).retired
    ensures |Run(s, ops).available| == |s.available|
    decreases |ops|
  {
    if ops != [] {
      SwitchStartsQuantum(s, ops[0]);
      QuantumsAreConserved(Apply(s, ops[0]), ops[1..]);
    }
  }

  // ----- bounded waiting -----

  ghost predicate Spares(op: Op, t: int) {
    op != BlockOp(t) && op != TerminateOp(t)
  }

  lemma RemoveMoves(ready: seq<int>, x: int, t: int, k: nat) returns (k': nat)
    requires k < |ready| && ready[k] == t != x
    ensures k' < |Remove(ready, x)| && Remove(ready, x)[k'] == t && k - 1 <= k' <= k
  {
    var p := RemoveAt(ready, x);
    k' := if x in ready && p < k then k - 1 else k;
  }

  /** A waiting thread moves forward exactly one place at every context switch, and never back. */
  lemma WaitingMovesForward(s: Sched, op: Op, t: int, k: nat) returns (k': nat)
    requires Inv(s) && Survives(op) && Spares(op, t)
    requires 0 < k < |s.ready| && s.ready[k] == t
    ensures var s' := Apply(s, op);
            && k' < |s'.ready| && s'.ready[k'] == t
            && (if Switches(s, op) then k' == k - 1 else k - 1 <= k' <= k)
  {
    hide Inv, WithState, WithQuantum, WithSleep, RemoveId;
    k' := if Switches(s, op) then k - 1 else k;
    match op {
      case BlockOp(tid) =>
        BlockIs(s, tid);
        if !Switches(s, op) && tid != 0 && Exists(s, tid) && s.all[Find(s.all, tid)].state.READY? {
          k' := RemoveMoves(s.ready, tid, t, k);
        }
      case TerminateOp(tid) =>
        TerminateIs(s, tid);
        if !Switches(s, op) && Exists(s, tid) {
          k' := RemoveMoves(s.ready, tid, t, k);
        }
      case _ =>
    }
  }

  ghost predicate AllSpare(ops: seq<Op>, t: int) {
    forall k {:trigger ops[k]} :: 0 <= k < |ops| ==> Spares(ops[k], t)
  }

  /** t runs at some point of the run from s. */
  ghost predicate RunsWithin(s: Sched, ops: seq<Op>, t: int)
    requires Inv(s) && AllSurvive(ops)
    decreases |ops|
  {
    s.running == t || (ops != [] && RunsWithin(Apply(s, ops[0]), ops[1..], t))
  }

  /** Bounded waiting: a thread at place k of the ready queue that nobody blocks or terminates is
      RUNNING after at most k context switches, whatever else happens. */
  lemma {:induction false} WaitingIsBounded(s: Sched, ops: seq<Op>, t: int, k: nat)
    requires Inv(s) && AllSurvive(ops) && AllSpare(ops, t)
    requires k < |s.ready| && s.ready[k] == t
    requires SwitchCount(s, ops) >= k
    ensures RunsWithin(s, ops, t)
    decreases |ops|
  {
    if k > 0 {
      assert ops != [];
      var k' := WaitingMovesForward(s, ops[0], t, k);
      WaitingIsBounded(Apply(s, ops[0]), ops[1..], t, k');
    }
  }

  // ----- the order of the queue after a tick -----

  /** Of two threads that wake at the same tick the one listed first is queued first. */
  lemma {:induction false} WokenInListOrder(all: seq<Tcb>, n: nat, a: nat, b: nat) returns (i: nat, j: nat)
    requires n <= |all| && a < b < |WokenIds(all, n)|
    ensures i < j < n && WakesReady(all[i]) && WakesReady(all[j])
    ensures all[i].id == WokenIds(all, n)[a] && all[j].id == WokenIds(all, n)[b]
    decreases n
  {
    var m := |WokenIds(all, n - 1)|;
    if b < m {
      i, j := WokenInListOrder(all, n - 1, a, b);
    } else {
      i := WokenAt(all, n - 1, a);
      j := n - 1;
    }
  }

  lemma {:induction false} WokenAt(all: seq<Tcb>, n: nat, a: nat) returns (i: nat)
    requires n <= |all| && a < |WokenIds(all, n)|
    ensures i < n && WakesReady(all[i]) && all[i].id == WokenIds(all, n)[a]
    decreases n
  {
    if a < |WokenIds(all, n - 1)| { i := WokenAt(all, n - 1, a); } else { i := n - 1; }
  }

  /** After a tick the preempted thread is last in the queue, and the threads that were waiting are first,
      in the order they had. */
  lemma TickQueue(s: Sched, k: nat)
    requires Inv(s)
    ensures var r := Apply(s, TickOp).ready;
            && r[|r| - 1] == s.running
            && (0 < k < |s.ready| ==> r[k - 1] == s.ready[k])
  {
  }

  // ----- what a call does to each thread -----

  /** The record of thread u, if there is such a thread. */
  function Record(all: seq<Tcb>, u: int): Option<Tcb> {
    if HasId(all, u) then Some(all[Find(all, u)]) else None
  }

  lemma RecordAt(all: seq<Tcb>, i: nat)
    requires DistinctIds(all) && i < |all|
    ensures Record(all, all[i].id) == Some(all[i])
  {
    assert HasId(all, all[i].id);
    SameIdSameThread(all, i, Find(all, all[i].id));
  }

  /** Updating records in place, ids excepted, updates what is found. */
  lemma RecordMapped(all: seq<Tcb>, all': seq<Tcb>, u: int)
    requires |all'| == |all| && forall i {:trigger all'[i]} :: 0 <= i < |all| ==> all'[i].id == all[i].id
    ensures HasId(all', u) <==> HasId(all, u)
    ensures HasId(all, u) ==> Find(all', u) == Find(all, u)
  {
    IdsKept(all, all');
    if HasId(all, u) {
      var p := Find(all, u);
      assert all'[p].id == u && forall j | 0 <= j < p :: all'[j].id == all[j].id;
    }
  }

  function MapRecord(r: Option<Tcb>, f: Tcb -> Tcb): Option<Tcb> {
    if r.None? then None else Some(f(r.value))
  }

  lemma RecordWithState(all: seq<Tcb>, id: int, st: State, u: int)
    ensures Record(WithState(all, id, st), u)
            == MapRecord(Record(all, u), (t: Tcb) => if u == id then t.(state := st) else t)
  {
    RecordMapped(all, WithState(all, id, st), u);
  }

  lemma RecordWithQuantum(all: seq<Tcb>, id: int, u: int)
    ensures Record(WithQuantum(all, id), u)
            == MapRecord(Record(all, u), (t: Tcb) => if u == id then t.(quantums := t.quantums + 1) else t)
  {
    RecordMapped(all, WithQuantum(all, id), u);
  }

  lemma RecordWithSleep(all: seq<Tcb>, id: int, n: int, u: int)
    ensures Record(WithSleep(all, id, n), u)
            == MapRecord(Record(all, u), (t: Tcb) =>
                 if u == id then t.(sleep := true, timeToSleep := n, state := READY) else t)
  {
    RecordMapped(all, WithSleep(all, id, n), u);
  }

  lemma RecordTicked(all: seq<Tcb>, u: int)
    ensures Record(Ticked(all), u) == MapRecord(Record(all, u), TickTcb)
  {
    RecordMapped(all, Ticked(all), u);
  }

  lemma RecordAppended(all: seq<Tcb>, t: Tcb, u: int)
    requires DistinctIds(all) && !HasId(all, t.id)
    ensures Record(all + [t], u) == if u == t.id then Some(t) else Record(all, u)
  {
    AppendedLists(all, t);
    if u == t.id {
      RecordAt(all + [t], |all|);
    } else if HasId(all, u) {
      RecordAt(all + [t], Find(all, u));
    }
  }

  lemma RecordRemoved(all: seq<Tcb>, id: int, u: int)
    requires DistinctIds(all) && HasId(all, id)
    ensures Record(RemoveId(all, id), u) == if u == id then None else Record(all, u)
  {
    RemoveIdIds(all, id, u);
    if HasId(RemoveId(all, id), u) {
      var j := RemoveIdIndex(all, id, Find(RemoveId(all, id), u));
      RecordAt(all, j);
    }
  }

  /** The dispatched thread becomes RUNNING and starts a quantum; the others keep their records. */
  function Dispatched(s: Sched, u: int, r: Option<Tcb>): Option<Tcb> {
    MapRecord(r, (t: Tcb) => if s.running == u then t.(state := RUNNING, quantums := t.quantums + 1) else t)
  }

  lemma RecordDispatched(s: Sched, u: int)
    requires s.ready != []
    ensures Record(Dispatch(s).all, u) == Dispatched(Dispatch(s), u, Record(s.all, u))
  {
    RecordWithState(s.all, s.ready[0], RUNNING, u);
    RecordWithQuantum(WithState(s.all, s.ready[0], RUNNING), s.ready[0], u);
  }

  lemma TerminateOnRecord(s: Sched, tid: int, u: int)
    requires Inv(s) && tid != 0
    ensures var (s', r) := (Apply(s, TerminateOp(tid)), if u == tid then None else Record(s.all, u));
            Record(s'.all, u) == if Switches(s, TerminateOp(tid)) then Dispatched(s', u, r) else r
  {
    TerminateKeeps(s, tid);
    if Exists(s, tid) {
      ExistsHasId(s, tid);
      RecordRemoved(s.all, tid, u);
      if s.running == tid {
        TerminateRunningIs(s, tid);
        RecordDispatched(Gone(s, tid, s.ready[1..]), u);
      }
    } else {
      ListedExists(s, tid);
    }
  }

  lemma ListedExists(s: Sched, u: int)
    requires Inv(s)
    ensures HasId(s.all, u) <==> Exists(s, u)
  {
    if HasId(s.all, u) { assert TcbOk(s, s.all[Find(s.all, u)]); }
    if Exists(s, u) { ExistsHasId(s, u); }
  }

  lemma NotReadyIsBlocked(s: Sched, tid: int, u: int)
    requires Inv(s) && HasId(s.all, tid) && s.running != tid
    ensures s.all[Find(s.all, tid)].state.READY? || s.all[Find(s.all, tid)].state.BLOCKED?
    ensures u == tid ==> Record(s.all, u) == Some(s.all[Find(s.all, tid)])
  {
    assert TcbOk(s, s.all[Find(s.all, tid)]);
  }

  lemma FoundRecord(s: Sched, tid: int)
    requires HasId(s.all, tid)
    ensures Record(s.all, tid) == Some(s.all[Find(s.all, tid)])
  {
  }

  lemma AbsentRecord(s: Sched, tid: int, u: int)
    requires Inv(s) && !Exists(s, tid)
    ensures u == tid ==> Record(s.all, u) == None
  {
    ListedExists(s, tid);
  }

  lemma BlockOnRecord(s: Sched, tid: int, u: int)
    requires Inv(s)
    ensures var s' := Apply(s, BlockOp(tid));
            var r := MapRecord(Record(s.all, u), (t: Tcb) => if u == tid != 0 then t.(state := BLOCKED) else t);
            Record(s'.all, u) == if Switches(s, BlockOp(tid)) then Dispatched(s', u, r) else r
  {
    hide Inv, Apply, Dispatch, WithState, Record;
    BlockIs(s, tid);
    if tid != 0 && Exists(s, tid) {
      RecordWithState(s.all, tid, BLOCKED, u);
      if s.running == tid {
        RecordDispatched(s.(ready := s.ready[1..], all := WithState(s.all, tid, BLOCKED)), u);
      } else {
        NotReadyIsBlocked(s, tid, u);
      }
    } else {
      if tid != 0 { AbsentRecord(s, tid, u); }
    }
  }

  lemma ResumeOnRecord(s: Sched, tid: int, u: int)
    requires Inv(s)
    ensures Record(Apply(s, ResumeOp(tid)).all, u)
            == MapRecord(Record(s.all, u), (t: Tcb) => if u == tid && t.state.BLOCKED? then t.(state := READY) else t)
  {
    hide Inv, Apply, WithState, Record;
    ResumeIs(s, tid);
    if Exists(s, tid) {
      RecordWithState(s.all, tid, READY, u);
      FoundRecord(s, tid);
    } else {
      AbsentRecord(s, tid, u);
    }
  }

  lemma SleepOnRecord(s: Sched, n: int, u: int)
    requires Inv(s)
    ensures var s' := Apply(s, SleepOp(n));
            var r := MapRecord(Record(s.all, u), (t: Tcb) =>
                       if u == s.running then t.(sleep := true, timeToSleep := n, state := READY) else t);
            if Switches(s, SleepOp(n)) then Record(s'.all, u) == Dispatched(s', u, r) else s' == s
  {
    hide Inv, Apply, Dispatch, WithSleep, Record;
    SleepIs(s, n);
    if s.running != 0 {
      RecordWithSleep(s.all, s.running, n, u);
      RecordDispatched(s.(ready := s.ready[1..], all := WithSleep(s.all, s.running, n)), u);
    }
  }

  lemma TickOnRecord(s: Sched, u: int)
    requires Inv(s)
    ensures var r := MapRecord(Record(s.all, u), (t: Tcb) =>
                       if u == s.running then TickTcb(t).(state := READY) else TickTcb(t));
            Record(Tick(s).all, u) == Dispatched(Tick(s), u, r)
  {
    RecordTicked(s.all, u);
    RecordWithState(Ticked(s.all), s.running, READY, u);
    RecordDispatched(s.(ready := s.ready[1..] + WokenIds(s.all, |s.all|) + [s.running],
                        all := WithState(Ticked(s.all), s.running, READY)), u);
  }

  lemma SpawnOnRecord(s: Sched, hasEntry: bool, u: int)
    requires Inv(s)
    ensures var (s', id) := (Apply(s, SpawnOp(hasEntry)), Answer(s, SpawnOp(hasEntry)));
            Record(s'.all, u)
            == if id != FAILURE && u == id then Some(Tcb(id, READY, false, 0, 0)) else Record(s.all, u)
    ensures var id := Answer(s, SpawnOp(hasEntry));
            id != FAILURE ==> !HasId(s.all, id) && forall j | 0 <= j < id :: HasId(s.all, j)
  {
    SpawnKeeps(s, hasEntry);
    var id := FirstFree(s.available);
    if hasEntry && id < |s.available| {
      FreeIdIsFresh(s, id);
      RecordAppended(s.all, Tcb(id, READY, false, 0, 0), u);
      forall j | 0 <= j < id
        ensures HasId(s.all, j)
      {
        ExistsHasId(s, j);
      }
    }
  }

  /** The thread that a context switch dispatches was READY, or is the running one at a tick that no
      other thread can use. */
  lemma NextWasReady(s: Sched, op: Op)
    requires Inv(s) && Survives(op) && Switches(s, op)
    ensures var (r, next) := (Record(s.all, Apply(s, op).running), Apply(s, op).running);
            && r.Some?
            && if next == s.running then op.TickOp? && s.ready == [next] && WokenIds(s.all, |s.all|) == []
               else r.value.state.READY?
  {
    MainIsQueued(s);
    QueuedIsReady(s, 0);
    if |s.ready| > 1 {
      QueuedIsReady(s, 1);
      assert s.ready[0] != s.ready[1];
    } else {
      FirstWoken(s);
    }
    match op {
      case BlockOp(tid) => BlockIs(s, tid);
      case SleepOp(n) => SleepIs(s, n);
      case TerminateOp(tid) => TerminateIs(s, tid);
      case _ =>
    }
  }

  lemma QueuedIsReady(s: Sched, k: nat)
    requires Inv(s) && k < |s.ready|
    ensures Record(s.all, s.ready[k]).Some?
    ensures s.ready[k] != s.running ==> Record(s.all, s.ready[k]).value.state.READY?
  {
    assert HasId(s.all, s.ready[k]);
    assert TcbOk(s, s.all[Find(s.all, s.ready[k])]);
  }

  lemma FirstWoken(s: Sched)
    requires Inv(s)
    ensures var woken := WokenIds(s.all, |s.all|);
            woken != [] ==> Record(s.all, woken[0]).Some? && Record(s.all, woken[0]).value.state.READY?
                            && woken[0] != s.running
  {
    var woken := WokenIds(s.all, |s.all|);
    if woken != [] {
      WokenIdsAre(s.all, |s.all|, woken[0]);
      var i :| 0 <= i < |s.all| && WakesReady(s.all[i]) && s.all[i].id == woken[0];
      RecordAt(s.all, i);
      assert TcbOk(s, s.all[i]);
    }
  }

  ghost predicate IsBlocked(all: seq<Tcb>, u: int) {
    Record(all, u).Some? && Record(all, u).value.state.BLOCKED?
  }

  /** A thread is blocked exactly from a block call on it to a resume call on it. */
  lemma BlockedExactly(s: Sched, op: Op, u: int)
    requires Inv(s) && Survives(op)
    ensures IsBlocked(Apply(s, op).all, u) <==>
              || (op == BlockOp(u) && u != 0 && HasId(s.all, u))
              || (IsBlocked(s.all, u) && op != ResumeOp(u) && op != TerminateOp(u))
  {
    hide Inv, Apply;
    if Switches(s, op) { NextWasReady(s, op); }
    NotRunningIfBlocked(s, u);
    match op {
      case SpawnOp(hasEntry) => SpawnOnRecord(s, hasEntry, u);
      case TerminateOp(tid) => TerminateOnRecord(s, tid, u);
      case BlockOp(tid) => BlockOnRecord(s, tid, u);
      case ResumeOp(tid) => ResumeOnRecord(s, tid, u);
      case SleepOp(n) => SleepOnRecord(s, n, u);
      case TickOp => ApplyTick(s); TickOnRecord(s, u);
    }
  }

  lemma ApplyTick(s: Sched)
    requires Inv(s)
    ensures s.ready != [] && Apply(s, TickOp) == Tick(s)
  {
  }

  lemma NotRunningIfBlocked(s: Sched, u: int)
    requires Inv(s)
    ensures IsBlocked(s.all, u) ==> u != s.running
  {
    if HasId(s.all, u) { assert TcbOk(s, s.all[Find(s.all, u)]); }
  }

  /** A thread is listed exactly from the spawn that returned its id to a terminate call on it. */
  lemma ListedExactly(s: Sched, op: Op, u: int)
    requires Inv(s) && Survives(op)
    ensures HasId(Apply(s, op).all, u) <==>
              || (op.SpawnOp? && Answer(s, op) != FAILURE && u == Answer(s, op))
              || (HasId(s.all, u) && op != TerminateOp(u))
  {
    hide Inv, Apply, Answer;
    match op {
      case SpawnOp(hasEntry) => SpawnOnRecord(s, hasEntry, u);
      case TerminateOp(tid) => TerminateOnRecord(s, tid, u);
      case BlockOp(tid) => BlockOnRecord(s, tid, u);
      case ResumeOp(tid) => ResumeOnRecord(s, tid, u);
      case SleepOp(n) => SleepOnRecord(s, n, u);
      case TickOp => ApplyTick(s); TickOnRecord(s, u);
    }
  }

  function QuantumsOfRecord(r: Option<Tcb>): nat {
    if r.None? then 0 else r.value.quantums
  }

  /** A context switch adds one to the counter of the thread that it dispatches, and no counter changes
      otherwise: a thread's counter is the number of quantums it has started. */
  lemma QuantumsExactly(s: Sched, op: Op, u: int)
    requires Inv(s) && Survives(op) && op != TerminateOp(u)
    ensures QuantumsOfRecord(Record(Apply(s, op).all, u))
            == QuantumsOfRecord(Record(s.all, u)) + if Switches(s, op) && Apply(s, op).running == u then 1 else 0
  {
    hide Inv, Apply, Record, Answer, WokenIds;
    if Switches(s, op) { NextWasReady(s, op); }
    match op {
      case SpawnOp(hasEntry) =>
        SpawnOnRecord(s, hasEntry, u);
        NewRecord(s, hasEntry);
      case TerminateOp(tid) => TerminateOnRecord(s, tid, u);
      case BlockOp(tid) => BlockOnRecord(s, tid, u);
      case ResumeOp(tid) => ResumeOnRecord(s, tid, u);
      case SleepOp(n) => SleepOnRecord(s, n, u);
      case TickOp => ApplyTick(s); TickOnRecord(s, u);
    }
  }

  lemma NewRecord(s: Sched, hasEntry: bool)
    requires Inv(s)
    ensures var id := Answer(s, SpawnOp(hasEntry)); id != FAILURE ==> Record(s.all, id) == None
  {
    SpawnOnRecord(s, hasEntry, Answer(s, SpawnOp(hasEntry)));
  }

  /** The id spawn returns is the smallest that no thread has; the new thread is READY, awake and last in
      the queue. */
  lemma SpawnTakesSmallestId(s: Sched)
    requires Inv(s) && |s.all| < |s.available|
    ensures var (id, s') := (Answer(s, SpawnOp(true)), Apply(s, SpawnOp(true)));
            && !HasId(s.all, id) && (forall j | 0 <= j < id :: HasId(s.all, j))
            && s'.ready == s.ready + [id]
            && Record(s'.all, id).Some? && Record(s'.all, id).value.state.READY? && !Record(s'.all, id).value.sleep
  {
    FullTable(s);
    SpawnOnRecord(s, true, Answer(s, SpawnOp(true)));
  }

  /** Right after uthread_init there is one thread, number 0, RUNNING in the first quantum. */
  lemma InitRunsMain()
    ensures var s := Init();
            && s.ready == [0] && s.running == 0 && s.total == 1 && s.retired == 0 && |s.available| == 100
            && |s.all| == 1 && s.all[0].id == 0 && s.all[0].state.RUNNING? && s.all[0].quantums == 1
            && forall i :: 0 <= i < 100 ==> (s.available[i] <==> i == 0)
  {
    assert Init().all[0].quantums == 1;
  }

  // ----- sleeping -----

  /** t is asleep with n on its counter. */
  ghost predicate AsleepFor(all: seq<Tcb>, t: int, n: int) {
    Record(all, t).Some? && Record(all, t).value.sleep && Record(all, t).value.timeToSleep == n
  }

  /** t is awake, and queued unless it has been blocked meanwhile. */
  ghost predicate Awake(s: Sched, t: int) {
    Record(s.all, t).Some? && !Record(s.all, t).value.sleep && (Record(s.all, t).value.state.READY? ==> t in s.ready)
  }

  lemma SleeperIsNotRunning(s: Sched, t: int, n: int)
    requires Inv(s) && AsleepFor(s.all, t, n)
    ensures t != s.running
  {
    assert TcbOk(s, s.all[Find(s.all, t)]);
  }

  lemma AwakeIsQueued(s: Sched, t: int)
    requires Inv(s) && Record(s.all, t).Some? && !Record(s.all, t).value.sleep
    ensures Awake(s, t)
  {
    assert TcbOk(s, s.all[Find(s.all, t)]);
  }

  /** Only a timer tick makes a sleeper's counter go down; at the tick that takes it from 1 to 0 the
      thread wakes, and is queued if it has not been blocked meanwhile. */
  lemma SleeperStep(s: Sched, op: Op, t: int, n: int)
    requires Inv(s) && Survives(op) && op != TerminateOp(t) && AsleepFor(s.all, t, n)
    ensures var s' := Apply(s, op);
            if !op.TickOp? then AsleepFor(s'.all, t, n)
            else if n == 1 then Awake(s', t) else AsleepFor(s'.all, t, n - 1)
  {
    hide Inv, Apply, Awake;
    SleeperIsNotRunning(s, t, n);
    match op {
      case SpawnOp(hasEntry) => SpawnOnRecord(s, hasEntry, t);
      case TerminateOp(tid) => TerminateOnRecord(s, tid, t);
      case BlockOp(tid) => BlockOnRecord(s, tid, t);
      case ResumeOp(tid) => ResumeOnRecord(s, tid, t);
      case SleepOp(m) => SleepOnRecord(s, m, t);
      case TickOp =>
        ApplyTick(s);
        TickOnRecord(s, t);
        if n == 1 { AwakeIsQueued(Apply(s, op), t); }
    }
  }

  /** The caller of sleep is asleep for the number it asked for, and no longer running. */
  lemma SleepPutsToSleep(s: Sched, n: int)
    requires Inv(s) && s.running != 0
    ensures AsleepFor(Apply(s, SleepOp(n)).all, s.running, n) && Apply(s, SleepOp(n)).running != s.running
  {
    hide Apply;
    RunningTcb(s);
    SleepOnRecord(s, n, s.running);
    NextWasReady(s, SleepOp(n));
  }

  function Ticks(ops: seq<Op>): nat {
    if ops == [] then 0 else (if ops[0].TickOp? then 1 else 0) + Ticks(ops[1..])
  }

  /** A thread put to sleep with n > 0 sleeps through the first n - 1 ticks, and one put to sleep with
      n <= 0 never wakes, however many quantums start in between. */
  lemma {:induction false} SleepsUntilTick(s: Sched, ops: seq<Op>, t: int, n: int)
    requires Inv(s) && AllSurvive(ops) && AsleepFor(s.all, t, n)
    requires forall k {:trigger ops[k]} :: 0 <= k < |ops| ==> ops[k] != TerminateOp(t)
    requires n <= 0 || Ticks(ops) < n
    ensures AsleepFor(Run(s, ops).all, t, n - Ticks(ops))
    decreases |ops|
  {
    if ops != [] {
      SleeperStep(s, ops[0], t, n);
      SleepsUntilTick(Apply(s, ops[0]), ops[1..], t, if ops[0].TickOp? then n - 1 else n);
    }
  }

  /** At its n-th tick it wakes: the n-th tick is the one after a run with n - 1 of them. */
  lemma WakesAtTick(s: Sched, ops: seq<Op>, t: int, n: int)
    requires Inv(s) && AllSurvive(ops) && AsleepFor(s.all, t, n)
    requires forall k {:trigger ops[k]} :: 0 <= k < |ops| ==> ops[k] != TerminateOp(t)
    requires n > 0 && Ticks(ops) == n - 1
    ensures Awake(Apply(Run(s, ops), TickOp), t)
  {
    SleepsUntilTick(s, ops, t, n);
    SleeperStep(Run(s, ops), TickOp, t, 1);
  }

  ghost function Voluntary(s: Sched, ops: seq<Op>): nat
    requires Inv(s) && AllSurvive(ops)
    decreases |ops|
  {
    if ops == [] then 0
    else (if Switches(s, ops[0]) && !ops[0].TickOp? then 1 else 0) + Voluntary(Apply(s, ops[0]), ops[1..])
  }

  /** The header counts a sleep in quantums that start for whatever reason. The code counts ticks, so the
      two agree on a run if and only if no thread blocked itself, slept or terminated itself in it. */
  lemma {:induction false} QuantumsAreTicksIffNoneVoluntary(s: Sched, ops: seq<Op>)
    requires Inv(s) && AllSurvive(ops)
    ensures SwitchCount(s, ops) == Ticks(ops) + Voluntary(s, ops)
    ensures SwitchCount(s, ops) == Ticks(ops) <==> Voluntary(s, ops) == 0
    decreases |ops|
  {
    if ops != [] {
      QuantumsAreTicksIffNoneVoluntary(Apply(s, ops[0]), ops[1..]);
    }
  }

  lemma {:induction false} RunLast(s: Sched, ops: seq<Op>, op: Op)
    requires Inv(s) && AllSurvive(ops) && Survives(op)
    ensures AllSurvive(ops + [op])
    ensures Run(s, ops + [op]) == Apply(Run(s, ops), op)
    ensures SwitchCount(s, ops + [op]) == SwitchCount(s, ops) + if Switches(Run(s, ops), op) then 1 else 0
    ensures Voluntary(s, ops + [op])
            == Voluntary(s, ops) + if Switches(Run(s, ops), op) && !op.TickOp? then 1 else 0
    ensures Ticks(ops + [op]) == Ticks(ops) + if op.TickOp? then 1 else 0
    decreases |ops|
  {
    hide Inv, Apply, Switches;
    var all := ops + [op];
    if ops == [] {
      assert all == [op] && all[1..] == [];
    } else {
      assert all[0] == ops[0] && all[1..] == ops[1..] + [op];
      RunLast(Apply(s, ops[0]), ops[1..], op);
    }
  }

  /** The header has a sleeper wake when the n-th quantum after the call starts. At that moment the code
      still has it asleep if and only if one of those quantums was not started by a timer tick. */
  lemma LateIffVoluntary(s: Sched, ops: seq<Op>, op: Op, t: int, n: int)
    requires Inv(s) && AllSurvive(ops + [op]) && AsleepFor(s.all, t, n)
    requires forall k {:trigger (ops + [op])[k]} :: 0 <= k <= |ops| ==> (ops + [op])[k] != TerminateOp(t)
    requires AllSurvive(ops) && Survives(op) && Switches(Run(s, ops), op)
    requires n > 0 && SwitchCount(s, ops + [op]) == n
    ensures var r := Record(Run(s, ops + [op]).all, t);
            r.Some? && (r.value.sleep <==> Voluntary(s, ops + [op]) > 0)
  {
    hide Inv, Apply, Switches;
    RunLast(s, ops, op);
    QuantumsAreTicksIffNoneVoluntary(s, ops + [op]);
    if Voluntary(s, ops + [op]) > 0 {
      SleepsUntilTick(s, ops + [op], t, n);
    } else {
      assert op.TickOp?;
      assert forall k {:trigger ops[k]} | 0 <= k < |ops| :: ops[k] == (ops + [op])[k];
      WakesAtTick(s, ops, t, n);
    }
  }

  // ----- a run on which the two differ -----

  lemma {:induction false} RunAppend(s: Sched, ops: seq<Op>, more: seq<Op>)
    requires Inv(s) && AllSurvive(ops) && AllSurvive(more)
    ensures AllSurvive(ops + more) && Run(s, ops + more) == Run(Run(s, ops), more)
    decreases |ops|
  {
    hide Inv, Apply;
    if ops == [] {
      assert ops + more == more;
    } else {
      assert (ops + more)[1..] == ops[1..] + more;
      RunAppend(Apply(s, ops[0]), ops[1..], more);
    }
  }

  /** The main thread spawns two threads, is preempted, and the first of the two goes to sleep. */
  const NAP := [SpawnOp(true), SpawnOp(true), TickOp, SleepOp(2)]

  function FirstIds(n: nat): seq<bool> {
    seq(MAX_THREAD_NUM, i => i < n)
  }

  function Spawned(): Sched {
    Sched([0, 1], [Tcb(0, RUNNING, false, 0, 1), Tcb(1, READY, false, 0, 0)], FirstIds(2), 0, 1, 0)
  }

  function SpawnedTwice(): Sched {
    Sched([0, 1, 2], [Tcb(0, RUNNING, false, 0, 1), Tcb(1, READY, false, 0, 0), Tcb(2, READY, false, 0, 0)],
          FirstIds(3), 0, 1, 0)
  }

  function Preempted(): Sched {
    Sched([1, 2, 0], [Tcb(0, READY, false, 0, 1), Tcb(1, RUNNING, false, 0, 1), Tcb(2, READY, false, 0, 0)],
          FirstIds(3), 1, 2, 0)
  }

  function Napping(): Sched {
    Sched([2, 0], [Tcb(0, READY, false, 0, 1), Tcb(1, READY, true, 2, 1), Tcb(2, RUNNING, false, 0, 1)],
          FirstIds(3), 2, 3, 0)
  }

  lemma NextIdFree(n: nat)
    requires n < MAX_THREAD_NUM
    ensures FirstFree(FirstIds(n)) == n && FirstIds(n)[n := true] == FirstIds(n + 1)
  {
    assert !FirstIds(n)[n];
  }

  lemma SpawnSteps()
    ensures Spawn(Init(), true).0 == Spawned() && Spawn(Spawned(), true).0 == SpawnedTwice()
  {
    hide FirstFree, FirstIds;
    InitIds();
    NextIdFree(1);
    NextIdFree(2);
  }

  lemma InitIds()
    ensures Init().available == FirstIds(1) && |FirstIds(1)| == |FirstIds(2)| == MAX_THREAD_NUM
  {
  }

  lemma TickStep()
    ensures Tick(SpawnedTwice()) == Preempted()
  {
    hide FirstIds;
    var s := SpawnedTwice();
    assert WokenIds(s.all, 3) == WokenIds(s.all, 2) == WokenIds(s.all, 1) == WokenIds(s.all, 0) == [];
    assert Tick(s).all == Preempted().all;
  }

  lemma SleepStep()
    ensures Sleep(Preempted(), 2).0 == Napping()
  {
    hide FirstIds;
    assert Sleep(Preempted(), 2).0.all == Napping().all;
  }

  /** One more call of a run from uthread_init. */
  lemma Reaches(ops: seq<Op>, s: Sched, op: Op, s': Sched)
    requires Inv(Init()) && AllSurvive(ops) && Survives(op) && Run(Init(), ops) == s
    requires match op
             case SpawnOp(hasEntry) => s' == Spawn(s, hasEntry).0
             case SleepOp(n) => (s.running != 0 ==> |s.ready| > 1) && s' == Sleep(s, n).0
             case TickOp => s.ready != [] && s' == Tick(s)
             case _ => false
    ensures AllSurvive(ops + [op]) && Run(Init(), ops + [op]) == s'
  {
    hide Inv, Spawn, Sleep, Tick, Init;
    RunLast(Init(), ops, op);
  }

  lemma NapIsReached()
    ensures Inv(Init()) && AllSurvive(NAP) && Run(Init(), NAP) == Napping()
  {
    hide Inv, Apply, Spawn, Sleep, Tick;
    InitKeeps();
    SpawnSteps();
    TickStep();
    SleepStep();
    assert [] + [NAP[0]] == NAP[..1] && NAP[..1] + [NAP[1]] == NAP[..2];
    assert NAP[..2] + [NAP[2]] == NAP[..3] && NAP[..3] + [NAP[3]] == NAP;
    Reaches([], Init(), SpawnOp(true), Spawned());
    Reaches(NAP[..1], Spawned(), SpawnOp(true), SpawnedTwice());
    Reaches(NAP[..2], SpawnedTwice(), TickOp, Preempted());
    Reaches(NAP[..3], Preempted(), SleepOp(2), Napping());
  }

  lemma NapSleeps()
    ensures Inv(Napping()) ==> AsleepFor(Napping().all, 1, 2) && Switches(Napping(), BlockOp(2))
  {
    if Inv(Napping()) { RecordAt(Napping().all, 1); }
  }

  lemma TwoSwitches(s: Sched, op: Op)
    requires Inv(s) && Survives(op) && Switches(s, op) && !op.TickOp?
    ensures AllSurvive([op, TickOp]) && SwitchCount(s, [op, TickOp]) == 2 && Ticks([op, TickOp]) == 1
  {
    hide Inv, Apply;
    assert [op, TickOp][1..] == [TickOp] && [TickOp][1..] == [];
  }

  /** On that run thread 2 then blocks itself and the timer ticks: two quantums have started since thread 1
      went to sleep for two, and it sleeps on. */
  lemma SleepOutlastsItsQuantums()
    ensures var late := [BlockOp(2), TickOp];
            && Inv(Init()) && AllSurvive(NAP) && AllSurvive(late) && AllSurvive(NAP + late)
            && AsleepFor(Run(Init(), NAP).all, 1, 2)
            && SwitchCount(Run(Init(), NAP), late) == 2
            && AsleepFor(Run(Init(), NAP + late).all, 1, 1)
  {
    hide Inv, AsleepFor, Apply, Switches, Run, Napping, SwitchCount, Ticks;
    NapIsReached();
    NapSleeps();
    TwoSwitches(Napping(), BlockOp(2));
    RunAppend(Init(), NAP, [BlockOp(2), TickOp]);
    SleepsUntilTick(Napping(), [BlockOp(2), TickOp], 1, 2);
  }

  // ----- the number of threads -----

  function IdSet(all: seq<Tcb>): set<int> {
    set i | 0 <= i < |all| :: all[i].id
  }

  lemma {:induction false} IdSetSize(all: seq<Tcb>)
    requires DistinctIds(all)
    ensures |IdSet(all)| == |all|
  {
    if all != [] {
      var init, last := all[..|all| - 1], all[|all| - 1];
      IdSetSize(init);
      assert last.id !in IdSet(init);
      assert IdSet(all) == IdSet(init) + {last.id};
    }
  }

  lemma IdsAreBelow(s: Sched)
    requires Inv(s)
    ensures IdSet(s.all) <= Below(|s.available|)
  {
    forall i | 0 <= i < |s.all|
      ensures s.all[i].id in Below(|s.available|)
    {
      assert TcbOk(s, s.all[i]);
    }
  }

  /** Every id is in use if and only if there are as many threads as ids. */
  lemma FullTable(s: Sched)
    requires Inv(s)
    ensures |s.all| <= |s.available|
    ensures |s.all| == |s.available| <==> FirstFree(s.available) == |s.available|
  {
    IdsAreBelow(s);
    IdSetSize(s.all);
    SubsetSize(IdSet(s.all), Below(|s.available|));
    if |s.all| == |s.available| {
      FullMeansNoneFree(s);
    } else if FirstFree(s.available) == |s.available| {
      NoneFreeMeansFull(s);
    }
  }

  lemma FullMeansNoneFree(s: Sched)
    requires Inv(s) && IdSet(s.all) == Below(|s.available|)
    ensures FirstFree(s.available) == |s.available|
  {
    forall id | 0 <= id < |s.available|
      ensures s.available[id]
    {
      assert id in IdSet(s.all);
      var i :| 0 <= i < |s.all| && s.all[i].id == id;
      assert TcbOk(s, s.all[i]);
    }
  }

  lemma NoneFreeMeansFull(s: Sched)
    requires Inv(s) && FirstFree(s.available) == |s.available| && IdSet(s.all) <= Below(|s.available|)
    ensures IdSet(s.all) == Below(|s.available|)
  {
    forall i | i in Below(|s.available|)
      ensures i in IdSet(s.all)
    {
      ExistsHasId(s, i);
    }
  }

  /** There are never more than MAX_THREAD_NUM threads. */
  lemma ThreadLimit(ops: seq<Op>)
    requires AllSurvive(ops)
    ensures Inv(Init()) && |Run(Init(), ops).all| <= MAX_THREAD_NUM
  {
    InitKeeps();
    QuantumsAreConserved(Init(), ops);
    FullTable(Run(Init(), ops));
  }

  function Spawns(n: nat): seq<Op> {
    seq(n, _ => SpawnOp(true))
  }

  lemma {:induction false} AfterSpawns(n: nat)
    requires n <= 99
    ensures Inv(Init()) && AllSurvive(Spawns(n))
    ensures Run(Init(), Spawns(n)).available == FirstIds(n + 1) && |Run(Init(), Spawns(n)).all| == n + 1
    ensures |FirstIds(n + 1)| == 100
  {
    hide Inv, Apply, Init, Run;
    InitKeeps();
    if n == 0 {
      InitLists();
    } else {
      AfterSpawns(n - 1);
      NextIdFree(n);
      RunLast(Init(), Spawns(n - 1), SpawnOp(true));
      SpawnLists(Run(Init(), Spawns(n - 1)), n);
      assert Spawns(n - 1) + [SpawnOp(true)] == Spawns(n);
    }
  }

  lemma InitLists()
    ensures Inv(Init()) && AllSurvive(Spawns(0)) && Run(Init(), Spawns(0)) == Init()
    ensures Init().available == FirstIds(1) && |Init().all| == 1 && |FirstIds(1)| == 100
  {
    InitKeeps();
  }

  lemma SpawnLists(s: Sched, n: nat)
    requires Inv(s) && s.available == FirstIds(n) && n < 100 && FirstFree(FirstIds(n)) == n
    ensures Apply(s, SpawnOp(true)).available == s.available[n := true]
    ensures |Apply(s, SpawnOp(true)).all| == |s.all| + 1 && Answer(s, SpawnOp(true)) == n
  {
  }

  /** With nothing terminated the n-th spawn after uthread_init returns n, for n up to 99. The next fails:
      there are then 100 threads, the main one among them. */
  lemma HundredThreads(n: nat)
    requires 1 <= n <= 100
    ensures Inv(Init()) && AllSurvive(Spawns(n - 1))
    ensures Answer(Run(Init(), Spawns(n - 1)), SpawnOp(true)) == if n <= 99 then n else -1
    ensures |Run(Init(), Spawns(n - 1)).all| == n
  {
    hide Inv, Apply, Init, Run;
    AfterSpawns(n - 1);
    if n <= 99 {
      NextIdFree(n);
      SpawnLists(Run(Init(), Spawns(n - 1)), n);
    } else {
      NoneFree(FirstIds(100));
      SpawnRefused(Run(Init(), Spawns(99)));
    }
  }

  lemma NoneFree(available: seq<bool>)
    requires forall i :: 0 <= i < |available| ==> available[i]
    ensures FirstFree(available) == |available|
  {
  }

  lemma SpawnRefused(s: Sched)
    requires Inv(s) && FirstFree(s.available) == |s.available|
    ensures Answer(s, SpawnOp(true)) == -1
  {
  }

  /** When a call fails, and that it then changes nothing. */
  lemma CallsFailAsDocumented(s: Sched, op: Op)
    requires Inv(s) && Survives(op)
    ensures Answer(s, op) == FAILURE <==>
              match op
              case SpawnOp(hasEntry) => !hasEntry || |s.all| == |s.available|
              case TerminateOp(tid) => !HasId(s.all, tid)
              case BlockOp(tid) => tid == 0 || !HasId(s.all, tid)
              case ResumeOp(tid) => !HasId(s.all, tid)
              case SleepOp(_) => s.running == 0
              case TickOp => false
    ensures Answer(s, op) == FAILURE ==> Apply(s, op) == s
  {
    hide Inv;
    match op {
      case SpawnOp(_) => FullTable(s);
      case TerminateOp(tid) => ListedExists(s, tid); TerminateIs(s, tid);
      case BlockOp(tid) => ListedExists(s, tid); BlockIs(s, tid);
      case ResumeOp(tid) => ListedExists(s, tid); ResumeIs(s, tid);
      case SleepOp(n) => SleepIs(s, n);
      case TickOp =>
    }
  }
}
