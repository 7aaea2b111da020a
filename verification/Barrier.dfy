/** Ex03/Barrier.cpp as a transition system: each step is one section under the mutex. A waiting
    thread leaves pthread_cond_wait only after a broadcast (no spurious wakeups). */
module Barrier {

  datatype Status = Outside | Waiting | Woken

  /** count is the source's field. gen counts the broadcasts so far, entered and left the barrier()
      calls each thread has begun and finished. */
  datatype Barrier = Barrier(count: nat, status: seq<Status>, gen: nat, entered: seq<nat>, left: seq<nat>)

  function Init(n: nat): Barrier {
    Barrier(0, seq(n, _ => Outside), 0, seq(n, _ => 0), seq(n, _ => 0))
  }

  function Waiters(status: seq<Status>): nat {
    if status == [] then 0
    else Waiters(status[..|status| - 1]) + if status[|status| - 1].Waiting? then 1 else 0
  }

  /** Thread t calls barrier() and takes the mutex. */
  function Enter(b: Barrier, t: nat): Barrier
    requires t < |b.status| == |b.entered|
  {
    var entered := b.entered[t := b.entered[t] + 1];
    if b.count + 1 < |b.status| then
      b.(count := b.count + 1, status := b.status[t := Waiting], entered := entered)
    else
      b.(count := 0, gen := b.gen + 1, entered := entered,
         status := seq(|b.status|, u requires 0 <= u < |b.status| =>
           if u == t || b.status[u].Waiting? then Woken else b.status[u]))
  }

  /** A woken thread gets the mutex back and returns from barrier(). */
  function Leave(b: Barrier, t: nat): Barrier
    requires t < |b.status| == |b.left|
  {
    b.(status := b.status[t := Outside], left := b.left[t := b.left[t] + 1])
  }

  ghost predicate ThreadOk(b: Barrier, t: nat)
    requires t < |b.status| == |b.entered| == |b.left|
  {
    match b.status[t]
    case Outside => b.entered[t] == b.left[t] == b.gen
    case Waiting => b.entered[t] == b.gen + 1 && b.left[t] == b.gen
    case Woken => b.entered[t] == b.gen && b.left[t] + 1 == b.gen
  }

  ghost predicate Inv(b: Barrier) {
    && |b.status| == |b.entered| == |b.left|
    && b.count == Waiters(b.status) < |b.status|
    && forall t :: 0 <= t < |b.status| ==> ThreadOk(b, t)
  }

  ghost predicate Next(b: Barrier, b': Barrier) {
    |b.status| == |b.entered| == |b.left| && exists t ::
      && 0 <= t < |b.status|
      && ((b.status[t].Outside? && b' == Enter(b, t)) || (b.status[t].Woken? && b' == Leave(b, t)))
  }

  lemma {:induction false} WaitersUpdate(status: seq<Status>, t: nat, st: Status)
    requires t < |status|
    ensures Waiters(status[t := st]) + (if status[t].Waiting? then 1 else 0)
            == Waiters(status) + if st.Waiting? then 1 else 0
  {
    var n := |status| - 1;
    if t == n {
      assert status[t := st][..n] == status[..n];
    } else {
      assert status[t := st][..n] == status[..n][t := st];
      WaitersUpdate(status[..n], t, st);
    }
  }

  /** All threads but one waiting leaves no one else outside. */
  lemma {:induction false} WaitersBound(status: seq<Status>)
    ensures Waiters(status) <= |status|
    ensures Waiters(status) == |status| ==> forall t :: 0 <= t < |status| ==> status[t].Waiting?
    ensures (forall t :: 0 <= t < |status| ==> !status[t].Waiting?) ==> Waiters(status) == 0
  {
    if status != [] {
      WaitersBound(status[..|status| - 1]);
    }
  }

  lemma {:induction false} AllWaiting(status: seq<Status>)
    requires forall t :: 0 <= t < |status| ==> status[t].Waiting?
    ensures Waiters(status) == |status|
  {
    if status != [] { AllWaiting(status[..|status| - 1]); }
  }

  lemma InitOk(n: nat)
    requires n > 0
    ensures Inv(Init(n))
  {
    WaitersBound(Init(n).status);
  }

  lemma EnterKeeps(b: Barrier, t: nat)
    requires Inv(b) && t < |b.status| && b.status[t].Outside?
    ensures Inv(Enter(b, t))
    ensures Enter(b, t).gen == b.gen || Enter(b, t).gen == b.gen + 1
    ensures Enter(b, t).gen == b.gen + 1 ==> forall u :: 0 <= u < |b.status| && u != t ==> b.status[u].Waiting?
  {
    var b' := Enter(b, t);
    WaitersUpdate(b.status, t, Waiting);
    WaitersBound(b.status[t := Waiting]);
    if b.count + 1 == |b.status| {
      var filled := b.status[t := Waiting];
      assert forall u :: 0 <= u < |b.status| && u != t ==> filled[u].Waiting? && b.status[u] == filled[u];
      WaitersBound(b'.status);
    }
    forall u | 0 <= u < |b.status|
      ensures ThreadOk(b', u)
    {
      assert ThreadOk(b, u);
    }
  }

  lemma LeaveKeeps(b: Barrier, t: nat)
    requires Inv(b) && t < |b.status| && b.status[t].Woken?
    ensures Inv(Leave(b, t))
  {
    WaitersUpdate(b.status, t, Outside);
    forall u | 0 <= u < |b.status|
      ensures ThreadOk(Leave(b, t), u)
    {
      assert ThreadOk(b, u);
    }
  }

  lemma NextKeeps(b: Barrier, b': Barrier)
    requires Inv(b) && Next(b, b')
    ensures Inv(b')
  {
    var t :| 0 <= t < |b.status| &&
      ((b.status[t].Outside? && b' == Enter(b, t)) || (b.status[t].Woken? && b' == Leave(b, t)));
    if b.status[t].Outside? { EnterKeeps(b, t); } else { LeaveKeeps(b, t); }
  }

  ghost predicate IsRun(run: seq<Barrier>, n: nat) {
    run != [] && run[0] == Init(n) && forall k :: 0 <= k < |run| - 1 ==> Next(run[k], run[k + 1])
  }

  lemma {:induction false} RunKeeps(run: seq<Barrier>, n: nat, k: nat)
    requires n > 0 && IsRun(run, n) && k < |run|
    ensures Inv(run[k])
  {
    if k == 0 {
      InitOk(n);
    } else {
      RunKeeps(run, n, k - 1);
      assert Next(run[k - 1], run[k]);
      NextKeeps(run[k - 1], run[k]);
    }
  }

  /** For any number of threads, rounds and any interleaving: no thread has finished its m-th call
      before every thread has begun its m-th call, and count is the number of threads waiting. */
  lemma BarrierSeparatesRounds(run: seq<Barrier>, n: nat, k: nat, t: nat, u: nat)
    requires n > 0 && IsRun(run, n) && k < |run|
    ensures Inv(run[k])
    ensures t < |run[k].status| && u < |run[k].status| ==> run[k].left[t] <= run[k].entered[u]
    ensures run[k].count == Waiters(run[k].status)
  {
    RunKeeps(run, n, k);
    var b := run[k];
    if t < |b.status| && u < |b.status| {
      assert ThreadOk(b, t) && ThreadOk(b, u);
    }
  }
}
