/** A whole job of Ex03/MapReduceFramework.cpp as a transition system over any number of threads: one
    step per atomic operation, section under a mutex, barrier entry or barrier exit. */
module MapReduceJob {
  import opened Wrappers
  import opened Sums
  import opened ProgressWord
  import B = Barrier
  import opened Shuffle
  import opened ShufflePhase
  import Q = WorkQueue

  const MAP_STAGE := 1
  const REDUCE_STAGE := 3

  /** The client: what map emits for an input pair and reduce emits for a group, and the order of keys. */
  datatype Client = Client(mapper: int -> Vec, reducer: Vec -> Vec, less: Order)

  /** All that f emits when it is applied once to each of xs. */
  function EmittedBy<T>(f: T -> Vec, xs: seq<T>): multiset<Pair> {
    if xs == [] then multiset{} else EmittedBy(f, xs[..|xs| - 1]) + multiset(f(xs[|xs| - 1]))
  }

  /** Nothing is emitted for no arguments, and one argument more adds what f emits for that one. */
  lemma EmittedByOneMore<T>(f: T -> Vec, xs: seq<T>, x: T)
    ensures EmittedBy(f, []) == multiset{}
    ensures EmittedBy(f, xs + [x]) == EmittedBy(f, xs) + multiset(f(x))
  {
    assert (xs + [x])[..|xs|] == xs;
  }

  lemma {:induction false} EmittedIsUnion<T>(f: T -> Vec, xs: seq<T>, outs: seq<Vec>)
    requires |outs| == |xs| && forall i {:trigger outs[i]} :: 0 <= i < |xs| ==> outs[i] == f(xs[i])
    ensures Union(outs) == EmittedBy(f, xs)
  {
    if xs != [] {
      var n := |xs| - 1;
      assert outs[n] == f(xs[n]);
      assert forall i {:trigger outs[..n][i]} | 0 <= i < n :: outs[..n][i] == outs[i];
      EmittedIsUnion(f, xs[..n], outs[..n]);
    }
  }

  datatype Spec = Spec(client: Client, inputVec: seq<int>, threads: nat) {
    function MapOuts(): (outs: seq<Vec>)
      ensures |outs| == |inputVec|
    {
      seq(|inputVec|, i requires 0 <= i < |inputVec| => client.mapper(inputVec[i]))
    }

    function ReduceOuts(groups: seq<Vec>): (outs: seq<Vec>)
      ensures |outs| == |groups|
    {
      seq(|groups|, g requires 0 <= g < |groups| => client.reducer(groups[g]))
    }

    // all pairs emitted by mapping each input once
    function AllPairs(): multiset<Pair> {
      EmittedBy(client.mapper, inputVec)
    }

    function Ones(): (ns: seq<nat>)
      ensures |ns| == |inputVec|
    {
      seq(|inputVec|, _ => 1)
    }

    /** The sizes fit the 31-bit fields of the progress word. */
    ghost predicate Valid() {
      && threads > 0 && StrictWeakOrder(client.less)
      && |inputVec| < TOTAL_UNIT && |AllPairs()| < TOTAL_UNIT
    }
  }

  /** Where thread 0 is between the two barriers. */
  datatype Coord =
    | CountPairs | StoreShuffle(total: nat) | ClearForShuffle
    | Choose | Gather
    | CountGroups | StoreReduce(total: nat) | ClearForReduce

  /** Where a thread is in thread_flow. */
  datatype Phase = Mapping | Arriving1 | Waiting1 | Shuffling(at: Coord) | Arriving2 | Waiting2 | Reducing

  /** work holds the two shared atomics with each thread's position in its loop; sh holds beforeShuffle,
      afterShuffle and the locals of the shuffle. */
  datatype Job = Job(work: Q.Work, phases: seq<Phase>, local: seq<Vec>, sh: Sh, output: seq<Pair>, bar: B.Barrier)

  function Init(spec: Spec): Job {
    Job(Q.Start(Reset(MAP_STAGE, |spec.inputVec|), |spec.inputVec|, spec.threads),
        seq(spec.threads, _ => Mapping), seq(spec.threads, _ => []),
        Sh([], [], [], None, 0), [], B.Init(spec.threads))
  }

  ghost predicate Shaped(spec: Spec, s: Job) {
    spec.threads == |s.phases| == |s.local| == |s.work.pcs| == |s.bar.status| == |s.bar.entered| == |s.bar.left|
  }

  // ----- the steps -----

  /** The element thread t emits in its next step, if it is about to emit one. */
  function Emission(w: Q.Work, t: nat, outs: seq<Vec>): seq<Pair>
    requires t < |w.pcs|
  {
    match w.pcs[t]
    case Run(i, k) => if i < |outs| && k < |outs[i]| then [outs[i][k]] else []
    case _ => []
  }

  /** The loop of map_phase; emit2 pushes to the thread's own vector. */
  ghost predicate MapStep(spec: Spec, s: Job, t: nat, s': Job)
    requires Shaped(spec, s) && t < spec.threads
  {
    && |s.work.items| == |spec.inputVec|
    && Q.Step(s.work, t, Lengths(spec.MapOuts()), spec.Ones(), s'.work)
    && s' == s.(work := s'.work, local := s.local[t := s.local[t] + Emission(s.work, t, spec.MapOuts())])
  }

  /** sort_phase: the thread's vector is sorted and, under the mutex, pushed to beforeShuffle. */
  ghost predicate SortStep(spec: Spec, s: Job, t: nat, sorted: Vec, s': Job)
    requires Shaped(spec, s) && t < spec.threads
  {
    && multiset(sorted) == multiset(s.local[t]) && Sorted(spec.client.less, sorted)
    && s' == s.(local := s.local[t := sorted], sh := s.sh.(before := s.sh.before + [sorted]),
                phases := s.phases[t := Arriving1])
  }

  ghost predicate EnterStep(spec: Spec, s: Job, t: nat, waiting: Phase, s': Job)
    requires Shaped(spec, s) && t < spec.threads
  {
    s' == s.(bar := B.Enter(s.bar, t), phases := s.phases[t := waiting])
  }

  ghost predicate LeaveStep(spec: Spec, s: Job, t: nat, onward: Phase, s': Job)
    requires Shaped(spec, s) && t < spec.threads
  {
    s.bar.status[t].Woken? && s' == s.(bar := B.Leave(s.bar, t), phases := s.phases[t := onward])
  }

  /** What thread 0 does between the barriers. */
  function CoordStep(spec: Spec, s: Job, c: Coord): Job
    requires |s.phases| > 0
  {
    match c
    case CountPairs => At(s, StoreShuffle(Total(Lengths(s.sh.before))))
    case StoreShuffle(total) => At(s, ClearForShuffle).(work := s.work.(word := Reset(SHUFFLE_STAGE, total)))
    case ClearForShuffle =>
      At(s, Choose).(work := s.work.(next := 0), sh := s.sh.(temp := [], key := None, v := 0))
    case Choose =>
      var sh := Pick(spec.client.less, s.sh);
      At(s, if sh.key.None? then CountGroups else Gather).(sh := sh)
    case Gather =>
      if CanPop(spec.client.less, s.sh) then s.(sh := Pop(s.sh), work := s.work.(word := FetchAdd(s.work.word, 1)))
      else if s.sh.v < |s.sh.before| then s.(sh := s.sh.(v := s.sh.v + 1))
      else At(s, Choose).(sh := Close(s.sh).(v := 0))
    case CountGroups => At(s, StoreReduce(Total(Lengths(s.sh.after))))
    case StoreReduce(total) => At(s, ClearForReduce).(work := s.work.(word := Reset(REDUCE_STAGE, total)))
    case ClearForReduce =>
      s.(work := Q.Start(s.work.word, |s.sh.after|, spec.threads), phases := s.phases[0 := Arriving2])
  }

  function At(s: Job, c: Coord): Job
    requires |s.phases| > 0
  {
    s.(phases := s.phases[0 := Shuffling(c)])
  }

  /** The loop of reduce_phase; emit3 pushes to outputVec under the mutex. */
  ghost predicate ReduceStep(spec: Spec, s: Job, t: nat, s': Job)
    requires Shaped(spec, s) && t < spec.threads
  {
    && |s.work.items| == |s.sh.after|
    && Q.Step(s.work, t, Lengths(spec.ReduceOuts(s.sh.after)), Lengths(s.sh.after), s'.work)
    && s' == s.(work := s'.work, output := s.output + Emission(s.work, t, spec.ReduceOuts(s.sh.after)))
  }

  /** One step of thread t; sorted is the outcome of std::sort if the step sorts. */
  ghost predicate StepOf(spec: Spec, s: Job, t: nat, sorted: Vec, s': Job) {
    Shaped(spec, s) && t < spec.threads &&
    match s.phases[t]
    case Mapping => if s.work.pcs[t].Exit? then SortStep(spec, s, t, sorted, s') else MapStep(spec, s, t, s')
    case Arriving1 => EnterStep(spec, s, t, Waiting1, s')
    case Waiting1 => LeaveStep(spec, s, t, if t == 0 then Shuffling(CountPairs) else Arriving2, s')
    case Shuffling(c) => s' == CoordStep(spec, s, c)
    case Arriving2 => EnterStep(spec, s, t, Waiting2, s')
    case Waiting2 => LeaveStep(spec, s, t, Reducing, s')
    case Reducing => ReduceStep(spec, s, t, s')
  }

  ghost predicate Next(spec: Spec, s: Job, s': Job) {
    exists t, sorted :: StepOf(spec, s, t, sorted, s')
  }

  // ----- the invariant -----

  /** How a thread's position fits the barrier() calls it has begun and finished. */
  ghost predicate Placed(spec: Spec, s: Job, t: nat)
    requires Shaped(spec, s) && t < spec.threads
  {
    match s.phases[t]
    case Mapping => s.bar.status[t].Outside? && s.bar.entered[t] == 0
    case Arriving1 => s.bar.status[t].Outside? && s.bar.entered[t] == 0
    case Waiting1 => !s.bar.status[t].Outside? && s.bar.entered[t] == 1
    case Shuffling(_) => t == 0 && s.bar.status[t].Outside? && s.bar.entered[t] == 1
    case Arriving2 => s.bar.status[t].Outside? && s.bar.entered[t] == 1
    case Waiting2 => !s.bar.status[t].Outside? && s.bar.entered[t] == 2
    case Reducing => s.bar.status[t].Outside? && s.bar.entered[t] == 2
  }

  function Pushed(s: Job): seq<Vec>
    requires |s.phases| == |s.local|
  {
    seq(|s.local|, t requires 0 <= t < |s.local| => if s.phases[t].Mapping? then [] else s.local[t])
  }

  /** Before the first broadcast. */
  ghost predicate MapInv(spec: Spec, s: Job)
    requires Shaped(spec, s)
  {
    && Q.Inv(s.work, MAP_STAGE, Lengths(spec.MapOuts()), spec.Ones())
    && (forall t {:trigger s.phases[t]} | 0 <= t < spec.threads :: !s.phases[t].Mapping? ==> s.work.pcs[t].Exit?)
    && Union(s.local) == Union(Q.Taken(s.work, spec.MapOuts()))
    && Union(s.sh.before) == Union(Pushed(s))
    && AllSorted(spec.client.less, s.sh.before)
    && s.sh.after == [] && s.output == []
  }

  /** All pairs have been pushed and nothing shuffled yet. */
  ghost predicate Unshuffled(spec: Spec, s: Job) {
    s.sh.after == [] && AllSorted(spec.client.less, s.sh.before) && Union(s.sh.before) == spec.AllPairs()
  }

  ghost predicate Shuffled(spec: Spec, s: Job) {
    IsPartition(spec.client.less, s.sh.after, spec.AllPairs())
  }

  ghost predicate ReduceInv(spec: Spec, s: Job) {
    && Shuffled(spec, s)
    && Q.Inv(s.work, REDUCE_STAGE, Lengths(spec.ReduceOuts(s.sh.after)), Lengths(s.sh.after))
    && multiset(s.output) == Union(Q.Taken(s.work, spec.ReduceOuts(s.sh.after)))
  }

  ghost predicate CoordInv(spec: Spec, s: Job, c: Coord) {
    var (word, n, total) := (s.work.word, |spec.inputVec|, |spec.AllPairs()|);
    s.output == [] &&
    match c
    case CountPairs => Unshuffled(spec, s) && IsWord(word, MAP_STAGE, n, n)
    case StoreShuffle(t) => Unshuffled(spec, s) && IsWord(word, MAP_STAGE, n, n) && t == total
    case ClearForShuffle => Unshuffled(spec, s) && IsWord(word, SHUFFLE_STAGE, total, 0)
    case Choose => s.sh.key.None? && s.sh in Steps(spec.client.less, spec.AllPairs(), word)
    case Gather => s.sh.key.Some? && s.sh in Steps(spec.client.less, spec.AllPairs(), word)
    case CountGroups => Shuffled(spec, s) && IsWord(word, SHUFFLE_STAGE, total, total)
    case StoreReduce(t) => Shuffled(spec, s) && IsWord(word, SHUFFLE_STAGE, total, total) && t == total
    case ClearForReduce => Shuffled(spec, s) && IsWord(word, REDUCE_STAGE, total, 0)
  }

  /** Between the broadcasts everything hangs on thread 0. */
  ghost predicate BetweenInv(spec: Spec, s: Job)
    requires Shaped(spec, s) && spec.threads > 0
  {
    match s.phases[0]
    case Waiting1 => CoordInv(spec, s, CountPairs)
    case Shuffling(c) => CoordInv(spec, s, c)
    case _ => ReduceInv(spec, s)
  }

  ghost predicate DataInv(spec: Spec, s: Job)
    requires Shaped(spec, s) && spec.threads > 0
  {
    if s.bar.gen == 0 then MapInv(spec, s)
    else if s.bar.gen == 1 then BetweenInv(spec, s)
    else ReduceInv(spec, s)
  }

  ghost predicate Inv(spec: Spec, s: Job) {
    && spec.Valid() && Shaped(spec, s)
    && B.Inv(s.bar)
    && (forall t {:trigger Placed(spec, s, t)} | 0 <= t < spec.threads :: Placed(spec, s, t))
    && DataInv(spec, s)
  }

  // ----- the invariant holds initially -----

  lemma {:induction false} TotalOfOnes(ns: seq<nat>)
    requires forall i :: 0 <= i < |ns| ==> ns[i] == 1
    ensures Total(ns) == |ns|
  {
    if ns != [] { TotalOfOnes(ns[..|ns| - 1]); }
  }

  lemma InitOk(spec: Spec)
    requires spec.Valid()
    ensures Inv(spec, Init(spec))
  {
    hide Q.Inv, B.Inv, EmittedBy;
    var s := Init(spec);
    B.InitOk(spec.threads);
    TotalOfOnes(spec.Ones());
    Q.StartOk(MAP_STAGE, s.work.word, Lengths(spec.MapOuts()), spec.Ones(), spec.threads);
    Q.TakenAtStart(s.work.word, spec.MapOuts(), spec.threads);
    UnionOfEmpty(s.local);
    UnionOfEmpty(Pushed(s));
  }

  // ----- every step keeps the invariant -----

  /** The generation of the barrier tells how far every thread is. */
  lemma PhaseGeneration(spec: Spec, s: Job, t: nat)
    requires Inv(spec, s) && t < spec.threads
    ensures match s.phases[t]
            case Mapping => s.bar.gen == 0
            case Arriving1 => s.bar.gen == 0
            case Waiting1 => s.bar.gen == if s.bar.status[t].Waiting? then 0 else 1
            case Shuffling(_) => s.bar.gen == 1
            case Arriving2 => s.bar.gen == 1
            case Waiting2 => s.bar.gen == if s.bar.status[t].Waiting? then 1 else 2
            case Reducing => s.bar.gen == 2
  {
    assert Placed(spec, s, t) && B.ThreadOk(s.bar, t);
  }

  /** Steps that leave the barrier and the class of each phase alone leave the placement alone. */
  lemma PlacedStays(spec: Spec, s: Job, s': Job)
    requires Inv(spec, s) && Shaped(spec, s') && s'.bar == s.bar
    requires forall t {:trigger s'.phases[t]} | 0 <= t < spec.threads ::
               s'.phases[t] == s.phases[t] || Placed(spec, s', t)
    ensures forall t {:trigger Placed(spec, s', t)} | 0 <= t < spec.threads :: Placed(spec, s', t)
  {
    forall t {:trigger Placed(spec, s', t)} | 0 <= t < spec.threads
      ensures Placed(spec, s', t)
    {
      assert Placed(spec, s, t);
      assert s'.phases[t] == s.phases[t] || Placed(spec, s', t);
    }
  }

  lemma MapStepKeeps(spec: Spec, s: Job, t: nat, s': Job)
    requires Inv(spec, s) && t < spec.threads && s.phases[t].Mapping? && MapStep(spec, s, t, s')
    ensures Inv(spec, s') && s.work.word <= s'.work.word
  {
    PhaseGeneration(spec, s, t);
    MapStepData(spec, s, t, s');
    PlacedStays(spec, s, s');
  }

  lemma MapStepData(spec: Spec, s: Job, t: nat, s': Job)
    requires spec.Valid() && Shaped(spec, s) && MapInv(spec, s)
    requires t < spec.threads && s.phases[t].Mapping? && MapStep(spec, s, t, s')
    ensures Shaped(spec, s') && MapInv(spec, s') && s.work.word <= s'.work.word
  {
    hide Q.Inv;
    var outs := spec.MapOuts();
    Q.StepKeeps(s.work, MAP_STAGE, Lengths(outs), spec.Ones(), t, s'.work);
    StepEmits(s.work, MAP_STAGE, outs, spec.Ones(), t, s'.work);
    PushedByMap(s.local, t, Emission(s.work, t, outs));
    PushedSame(s, s');
  }

  lemma PushedSame(s: Job, s': Job)
    requires |s.phases| == |s.local| == |s'.local| && s'.phases == s.phases
    requires forall t | 0 <= t < |s.local| && !s.phases[t].Mapping? :: s'.local[t] == s.local[t]
    ensures Pushed(s') == Pushed(s)
  {
  }

  /** What a step of the claiming loop emits is what its item has then emitted in addition. */
  lemma StepEmits(w: Q.Work, stage: nat, outs: seq<Vec>, weights: seq<nat>, t: nat, w': Q.Work)
    requires Q.Inv(w, stage, Lengths(outs), weights) && t < |w.pcs| && Q.Step(w, t, Lengths(outs), weights, w')
    ensures |w'.items| == |w.items| == |outs|
    ensures Union(Q.Taken(w', outs)) == Union(Q.Taken(w, outs)) + multiset(Emission(w, t, outs))
  {
    Q.StepTakes(w, stage, outs, weights, t, w');
  }

  lemma PushedByMap(local: seq<Vec>, t: nat, em: Vec)
    requires t < |local|
    ensures Union(local[t := local[t] + em]) == Union(local) + multiset(em)
  {
    var local' := local[t := local[t] + em];
    UnionUpdate(local, t, local[t] + em);
    Q.CancelSame(Union(local'), Union(local), multiset(local[t]), multiset(em));
  }

  lemma SortStepKeeps(spec: Spec, s: Job, t: nat, sorted: Vec, s': Job)
    requires Inv(spec, s) && t < spec.threads && s.phases[t].Mapping? && s.work.pcs[t].Exit?
    requires SortStep(spec, s, t, sorted, s')
    ensures Inv(spec, s') && s'.work.word == s.work.word
  {
    PhaseGeneration(spec, s, t);
    SortStepData(spec, s, t, sorted, s');
    assert Placed(spec, s, t);
    PlacedStays(spec, s, s');
  }

  lemma SortStepData(spec: Spec, s: Job, t: nat, sorted: Vec, s': Job)
    requires Shaped(spec, s) && MapInv(spec, s)
    requires t < spec.threads && s.phases[t].Mapping? && s.work.pcs[t].Exit? && SortStep(spec, s, t, sorted, s')
    ensures Shaped(spec, s') && MapInv(spec, s')
  {
    SortedLocal(s.local, t, sorted);
    UnionAppend(s.sh.before, sorted);
    SortedPushed(s, t, sorted, s');
  }

  lemma SortedLocal(local: seq<Vec>, t: nat, sorted: Vec)
    requires t < |local| && multiset(sorted) == multiset(local[t])
    ensures Union(local[t := sorted]) == Union(local)
  {
    UnionUpdate(local, t, sorted);
    SameUnion(Union(local[t := sorted]), Union(local), multiset(sorted));
  }

  lemma SortedPushed(s: Job, t: nat, sorted: Vec, s': Job)
    requires t < |s.phases| == |s.local| && s.phases[t].Mapping?
    requires s'.phases == s.phases[t := Arriving1] && s'.local == s.local[t := sorted]
    ensures Union(Pushed(s')) == Union(Pushed(s)) + multiset(sorted)
  {
    assert Pushed(s') == Pushed(s)[t := sorted];
    UnionUpdate(Pushed(s), t, sorted);
  }

  lemma SameUnion<E>(a: multiset<E>, b: multiset<E>, x: multiset<E>)
    requires a + x == b + x
    ensures a == b
  {
    forall e
      ensures a[e] == b[e]
    {
      assert (a + x)[e] == (b + x)[e];
    }
  }

  /** When the last thread arrives at the first barrier, everything has been mapped, counted and pushed. */
  lemma MapComplete(spec: Spec, s: Job)
    requires spec.Valid() && Shaped(spec, s) && MapInv(spec, s)
    requires forall t {:trigger s.phases[t]} | 0 <= t < spec.threads :: !s.phases[t].Mapping?
    ensures CoordInv(spec, s, CountPairs)
  {
    assert forall t | 0 <= t < spec.threads :: s.phases[t].Mapping? || s.work.pcs[t].Exit?;
    Q.TakenAtEnd(s.work, MAP_STAGE, spec.MapOuts(), spec.Ones());
    Q.AllExitedMeansAllDone(s.work, MAP_STAGE, Lengths(spec.MapOuts()), spec.Ones());
    TotalOfOnes(spec.Ones());
    assert Pushed(s) == s.local;
    EmittedIsUnion(spec.client.mapper, spec.inputVec, spec.MapOuts());
  }

  lemma EnterPlaced(spec: Spec, s: Job, t: nat, waiting: Phase, s': Job)
    requires Inv(spec, s) && t < spec.threads && EnterStep(spec, s, t, waiting, s')
    requires (s.phases[t].Arriving1? && waiting.Waiting1?) || (s.phases[t].Arriving2? && waiting.Waiting2?)
    ensures Shaped(spec, s') && B.Inv(s'.bar)
    ensures forall u {:trigger Placed(spec, s', u)} | 0 <= u < spec.threads :: Placed(spec, s', u)
    ensures s'.bar.gen == s.bar.gen || s'.bar.gen == s.bar.gen + 1
    ensures s'.bar.gen == s.bar.gen + 1 ==>
              forall u {:trigger s.bar.status[u]} | 0 <= u < spec.threads && u != t :: s.bar.status[u].Waiting?
  {
    assert Placed(spec, s, t);
    B.EnterKeeps(s.bar, t);
    forall u {:trigger Placed(spec, s', u)} | 0 <= u < spec.threads
      ensures Placed(spec, s', u)
    {
      assert Placed(spec, s, u);
    }
  }

  lemma Enter1Keeps(spec: Spec, s: Job, t: nat, s': Job)
    requires Inv(spec, s) && t < spec.threads && s.phases[t].Arriving1? && EnterStep(spec, s, t, Waiting1, s')
    ensures Inv(spec, s')
  {
    hide Q.Inv, IsPartition, AllSorted, Steps, B.Inv, CoordInv, ReduceInv, B.Enter;
    EnterPlaced(spec, s, t, Waiting1, s');
    PhaseGeneration(spec, s, t);
    assert Pushed(s') == Pushed(s);
    assert MapInv(spec, s');
    if s'.bar.gen == 1 {
      forall u {:trigger s'.phases[u]} | 0 <= u < spec.threads
        ensures s'.phases[u].Waiting1?
      {
        if u != t {
          assert s.bar.status[u].Waiting?;
          PhaseGeneration(spec, s, u);
          assert Placed(spec, s, u);
        }
      }
      MapComplete(spec, s');
    }
  }

  lemma Enter2Keeps(spec: Spec, s: Job, t: nat, s': Job)
    requires Inv(spec, s) && t < spec.threads && s.phases[t].Arriving2? && EnterStep(spec, s, t, Waiting2, s')
    ensures Inv(spec, s')
  {
    EnterPlaced(spec, s, t, Waiting2, s');
    PhaseGeneration(spec, s, t);
    if s'.bar.gen == 2 && t != 0 {
      assert s.bar.status[0].Waiting?;
      PhaseGeneration(spec, s, 0);
      assert Placed(spec, s, 0);
    }
  }

  lemma LeaveKeeps(spec: Spec, s: Job, t: nat, onward: Phase, s': Job)
    requires Inv(spec, s) && t < spec.threads && LeaveStep(spec, s, t, onward, s')
    requires if s.phases[t].Waiting1? then onward == (if t == 0 then Shuffling(CountPairs) else Arriving2)
             else s.phases[t].Waiting2? && onward == Reducing
    ensures Inv(spec, s')
  {
    hide Q.Inv, IsPartition, AllSorted, Steps, IsWord, B.Inv;
    PhaseGeneration(spec, s, t);
    B.LeaveKeeps(s.bar, t);
    forall u {:trigger Placed(spec, s', u)} | 0 <= u < spec.threads
      ensures Placed(spec, s', u)
    {
      assert Placed(spec, s, u);
    }
  }

  // ----- thread 0 between the barriers -----

  lemma CountOfPairs(spec: Spec, s: Job)
    requires spec.Valid() && CoordInv(spec, s, CountPairs)
    ensures Total(Lengths(s.sh.before)) == |spec.AllPairs()|
  {
    UnionSize(s.sh.before);
  }

  lemma GroupsAreNonempty(spec: Spec, s: Job)
    requires Shuffled(spec, s)
    ensures Total(Lengths(s.sh.after)) == |spec.AllPairs()|
    ensures forall g {:trigger Lengths(s.sh.after)[g]} :: 0 <= g < |s.sh.after| ==> Lengths(s.sh.after)[g] >= 1
  {
    UnionSize(s.sh.after);
  }

  /** What is true of the data once thread 0 has made a step, wherever it has got to. */
  ghost predicate CoordAfter(spec: Spec, s: Job)
    requires |s.phases| > 0
  {
    match s.phases[0]
    case Shuffling(c) => CoordInv(spec, s, c)
    case _ => ReduceInv(spec, s)
  }

  lemma ChooseData(spec: Spec, s: Job)
    requires spec.Valid() && Shaped(spec, s) && CoordInv(spec, s, Choose) && s.phases[0] == Shuffling(Choose)
    ensures CoordAfter(spec, CoordStep(spec, s, Choose))
  {
    var (less, all, word) := (spec.client.less, spec.AllPairs(), s.work.word);
    PickStep(less, all, word, s.sh);
    if Pick(less, s.sh).key.None? { EndStep(less, all, word, s.sh); }
  }

  lemma GatherData(spec: Spec, s: Job)
    requires spec.Valid() && Shaped(spec, s) && CoordInv(spec, s, Gather) && s.phases[0] == Shuffling(Gather)
    ensures CoordAfter(spec, CoordStep(spec, s, Gather))
    ensures s.work.word <= CoordStep(spec, s, Gather).work.word
  {
    hide Steps;
    var (less, all, word) := (spec.client.less, spec.AllPairs(), s.work.word);
    if CanPop(less, s.sh) { PopStep(less, all, word, s.sh); }
    else if s.sh.v < |s.sh.before| { SkipStep(less, all, word, s.sh); }
    else { CloseStep(less, all, word, s.sh); }
  }

  lemma ReduceStarts(spec: Spec, s: Job)
    requires spec.Valid() && Shaped(spec, s) && CoordInv(spec, s, ClearForReduce)
    requires s.phases[0] == Shuffling(ClearForReduce)
    ensures CoordAfter(spec, CoordStep(spec, s, ClearForReduce))
  {
    var word := s.work.word;
    GroupsAreNonempty(spec, s);
    Q.StartOk(REDUCE_STAGE, word, Lengths(spec.ReduceOuts(s.sh.after)), Lengths(s.sh.after), spec.threads);
    Q.TakenAtStart(word, spec.ReduceOuts(s.sh.after), spec.threads);
  }

  /** The data part of each step of thread 0. */
  lemma CoordData(spec: Spec, s: Job, c: Coord)
    requires spec.Valid() && Shaped(spec, s) && CoordInv(spec, s, c) && s.phases[0] == Shuffling(c)
    ensures CoordAfter(spec, CoordStep(spec, s, c))
    ensures s.work.word <= CoordStep(spec, s, c).work.word
  {
    match c {
      case CountPairs => CountOfPairs(spec, s);
      case StoreShuffle(_) =>
      case ClearForShuffle =>
        StartStep(spec.client.less, spec.AllPairs(), s.work.word, s.sh.(temp := [], key := None, v := 0));
      case Choose => ChooseData(spec, s);
      case Gather => GatherData(spec, s);
      case CountGroups => GroupsAreNonempty(spec, s);
      case StoreReduce(_) =>
      case ClearForReduce => ReduceStarts(spec, s);
    }
  }

  lemma CoordKeeps(spec: Spec, s: Job, c: Coord)
    requires Inv(spec, s) && s.phases[0] == Shuffling(c)
    ensures Inv(spec, CoordStep(spec, s, c)) && s.work.word <= CoordStep(spec, s, c).work.word
  {
    hide CoordInv, ReduceInv, MapInv;
    PhaseGeneration(spec, s, 0);
    CoordData(spec, s, c);
    assert Placed(spec, s, 0);
    PlacedStays(spec, s, CoordStep(spec, s, c));
  }

  lemma ReduceStepKeeps(spec: Spec, s: Job, t: nat, s': Job)
    requires Inv(spec, s) && t < spec.threads && s.phases[t].Reducing? && ReduceStep(spec, s, t, s')
    ensures Inv(spec, s') && s.work.word <= s'.work.word
  {
    PhaseGeneration(spec, s, t);
    var (outs, weights) := (spec.ReduceOuts(s.sh.after), Lengths(s.sh.after));
    Q.StepKeeps(s.work, REDUCE_STAGE, Lengths(outs), weights, t, s'.work);
    StepEmits(s.work, REDUCE_STAGE, outs, weights, t, s'.work);
    PlacedStays(spec, s, s');
  }

  lemma OnlyThreadZeroShuffles(spec: Spec, s: Job, t: nat)
    requires Inv(spec, s) && t < spec.threads && s.phases[t].Shuffling?
    ensures t == 0
  {
    assert Placed(spec, s, t);
  }

  /** Every step of every thread keeps the invariant; the progress word never gets smaller. */
  lemma StepKeeps(spec: Spec, s: Job, t: nat, sorted: Vec, s': Job)
    requires Inv(spec, s) && StepOf(spec, s, t, sorted, s')
    ensures Inv(spec, s') && s.work.word <= s'.work.word
  {
    hide Inv, MapStep, SortStep, ReduceStep, CoordStep, B.Enter, B.Leave;
    match s.phases[t] {
      case Mapping =>
        if s.work.pcs[t].Exit? { SortStepKeeps(spec, s, t, sorted, s'); } else { MapStepKeeps(spec, s, t, s'); }
      case Arriving1 => Enter1Keeps(spec, s, t, s');
      case Waiting1 => LeaveKeeps(spec, s, t, if t == 0 then Shuffling(CountPairs) else Arriving2, s');
      case Shuffling(c) =>
        OnlyThreadZeroShuffles(spec, s, t);
        CoordKeeps(spec, s, c);
      case Arriving2 => Enter2Keeps(spec, s, t, s');
      case Waiting2 => LeaveKeeps(spec, s, t, Reducing, s');
      case Reducing => ReduceStepKeeps(spec, s, t, s');
    }
  }

  // ----- runs -----

  ghost predicate IsRun(spec: Spec, run: seq<Job>) {
    && run != [] && run[0] == Init(spec)
    && forall k {:trigger run[k]} :: 0 <= k < |run| - 1 ==> Next(spec, run[k], run[k + 1])
  }

  lemma RunStep(spec: Spec, run: seq<Job>, k: nat) returns (t: nat, sorted: Vec)
    requires IsRun(spec, run) && k + 1 < |run| && Inv(spec, run[k])
    ensures StepOf(spec, run[k], t, sorted, run[k + 1])
    ensures Inv(spec, run[k + 1]) && run[k].work.word <= run[k + 1].work.word
  {
    hide Inv, StepOf;
    assert Next(spec, run[k], run[k + 1]);
    t, sorted :| StepOf(spec, run[k], t, sorted, run[k + 1]);
    StepKeeps(spec, run[k], t, sorted, run[k + 1]);
  }

  lemma {:induction false} RunKeeps(spec: Spec, run: seq<Job>, k: nat)
    requires spec.Valid() && IsRun(spec, run) && k < |run|
    ensures Inv(spec, run[k])
  {
    hide Inv, StepOf;
    if k == 0 {
      InitOk(spec);
    } else {
      RunKeeps(spec, run, k - 1);
      var t, sorted := RunStep(spec, run, k - 1);
    }
  }

  /** A job is finished when every thread has returned from thread_flow. */
  ghost predicate Finished(spec: Spec, s: Job)
    requires Shaped(spec, s)
  {
    forall t {:trigger s.phases[t]} | 0 <= t < spec.threads :: s.phases[t].Reducing? && s.work.pcs[t].Exit?
  }

  /** The groups passed to reduce are the partition by key equivalence of all pairs emitted by mapping
      each input once, every group has been reduced exactly once, and outputVec holds exactly what the
      reduces emitted. */
  ghost predicate Correct(spec: Spec, s: Job) {
    && IsPartition(spec.client.less, s.sh.after, spec.AllPairs())
    && multiset(s.output) == EmittedBy(spec.client.reducer, s.sh.after)
    && IsWord(s.work.word, REDUCE_STAGE, |spec.AllPairs()|, |spec.AllPairs()|)
  }

  lemma FinishedIsCorrect(spec: Spec, s: Job)
    requires Inv(spec, s) && Finished(spec, s)
    ensures Correct(spec, s)
  {
    assert s.phases[0].Reducing?;
    PhaseGeneration(spec, s, 0);
    var (outs, weights) := (spec.ReduceOuts(s.sh.after), Lengths(s.sh.after));
    assert forall t | 0 <= t < spec.threads :: s.phases[t].Reducing? ==> s.work.pcs[t].Exit?;
    Q.TakenAtEnd(s.work, REDUCE_STAGE, outs, weights);
    EmittedIsUnion(spec.client.reducer, s.sh.after, outs);
    Q.AllExitedMeansAllDone(s.work, REDUCE_STAGE, Lengths(outs), weights);
    GroupsAreNonempty(spec, s);
  }

  /** On every run, whatever the interleaving, a finished job is correct. */
  lemma FinishedJobIsCorrect(spec: Spec, run: seq<Job>, k: nat)
    requires spec.Valid() && IsRun(spec, run) && k < |run|
    requires Shaped(spec, run[k]) && Finished(spec, run[k])
    ensures Correct(spec, run[k])
  {
    RunKeeps(spec, run, k);
    FinishedIsCorrect(spec, run[k]);
  }

  /** The groups do not depend on the schedule, beyond the order of pairs within a group. */
  lemma GroupsAreScheduleIndependent(spec: Spec, run1: seq<Job>, run2: seq<Job>, k1: nat, k2: nat)
    requires spec.Valid() && IsRun(spec, run1) && IsRun(spec, run2) && k1 < |run1| && k2 < |run2|
    requires Shaped(spec, run1[k1]) && Finished(spec, run1[k1])
    requires Shaped(spec, run2[k2]) && Finished(spec, run2[k2])
    ensures var (gs, hs) := (run1[k1].sh.after, run2[k2].sh.after);
            |gs| == |hs| && forall i :: 0 <= i < |gs| ==> multiset(gs[i]) == multiset(hs[i])
  {
    FinishedJobIsCorrect(spec, run1, k1);
    FinishedJobIsCorrect(spec, run2, k2);
    PartitionIsUnique(spec.client.less, run1[k1].sh.after, run2[k2].sh.after, spec.AllPairs());
  }

  /** While thread 0 works between the barriers, no other thread maps, sorts or reduces. */
  lemma ShuffleRunsAlone(spec: Spec, run: seq<Job>, k: nat, t: nat)
    requires spec.Valid() && IsRun(spec, run) && k < |run|
    requires Shaped(spec, run[k]) && run[k].phases[0].Shuffling? && 0 < t < spec.threads
    ensures var p := run[k].phases[t];
            p.Waiting1? || p.Arriving2? || p.Waiting2?
  {
    RunKeeps(spec, run, k);
    PhaseGeneration(spec, run[k], 0);
    PhaseGeneration(spec, run[k], t);
    assert Placed(spec, run[k], t);
  }

  /** What getJobState reads at any moment is a stage with a count not above its total. */
  lemma ProgressIsSane(spec: Spec, run: seq<Job>, k: nat) returns (stage: nat, total: nat, count: nat)
    requires spec.Valid() && IsRun(spec, run) && k < |run|
    ensures IsWord(run[k].work.word, stage, total, count) && 1 <= stage <= 3
    ensures StageOf(run[k].work.word) == stage && TotalOf(run[k].work.word) == total
    ensures CountOf(run[k].work.word) == count <= total
    ensures total == if stage == MAP_STAGE then |spec.inputVec| else |spec.AllPairs()|
  {
    RunKeeps(spec, run, k);
    var s := run[k];
    stage, total, count := WordOf(spec, s);
    Decode(s.work.word, stage, total, count);
  }

  lemma WordOf(spec: Spec, s: Job) returns (stage: nat, total: nat, count: nat)
    requires Inv(spec, s)
    ensures IsWord(s.work.word, stage, total, count) && 1 <= stage <= 3
    ensures total == if stage == MAP_STAGE then |spec.inputVec| else |spec.AllPairs()|
  {
    TotalOfOnes(spec.Ones());
    if s.bar.gen == 0 {
      stage, total, count := MAP_STAGE, |spec.inputVec|, Total(Q.CountedWeights(s.work.items, spec.Ones()));
    } else if s.bar.gen == 1 && (s.phases[0].Waiting1? || s.phases[0].Shuffling?) {
      stage, total, count := WordOfCoord(spec, s, if s.phases[0].Waiting1? then CountPairs else s.phases[0].at);
    } else {
      GroupsAreNonempty(spec, s);
      stage, total, count :=
        REDUCE_STAGE, |spec.AllPairs()|, Total(Q.CountedWeights(s.work.items, Lengths(s.sh.after)));
    }
  }

  lemma WordOfCoord(spec: Spec, s: Job, c: Coord) returns (stage: nat, total: nat, count: nat)
    requires spec.Valid() && CoordInv(spec, s, c)
    ensures IsWord(s.work.word, stage, total, count) && 1 <= stage <= 3
    ensures total == if stage == MAP_STAGE then |spec.inputVec| else |spec.AllPairs()|
  {
    var (n, all) := (|spec.inputVec|, |spec.AllPairs()|);
    match c {
      case CountPairs => stage, total, count := MAP_STAGE, n, n;
      case StoreShuffle(_) => stage, total, count := MAP_STAGE, n, n;
      case ClearForShuffle => stage, total, count := SHUFFLE_STAGE, all, 0;
      case Choose => stage, total, count := SHUFFLE_STAGE, all, Moved(s.sh);
      case Gather => stage, total, count := SHUFFLE_STAGE, all, Moved(s.sh);
      case CountGroups => stage, total, count := SHUFFLE_STAGE, all, all;
      case StoreReduce(_) => stage, total, count := SHUFFLE_STAGE, all, all;
      case ClearForReduce => stage, total, count := REDUCE_STAGE, all, 0;
    }
  }

  /** Observed progress never goes back. */
  lemma {:induction false} ProgressIsMonotone(spec: Spec, run: seq<Job>, j: nat, k: nat)
    requires spec.Valid() && IsRun(spec, run) && j <= k < |run|
    ensures run[j].work.word <= run[k].work.word
    ensures var (w, w') := (run[j].work.word, run[k].work.word);
            StageOf(w) < StageOf(w') || (StageOf(w) == StageOf(w') && CountOf(w) <= CountOf(w'))
  {
    hide Inv, StepOf;
    if j < k {
      ProgressIsMonotone(spec, run, j, k - 1);
      RunKeeps(spec, run, k - 1);
      var t, sorted := RunStep(spec, run, k - 1);
    }
    ReadProgress(spec, run, j, k);
  }

  /** With the totals fixed by the stage, the order of words is the lexicographic order of what is read. */
  lemma ReadProgress(spec: Spec, run: seq<Job>, j: nat, k: nat)
    requires spec.Valid() && IsRun(spec, run) && j <= k < |run| && run[j].work.word <= run[k].work.word
    ensures var (w, w') := (run[j].work.word, run[k].work.word);
            StageOf(w) < StageOf(w') || (StageOf(w) == StageOf(w') && CountOf(w) <= CountOf(w'))
  {
    hide Inv, IsRun;
    var stage, total, count := ProgressIsSane(spec, run, j);
    var stage', total', count' := ProgressIsSane(spec, run, k);
    WordsInOrder(run[j].work.word, stage, total, count, run[k].work.word, stage', total', count');
  }

  /** A new stage is published only when the count of the one before has reached its total. */
  lemma StageEndsFull(spec: Spec, run: seq<Job>, k: nat)
    requires spec.Valid() && IsRun(spec, run) && k + 1 < |run|
    requires StageOf(run[k + 1].work.word) != StageOf(run[k].work.word)
    ensures CountOf(run[k].work.word) == TotalOf(run[k].work.word)
    ensures StageOf(run[k + 1].work.word) == StageOf(run[k].work.word) + 1
  {
    hide Inv, StepOf;
    RunKeeps(spec, run, k);
    var t, sorted := RunStep(spec, run, k);
    StageChanges(spec, run[k], t, sorted, run[k + 1]);
  }

  lemma StageAtEnds(spec: Spec, s: Job)
    requires Inv(spec, s)
    ensures s.bar.gen == 0 ==> StageOf(s.work.word) == MAP_STAGE
    ensures s.bar.gen == 2 ==> StageOf(s.work.word) == REDUCE_STAGE
  {
    var (n, pairs) := (|spec.inputVec|, |spec.AllPairs()|);
    TotalOfOnes(spec.Ones());
    if s.bar.gen == 0 {
      Decode(s.work.word, MAP_STAGE, n, Total(Q.CountedWeights(s.work.items, spec.Ones())));
    } else if s.bar.gen == 2 {
      GroupsAreNonempty(spec, s);
      Decode(s.work.word, REDUCE_STAGE, pairs, Total(Q.CountedWeights(s.work.items, Lengths(s.sh.after))));
    }
  }

  /** Only thread 0 between the barriers publishes stages. */
  lemma OtherStepsKeepStage(spec: Spec, s: Job, t: nat, sorted: Vec, s': Job)
    requires Inv(spec, s) && Inv(spec, s') && StepOf(spec, s, t, sorted, s') && !s.phases[t].Shuffling?
    ensures StageOf(s'.work.word) == StageOf(s.work.word)
  {
    hide DataInv;
    PhaseGeneration(spec, s, t);
    StageAtEnds(spec, s);
    StageAtEnds(spec, s');
  }

  lemma StageChanges(spec: Spec, s: Job, t: nat, sorted: Vec, s': Job)
    requires Inv(spec, s) && Inv(spec, s') && StepOf(spec, s, t, sorted, s')
    requires StageOf(s'.work.word) != StageOf(s.work.word)
    ensures CountOf(s.work.word) == TotalOf(s.work.word) && StageOf(s'.work.word) == StageOf(s.work.word) + 1
  {
    if s.phases[t].Shuffling? {
      assert Placed(spec, s, t);
      CoordStage(spec, s, s.phases[t].at);
    } else {
      OtherStepsKeepStage(spec, s, t, sorted, s');
    }
  }

  lemma CoordStage(spec: Spec, s: Job, c: Coord)
    requires Inv(spec, s) && s.phases[0] == Shuffling(c)
    requires StageOf(CoordStep(spec, s, c).work.word) != StageOf(s.work.word)
    ensures CountOf(s.work.word) == TotalOf(s.work.word)
    ensures StageOf(CoordStep(spec, s, c).work.word) == StageOf(s.work.word) + 1
  {
    PhaseGeneration(spec, s, 0);
    CoordKeeps(spec, s, c);
    var (n, all) := (|spec.inputVec|, |spec.AllPairs()|);
    var s' := CoordStep(spec, s, c);
    match c {
      case StoreShuffle(total) =>
        Decode(s.work.word, MAP_STAGE, n, n);
        Decode(s'.work.word, SHUFFLE_STAGE, all, 0);
      case StoreReduce(total) =>
        Decode(s.work.word, SHUFFLE_STAGE, all, all);
        Decode(s'.work.word, REDUCE_STAGE, all, 0);
      case Gather =>
        if CanPop(spec.client.less, s.sh) {
          PopStep(spec.client.less, spec.AllPairs(), s.work.word, s.sh);
          Decode(s.work.word, SHUFFLE_STAGE, all, Moved(s.sh));
          Decode(s'.work.word, SHUFFLE_STAGE, all, Moved(s'.sh));
        }
      case _ =>
    }
  }

  // ----- exactly once, and no deadlock -----

  ghost predicate AllLeftLoop(s: Job) {
    forall t {:trigger s.work.pcs[t]} :: 0 <= t < |s.work.pcs| ==> s.work.pcs[t].Exit?
  }

  ghost predicate Done(item: Q.Item, threads: nat, size: nat) {
    item.Counted? && item.thread < threads && item.emitted == size
  }

  /** When all threads have left the map loop, every input has been claimed by exactly one thread, mapped
      to the end and counted, and what the threads hold is what mapping each input once emits. */
  lemma EachInputOnce(spec: Spec, run: seq<Job>, k: nat)
    requires spec.Valid() && IsRun(spec, run) && k < |run|
    requires Shaped(spec, run[k]) && run[k].bar.gen == 0 && AllLeftLoop(run[k])
    ensures var items := run[k].work.items;
            |items| == |spec.inputVec| &&
            forall i {:trigger items[i]} :: 0 <= i < |items| ==>
              Done(items[i], spec.threads, |spec.client.mapper(spec.inputVec[i])|)
    ensures Union(run[k].local) == EmittedBy(spec.client.mapper, spec.inputVec)
  {
    RunKeeps(spec, run, k);
    var s := run[k];
    Q.AllExitedMeansAllDone(s.work, MAP_STAGE, Lengths(spec.MapOuts()), spec.Ones());
    Q.TakenAtEnd(s.work, MAP_STAGE, spec.MapOuts(), spec.Ones());
    EmittedIsUnion(spec.client.mapper, spec.inputVec, spec.MapOuts());
  }

  /** The same of the groups when all threads have left the reduce loop, and of the output. */
  lemma EachGroupOnce(spec: Spec, run: seq<Job>, k: nat)
    requires spec.Valid() && IsRun(spec, run) && k < |run|
    requires Shaped(spec, run[k]) && run[k].bar.gen == 2 && AllLeftLoop(run[k])
    ensures var (items, groups) := (run[k].work.items, run[k].sh.after);
            |items| == |groups| &&
            forall i {:trigger items[i]} :: 0 <= i < |items| ==>
              Done(items[i], spec.threads, |spec.client.reducer(groups[i])|)
    ensures multiset(run[k].output) == EmittedBy(spec.client.reducer, run[k].sh.after)
  {
    RunKeeps(spec, run, k);
    var s := run[k];
    var outs := spec.ReduceOuts(s.sh.after);
    Q.AllExitedMeansAllDone(s.work, REDUCE_STAGE, Lengths(outs), Lengths(s.sh.after));
    Q.TakenAtEnd(s.work, REDUCE_STAGE, outs, Lengths(s.sh.after));
    EmittedIsUnion(spec.client.reducer, s.sh.after, outs);
  }

  /** A thread in the middle of an input emits the next pair that map emits for that input, to its own
      vector. */
  lemma MapEmitsNext(spec: Spec, s: Job, t: nat, s': Job, i: nat, k: nat)
    requires Inv(spec, s) && t < spec.threads && s.phases[t].Mapping? && MapStep(spec, s, t, s')
    requires s.work.pcs[t] == Q.Run(i, k)
    ensures i < |spec.inputVec| && var out := spec.client.mapper(spec.inputVec[i]);
            s'.local == if k < |out| then s.local[t := s.local[t] + [out[k]]] else s.local
  {
    PhaseGeneration(spec, s, t);
    assert Q.ThreadOk(s.work, t);
    assert s.local[t] + [] == s.local[t] && s.local[t := s.local[t]] == s.local;
  }

  /** A thread in the middle of a group emits the next pair that reduce emits for that group. */
  lemma ReduceEmitsNext(spec: Spec, s: Job, t: nat, s': Job, i: nat, k: nat)
    requires Inv(spec, s) && t < spec.threads && s.phases[t].Reducing? && ReduceStep(spec, s, t, s')
    requires s.work.pcs[t] == Q.Run(i, k)
    ensures i < |s.sh.after| && var out := spec.client.reducer(s.sh.after[i]);
            s'.output == if k < |out| then s.output + [out[k]] else s.output
  {
    PhaseGeneration(spec, s, t);
    assert Q.ThreadOk(s.work, t);
  }

  lemma {:induction false} Insert(less: Order, vec: Vec, p: Pair) returns (r: Vec)
    requires StrictWeakOrder(less) && Sorted(less, vec)
    ensures Sorted(less, r) && multiset(r) == multiset(vec) + multiset{p}
  {
    if vec == [] || !less(p.key, Back(vec).key) {
      r := vec + [p];
      forall i, j {:trigger r[i], r[j]} | 0 <= i < j < |r|
        ensures !less(r[j].key, r[i].key)
      {
        if j == |vec| && i < |vec| - 1 {
          assert !less(Back(vec).key, vec[i].key);
        }
      }
    } else {
      var init := vec[..|vec| - 1];
      assert vec == init + [Back(vec)];
      var r0 := Insert(less, init, p);
      r := r0 + [Back(vec)];
      forall i | 0 <= i < |r0|
        ensures !less(Back(vec).key, r0[i].key)
      {
        assert r0[i] in multiset(r0);
        if r0[i] != p {
          assert r0[i] in init;
          var x :| 0 <= x < |init| && init[x] == r0[i];
          assert vec[x] == init[x];
        }
      }
    }
  }

  /** std::sort has an outcome. */
  lemma {:induction false} SortExists(less: Order, vec: Vec) returns (r: Vec)
    requires StrictWeakOrder(less)
    ensures Sorted(less, r) && multiset(r) == multiset(vec)
  {
    if vec == [] {
      r := [];
    } else {
      var r0 := SortExists(less, vec[..|vec| - 1]);
      r := Insert(less, r0, Back(vec));
      assert vec == vec[..|vec| - 1] + [Back(vec)];
    }
  }

  ghost predicate Stuck(s: Job, t: nat)
    requires t < |s.phases| == |s.bar.status| == |s.work.pcs|
  {
    || ((s.phases[t].Waiting1? || s.phases[t].Waiting2?) && s.bar.status[t].Waiting?)
    || (s.phases[t].Reducing? && s.work.pcs[t].Exit?)
  }

  lemma CanStep(spec: Spec, s: Job, t: nat) returns (sorted: Vec, s': Job)
    requires Inv(spec, s) && t < spec.threads && !Stuck(s, t)
    ensures StepOf(spec, s, t, sorted, s')
  {
    PhaseGeneration(spec, s, t);
    assert Placed(spec, s, t);
    sorted, s' := [], s;
    match s.phases[t] {
      case Mapping =>
        if s.work.pcs[t].Exit? {
          sorted := SortExists(spec.client.less, s.local[t]);
          s' := s.(local := s.local[t := sorted], sh := s.sh.(before := s.sh.before + [sorted]),
                   phases := s.phases[t := Arriving1]);
        } else {
          var w' := CanWork(s.work, MAP_STAGE, Lengths(spec.MapOuts()), spec.Ones(), t);
          s' := s.(work := w', local := s.local[t := s.local[t] + Emission(s.work, t, spec.MapOuts())]);
        }
      case Arriving1 => s' := s.(bar := B.Enter(s.bar, t), phases := s.phases[t := Waiting1]);
      case Waiting1 =>
        s' := s.(bar := B.Leave(s.bar, t),
                 phases := s.phases[t := if t == 0 then Shuffling(CountPairs) else Arriving2]);
      case Shuffling(c) => s' := CoordStep(spec, s, c);
      case Arriving2 => s' := s.(bar := B.Enter(s.bar, t), phases := s.phases[t := Waiting2]);
      case Waiting2 => s' := s.(bar := B.Leave(s.bar, t), phases := s.phases[t := Reducing]);
      case Reducing =>
        var outs := spec.ReduceOuts(s.sh.after);
        var w' := CanWork(s.work, REDUCE_STAGE, Lengths(outs), Lengths(s.sh.after), t);
        s' := s.(work := w', output := s.output + Emission(s.work, t, outs));
    }
  }

  lemma CanWork(w: Q.Work, stage: nat, sizes: seq<nat>, weights: seq<nat>, t: nat) returns (w': Q.Work)
    requires Q.Inv(w, stage, sizes, weights) && t < |w.pcs| && !w.pcs[t].Exit?
    ensures Q.Step(w, t, sizes, weights, w')
  {
    assert Q.ThreadOk(w, t);
    match w.pcs[t] {
      case Load => w' := Q.LoadStep(w, t);
      case Claim => w' := Q.ClaimStep(w, t);
      case Run(i, k) => w' := if k < sizes[i] then Q.EmitStep(w, t) else Q.CountStep(w, t, weights[i]);
    }
  }

  /** If no thread can move, every thread is waiting at the barrier or has finished; since a barrier call
      that everyone has begun releases everyone, the job is then finished. */
  lemma StuckMeansFinished(spec: Spec, s: Job)
    requires Inv(spec, s) && forall t {:trigger s.phases[t]} :: 0 <= t < spec.threads ==> Stuck(s, t)
    ensures Finished(spec, s)
  {
    if u :| 0 <= u < spec.threads && s.bar.status[u].Waiting? {
      PhaseGeneration(spec, s, u);
      assert Placed(spec, s, u) && Stuck(s, u);
      forall t | 0 <= t < spec.threads
        ensures s.bar.status[t].Waiting?
      {
        PhaseGeneration(spec, s, t);
        assert Stuck(s, t);
      }
      B.AllWaiting(s.bar.status);
    }
    forall t {:trigger s.phases[t]} | 0 <= t < spec.threads
      ensures s.phases[t].Reducing? && s.work.pcs[t].Exit?
    {
      assert Stuck(s, t);
    }
  }

  lemma CanMove(spec: Spec, s: Job)
    requires Inv(spec, s) && !Finished(spec, s)
    ensures exists s' :: Next(spec, s, s')
  {
    if t :| 0 <= t < spec.threads && !Stuck(s, t) {
      var sorted, s' := CanStep(spec, s, t);
      assert Next(spec, s, s');
    } else {
      StuckMeansFinished(spec, s);
    }
  }

  /** No deadlock: on every run, as long as the job is not finished some thread can make a step. */
  lemma NoDeadlock(spec: Spec, run: seq<Job>, k: nat)
    requires spec.Valid() && IsRun(spec, run) && k < |run|
    ensures Shaped(spec, run[k])
    ensures Finished(spec, run[k]) || exists s' :: Next(spec, run[k], s')
  {
    RunKeeps(spec, run, k);
    if !Finished(spec, run[k]) { CanMove(spec, run[k]); }
  }

  // ----- the output -----

  lemma {:induction false} UnionPointwise(xs: seq<Vec>, ys: seq<Vec>)
    requires |xs| == |ys| && forall i :: 0 <= i < |xs| ==> multiset(xs[i]) == multiset(ys[i])
    ensures Union(xs) == Union(ys)
  {
    if xs != [] {
      UnionPointwise(xs[..|xs| - 1], ys[..|ys| - 1]);
    }
  }

  /** If what reduce emits does not depend on the order of the pairs in its group, outputVec does not
      depend on the schedule either, beyond its own order. */
  lemma OutputIsScheduleIndependent(spec: Spec, run1: seq<Job>, run2: seq<Job>, k1: nat, k2: nat)
    requires spec.Valid() && IsRun(spec, run1) && IsRun(spec, run2) && k1 < |run1| && k2 < |run2|
    requires Shaped(spec, run1[k1]) && Finished(spec, run1[k1])
    requires Shaped(spec, run2[k2]) && Finished(spec, run2[k2])
    requires forall g: Vec, h: Vec {:trigger spec.client.reducer(g), spec.client.reducer(h)} ::
               multiset(g) == multiset(h) ==> multiset(spec.client.reducer(g)) == multiset(spec.client.reducer(h))
    ensures multiset(run1[k1].output) == multiset(run2[k2].output)
  {
    FinishedJobIsCorrect(spec, run1, k1);
    FinishedJobIsCorrect(spec, run2, k2);
    var (gs, hs) := (run1[k1].sh.after, run2[k2].sh.after);
    PartitionIsUnique(spec.client.less, gs, hs, spec.AllPairs());
    UnionPointwise(spec.ReduceOuts(gs), spec.ReduceOuts(hs));
    EmittedIsUnion(spec.client.reducer, gs, spec.ReduceOuts(gs));
    EmittedIsUnion(spec.client.reducer, hs, spec.ReduceOuts(hs));
  }
}
