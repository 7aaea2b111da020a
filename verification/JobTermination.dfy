/** Every job of Ex03 ends: whatever thread moves next, something that cannot grow again gets smaller. */
module JobTermination {
  import opened Sums
  import opened Shuffle
  import P = ShufflePhase
  import opened MapReduceJob

  // ----- the claiming loop -----

  /** The steps an item still needs: to be claimed, to emit what is left of its size, to be counted. */
  function ItemCost(item: Q.Item, size: nat): nat {
    match item
    case Unclaimed => size + 2
    case Busy(_, k) => if k <= size then size - k + 1 else 0
    case Counted(_, _) => 0
  }

  function LoopCost(pc: Q.Lp): nat {
    match pc
    case Load => 2
    case Claim => 1
    case Run(_, _) => 1
    case Exit => 0
  }

  function ItemCosts(items: seq<Q.Item>, sizes: seq<nat>): (ns: seq<nat>)
    requires |items| == |sizes|
    ensures |ns| == |items|
  {
    seq(|items|, i requires 0 <= i < |items| => ItemCost(items[i], sizes[i]))
  }

  function LoopCosts(pcs: seq<Q.Lp>): (ns: seq<nat>)
    ensures |ns| == |pcs|
  {
    seq(|pcs|, t requires 0 <= t < |pcs| => LoopCost(pcs[t]))
  }

  function WorkLeft(w: Q.Work, sizes: seq<nat>): nat {
    if |w.items| != |sizes| then 0 else Total(ItemCosts(w.items, sizes)) + Total(LoopCosts(w.pcs))
  }

  lemma ItemCostChanges(items: seq<Q.Item>, sizes: seq<nat>, i: nat, item: Q.Item)
    requires |items| == |sizes| && i < |items|
    ensures Total(ItemCosts(items[i := item], sizes)) + ItemCost(items[i], sizes[i])
            == Total(ItemCosts(items, sizes)) + ItemCost(item, sizes[i])
  {
    TotalUpdate(ItemCosts(items, sizes), i, ItemCost(item, sizes[i]));
    assert ItemCosts(items[i := item], sizes) == ItemCosts(items, sizes)[i := ItemCost(item, sizes[i])];
  }

  lemma LoopCostChanges(pcs: seq<Q.Lp>, t: nat, pc: Q.Lp)
    requires t < |pcs|
    ensures Total(LoopCosts(pcs[t := pc])) + LoopCost(pcs[t]) == Total(LoopCosts(pcs)) + LoopCost(pc)
  {
    TotalUpdate(LoopCosts(pcs), t, LoopCost(pc));
    assert LoopCosts(pcs[t := pc]) == LoopCosts(pcs)[t := LoopCost(pc)];
  }

  /** Every step of the claiming loop uses up some of the work left. */
  lemma WorkGetsLess(w: Q.Work, stage: nat, sizes: seq<nat>, weights: seq<nat>, t: nat, w': Q.Work)
    requires Q.Inv(w, stage, sizes, weights) && t < |w.pcs| && Q.Step(w, t, sizes, weights, w')
    ensures |w'.items| == |w.items| == |sizes| && WorkLeft(w', sizes) < WorkLeft(w, sizes)
  {
    assert Q.ThreadOk(w, t);
    LoopCostChanges(w.pcs, t, w'.pcs[t]);
    match w.pcs[t] {
      case Load =>
      case Claim =>
        if w.next < |w.items| {
          assert Q.ItemOk(w, sizes, w.next);
          ItemCostChanges(w.items, sizes, w.next, Q.Busy(t, 0));
        }
      case Run(i, k) =>
        assert Q.ItemOk(w, sizes, i);
        ItemCostChanges(w.items, sizes, i, w'.items[i]);
    }
  }

  // ----- the phases -----

  function Rank(p: Phase): nat {
    match p
    case Mapping => 6
    case Arriving1 => 5
    case Waiting1 => 4
    case Shuffling(_) => 3
    case Arriving2 => 2
    case Waiting2 => 1
    case Reducing => 0
  }

  function Ranks(phases: seq<Phase>): (ns: seq<nat>)
    ensures |ns| == |phases|
  {
    seq(|phases|, t requires 0 <= t < |phases| => Rank(phases[t]))
  }

  lemma RankChanges(phases: seq<Phase>, t: nat, p: Phase)
    requires t < |phases|
    ensures Total(Ranks(phases[t := p])) + Rank(phases[t]) == Total(Ranks(phases)) + Rank(p)
  {
    TotalUpdate(Ranks(phases), t, Rank(p));
    assert Ranks(phases[t := p]) == Ranks(phases)[t := Rank(p)];
  }

  // ----- thread 0 between the barriers -----

  function CoordRank(c: Coord): nat {
    match c
    case CountPairs => 6
    case StoreShuffle(_) => 5
    case ClearForShuffle => 4
    case Choose => 3
    case Gather => 3
    case CountGroups => 2
    case StoreReduce(_) => 1
    case ClearForReduce => 0
  }

  /** Pairs not yet in a finished group. */
  function Ungrouped(spec: Spec, s: Job): nat {
    if Total(Lengths(s.sh.after)) <= |spec.AllPairs()| then |spec.AllPairs()| - Total(Lengths(s.sh.after)) else 0
  }

  /** What is left of the round that collects one group. */
  function RoundLeft(s: Job, c: Coord): nat {
    if c.Gather? && s.sh.v <= |s.sh.before| then Total(Lengths(s.sh.before)) + |s.sh.before| - s.sh.v
    else if c.Choose? then Total(Lengths(s.sh.before)) + |s.sh.before| + 1
    else 0
  }

  lemma PopShortens(before: seq<Vec>, v: nat)
    requires v < |before| && before[v] != []
    ensures Total(Lengths(before[v := before[v][..|before[v]| - 1]])) + 1 == Total(Lengths(before))
  {
    var short := before[v][..|before[v]| - 1];
    TotalUpdate(Lengths(before), v, |short|);
    assert Lengths(before[v := short]) == Lengths(before)[v := |short|];
  }

  // ----- the whole job -----

  datatype Measure = Measure(phases: nat, coord: nat, ungrouped: nat, left: nat)

  ghost function MeasureOf(spec: Spec, s: Job): Measure {
    var ranks := Total(Ranks(s.phases));
    if s.bar.gen == 0 then Measure(ranks, 0, 0, WorkLeft(s.work, Lengths(spec.MapOuts())))
    else if s.phases != [] && s.phases[0].Shuffling? then
      var c := s.phases[0].at;
      Measure(ranks, CoordRank(c), Ungrouped(spec, s), RoundLeft(s, c))
    else Measure(ranks, 0, 0, WorkLeft(s.work, Lengths(spec.ReduceOuts(s.sh.after))))
  }

  /** Lexicographically smaller. */
  ghost predicate Less(m: Measure, n: Measure) {
    if m.phases != n.phases then m.phases < n.phases
    else if m.coord != n.coord then m.coord < n.coord
    else if m.ungrouped != n.ungrouped then m.ungrouped < n.ungrouped
    else m.left < n.left
  }

  /** A thread that moves on to a later phase. */
  lemma PhaseChangeIsLess(spec: Spec, s: Job, t: nat, s': Job, p: Phase)
    requires t < |s.phases| && s'.phases == s.phases[t := p] && Rank(p) < Rank(s.phases[t])
    ensures Less(MeasureOf(spec, s'), MeasureOf(spec, s))
  {
    RankChanges(s.phases, t, p);
  }

  lemma MapIsLess(spec: Spec, s: Job, t: nat, s': Job)
    requires Inv(spec, s) && t < spec.threads && s.phases[t].Mapping? && MapStep(spec, s, t, s')
    ensures Less(MeasureOf(spec, s'), MeasureOf(spec, s))
  {
    PhaseGeneration(spec, s, t);
    WorkGetsLess(s.work, MAP_STAGE, Lengths(spec.MapOuts()), spec.Ones(), t, s'.work);
  }

  lemma ReduceIsLess(spec: Spec, s: Job, t: nat, s': Job)
    requires Inv(spec, s) && t < spec.threads && s.phases[t].Reducing? && ReduceStep(spec, s, t, s')
    ensures Less(MeasureOf(spec, s'), MeasureOf(spec, s))
  {
    PhaseGeneration(spec, s, t);
    PhaseGeneration(spec, s, 0);
    WorkGetsLess(s.work, REDUCE_STAGE, Lengths(spec.ReduceOuts(s.sh.after)), Lengths(s.sh.after), t, s'.work);
  }

  ghost function CoordMeasure(spec: Spec, s: Job, c: Coord): Measure {
    Measure(Total(Ranks(s.phases)), CoordRank(c), Ungrouped(spec, s), RoundLeft(s, c))
  }

  lemma StaysShuffling(spec: Spec, s: Job, c: Coord, s': Job, c': Coord)
    requires s.phases != [] && s.phases[0] == Shuffling(c) && s'.phases == s.phases[0 := Shuffling(c')]
    requires s.bar.gen == 1 == s'.bar.gen
    ensures MeasureOf(spec, s) == CoordMeasure(spec, s, c) && MeasureOf(spec, s') == CoordMeasure(spec, s', c')
    ensures Total(Ranks(s'.phases)) == Total(Ranks(s.phases))
  {
    RankChanges(s.phases, 0, Shuffling(c'));
  }

  /** Where thread 0 goes on to. */
  function NextCoord(spec: Spec, s: Job, c: Coord): Coord {
    match c
    case CountPairs => StoreShuffle(Total(Lengths(s.sh.before)))
    case StoreShuffle(total) => ClearForShuffle
    case ClearForShuffle => Choose
    case Choose => if Pick(spec.client.less, s.sh).key.None? then CountGroups else Gather
    case Gather => if CanPop(spec.client.less, s.sh) || s.sh.v < |s.sh.before| then Gather else Choose
    case CountGroups => StoreReduce(Total(Lengths(s.sh.after)))
    case StoreReduce(total) => ClearForReduce
    case ClearForReduce => ClearForReduce
  }

  lemma CoordGoesOn(spec: Spec, s: Job, c: Coord)
    requires s.phases != [] && s.phases[0] == Shuffling(c) && c != ClearForReduce
    ensures CoordStep(spec, s, c).phases == s.phases[0 := Shuffling(NextCoord(spec, s, c))]
    ensures CoordStep(spec, s, c).bar == s.bar
    ensures c != Gather ==> CoordStep(spec, s, c).sh.after == s.sh.after
    ensures c == Choose ==> CoordStep(spec, s, c).sh.before == s.sh.before && CoordStep(spec, s, c).sh.v == 0
  {
  }

  lemma SomeThread(spec: Spec, s: Job)
    requires Inv(spec, s)
    ensures 0 < spec.threads == |s.phases|
  {
  }

  lemma CoordIsLess(spec: Spec, s: Job, c: Coord)
    requires Inv(spec, s) && s.phases[0] == Shuffling(c)
    ensures Less(MeasureOf(spec, CoordStep(spec, s, c)), MeasureOf(spec, s))
  {
    hide Inv, MeasureOf, CoordStep;
    SomeThread(spec, s);
    PhaseGeneration(spec, s, 0);
    if c == ClearForReduce {
      ReduceStartPhases(spec, s);
      PhaseChangeIsLess(spec, s, 0, CoordStep(spec, s, c), Arriving2);
    } else {
      CoordGoesOn(spec, s, c);
      StaysShuffling(spec, s, c, CoordStep(spec, s, c), NextCoord(spec, s, c));
      if c == Gather { GatherIsLess(spec, s); }
    }
  }

  lemma ReduceStartPhases(spec: Spec, s: Job)
    requires s.phases != []
    ensures CoordStep(spec, s, ClearForReduce).phases == s.phases[0 := Arriving2]
  {
  }

  lemma GatherIsLess(spec: Spec, s: Job)
    requires Inv(spec, s) && s.phases[0] == Shuffling(Gather) && s.bar.gen == 1
    ensures var s' := CoordStep(spec, s, Gather);
            if CanPop(spec.client.less, s.sh) || s.sh.v < |s.sh.before| then
              Ungrouped(spec, s') == Ungrouped(spec, s) && RoundLeft(s', Gather) < RoundLeft(s, Gather)
            else
              Ungrouped(spec, s') < Ungrouped(spec, s)
  {
    var less := spec.client.less;
    if CanPop(less, s.sh) {
      PopShortens(s.sh.before, s.sh.v);
    } else if s.sh.v >= |s.sh.before| {
      GatherSteps(spec, s);
      P.CloseStep(less, spec.AllPairs(), s.work.word, s.sh);
    }
  }

  lemma GatherSteps(spec: Spec, s: Job)
    requires Inv(spec, s) && s.phases[0] == Shuffling(Gather) && s.bar.gen == 1
    ensures s.sh in P.Steps(spec.client.less, spec.AllPairs(), s.work.word) && s.sh.key.Some?
  {
  }

  lemma SortIsLess(spec: Spec, s: Job, t: nat, sorted: Vec, s': Job)
    requires Shaped(spec, s) && t < spec.threads && s.phases[t].Mapping? && SortStep(spec, s, t, sorted, s')
    ensures Less(MeasureOf(spec, s'), MeasureOf(spec, s))
  {
    hide MeasureOf, Sorted;
    PhaseChangeIsLess(spec, s, t, s', Arriving1);
  }

  lemma EnterIsLess(spec: Spec, s: Job, t: nat, waiting: Phase, s': Job)
    requires Shaped(spec, s) && t < spec.threads && EnterStep(spec, s, t, waiting, s')
    requires Rank(waiting) < Rank(s.phases[t])
    ensures Less(MeasureOf(spec, s'), MeasureOf(spec, s))
  {
    hide MeasureOf;
    PhaseChangeIsLess(spec, s, t, s', waiting);
  }

  lemma LeaveIsLess(spec: Spec, s: Job, t: nat, onward: Phase, s': Job)
    requires Shaped(spec, s) && t < spec.threads && LeaveStep(spec, s, t, onward, s')
    requires Rank(onward) < Rank(s.phases[t])
    ensures Less(MeasureOf(spec, s'), MeasureOf(spec, s))
  {
    hide MeasureOf;
    PhaseChangeIsLess(spec, s, t, s', onward);
  }

  /** Every step of every thread makes the measure of the job smaller. */
  lemma StepIsLess(spec: Spec, s: Job, t: nat, sorted: Vec, s': Job)
    requires Inv(spec, s) && StepOf(spec, s, t, sorted, s')
    ensures Less(MeasureOf(spec, s'), MeasureOf(spec, s))
  {
    hide Inv, MeasureOf, Less, MapStep, SortStep, EnterStep, LeaveStep, ReduceStep, CoordStep;
    match s.phases[t] {
      case Mapping =>
        if s.work.pcs[t].Exit? { SortIsLess(spec, s, t, sorted, s'); } else { MapIsLess(spec, s, t, s'); }
      case Arriving1 => EnterIsLess(spec, s, t, Waiting1, s');
      case Waiting1 => LeaveIsLess(spec, s, t, if t == 0 then Shuffling(CountPairs) else Arriving2, s');
      case Shuffling(c) =>
        OnlyThreadZeroShuffles(spec, s, t);
        CoordIsLess(spec, s, c);
      case Arriving2 => EnterIsLess(spec, s, t, Waiting2, s');
      case Waiting2 => LeaveIsLess(spec, s, t, Reducing, s');
      case Reducing => ReduceIsLess(spec, s, t, s');
    }
  }

  /** A schedule that goes on for ever as long as any thread can move. */
  ghost predicate IsSchedule(spec: Spec, run: nat -> Job) {
    && run(0) == Init(spec)
    && forall k: nat {:trigger run(k + 1)} :: Next(spec, run(k), run(k + 1)) ||
                                         (run(k + 1) == run(k) && forall s' :: !Next(spec, run(k), s'))
  }

  lemma ScheduleStep(spec: Spec, run: nat -> Job, k: nat)
    requires IsSchedule(spec, run) && Inv(spec, run(k)) && !Finished(spec, run(k))
    ensures Inv(spec, run(k + 1)) && Less(MeasureOf(spec, run(k + 1)), MeasureOf(spec, run(k)))
  {
    hide Inv, StepOf, MeasureOf, Less, Finished;
    var s := run(k);
    CanMove(spec, s);
    assert Next(spec, s, run(k + 1));
    var t, sorted :| StepOf(spec, s, t, sorted, run(k + 1));
    StepKeeps(spec, s, t, sorted, run(k + 1));
    StepIsLess(spec, s, t, sorted, run(k + 1));
  }

  lemma {:induction false} FinishesFrom(spec: Spec, run: nat -> Job, k: nat) returns (n: nat)
    requires IsSchedule(spec, run) && Inv(spec, run(k))
    ensures Inv(spec, run(n)) && Finished(spec, run(n))
    decreases MeasureOf(spec, run(k)).phases, MeasureOf(spec, run(k)).coord,
              MeasureOf(spec, run(k)).ungrouped, MeasureOf(spec, run(k)).left
  {
    if Finished(spec, run(k)) {
      n := k;
    } else {
      ScheduleStep(spec, run, k);
      n := FinishesFrom(spec, run, k + 1);
    }
  }

  /** Whatever the schedule, the job gets finished, and correctly. */
  lemma EveryJobFinishes(spec: Spec, run: nat -> Job)
    requires spec.Valid() && IsSchedule(spec, run)
    ensures exists n: nat :: Shaped(spec, run(n)) && Finished(spec, run(n)) && Correct(spec, run(n))
  {
    hide Inv, Finished, Correct;
    InitOk(spec);
    var n := FinishesFrom(spec, run, 0);
    FinishedIsCorrect(spec, run(n));
    assert Shaped(spec, run(n)) && Finished(spec, run(n)) && Correct(spec, run(n));
  }
}
