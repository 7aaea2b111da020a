/** shuffle_phase and max_key of Ex03/MapReduceFramework.cpp as loops over mutable vectors, and what a
    partition into groups is determined by. */
module ShufflePhase {
  import opened Wrappers
  import opened Sums
  import opened ProgressWord
  import opened Shuffle

  const SHUFFLE_STAGE := 2

  /** The members of Job that the shuffle works on. */
  class Job {
    const less: Order
    var beforeShuffle: seq<Vec>
    var afterShuffle: seq<Vec>
    var atomicState: nat

    constructor (less: Order, beforeShuffle: seq<Vec>, atomicState: nat)
      ensures this.less == less && this.beforeShuffle == beforeShuffle && this.afterShuffle == []
      ensures this.atomicState == atomicState
    {
      this.less := less;
      this.beforeShuffle := beforeShuffle;
      this.afterShuffle := [];
      this.atomicState := atomicState;
    }

    /** None stands for the null pointer. */
    method MaxKey() returns (key: Option<int>)
      requires StrictWeakOrder(less)
      ensures key == MaxKeyOf(less, beforeShuffle, |beforeShuffle|)
    {
      var vecs := beforeShuffle;
      key := None;
      var first := 0;
      while first < |vecs|
        invariant 0 <= first <= |vecs|
        invariant key == MaxKeyOf(less, vecs, first) == None
      {
        if vecs[first] != [] {
          key := Some(Back(vecs[first]).key);
          break;
        }
        first := first + 1;
      }
      if key.None? {
        return;
      }
      var u := 0;
      while u < |vecs|
        invariant 0 <= u <= |vecs| && key.Some?
        invariant key == if u <= first then Some(Back(vecs[first]).key) else MaxKeyOf(less, vecs, u)
      {
        if u < first {
          EmptyBefore(less, vecs, first, u);
        }
        if vecs[u] != [] && less(key.value, Back(vecs[u]).key) {
          key := Some(Back(vecs[u]).key);
        }
        u := u + 1;
      }
    }

    ghost function Now(temp: Vec, key: Option<int>, v: nat): Sh
      reads this
    {
      Sh(beforeShuffle, afterShuffle, temp, key, v)
    }

    method ShufflePhase()
      requires StrictWeakOrder(less) && AllSorted(less, beforeShuffle) && afterShuffle == []
      requires IsWord(atomicState, SHUFFLE_STAGE, |Union(beforeShuffle)|, 0)
      modifies this
      ensures |beforeShuffle| == old(|beforeShuffle|)
      ensures forall u :: 0 <= u < |beforeShuffle| ==> beforeShuffle[u] == []
      ensures IsPartition(less, afterShuffle, old(Union(beforeShuffle)))
      ensures IsWord(atomicState, SHUFFLE_STAGE, old(|Union(beforeShuffle)|), old(|Union(beforeShuffle)|))
    {
      ghost var all := Union(beforeShuffle);
      var maxKey := MaxKey();
      StartStep(less, all, atomicState, Now([], None, 0));
      while maxKey.Some?
        invariant |beforeShuffle| == old(|beforeShuffle|)
        invariant Now([], None, 0) in Steps(less, all, atomicState)
        invariant Now([], maxKey, 0) == Pick(less, Now([], None, 0))
        decreases |all| - Total(Lengths(afterShuffle))
      {
        PickStep(less, all, atomicState, Now([], None, 0));
        CollectGroup(maxKey, all);
        maxKey := MaxKey();
      }
      EndStep(less, all, atomicState, Now([], None, 0));
    }

    /** The body of the loop of shuffle_phase: the group of maxKey is gathered and pushed. */
    method CollectGroup(maxKey: Option<int>, ghost all: multiset<Pair>)
      requires maxKey.Some? && Now([], maxKey, 0) in Steps(less, all, atomicState)
      modifies this`beforeShuffle, this`afterShuffle, this`atomicState
      ensures |beforeShuffle| == old(|beforeShuffle|)
      ensures Now([], None, 0) in Steps(less, all, atomicState)
      ensures old(Total(Lengths(afterShuffle))) < Total(Lengths(afterShuffle)) <= |all|
    {
      hide Steps, InStep;
      var temp: Vec := [];
      var v := 0;
      while v < |beforeShuffle|
        invariant 0 <= v <= |beforeShuffle| == old(|beforeShuffle|) && afterShuffle == old(afterShuffle)
        invariant Now(temp, maxKey, v) in Steps(less, all, atomicState)
      {
        while beforeShuffle[v] != [] &&
              !(less(Back(beforeShuffle[v]).key, maxKey.value) || less(maxKey.value, Back(beforeShuffle[v]).key))
          invariant v < |beforeShuffle| == old(|beforeShuffle|) && afterShuffle == old(afterShuffle)
          invariant Now(temp, maxKey, v) in Steps(less, all, atomicState)
          decreases |beforeShuffle[v]|
        {
          PopStep(less, all, atomicState, Now(temp, maxKey, v));
          var vec := beforeShuffle[v];
          temp := temp + [Back(vec)];
          beforeShuffle := beforeShuffle[v := vec[..|vec| - 1]];
          atomicState := FetchAdd(atomicState, 1);
        }
        SkipStep(less, all, atomicState, Now(temp, maxKey, v));
        v := v + 1;
      }
      CloseStep(less, all, atomicState, Now(temp, maxKey, v));
      afterShuffle := afterShuffle + [temp];
    }
  }

  // ----- the shuffle and the progress word step by step -----

  /** The states of a shuffle of `all` in which the progress word is `word`: it counts the moved pairs. */
  ghost predicate InStep(less: Order, all: multiset<Pair>, word: nat, s: Sh) {
    ShInv(less, s, all) && IsWord(word, SHUFFLE_STAGE, |all|, Moved(s))
  }

  ghost function Steps(less: Order, all: multiset<Pair>, word: nat): iset<Sh> {
    iset s | InStep(less, all, word, s)
  }

  lemma StartStep(less: Order, all: multiset<Pair>, word: nat, s: Sh)
    requires StrictWeakOrder(less) && AllSorted(less, s.before) && s.after == [] && s.temp == [] && s.key == None
    requires all == Union(s.before) && IsWord(word, SHUFFLE_STAGE, |all|, 0)
    ensures s in Steps(less, all, word)
  {
    assert Conserved(s, all);
  }

  lemma PickStep(less: Order, all: multiset<Pair>, word: nat, s: Sh)
    requires s in Steps(less, all, word) && s.key == None
    ensures Pick(less, s) in Steps(less, all, word)
  {
    PickKeeps(less, s, all);
  }

  lemma PopStep(less: Order, all: multiset<Pair>, word: nat, s: Sh)
    requires s in Steps(less, all, word) && CanPop(less, s)
    ensures Pop(s) in Steps(less, all, FetchAdd(word, 1))
    ensures FetchAdd(word, 1) == word + 1
  {
    PopKeeps(less, s, all);
    MovedBound(less, Pop(s), all);
    AddKeepsFields(word, SHUFFLE_STAGE, |all|, Moved(s), 1);
  }

  lemma SkipStep(less: Order, all: multiset<Pair>, word: nat, s: Sh)
    requires s in Steps(less, all, word) && s.key.Some? && s.v < |s.before| && !CanPop(less, s)
    ensures s.(v := s.v + 1) in Steps(less, all, word)
  {
    SkipKeeps(less, s, all);
  }

  lemma CloseStep(less: Order, all: multiset<Pair>, word: nat, s: Sh)
    requires s in Steps(less, all, word) && s.key.Some? && s.v >= |s.before|
    ensures Close(s).(v := 0) in Steps(less, all, word)
    ensures Total(Lengths(s.after)) < Total(Lengths(Close(s).after)) <= |all|
  {
    CloseKeeps(less, s, all);
    ReopenKeeps(less, Close(s), Close(s).(v := 0), all);
    MovedBound(less, Close(s), all);
  }

  lemma EndStep(less: Order, all: multiset<Pair>, word: nat, s: Sh)
    requires s in Steps(less, all, word) && s.key == None && Pick(less, s).key == None
    ensures IsPartition(less, s.after, all) && forall u :: 0 <= u < |s.before| ==> s.before[u] == []
    ensures IsWord(word, SHUFFLE_STAGE, |all|, |all|)
  {
    PickKeeps(less, s, all);
    UnionSize(s.after);
  }

  lemma {:induction false} EmptyBefore(less: Order, vecs: seq<Vec>, n: nat, u: nat)
    requires u < n <= |vecs| && MaxKeyOf(less, vecs, n) == None
    ensures vecs[u] == []
  {
    if u < n - 1 {
      EmptyBefore(less, vecs, n - 1, u);
    }
  }

  /** Between groups the position of the inner loop does not matter. */
  lemma ReopenKeeps(less: Order, s: Sh, s': Sh, all: multiset<Pair>)
    requires ShInv(less, s, all) && s.key.None? && s' == s.(v := 0)
    ensures ShInv(less, s', all)
  {
    assert RestBelowGroups(less, s') by {
      forall u, g {:trigger s'.before[u], s'.after[g]} | 0 <= u < |s'.before| && 0 <= g < |s'.after|
        ensures AllBelow(less, s'.before[u], s'.after[g])
      {
        assert AllBelow(less, s.before[u], s.after[g]);
      }
    }
  }

  lemma MovedBound(less: Order, s: Sh, all: multiset<Pair>)
    requires ShInv(less, s, all)
    ensures Moved(s) <= |all|
  {
    UnionSize(s.after);
    assert |Union(s.before) + multiset(s.temp) + Union(s.after)|
        == |Union(s.before)| + |multiset(s.temp)| + |Union(s.after)|;
  }

  // ----- a partition is determined by the pairs -----

  lemma {:induction false} UnionCountsOne(groups: seq<Vec>, i: nat, p: Pair)
    requires i < |groups| && forall j :: 0 <= j < |groups| && j != i ==> p !in groups[j]
    ensures Union(groups)[p] == multiset(groups[i])[p]
  {
    var n := |groups| - 1;
    if i == n {
      UnionMember(groups[..n], p);
      assert forall j | 0 <= j < n :: groups[..n][j] == groups[j];
    } else {
      UnionCountsOne(groups[..n], i, p);
      assert p !in groups[n];
    }
  }

  lemma OtherGroupsDiffer(less: Order, groups: seq<Vec>, i: nat, j: nat, p: Pair)
    requires StrictWeakOrder(less) && GroupsOk(less, groups)
    requires i < |groups| && j < |groups| && i != j && p in groups[j]
    ensures !Equivalent(less, p.key, groups[i][0].key)
  {
    var x :| 0 <= x < |groups[j]| && groups[j][x] == p;
    if i < j {
      assert AllBelow(less, groups[j], groups[i]);
    } else {
      assert AllBelow(less, groups[i], groups[j]);
    }
    assert less(groups[j][x].key, groups[i][0].key) || less(groups[i][0].key, groups[j][x].key);
  }

  /** Each group holds all the pairs whose keys are equivalent to its own, and no others. */
  lemma GroupIsClass(less: Order, groups: seq<Vec>, all: multiset<Pair>, i: nat, p: Pair)
    requires StrictWeakOrder(less) && IsPartition(less, groups, all) && i < |groups|
    ensures multiset(groups[i])[p] == if Equivalent(less, p.key, groups[i][0].key) then all[p] else 0
  {
    if Equivalent(less, p.key, groups[i][0].key) {
      forall j | 0 <= j < |groups| && j != i
        ensures p !in groups[j]
      {
        if p in groups[j] { OtherGroupsDiffer(less, groups, i, j, p); }
      }
      UnionCountsOne(groups, i, p);
    } else if p in groups[i] {
      MembersAreEquivalent(less, groups, i, p);
    }
  }

  lemma MembersAreEquivalent(less: Order, groups: seq<Vec>, i: nat, p: Pair)
    requires GroupsOk(less, groups) && i < |groups| && p in groups[i]
    ensures Equivalent(less, p.key, groups[i][0].key)
  {
    var x :| 0 <= x < |groups[i]| && groups[i][x] == p;
    assert OneKey(less, groups[i]);
    assert Equivalent(less, groups[i][x].key, groups[i][0].key);
  }

  /** The first key of the last group is below no key at all. */
  lemma LastGroupIsLowest(less: Order, groups: seq<Vec>, all: multiset<Pair>, p: Pair)
    requires StrictWeakOrder(less) && IsPartition(less, groups, all) && groups != [] && p in all
    ensures !less(p.key, groups[|groups| - 1][0].key)
  {
    UnionMember(groups, p);
    var j :| 0 <= j < |groups| && p in groups[j];
    var x :| 0 <= x < |groups[j]| && groups[j][x] == p;
    var n := |groups| - 1;
    if j == n {
      assert OneKey(less, groups[n]);
      assert Equivalent(less, groups[n][x].key, groups[n][0].key);
    } else {
      assert AllBelow(less, groups[n], groups[j]);
      assert less(groups[n][0].key, groups[j][x].key);
    }
  }

  lemma LastGroupsEqual(less: Order, gs: seq<Vec>, hs: seq<Vec>, all: multiset<Pair>)
    requires StrictWeakOrder(less) && IsPartition(less, gs, all) && IsPartition(less, hs, all)
    requires gs != [] && hs != []
    ensures multiset(gs[|gs| - 1]) == multiset(hs[|hs| - 1])
  {
    var (g, h) := (gs[|gs| - 1], hs[|hs| - 1]);
    UnionMember(gs, g[0]);
    UnionMember(hs, h[0]);
    LastGroupIsLowest(less, gs, all, h[0]);
    LastGroupIsLowest(less, hs, all, g[0]);
    forall p
      ensures multiset(g)[p] == multiset(h)[p]
    {
      GroupIsClass(less, gs, all, |gs| - 1, p);
      GroupIsClass(less, hs, all, |hs| - 1, p);
      EquivalentSides(less, p.key, g[0].key, h[0].key);
    }
  }

  lemma EquivalentSides(less: Order, a: int, b: int, c: int)
    requires StrictWeakOrder(less) && Equivalent(less, b, c)
    ensures Equivalent(less, a, b) <==> Equivalent(less, a, c)
  {
  }

  /** Two partitions of the same pairs have the same groups in the same order, up to the order of the
      pairs within each group. */
  lemma {:induction false} PartitionIsUnique(less: Order, gs: seq<Vec>, hs: seq<Vec>, all: multiset<Pair>)
    requires StrictWeakOrder(less) && IsPartition(less, gs, all) && IsPartition(less, hs, all)
    ensures |gs| == |hs| && forall i :: 0 <= i < |gs| ==> multiset(gs[i]) == multiset(hs[i])
  {
    if gs == [] || hs == [] {
      PartitionOfNothing(less, gs, all);
      PartitionOfNothing(less, hs, all);
    } else {
      var (n, m) := (|gs| - 1, |hs| - 1);
      LastGroupsEqual(less, gs, hs, all);
      DropLastGroup(less, gs, all);
      DropLastGroup(less, hs, all);
      PartitionIsUnique(less, gs[..n], hs[..m], all - multiset(gs[n]));
      forall i | 0 <= i < |gs|
        ensures multiset(gs[i]) == multiset(hs[i])
      {
        if i < n { assert gs[..n][i] == gs[i] && hs[..m][i] == hs[i]; }
      }
    }
  }

  lemma DropLastGroup(less: Order, groups: seq<Vec>, all: multiset<Pair>)
    requires IsPartition(less, groups, all) && groups != []
    ensures IsPartition(less, groups[..|groups| - 1], all - multiset(groups[|groups| - 1]))
  {
    var init := groups[..|groups| - 1];
    assert all - multiset(groups[|groups| - 1]) == Union(init);
    forall g, h {:trigger init[g], init[h]} | 0 <= g < h < |init|
      ensures AllBelow(less, init[h], init[g])
    {
      assert AllBelow(less, groups[h], groups[g]);
    }
  }

  lemma PartitionOfNothing(less: Order, groups: seq<Vec>, all: multiset<Pair>)
    requires IsPartition(less, groups, all)
    ensures groups == [] <==> all == multiset{}
  {
    if groups != [] {
      UnionMember(groups, groups[0][0]);
      assert groups[0][0] in all;
    }
  }
}
