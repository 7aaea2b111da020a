/** The shuffle of Ex03/MapReduceFramework.cpp: from sorted vectors of pairs to groups of pairs with
    equivalent keys. Keys and values are pointers; only less looks behind a key pointer. */
module Shuffle {
  import opened Wrappers
  import opened Sums

  datatype Pair = Pair(key: int, value: int)

  type Vec = seq<Pair>

  type Order = (int, int) -> bool

  ghost predicate StrictWeakOrder(less: Order) {
    && (forall a :: !less(a, a))
    && (forall a, b, c {:trigger less(a, b), less(b, c)} :: less(a, b) && less(b, c) ==> less(a, c))
    && (forall a, b, c {:trigger less(a, c), less(a, b)} {:trigger less(a, c), less(b, c)} ::
          less(a, c) ==> less(a, b) || less(b, c))
  }

  predicate Equivalent(less: Order, a: int, b: int) {
    !(less(a, b) || less(b, a))
  }

  ghost predicate Sorted(less: Order, vec: Vec) {
    forall i, j {:trigger vec[i], vec[j]} :: 0 <= i < j < |vec| ==> !less(vec[j].key, vec[i].key)
  }

  ghost predicate AllSorted(less: Order, vecs: seq<Vec>) {
    forall u :: 0 <= u < |vecs| ==> Sorted(less, vecs[u])
  }

  function Back(vec: Vec): Pair
    requires vec != []
  {
    vec[|vec| - 1]
  }

  // ----- max_key -----

  function Better(less: Order, key: Option<int>, vec: Vec): Option<int> {
    if vec == [] then key
    else if key.None? || less(key.value, Back(vec).key) then Some(Back(vec).key)
    else key
  }

  /** The greatest of the last keys of the first n vectors, the earliest of equivalent ones. */
  function MaxKeyOf(less: Order, vecs: seq<Vec>, n: nat): Option<int>
    requires n <= |vecs|
  {
    if n == 0 then None else Better(less, MaxKeyOf(less, vecs, n - 1), vecs[n - 1])
  }

  lemma {:induction false} MaxKeyIsMax(less: Order, vecs: seq<Vec>, n: nat)
    requires StrictWeakOrder(less) && n <= |vecs|
    ensures var k := MaxKeyOf(less, vecs, n);
            && (k.None? <==> forall u :: 0 <= u < n ==> vecs[u] == [])
            && (k.Some? ==> exists u :: 0 <= u < n && vecs[u] != [] && Back(vecs[u]).key == k.value)
            && (k.Some? ==> forall u :: 0 <= u < n && vecs[u] != [] ==> !less(k.value, Back(vecs[u]).key))
  {
    if n > 0 {
      MaxKeyIsMax(less, vecs, n - 1);
      var k, k0 := MaxKeyOf(less, vecs, n), MaxKeyOf(less, vecs, n - 1);
      if k.Some? && vecs[n - 1] != [] {
        assert less(k.value, Back(vecs[n - 1]).key) ==> false;
      }
    }
  }

  /** The key max_key finds is below no key of any sorted vector. */
  lemma MaxKeyDominates(less: Order, vecs: seq<Vec>)
    requires StrictWeakOrder(less) && AllSorted(less, vecs)
    ensures var k := MaxKeyOf(less, vecs, |vecs|);
            k.Some? ==> forall u, i {:trigger vecs[u][i]} :: 0 <= u < |vecs| && 0 <= i < |vecs[u]| ==>
              !less(k.value, vecs[u][i].key)
  {
    MaxKeyIsMax(less, vecs, |vecs|);
    var k := MaxKeyOf(less, vecs, |vecs|);
    if k.Some? {
      forall u, i {:trigger vecs[u][i]} | 0 <= u < |vecs| && 0 <= i < |vecs[u]|
        ensures !less(k.value, vecs[u][i].key)
      {
        assert Sorted(less, vecs[u]);
        assert !less(k.value, Back(vecs[u]).key);
        assert i < |vecs[u]| - 1 ==> !less(Back(vecs[u]).key, vecs[u][i].key);
      }
    }
  }

  // ----- what the shuffle must produce -----

  ghost predicate OneKey(less: Order, group: Vec) {
    forall i, j {:trigger group[i], group[j]} :: 0 <= i < |group| && 0 <= j < |group| ==>
      Equivalent(less, group[i].key, group[j].key)
  }

  ghost predicate AllBelow(less: Order, lower: Vec, upper: Vec) {
    forall i, j {:trigger lower[i], upper[j]} :: 0 <= i < |lower| && 0 <= j < |upper| ==>
      less(lower[i].key, upper[j].key)
  }

  /** Nonempty groups of equivalent keys, in strictly descending key order. */
  ghost predicate GroupsOk(less: Order, groups: seq<Vec>) {
    && (forall g :: 0 <= g < |groups| ==> groups[g] != [] && OneKey(less, groups[g]))
    && (forall g, h {:trigger groups[g], groups[h]} :: 0 <= g < h < |groups| ==> AllBelow(less, groups[h], groups[g]))
  }

  ghost predicate IsPartition(less: Order, groups: seq<Vec>, all: multiset<Pair>) {
    GroupsOk(less, groups) && Union(groups) == all
  }

  // ----- the state of a shuffle -----

  /** beforeShuffle and afterShuffle with the locals of shuffle_phase: temp, maxKey, and the position
      of the loop over beforeShuffle. */
  datatype Sh = Sh(before: seq<Vec>, after: seq<Vec>, temp: Vec, key: Option<int>, v: nat)

  predicate CanPop(less: Order, s: Sh) {
    s.key.Some? && s.v < |s.before| && s.before[s.v] != [] && Equivalent(less, Back(s.before[s.v]).key, s.key.value)
  }

  function Pick(less: Order, s: Sh): Sh {
    s.(key := MaxKeyOf(less, s.before, |s.before|), temp := [], v := 0)
  }

  function Pop(s: Sh): Sh
    requires s.v < |s.before| && s.before[s.v] != []
  {
    var vec := s.before[s.v];
    s.(temp := s.temp + [Back(vec)], before := s.before[s.v := vec[..|vec| - 1]])
  }

  function Close(s: Sh): Sh {
    s.(after := s.after + [s.temp], temp := [], key := None)
  }

  /** How many pairs have been moved, as counted by the fetch_adds of the shuffle. */
  function Moved(s: Sh): nat {
    |s.temp| + Total(Lengths(s.after))
  }

  ghost predicate Conserved(s: Sh, all: multiset<Pair>) {
    Union(s.before) + multiset(s.temp) + Union(s.after) == all
  }

  ghost predicate RestBelowGroups(less: Order, s: Sh) {
    forall u, g {:trigger s.before[u], s.after[g]} :: 0 <= u < |s.before| && 0 <= g < |s.after| ==>
      AllBelow(less, s.before[u], s.after[g])
  }

  ghost predicate NoneAbove(less: Order, k: int, vec: Vec) {
    forall i {:trigger vec[i]} :: 0 <= i < |vec| ==> !less(k, vec[i].key)
  }

  ghost predicate KeyBelow(less: Order, k: int, vec: Vec) {
    forall i {:trigger vec[i]} :: 0 <= i < |vec| ==> less(k, vec[i].key)
  }

  ghost predicate BelowKey(less: Order, k: int, vec: Vec) {
    forall i {:trigger vec[i]} :: 0 <= i < |vec| ==> less(vec[i].key, k)
  }

  ghost predicate EquivalentTo(less: Order, k: int, vec: Vec) {
    forall i {:trigger vec[i]} :: 0 <= i < |vec| ==> Equivalent(less, vec[i].key, k)
  }

  /** The group of key k is being collected: it holds keys equivalent to k only, no key left is above k,
      the vectors already passed have keys below k only, and the group is not going to be empty. */
  ghost predicate Collecting(less: Order, s: Sh, k: int) {
    && EquivalentTo(less, k, s.temp)
    && (forall u :: 0 <= u < |s.before| ==> NoneAbove(less, k, s.before[u]))
    && (forall u :: 0 <= u < s.v && u < |s.before| ==> BelowKey(less, k, s.before[u]))
    && (forall g :: 0 <= g < |s.after| ==> KeyBelow(less, k, s.after[g]))
    && (s.temp != [] ||
        exists u :: s.v <= u < |s.before| && s.before[u] != [] && Equivalent(less, Back(s.before[u]).key, k))
  }

  ghost predicate ShInv(less: Order, s: Sh, all: multiset<Pair>) {
    && StrictWeakOrder(less)
    && Conserved(s, all)
    && AllSorted(less, s.before)
    && GroupsOk(less, s.after)
    && RestBelowGroups(less, s)
    && match s.key
       case None => s.temp == []
       case Some(k) => Collecting(less, s, k)
  }

  lemma PickKeeps(less: Order, s: Sh, all: multiset<Pair>)
    requires ShInv(less, s, all) && s.key.None?
    ensures ShInv(less, Pick(less, s), all)
    ensures Pick(less, s).key.None? ==>
              IsPartition(less, s.after, all) && forall u :: 0 <= u < |s.before| ==> s.before[u] == []
  {
    hide Sorted, GroupsOk, Collecting, StrictWeakOrder;
    MaxKeyIsMax(less, s.before, |s.before|);
    if Pick(less, s).key.None? {
      UnionOfEmpty(s.before);
      assert s.temp == [];
    } else {
      PickCollects(less, s, Pick(less, s).key.value);
    }
  }

  /** Collecting starts with the greatest key: it is in some vector, and below all groups so far. */
  lemma PickCollects(less: Order, s: Sh, k: int)
    requires StrictWeakOrder(less) && AllSorted(less, s.before) && RestBelowGroups(less, s)
    requires Pick(less, s).key == Some(k)
    ensures Collecting(less, Pick(less, s), k)
  {
    MaxKeyIsMax(less, s.before, |s.before|);
    MaxKeyDominates(less, s.before);
    var u :| 0 <= u < |s.before| && s.before[u] != [] && Back(s.before[u]).key == k;
    forall g | 0 <= g < |s.after|
      ensures KeyBelow(less, k, s.after[g])
    {
      assert AllBelow(less, s.before[u], s.after[g]);
    }
    forall v | 0 <= v < |s.before|
      ensures NoneAbove(less, k, s.before[v])
    {
    }
  }

  lemma PopKeeps(less: Order, s: Sh, all: multiset<Pair>)
    requires ShInv(less, s, all) && CanPop(less, s)
    ensures ShInv(less, Pop(s), all)
    ensures Moved(Pop(s)) == Moved(s) + 1
    ensures Pop(s).after == s.after && Pop(s).key == s.key
  {
    PopConserved(less, s, all);
    PopKeepsOrder(less, s);
    PopKeepsCollecting(less, s, s.key.value);
  }

  lemma PopConserved(less: Order, s: Sh, all: multiset<Pair>)
    requires Conserved(s, all) && CanPop(less, s)
    ensures Conserved(Pop(s), all)
  {
    var s', vec := Pop(s), s.before[s.v];
    var short := vec[..|vec| - 1];
    UnionUpdate(s.before, s.v, short);
    assert vec == short + [Back(vec)];
    PopConserves(Union(s'.before), Union(s.before), multiset(short), Back(vec), multiset(s.temp), Union(s.after));
    assert multiset(s'.temp) == multiset(s.temp) + multiset{Back(vec)};
  }

  lemma PopKeepsOrder(less: Order, s: Sh)
    requires CanPop(less, s) && AllSorted(less, s.before) && RestBelowGroups(less, s)
    ensures AllSorted(less, Pop(s).before) && RestBelowGroups(less, Pop(s))
  {
    var s' := Pop(s);
    assert Sorted(less, s.before[s.v]);
    forall u, g {:trigger s'.before[u], s'.after[g]} | 0 <= u < |s'.before| && 0 <= g < |s'.after|
      ensures AllBelow(less, s'.before[u], s'.after[g])
    {
      assert AllBelow(less, s.before[u], s.after[g]);
    }
  }

  lemma PopKeepsCollecting(less: Order, s: Sh, k: int)
    requires CanPop(less, s) && s.key == Some(k) && Collecting(less, s, k)
    ensures Collecting(less, Pop(s), k)
  {
    var s', vec := Pop(s), s.before[s.v];
    assert NoneAbove(less, k, vec);
    forall u | 0 <= u < |s'.before|
      ensures NoneAbove(less, k, s'.before[u])
    {
      assert NoneAbove(less, k, s.before[u]);
    }
    forall u | 0 <= u < s'.v && u < |s'.before|
      ensures BelowKey(less, k, s'.before[u])
    {
      assert BelowKey(less, k, s.before[u]);
    }
  }

  lemma PopConserves(rest': multiset<Pair>, rest: multiset<Pair>, short: multiset<Pair>, p: Pair,
                     temp: multiset<Pair>, after: multiset<Pair>)
    requires rest' + (short + multiset{p}) == rest + short
    ensures rest' + (temp + multiset{p}) + after == rest + temp + after
  {
    assert rest' + multiset{p} + short == rest + short;
    assert rest' + multiset{p} == rest by {
      forall q ensures (rest' + multiset{p})[q] == rest[q]
      {
        assert (rest' + multiset{p} + short)[q] == (rest + short)[q];
      }
    }
    assert rest' + (temp + multiset{p}) == rest' + multiset{p} + temp;
  }

  /** A vector whose last key is not equivalent to the greatest key has only smaller keys. */
  lemma SkipKeeps(less: Order, s: Sh, all: multiset<Pair>)
    requires ShInv(less, s, all) && s.key.Some? && s.v < |s.before| && !CanPop(less, s)
    ensures ShInv(less, s.(v := s.v + 1), all)
  {
    var vec, k := s.before[s.v], s.key.value;
    assert Sorted(less, vec) && NoneAbove(less, k, vec);
    if vec != [] {
      assert less(Back(vec).key, k);
      forall i {:trigger vec[i]} | 0 <= i < |vec|
        ensures less(vec[i].key, k)
      {
        assert i < |vec| - 1 ==> !less(Back(vec).key, vec[i].key);
      }
    }
    assert BelowKey(less, k, vec);
  }

  lemma CloseKeeps(less: Order, s: Sh, all: multiset<Pair>)
    requires ShInv(less, s, all) && s.key.Some? && s.v >= |s.before|
    ensures ShInv(less, Close(s), all) && s.temp != []
    ensures Moved(Close(s)) == Moved(s)
  {
    hide Sorted, GroupsOk, RestBelowGroups, StrictWeakOrder;
    var s' := Close(s);
    UnionAppend(s.after, s.temp);
    assert Union(s.before) + multiset(s'.temp) + Union(s'.after) == all;
    CloseKeepsOrder(less, s, s.key.value);
    assert Lengths(s'.after)[..|s.after|] == Lengths(s.after);
  }

  /** The closed group is of one key, below the groups before it and above everything left. */
  lemma CloseKeepsOrder(less: Order, s: Sh, k: int)
    requires StrictWeakOrder(less) && Collecting(less, s, k) && s.v >= |s.before| && s.temp != []
    requires GroupsOk(less, s.after) && RestBelowGroups(less, s)
    ensures GroupsOk(less, Close(s).after) && RestBelowGroups(less, Close(s))
  {
    assert OneKey(less, s.temp);
    forall g | 0 <= g < |s.after|
      ensures AllBelow(less, s.temp, s.after[g])
    {
      assert KeyBelow(less, k, s.after[g]);
      forall i, j {:trigger s.temp[i], s.after[g][j]} | 0 <= i < |s.temp| && 0 <= j < |s.after[g]|
        ensures less(s.temp[i].key, s.after[g][j].key)
      {
        assert less(k, s.after[g][j].key);
        assert Equivalent(less, s.temp[i].key, k);
      }
    }
    forall u | 0 <= u < |s.before|
      ensures AllBelow(less, s.before[u], s.temp)
    {
      assert BelowKey(less, k, s.before[u]);
    }
  }
}
