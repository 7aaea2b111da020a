/** The claiming loop that map_phase and reduce_phase of Ex03/MapReduceFramework.cpp share, as a
    transition system: one step per atomic operation and per emitted element. */
module WorkQueue {
  import opened Sums
  import opened ProgressWord

  /** Where a thread is in the loop: about to load the progress word, about to claim a ticket, running
      the client on an item of which it has emitted `done` elements, or past the loop. */
  datatype Lp = Load | Claim | Run(item: nat, done: nat) | Exit

  /** The history of an item, with the thread that claimed it. */
  datatype Item = Unclaimed | Busy(thread: nat, emitted: nat) | Counted(thread: nat, emitted: nat)

  /** word and next are atomic_state and atomic_next_to_process. */
  datatype Work = Work(word: nat, next: nat, items: seq<Item>, pcs: seq<Lp>)

  function Start(word: nat, n: nat, threads: nat): Work {
    Work(word, 0, seq(n, _ => Unclaimed), seq(threads, _ => Load))
  }

  /** The loop condition on a loaded word. */
  function Goes(x: nat): Lp {
    if CountOf(x) < TotalOf(x) then Claim else Exit
  }

  function LoadStep(w: Work, t: nat): Work
    requires t < |w.pcs|
  {
    w.(pcs := w.pcs[t := Goes(w.word)])
  }

  /** atomic_next_to_process.fetch_add(1), and the exit if the ticket is past the last item. */
  function ClaimStep(w: Work, t: nat): Work
    requires t < |w.pcs|
  {
    if w.next >= |w.items| then
      w.(next := w.next + 1, pcs := w.pcs[t := Exit])
    else
      w.(next := w.next + 1, pcs := w.pcs[t := Run(w.next, 0)], items := w.items[w.next := Busy(t, 0)])
  }

  function EmitStep(w: Work, t: nat): Work
    requires t < |w.pcs| && w.pcs[t].Run? && w.pcs[t].item < |w.items|
  {
    var Run(i, k) := w.pcs[t];
    w.(pcs := w.pcs[t := Run(i, k + 1)], items := w.items[i := Busy(t, k + 1)])
  }

  /** The client has returned: atomic_state.fetch_add of the item's weight. */
  function CountStep(w: Work, t: nat, weight: nat): Work
    requires t < |w.pcs| && w.pcs[t].Run? && w.pcs[t].item < |w.items|
  {
    var Run(i, k) := w.pcs[t];
    w.(word := FetchAdd(w.word, weight), pcs := w.pcs[t := Goes(w.word)], items := w.items[i := Counted(t, k)])
  }

  /** One step of thread t. */
  ghost predicate Step(w: Work, t: nat, sizes: seq<nat>, weights: seq<nat>, w': Work)
    requires |sizes| == |weights| == |w.items| && t < |w.pcs|
  {
    match w.pcs[t]
    case Load => w' == LoadStep(w, t)
    case Claim => w' == ClaimStep(w, t)
    case Run(i, k) =>
      i < |w.items| && if k < sizes[i] then w' == EmitStep(w, t) else w' == CountStep(w, t, weights[i])
    case Exit => false
  }

  function CountedWeights(items: seq<Item>, weights: seq<nat>): (ns: seq<nat>)
    requires |items| == |weights|
    ensures |ns| == |items|
  {
    seq(|items|, i requires 0 <= i < |items| => if items[i].Counted? then weights[i] else 0)
  }

  ghost predicate Sized(w: Work, sizes: seq<nat>, weights: seq<nat>) {
    |sizes| == |weights| == |w.items| && forall i {:trigger weights[i]} :: 0 <= i < |weights| ==> weights[i] >= 1
  }

  ghost predicate ItemOk(w: Work, sizes: seq<nat>, i: nat)
    requires i < |w.items| == |sizes|
  {
    && (w.items[i].Unclaimed? <==> i >= w.next)
    && match w.items[i]
       case Unclaimed => true
       case Busy(t, k) => t < |w.pcs| && w.pcs[t] == Run(i, k) && k <= sizes[i]
       case Counted(t, k) => t < |w.pcs| && k == sizes[i]
  }

  ghost predicate ThreadOk(w: Work, t: nat)
    requires t < |w.pcs|
  {
    match w.pcs[t]
    case Run(i, k) => i < |w.items| && w.items[i] == Busy(t, k)
    case Exit => w.next >= |w.items|
    case _ => true
  }

  /** Each claimed item belongs to one thread; the word counts the weights of the finished items; a
      thread that has left the loop left no item unclaimed. */
  ghost predicate Inv(w: Work, stage: nat, sizes: seq<nat>, weights: seq<nat>) {
    && Sized(w, sizes, weights)
    && IsWord(w.word, stage, Total(weights), Total(CountedWeights(w.items, weights)))
    && (forall i {:trigger ItemOk(w, sizes, i)} :: 0 <= i < |w.items| ==> ItemOk(w, sizes, i))
    && (forall t {:trigger ThreadOk(w, t)} :: 0 <= t < |w.pcs| ==> ThreadOk(w, t))
  }

  lemma CountedAtMostTotal(items: seq<Item>, weights: seq<nat>)
    requires |items| == |weights|
    ensures Total(CountedWeights(items, weights)) <= Total(weights)
  {
    TotalDominated(CountedWeights(items, weights), weights);
  }

  /** With no weight zero, the count reaches the total only when every item is finished. */
  lemma FullCountMeansAllCounted(w: Work, sizes: seq<nat>, weights: seq<nat>)
    requires Sized(w, sizes, weights)
    requires Total(CountedWeights(w.items, weights)) >= Total(weights)
    ensures forall i :: 0 <= i < |w.items| ==> w.items[i].Counted?
  {
    var cw := CountedWeights(w.items, weights);
    TotalDominated(cw, weights);
    assert cw == weights;
    forall i | 0 <= i < |w.items|
      ensures w.items[i].Counted?
    {
      assert cw[i] == weights[i] >= 1;
    }
  }

  lemma StartOk(stage: nat, word: nat, sizes: seq<nat>, weights: seq<nat>, threads: nat)
    requires |sizes| == |weights| && forall i {:trigger weights[i]} :: 0 <= i < |weights| ==> weights[i] >= 1
    requires IsWord(word, stage, Total(weights), 0)
    ensures Inv(Start(word, |sizes|, threads), stage, sizes, weights)
  {
    var w := Start(word, |sizes|, threads);
    AllZero(CountedWeights(w.items, weights));
  }

  lemma {:induction false} AllZero(s: seq<nat>)
    requires forall i :: 0 <= i < |s| ==> s[i] == 0
    ensures Total(s) == 0
  {
    if s != [] { AllZero(s[..|s| - 1]); }
  }

  lemma LoadKeeps(w: Work, stage: nat, sizes: seq<nat>, weights: seq<nat>, t: nat)
    requires Inv(w, stage, sizes, weights) && t < |w.pcs| && w.pcs[t].Load?
    ensures Inv(LoadStep(w, t), stage, sizes, weights)
  {
    var w' := LoadStep(w, t);
    var count := Total(CountedWeights(w.items, weights));
    Decode(w.word, stage, Total(weights), count);
    if w.next < |w.items| { assert ItemOk(w, sizes, w.next); }
    if count >= Total(weights) {
      FullCountMeansAllCounted(w, sizes, weights);
    }
    forall i | 0 <= i < |w'.items|
      ensures ItemOk(w', sizes, i)
    {
      assert ItemOk(w, sizes, i);
    }
    forall u | 0 <= u < |w'.pcs|
      ensures ThreadOk(w', u)
    {
      assert ThreadOk(w, u);
    }
  }

  lemma ClaimKeeps(w: Work, stage: nat, sizes: seq<nat>, weights: seq<nat>, t: nat)
    requires Inv(w, stage, sizes, weights) && t < |w.pcs| && w.pcs[t].Claim?
    ensures Inv(ClaimStep(w, t), stage, sizes, weights)
  {
    var w' := ClaimStep(w, t);
    if w.next < |w.items| { assert ItemOk(w, sizes, w.next); }
    assert CountedWeights(w'.items, weights) == CountedWeights(w.items, weights);
    forall i | 0 <= i < |w'.items|
      ensures ItemOk(w', sizes, i)
    {
      assert ItemOk(w, sizes, i);
    }
    forall u | 0 <= u < |w'.pcs|
      ensures ThreadOk(w', u)
    {
      assert ThreadOk(w, u);
    }
  }

  lemma EmitKeeps(w: Work, stage: nat, sizes: seq<nat>, weights: seq<nat>, t: nat)
    requires Inv(w, stage, sizes, weights) && t < |w.pcs| && w.pcs[t].Run?
    ensures ThreadOk(w, t) && |sizes| == |w.items|
    ensures w.pcs[t].done < sizes[w.pcs[t].item] ==> Inv(EmitStep(w, t), stage, sizes, weights)
  {
    assert ThreadOk(w, t);
    if w.pcs[t].done < sizes[w.pcs[t].item] {
      var w' := EmitStep(w, t);
      assert CountedWeights(w'.items, weights) == CountedWeights(w.items, weights);
      forall i | 0 <= i < |w'.items|
        ensures ItemOk(w', sizes, i)
      {
        assert ItemOk(w, sizes, i);
      }
      forall u | 0 <= u < |w'.pcs|
        ensures ThreadOk(w', u)
      {
        assert ThreadOk(w, u);
      }
    }
  }

  lemma CountKeeps(w: Work, stage: nat, sizes: seq<nat>, weights: seq<nat>, t: nat)
    requires Inv(w, stage, sizes, weights) && t < |w.pcs| && w.pcs[t].Run?
    requires ThreadOk(w, t) && w.pcs[t].done >= sizes[w.pcs[t].item]
    ensures var w' := CountStep(w, t, weights[w.pcs[t].item]);
            Inv(w', stage, sizes, weights) && w'.word > w.word
  {
    var Run(item, k) := w.pcs[t];
    var w' := CountStep(w, t, weights[item]);
    var cw, cw' := CountedWeights(w.items, weights), CountedWeights(w'.items, weights);
    assert ItemOk(w, sizes, item);
    TotalUpdate(cw, item, weights[item]);
    assert cw' == cw[item := weights[item]];
    CountedAtMostTotal(w'.items, weights);
    Decode(w.word, stage, Total(weights), Total(cw));
    AddKeepsFields(w.word, stage, Total(weights), Total(cw), weights[item]);
    assert Goes(w.word) == Claim;
    forall i | 0 <= i < |w'.items|
      ensures ItemOk(w', sizes, i)
    {
      assert ItemOk(w, sizes, i);
    }
    forall u | 0 <= u < |w'.pcs|
      ensures ThreadOk(w', u)
    {
      assert ThreadOk(w, u);
    }
  }

  /** Every step keeps the invariant and never makes the progress word smaller. */
  lemma StepKeeps(w: Work, stage: nat, sizes: seq<nat>, weights: seq<nat>, t: nat, w': Work)
    requires Inv(w, stage, sizes, weights) && t < |w.pcs| && Step(w, t, sizes, weights, w')
    ensures Inv(w', stage, sizes, weights)
    ensures |w'.pcs| == |w.pcs| && w.word <= w'.word
    ensures forall u :: 0 <= u < |w.pcs| && u != t ==> w'.pcs[u] == w.pcs[u]
  {
    match w.pcs[t]
    case Load => LoadKeeps(w, stage, sizes, weights, t);
    case Claim => ClaimKeeps(w, stage, sizes, weights, t);
    case Run(i, k) =>
      EmitKeeps(w, stage, sizes, weights, t);
      if k >= sizes[i] { CountKeeps(w, stage, sizes, weights, t); }
    case Exit =>
  }

  /** A thread that has just counted an item claims again: the word it looks at is the one from before its
      own addition, which was not full. It leaves only at its first look or with a ticket past the end. */
  lemma LeavesWithoutItem(w: Work, stage: nat, sizes: seq<nat>, weights: seq<nat>, t: nat, w': Work)
    requires Inv(w, stage, sizes, weights) && t < |w.pcs| && Step(w, t, sizes, weights, w') && w'.pcs[t].Exit?
    ensures (w.pcs[t].Load? && CountOf(w.word) >= TotalOf(w.word)) || (w.pcs[t].Claim? && w.next >= |w.items|)
  {
    assert ThreadOk(w, t);
    if w.pcs[t].Run? {
      var i := w.pcs[t].item;
      assert ItemOk(w, sizes, i);
      NotYetFull(w, stage, sizes, weights, i);
    }
  }

  lemma NotYetFull(w: Work, stage: nat, sizes: seq<nat>, weights: seq<nat>, i: nat)
    requires Inv(w, stage, sizes, weights) && i < |w.items| && !w.items[i].Counted?
    ensures CountOf(w.word) < TotalOf(w.word)
  {
    Decode(w.word, stage, Total(weights), Total(CountedWeights(w.items, weights)));
    if Total(CountedWeights(w.items, weights)) >= Total(weights) {
      FullCountMeansAllCounted(w, sizes, weights);
    }
  }

  /** When all threads have left the loop, every item has been claimed by exactly one thread, has had
      all its elements emitted and has been counted; and the count has reached the total. */
  lemma AllExitedMeansAllDone(w: Work, stage: nat, sizes: seq<nat>, weights: seq<nat>)
    requires Inv(w, stage, sizes, weights) && |w.pcs| > 0
    requires forall t :: 0 <= t < |w.pcs| ==> w.pcs[t].Exit?
    ensures forall i :: 0 <= i < |w.items| ==>
              w.items[i].Counted? && w.items[i].thread < |w.pcs| && w.items[i].emitted == sizes[i]
    ensures IsWord(w.word, stage, Total(weights), Total(weights))
  {
    assert ThreadOk(w, 0);
    forall i | 0 <= i < |w.items|
      ensures w.items[i].Counted? && w.items[i].thread < |w.pcs| && w.items[i].emitted == sizes[i]
    {
      assert ItemOk(w, sizes, i);
    }
    assert CountedWeights(w.items, weights) == weights;
  }

  // ----- what has been emitted -----

  function Emitted(item: Item): nat {
    if item.Unclaimed? then 0 else item.emitted
  }

  /** What each item has emitted so far, of the elements outs that it emits in all. */
  function Taken<E>(w: Work, outs: seq<seq<E>>): (ss: seq<seq<E>>)
    requires |outs| == |w.items|
    ensures |ss| == |outs|
  {
    seq(|outs|, i requires 0 <= i < |outs| =>
      if Emitted(w.items[i]) <= |outs[i]| then outs[i][..Emitted(w.items[i])] else outs[i])
  }

  lemma TakenAtStart<E>(word: nat, outs: seq<seq<E>>, threads: nat)
    ensures Union(Taken(Start(word, |outs|, threads), outs)) == multiset{}
  {
    UnionOfEmpty(Taken(Start(word, |outs|, threads), outs));
  }

  /** A step emits the next element of its item or nothing. */
  lemma StepTakes<E>(w: Work, stage: nat, outs: seq<seq<E>>, weights: seq<nat>, t: nat, w': Work)
    requires Inv(w, stage, Lengths(outs), weights) && t < |w.pcs| && Step(w, t, Lengths(outs), weights, w')
    ensures |w'.items| == |w.items| == |outs|
    ensures Union(Taken(w', outs))
            == if w.pcs[t].Run? && w.pcs[t].item < |outs| && w.pcs[t].done < |outs[w.pcs[t].item]|
               then Union(Taken(w, outs)) + multiset{outs[w.pcs[t].item][w.pcs[t].done]}
               else Union(Taken(w, outs))
  {
    assert ThreadOk(w, t);
    if w.pcs[t].Run? {
      var Run(i, k) := w.pcs[t];
      assert ItemOk(w, Lengths(outs), i);
      if k < |outs[i]| {
        var before, after := Taken(w, outs), Taken(w', outs);
        assert outs[i][..k + 1] == outs[i][..k] + [outs[i][k]];
        assert after == before[i := outs[i][..k + 1]];
        UnionUpdate(before, i, outs[i][..k + 1]);
        CancelSame(Union(after), Union(before), multiset(before[i]), multiset{outs[i][k]});
      } else {
        assert Taken(w', outs) == Taken(w, outs);
      }
    } else {
      if w.pcs[t].Claim? && w.next < |w.items| { assert ItemOk(w, Lengths(outs), w.next); }
      assert Taken(w', outs) == Taken(w, outs);
    }
  }

  lemma CancelSame<E>(a: multiset<E>, b: multiset<E>, x: multiset<E>, y: multiset<E>)
    requires a + x == b + (x + y)
    ensures a == b + y
  {
    forall e
      ensures a[e] == (b + y)[e]
    {
      assert (a + x)[e] == (b + (x + y))[e];
    }
  }

  lemma TakenAtEnd<E>(w: Work, stage: nat, outs: seq<seq<E>>, weights: seq<nat>)
    requires Inv(w, stage, Lengths(outs), weights) && |w.pcs| > 0
    requires forall t :: 0 <= t < |w.pcs| ==> w.pcs[t].Exit?
    ensures |w.items| == |outs| && Taken(w, outs) == outs
  {
    AllExitedMeansAllDone(w, stage, Lengths(outs), weights);
    forall i | 0 <= i < |outs|
      ensures Taken(w, outs)[i] == outs[i]
    {
      assert w.items[i].emitted == Lengths(outs)[i];
    }
  }
}
