/** A call of translate_address as the faults it goes through, and what find_frame decides at each of
    them, said without the quantities it computes on the way. */
module PageWalk {
  import opened Wrappers
  import opened Arithmetic
  import opened MemoryConstants
  import opened Addressing
  import opened PageTable
  import opened FrameSearch
  import opened FlatView
  import opened PageFault

  // ----- the faults of one call -----

  /** What PMrestore leaves in frame f for the page. */
  function Restored(s: State, page: nat, f: nat): seq<Word>
    requires f < |s.mem|
  {
    if page in s.swap then s.swap[page] else s.mem[f]
  }

  /** The page is restored into the frame f, taken out of swap, and linked at entry i below w. */
  ghost predicate PageInstalled(g: Shape, s: State, w: Path, i: nat, f: Word, page: nat, s': State) {
    0 < f < |s.mem| && var s1 := s.(mem := s.mem[f := Restored(s, page, f)]);
    CanLink(g, s1.mem, s1.tree, w, i, f) && s' == LinkedPage(g, s1, page, w, i, f)
  }

  /** The whole of a fault at the last level: find_frame, PMrestore and the write of the entry. */
  ghost predicate DataFault(g: Shape, s: State, w: Path, page: nat, s': State) {
    Faulting(g, s, w, page) && |w| + 1 == g.D && exists s1: State, f: nat
      {:trigger FrameChosen(g, s, w, page, s1, f)} ::
      FrameChosen(g, s, w, page, s1, f) && f < 0x8000_0000 &&
      PageInstalled(g, s1, w, PathOf(g, page)[|w|], f, page, s')
  }

  /** One level of a call for page: nothing where there is an entry to follow, else a fault for that page. */
  ghost predicate WalkStep(g: Shape, s: State, page: nat, level: nat, s': State) {
    && g.Valid() && level < g.D
    && var w := PathOf(g, page)[..level];
       if PathOf(g, page)[..level + 1] in s.tree then s' == s
       else if level + 1 < g.D then TableFault(g, s, w, page, s')
       else DataFault(g, s, w, page, s')
  }

  ghost predicate WalkSteps(g: Shape, page: nat, states: seq<State>) {
    forall k {:trigger states[k]} | 0 <= k < |states| - 1 :: WalkStep(g, states[k], page, k, states[k + 1])
  }

  /** A call for page takes s to s', level by level. */
  ghost predicate Walked(g: Shape, s: State, page: nat, s': State) {
    exists states {:trigger WalkSteps(g, page, states)} ::
      |states| == g.D + 1 && states[0] == s && states[g.D] == s' && WalkSteps(g, page, states)
  }

  /** One word of a resident page is overwritten. */
  ghost predicate WordWritten(g: Shape, s: State, page: nat, offset: nat, value: Word, s': State) {
    && g.Valid() && Resident(g, s, page) && s.tree[PathOf(g, page)] < |s.mem|
    && offset < |s.mem[s.tree[PathOf(g, page)]]|
    && s' == WithWord(s, s.tree[PathOf(g, page)], offset, value)
  }

  lemma WalkGoesOn(g: Shape, page: nat, states: seq<State>, s': State)
    requires states != [] && WalkSteps(g, page, states)
    requires WalkStep(g, states[|states| - 1], page, |states| - 1, s')
    ensures WalkSteps(g, page, states + [s'])
  {
    hide WalkStep;
    var all := states + [s'];
    forall k {:trigger all[k]} | 0 <= k < |all| - 1
      ensures WalkStep(g, all[k], page, k, all[k + 1])
    {
      assert all[k] == states[k];
    }
  }

  lemma EntryIsFollowed(g: Shape, s: State, page: nat, level: nat)
    requires g.Valid() && level < g.D && PathOf(g, page)[..level + 1] in s.tree
    ensures WalkStep(g, s, page, level, s)
  {
  }

  lemma FaultIsStep(g: Shape, s: State, page: nat, level: nat, s': State)
    requires g.Valid() && level < g.D && Faulting(g, s, PathOf(g, page)[..level], page)
    requires level + 1 < g.D ==> TableFault(g, s, PathOf(g, page)[..level], page, s')
    requires level + 1 == g.D ==> DataFault(g, s, PathOf(g, page)[..level], page, s')
    ensures WalkStep(g, s, page, level, s')
  {
  }

  // ----- what find_frame decides -----

  /** An empty table other than the faulting one is taken back if there is one; else the next unused frame
      is taken; else a data page goes from RAM to swap. */
  lemma FindFrameDecides(g: Shape, s: State, w: Path, page: nat, s': State, f: nat)
    requires Faulting(g, s, w, page) && FrameChosen(g, s, w, page, s', f)
    ensures if exists q {:trigger q in s.tree} :: q in s.tree && q != w && IsEmptyTable(g, s.tree, q)
            then exists q {:trigger q in s.tree} ::
                   && q in s.tree && q != w && IsEmptyTable(g, s.tree, q)
                   && f == s.tree[q] && s'.tree == s.tree - {q} && s'.swap == s.swap
            else if |s.tree| < g.N then f == |s.tree| && s' == s
            else exists d {:trigger d in s.tree} ::
                   && d in s.tree && |d| == g.D && f == s.tree[d] < |s.mem| && s'.tree == s.tree - {d}
                   && s'.swap == s.swap[Value(g.P, d) := s.mem[f]]
  {
    hide Faulting, FrameChosen, HasReclaimable, IsEmptyTable;
    InTree(g, s, w, page);
    EmptyIffReclaimable(g, s, w);
    if HasReclaimable(g, s.tree, s.tree[w], s.tree.Keys) {
      var r := RecycledTable(g, s, w, page, s', f);
      assert r in s.tree;
    } else if |s.tree| < g.N {
      NextFrame(g, s, w, page, s', f);
    } else {
      var d := EvictedData(g, s, w, page, s', f);
      assert d in s.tree;
    }
  }

  lemma InTree(g: Shape, s: State, w: Path, page: nat)
    requires Faulting(g, s, w, page)
    ensures Walking(g, s, w) && w in s.tree
  {
  }

  lemma EmptyIffReclaimable(g: Shape, s: State, w: Path)
    requires Walking(g, s, w)
    ensures HasReclaimable(g, s.tree, s.tree[w], s.tree.Keys)
            <==> exists q {:trigger q in s.tree} :: q in s.tree && q != w && IsEmptyTable(g, s.tree, q)
  {
    if q :| q in s.tree && q != w && IsEmptyTable(g, s.tree, q) {
      assert q in s.tree.Keys && Reclaimable(g, s.tree, s.tree[w], q);
    }
    if q :| q in s.tree.Keys && Reclaimable(g, s.tree, s.tree[w], q) {
      assert q in s.tree;
    }
  }

  lemma NextFrame(g: Shape, s: State, w: Path, page: nat, s': State, f: nat)
    requires Faulting(g, s, w, page) && FrameChosen(g, s, w, page, s', f)
    requires !HasReclaimable(g, s.tree, s.tree[w], s.tree.Keys) && |s.tree| < g.N
    ensures f == |s.tree| && s' == s
  {
  }

  lemma RecycledTable(g: Shape, s: State, w: Path, page: nat, s': State, f: nat) returns (r: Path)
    requires Faulting(g, s, w, page) && FrameChosen(g, s, w, page, s', f)
    requires HasReclaimable(g, s.tree, s.tree[w], s.tree.Keys)
    ensures r in s.tree && r != w && IsEmptyTable(g, s.tree, r)
    ensures f == s.tree[r] && s'.tree == s.tree - {r} && s'.swap == s.swap
  {
    r :| r != [] && Reclaimable(g, s.tree, s.tree[w], r) && f == s.tree[r] && s' == Unlinked(g, s, r);
  }

  lemma EvictedData(g: Shape, s: State, w: Path, page: nat, s': State, f: nat) returns (d: Path)
    requires Faulting(g, s, w, page) && FrameChosen(g, s, w, page, s', f)
    requires !HasReclaimable(g, s.tree, s.tree[w], s.tree.Keys) && |s.tree| >= g.N
    ensures d in s.tree && |d| == g.D && f == s.tree[d] < |s.mem| && s'.tree == s.tree - {d}
    ensures s'.swap == s.swap[Value(g.P, d) := s.mem[f]]
  {
    d :| BestOf(g, page, s.tree.Keys, d) && d in s.tree && f == s.tree[d] && s' == Evicted(g, s, d);
  }

  /** The evicted page is the farthest one around the cycle of pages, the smallest number among the
      farthest: a page that can be reached in k steps from the page brought in, in either direction, when
      the evicted one can; in fewer, if its number is smaller. */
  lemma FarthestIsEvicted(g: Shape, s: State, w: Path, page: nat, s': State, f: nat, evicted: nat, other: nat, k: nat)
    returns (j: nat)
    requires Faulting(g, s, w, page) && FrameChosen(g, s, w, page, s', f)
    requires evicted in s'.swap && evicted !in s.swap
    requires other < g.pages && Resident(g, s, other)
    requires Rem(page + k, g.pages) == evicted || Rem(evicted + k, g.pages) == page
    ensures j <= k && (Rem(page + j, g.pages) == other || Rem(other + j, g.pages) == page)
    ensures other < evicted ==> j < k
  {
    hide Faulting, FrameChosen, Resident, Rem, CyclicalDistance;
    FaultingPage(g, s, w, page);
    EvictedIsBest(g, s, w, page, s', f, evicted, other);
    CyclicalDistanceIsLeast(g.pages, page, evicted, k);
    CyclicalDistanceIsLeast(g.pages, page, other, 0);
    j := CyclicalDistance(g.pages, page, other);
  }

  lemma FaultingPage(g: Shape, s: State, w: Path, page: nat)
    requires Faulting(g, s, w, page)
    ensures page < g.pages
  {
  }

  lemma EvictedIsBest(g: Shape, s: State, w: Path, page: nat, s': State, f: nat, evicted: nat, other: nat)
    requires Faulting(g, s, w, page) && FrameChosen(g, s, w, page, s', f)
    requires evicted in s'.swap && evicted !in s.swap && other < g.pages && Resident(g, s, other)
    ensures evicted < g.pages
    ensures var (d, e) := (CyclicalDistance(g.pages, page, other), CyclicalDistance(g.pages, page, evicted));
            d < e || (d == e && evicted <= other)
  {
    hide CyclicalDistance, Good, IsTree;
    var d := EvictedPath(g, s, w, page, s', f, evicted);
    PathRoundTrip(g, other);
    assert PathOf(g, other) in s.tree.Keys;
  }

  lemma EvictedPath(g: Shape, s: State, w: Path, page: nat, s': State, f: nat, evicted: nat) returns (d: Path)
    requires Faulting(g, s, w, page) && FrameChosen(g, s, w, page, s', f)
    requires evicted in s'.swap && evicted !in s.swap
    ensures BestOf(g, page, s.tree.Keys, d) && Value(g.P, d) == evicted < g.pages && g.Valid()
  {
    d :| BestOf(g, page, s.tree.Keys, d) && d in s.tree && f == s.tree[d] && s' == Evicted(g, s, d);
  }
}
