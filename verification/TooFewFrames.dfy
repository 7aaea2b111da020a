/** What becomes of Ex04 with as many levels as frames or more: the first walk after VMinitialize uses up
    all frames before it reaches a data page. */
module TooFewFrames {
  import opened Arithmetic
  import opened MemoryConstants
  import opened Addressing
  import opened PageTable
  import opened FrameUse
  import opened FrameSearch
  import opened FlatView
  import opened PageFault
  import opened VirtualMemory

  function Zeros(k: nat): (w: Path)
    ensures |w| == k
  {
    seq(k, i => 0)
  }

  /** The walk of page 0 has gone down k levels from an empty root: the tree is that walk and no more. */
  ghost predicate Descended(g: Shape, s: State, k: nat) {
    && Faulting(g, s, Zeros(k), 0)
    && s.tree.Keys == Prefixes(Zeros(k))
    && |s.tree| == k + 1
    && s.tree[Zeros(k)] == k
  }

  lemma {:induction false} PathOfZero(p: nat, n: nat)
    requires p > 0
    ensures DigitsOf(p, 0, n) == Zeros(n)
  {
    if n > 0 {
      PathOfZero(p, n - 1);
      assert Zeros(n) == Zeros(n - 1) + [0];
    }
  }

  lemma NextZero(k: nat)
    ensures Zeros(k) + [0] == Zeros(k + 1) && Prefixes(Zeros(k + 1)) == Prefixes(Zeros(k)) + {Zeros(k + 1)}
    ensures Zeros(k + 1) !in Prefixes(Zeros(k))
  {
    assert Parent(Zeros(k + 1)) == Zeros(k);
    PrefixesOf(Zeros(k));
  }

  lemma ZeroWalk(g: Shape, k: nat)
    requires g.Valid() && k < g.D
    ensures PathOf(g, 0)[..k] == Zeros(k) && PathOf(g, 0)[k] == 0 && PathOf(g, 0)[..k + 1] == Zeros(k + 1)
  {
    PathOfZero(g.P, g.D);
  }

  /** What VMinitialize leaves. */
  lemma DescentStarts(g: Shape, s: State)
    requires AtRest(g, s) && s.tree == map[[] := 0] && 0 < g.pages
    ensures Descended(g, s, 0)
  {
    ZeroWalk(g, 0);
    assert Zeros(0) == [] && s.tree.Keys == {[]};
  }

  lemma ShorterGoesOn(tree: Tree, k: nat, q: Path)
    requires tree.Keys == Prefixes(Zeros(k)) && q in tree && |q| < k
    ensures q + [0] in tree
  {
    PrefixesOf(Zeros(k));
    assert q + [0] == Zeros(k)[..|q| + 1];
  }

  /** Nothing on the descent can be taken back: its only empty table is the one the walk is at. */
  lemma NothingToReclaim(g: Shape, s: State, k: nat)
    requires Descended(g, s, k)
    ensures !HasReclaimable(g, s.tree, k, s.tree.Keys)
    ensures NoneEmpty(g, s.tree, Zeros(k))
  {
    PrefixesOf(Zeros(k));
    forall q | IsEmptyTable(g, s.tree, q)
      ensures q == Zeros(k)
    {
      if |q| < k { ShorterGoesOn(s.tree, k, q); }
    }
  }

  // ----- one fault -----

  lemma WalkingIsGood(g: Shape, s: State, w: Path)
    requires Walking(g, s, w)
    ensures g.Valid() && Good(g, s)
  {
  }

  lemma ClearedStays(g: Shape, s: State, w: Path, i: nat, f: nat)
    requires f in Installable(g, s, w, i)
    ensures f < |s.mem| && f in Installable(g, s.(mem := s.mem[f := ZeroPage(g)]), w, i)
  {
    FillFree(g, s, f, ZeroPage(g));
  }

  lemma InstalledTree(g: Shape, s: State, w: Path, i: nat, f: Word, s': State)
    requires TableInstalled(g, s, w, i, f, s')
    ensures 0 < f && s'.tree == s.tree[w + [i] := f] && s'.tree.Keys == s.tree.Keys + {w + [i]}
    ensures |s'.tree| == |s.tree| + 1
  {
    assert |s.tree.Keys + {w + [i]}| == |s.tree.Keys| + 1;
  }

  lemma InstalledIsWalking(g: Shape, s: State, w: Path, i: nat, f: Word, s': State)
    requires 0 < f && f in Installable(g, s, w, i) && |w| + 1 < g.D && TableInstalled(g, s, w, i, f, s')
    ensures Walking(g, s', w + [i])
  {
    ClearedStays(g, s, w, i, f);
    TableLinked(g, s.(mem := s.mem[f := ZeroPage(g)]), w, i, f);
  }

  lemma Installs(g: Shape, s: State, w: Path, i: nat, f: Word) returns (s': State)
    requires 0 < f && f in Installable(g, s, w, i) && |w| + 1 < g.D
    ensures TableInstalled(g, s, w, i, f, s')
  {
    ClearedStays(g, s, w, i, f);
    var s1 := s.(mem := s.mem[f := ZeroPage(g)]);
    TableLinked(g, s1, w, i, f);
    s' := Linked(g, s1, w, i, f);
  }

  /** After a fault above the last levels the walk is at the new table, whose entry it needs is empty. */
  lemma FaultLeadsOn(g: Shape, s: State, w: Path, page: nat, s': State)
    requires TableFault(g, s, w, page, s')
    ensures |w| + 1 < g.D && page < g.pages && g.Valid() && Faulting(g, s', PathOf(g, page)[..|w| + 1], page)
  {
    hide Walking, FrameChosen, TableInstalled, PathOf;
    WalkingIsGood(g, s, w);
    var s1: State, f: nat :| FrameChosen(g, s, w, page, s1, f) && f < 0x8000_0000 &&
                             TableInstalled(g, s1, w, PathOf(g, page)[|w|], f, s');
    InstalledLeadsOn(g, s, w, page, s1, f, s');
  }

  lemma InstalledLeadsOn(g: Shape, s: State, w: Path, page: nat, s1: State, f: Word, s': State)
    requires g.Valid() && Faulting(g, s, w, page) && |w| + 1 < g.D && 0 <= f
    requires FrameChosen(g, s, w, page, s1, f) && TableInstalled(g, s1, w, PathOf(g, page)[|w|], f, s')
    ensures Faulting(g, s', PathOf(g, page)[..|w| + 1], page)
  {
    hide Walking, FrameChosen, TableInstalled, Installable, CanInstall, Good, View, PathOf, Faulting;
    FaultingAt(g, s, w, page);
    NextOnWalk(g, page, |w|);
    ChosenFrameFacts(g, s, w, page, s1, f);
    ChosenTreeShrinks(g, s, w, page, s1, f);
    InstalledIsWalking(g, s1, w, PathOf(g, page)[|w|], f, s');
    InstalledTree(g, s1, w, PathOf(g, page)[|w|], f, s');
    NothingBelow(g, s, w, page);
    assert PathOf(g, page)[..|w| + 2] != w + [PathOf(g, page)[|w|]];
    FaultsAt(g, s', page, |w| + 1);
  }

  lemma FaultingAt(g: Shape, s: State, w: Path, page: nat)
    requires g.Valid() && Faulting(g, s, w, page)
    ensures page < g.pages && |w| < g.D && w == PathOf(g, page)[..|w|]
  {
  }

  lemma FaultsAt(g: Shape, s: State, page: nat, k: nat)
    requires g.Valid() && page < g.pages && k < g.D
    requires Walking(g, s, PathOf(g, page)[..k]) && PathOf(g, page)[..k + 1] !in s.tree
    ensures Faulting(g, s, PathOf(g, page)[..k], page)
  {
  }

  lemma ChosenTreeShrinks(g: Shape, s: State, w: Path, page: nat, s': State, f: nat)
    requires Faulting(g, s, w, page) && FrameChosen(g, s, w, page, s', f)
    ensures s'.tree.Keys <= s.tree.Keys
  {
    ChosenFrameIsSafe(g, s, w, page, s', f);
  }

  /** Where the walk leaves the tree there is nothing further down either. */
  lemma NothingBelow(g: Shape, s: State, w: Path, page: nat)
    requires Faulting(g, s, w, page) && |w| + 1 < g.D
    ensures PathOf(g, page)[..|w| + 2] !in s.tree
  {
    var q := PathOf(g, page)[..|w| + 2];
    assert q[..|w| + 1] == PathOf(g, page)[..|w| + 1];
    if q in s.tree { PrefixClosed(g, s.mem, s.tree, q, |w| + 1); }
  }

  // ----- the descent of address 0 -----

  /** A fault on the descent leads one level deeper, whatever frame contents and swap are. */
  lemma DescentGoesOn(g: Shape, s: State, k: nat, s': State)
    requires Descended(g, s, k) && k + 1 < g.N && TableFault(g, s, Zeros(k), 0, s')
    ensures Descended(g, s', k + 1)
  {
    hide Walking, TableInstalled;
    var w := Zeros(k);
    NothingToReclaim(g, s, k);
    FaultLeadsOn(g, s, w, 0, s');
    ZeroWalk(g, k);
    NextZero(k);
    var s1: State, f: nat :| FrameChosen(g, s, w, 0, s1, f) && f < 0x8000_0000 &&
                             TableInstalled(g, s1, w, PathOf(g, 0)[|w|], f, s');
    InstalledTree(g, s1, w, 0, f, s');
  }

  lemma DescentStep(g: Shape, s: State, k: nat) returns (s': State)
    requires Descended(g, s, k) && k + 1 < g.N && k + 1 < 0x8000_0000 && k + 1 < g.D
    ensures TableFault(g, s, Zeros(k), 0, s')
  {
    hide Walking, Installable, CanInstall, TableInstalled;
    NothingToReclaim(g, s, k);
    WalkingIsGood(g, s, Zeros(k));
    ZeroWalk(g, k);
    assert FrameChosen(g, s, Zeros(k), 0, s, k + 1);
    ChosenFrameFacts(g, s, Zeros(k), 0, s, k + 1);
    s' := Installs(g, s, Zeros(k), 0, k + 1);
  }

  /** With every frame on the walk find_frame has none to give. */
  lemma NoFrameLeft(g: Shape, s: State)
    requires 0 < g.N <= g.D && Descended(g, s, g.N - 1)
    ensures !CanChoose(g, s, Zeros(g.N - 1)) && !HasVictim(g, s.tree)
  {
    NothingToReclaim(g, s, g.N - 1);
    PrefixesOf(Zeros(g.N - 1));
  }

  /** What search_frame then reports is frame 0, page 0 and parent entry 0: find_frame goes on to clear
      entry 0 of the root table and to evict that table. */
  lemma RootIsReported(g: Shape, s: State, r: Search)
    requires 0 < g.N <= g.D && g.N <= 0x8000_0000 && Descended(g, s, g.N - 1)
    requires r in Outcomes(g, s.tree, g.N - 1, 0, s.tree.Keys, Search(false, 0, 0, 0, 0, 0))
    ensures r == Search(false, g.N - 1, 0, 0, 0, 0)
  {
    NothingToReclaim(g, s, g.N - 1);
    PrefixesOf(Zeros(g.N - 1));
    MaxOfAll(s.tree, r.maxFrame);
  }

  // ----- the exact condition -----

  /** The states that the first walk after VMinitialize, for the given page, goes through table by table. */
  ghost predicate FirstWalk(g: Shape, page: nat, states: seq<State>) {
    && states != [] && AtRest(g, states[0]) && states[0].tree == map[[] := 0]
    && page < g.pages && |states| <= g.D
    && forall k {:trigger states[k]} | 0 <= k < |states| - 1 ::
         TableFault(g, states[k], PathOf(g, page)[..k], page, states[k + 1])
  }

  /** The next entry of the walk is empty, and find_frame has a frame for it. */
  ghost predicate GoesOn(g: Shape, page: nat, states: seq<State>)
    requires FirstWalk(g, page, states)
  {
    var s, w := states[|states| - 1], PathOf(g, page)[..|states| - 1];
    Faulting(g, s, w, page) && exists s', f {:trigger FrameChosen(g, s, w, page, s', f)} ::
                                 FrameChosen(g, s, w, page, s', f)
  }

  lemma {:induction false} FirstWalkFaults(g: Shape, page: nat, states: seq<State>, k: nat)
    requires FirstWalk(g, page, states) && k < |states|
    ensures Faulting(g, states[k], PathOf(g, page)[..k], page)
  {
    if k > 0 {
      FaultLeadsOn(g, states[k - 1], PathOf(g, page)[..k - 1], page, states[k]);
    }
  }

  lemma FirstWalkExtends(g: Shape, page: nat, states: seq<State>, s': State)
    requires FirstWalk(g, page, states) && |states| < g.D
    requires TableFault(g, states[|states| - 1], PathOf(g, page)[..|states| - 1], page, s')
    ensures FirstWalk(g, page, states + [s'])
  {
    hide TableFault;
    var all := states + [s'];
    forall k {:trigger all[k]} | 0 <= k < |all| - 1
      ensures TableFault(g, all[k], PathOf(g, page)[..k], page, all[k + 1])
    {
      assert all[k] == states[k];
    }
  }

  /** The first walk of page 0, as far as the frames reach. */
  lemma {:induction false} DescentExists(g: Shape, s0: State, n: nat) returns (states: seq<State>)
    requires AtRest(g, s0) && s0.tree == map[[] := 0] && 0 < g.pages
    requires n < g.N <= 0x8000_0000 && n < g.D
    ensures FirstWalk(g, 0, states) && states[0] == s0 && |states| == n + 1 && Descended(g, states[n], n)
  {
    hide Descended, TableFault;
    if n == 0 {
      DescentStarts(g, s0);
      states := [s0];
    } else {
      var init := DescentExists(g, s0, n - 1);
      var s' := DescentStep(g, init[n - 1], n - 1);
      DescentGoesOn(g, init[n - 1], n - 1, s');
      ZeroWalk(g, n - 1);
      states := init + [s'];
      FirstWalkExtends(g, 0, init, s');
    }
  }

  /** From whatever RAM and swap VMinitialize leaves: every first walk gets a frame for every table and
      page it needs if and only if there are more frames than levels. */
  lemma FirstWalkIffRoomy(g: Shape, s0: State)
    requires AtRest(g, s0) && s0.tree == map[[] := 0] && 0 < g.pages && g.N <= 0x8000_0000
    ensures g.D < g.N <==> forall page, states {:trigger FirstWalk(g, page, states)} ::
                             FirstWalk(g, page, states) && states[0] == s0 ==> GoesOn(g, page, states)
  {
    if g.D < g.N {
      forall page, states {:trigger FirstWalk(g, page, states)} | FirstWalk(g, page, states) && states[0] == s0
        ensures GoesOn(g, page, states)
      {
        var k := |states| - 1;
        FirstWalkFaults(g, page, states, k);
        FrameIffCanChoose(g, states[k], PathOf(g, page)[..k], page);
      }
    } else {
      var states := DescentExists(g, s0, g.N - 1);
      NoFrameLeft(g, states[g.N - 1]);
      ZeroWalk(g, g.N - 1);
      FrameIffCanChoose(g, states[g.N - 1], Zeros(g.N - 1), 0);
      assert !GoesOn(g, 0, states);
    }
  }

  /** The walk of address 0 on a machine fresh from VMinitialize, by the code's own faults: it ends with
      all frames in use, and the search of find_frame reports the root. */
  method WalkAddressZero(vm: VirtualMemory) returns (s: Search)
    requires vm.Wired() && !vm.c.Roomy() && AtRest(ShapeOf(vm.c), vm.Now()) && vm.tree == map[[] := 0]
    modifies vm`tree, vm.pm`swapFile, vm.pm`RAM
    ensures vm.Wired() && Descended(ShapeOf(vm.c), vm.Now(), vm.c.N() - 1)
    ensures s == Search(false, vm.c.N() - 1, 0, 0, 0, 0)
  {
    hide Descended, TableFault, Outcomes, Faulting, Walking, AtRest, CanChoose, Visiting, View, Touched, PathOf,
         ShapeOf, Subtree, EntryAddress, Zeros;
    SmallMachine(vm);
    ghost var g := ShapeOf(vm.c);
    DescentStarts(g, vm.Now());
    var level, lastFrame := 0, 0;
    while level < vm.c.N() - 1
      invariant 0 <= level <= vm.c.N() - 1 && vm.Wired() && lastFrame == level
      invariant Descended(g, vm.Now(), level)
    {
      DescentFaults(g, vm.Now(), level);
      ghost var st := vm.Now();
      var f := vm.Fault(lastFrame, Join(lastFrame, vm.c.P(), 0), level, 0, Zeros(level), 0);
      DescentGoesOn(g, st, level, vm.Now());
      DescentFrame(g, vm.Now(), level + 1);
      lastFrame := f;
      level := level + 1;
    }
    DescentVisits(g, vm.Now(), level);
    WholeTree(g, vm.tree);
    s := vm.SearchFrame(0, 0, lastFrame, 0, 0, 0, Search(false, 0, 0, 0, 0, 0), vm.Now(), [], Zeros(level));
    RootIsReported(g, vm.Now(), s);
  }

  lemma WholeTree(g: Shape, tree: Tree)
    ensures EntryAddress(g, tree, []) == 0 && Subtree(tree, []) == tree.Keys
  {
  }

  lemma SmallMachine(vm: VirtualMemory)
    requires vm.Wired() && !vm.c.Roomy()
    ensures vm.c.Valid() && var g := ShapeOf(vm.c);
            && g.N == vm.c.N() && g.D == vm.c.D() && g.P == vm.c.P() && 0 < g.P
            && 0 < g.N <= g.D && g.N <= 0x8000_0000 && 0 < g.pages
  {
    var o, v := vm.c.offsetWidth, vm.c.virtualWidth;
    Pow2Add(v - o, o);
    QuotRemUnique(vm.c.VirtualSize(), vm.c.P(), Pow2(v - o), 0);
  }

  lemma DescentFrame(g: Shape, s: State, k: nat)
    requires Descended(g, s, k)
    ensures Zeros(k) in s.tree && s.tree[Zeros(k)] == k
  {
  }

  lemma DescentFaults(g: Shape, s: State, k: nat)
    requires Descended(g, s, k) && k + 1 < g.N && k < g.D
    ensures g.Valid() && Faulting(g, s, Zeros(k), 0) && CanChoose(g, s, Zeros(k)) && s.tree[Zeros(k)] == k
    ensures PathOf(g, 0)[k] == 0 && Zeros(k) + [0] == Zeros(k + 1)
  {
    ZeroWalk(g, k);
    NextZero(k);
  }

  lemma DescentVisits(g: Shape, s: State, k: nat)
    requires Descended(g, s, k) && k < g.D
    ensures Visiting(g, s, [], Zeros(k), 0, 0, k, 0, 0)
  {
  }
}
