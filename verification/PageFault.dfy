/** The page fault as a whole: which frame find_frame chooses, why that frame is safe to use, and what
    linking it completes. */
module PageFault {
  import opened Wrappers
  import opened Sets
  import opened Arithmetic
  import opened MemoryConstants
  import opened Addressing
  import opened PageTable
  import opened FrameUse
  import opened FrameSearch
  import opened FlatView

  /** The state of a walk that has reached the table at w. */
  ghost predicate Walking(g: Shape, s: State, w: Path) {
    Good(g, s) && Contiguous(s.tree) && AtMostOneEmpty(g, s.tree, w) && w in s.tree
  }

  /** The walk of page has reached the table at w and finds the entry it needs empty. */
  ghost predicate Faulting(g: Shape, s: State, w: Path, page: nat) {
    && Walking(g, s, w) && |w| < g.D && page < g.pages
    && w == PathOf(g, page)[..|w|] && PathOf(g, page)[..|w| + 1] !in s.tree
  }

  /** The three cases of find_frame: an empty table other than the one at w is unlinked; else the next
      unused frame is taken; else the page at the greatest cyclic distance is evicted. */
  ghost predicate FrameChosen(g: Shape, s: State, w: Path, page: nat, s': State, f: nat)
    requires Faulting(g, s, w, page)
  {
    if HasReclaimable(g, s.tree, s.tree[w], s.tree.Keys) then
      exists q :: q != [] && Reclaimable(g, s.tree, s.tree[w], q) && f == s.tree[q] && s' == Unlinked(g, s, q)
    else if |s.tree| < g.N then
      f == |s.tree| && s' == s
    else
      exists d :: BestOf(g, page, s.tree.Keys, d) && d in s.tree && f == s.tree[d] && s' == Evicted(g, s, d)
  }

  /** find_frame has a frame to give: there are more frames than levels, or an unused frame, or an empty
      table to take back. */
  ghost predicate CanChoose(g: Shape, s: State, w: Path)
    requires w in s.tree
  {
    g.D < g.N || |s.tree| < g.N || HasReclaimable(g, s.tree, s.tree[w], s.tree.Keys)
  }

  /** f may be linked below w: no touched page was lost, f is the one unused frame, and the walk down
      to w is intact and does not include f. */
  ghost predicate ReadyToLink(g: Shape, s: State, w: Path, s': State, f: nat)
    requires Good(g, s)
  {
    && Good(g, s') && View(g, s') == View(g, s)
    && AtMostOneEmpty(g, s'.tree, w)
    && 0 < f < g.N && Spare(s'.tree, f)
    && s'.tree.Keys <= s.tree.Keys
    && (forall q | q <= w :: q in s'.tree && q in s.tree && s'.tree[q] == s.tree[q] != f)
  }

  lemma WalkIsInTree(g: Shape, s: State, w: Path)
    requires Good(g, s) && w in s.tree
    ensures forall q | q <= w :: q in s.tree
  {
    forall q | q <= w
      ensures q in s.tree
    {
      assert w[..|q|] == q;
      PrefixClosed(g, s.mem, s.tree, w, |q|);
    }
  }

  /** A leaf that is not the end of the walk is not on the walk at all. */
  lemma LeafIsOffWalk(g: Shape, s: State, w: Path, q: Path)
    requires Good(g, s) && w in s.tree && q in s.tree && q != w && IsLeaf(g, s.tree, q)
    ensures !(q <= w)
  {
    if q <= w {
      var k := w[|q|];
      assert IsPath(g.P, w);
      assert q + [k] <= w;
      WalkIsInTree(g, s, w);
      assert false;
    }
  }

  lemma DataIsLeaf(g: Shape, s: State, d: Path)
    requires Good(g, s) && |d| == g.D
    ensures IsLeaf(g, s.tree, d)
  {
    forall i | 0 <= i < g.P
      ensures d + [i] !in s.tree
    {
      assert |d + [i]| > g.D;
    }
  }

  /** Unlinking a leaf off the walk leaves the walk and frees exactly that leaf's frame. */
  lemma UnlinkOffWalk(g: Shape, s: State, w: Path, q: Path)
    requires Good(g, s) && Contiguous(s.tree) && w in s.tree && q in s.tree && q != w && IsLeaf(g, s.tree, q)
    ensures q != []
    ensures var t := s.tree - {q};
            && 0 < s.tree[q] < g.N && Spare(t, s.tree[q])
            && (forall r | r <= w :: r in t && r in s.tree && t[r] == s.tree[r] != s.tree[q])
  {
    LeafIsOffWalk(g, s, w, q);
    WalkIsInTree(g, s, w);
    UnlinkMakesSpare(s.tree, q);
    assert s.tree[[]] == 0;
  }

  lemma RecycledIsSafe(g: Shape, s: State, w: Path, q: Path)
    requires Walking(g, s, w) && q != [] && Reclaimable(g, s.tree, s.tree[w], q)
    ensures ReadyToLink(g, s, w, Unlinked(g, s, q), s.tree[q])
  {
    UnlinkOffWalk(g, s, w, q);
    Recycle(g, s, q);
    UnlinkAtMostOne(g, s.tree, w, q);
  }

  lemma NextFrameIsSafe(g: Shape, s: State, w: Path)
    requires Walking(g, s, w) && NoneEmpty(g, s.tree, w) && |s.tree| < g.N
    ensures ReadyToLink(g, s, w, s, |s.tree|)
  {
    WalkIsInTree(g, s, w);
    assert |s.tree| !in s.tree.Values;
    FrameOfWalkIsUsed(s, w);
  }

  lemma EvictedIsSafe(g: Shape, s: State, w: Path, d: Path)
    requires Walking(g, s, w) && |w| < g.D && NoneEmpty(g, s.tree, w) && d in s.tree && |d| == g.D
    ensures ReadyToLink(g, s, w, Evicted(g, s, d), s.tree[d])
  {
    DataIsLeaf(g, s, d);
    UnlinkOffWalk(g, s, w, d);
    Evict(g, s, d);
    UnlinkAtMostOne(g, s.tree, w, d);
  }

  /** Whatever case find_frame takes, the frame it returns can be linked. */
  lemma ChosenFrameIsSafe(g: Shape, s: State, w: Path, page: nat, s': State, f: nat)
    requires Faulting(g, s, w, page) && FrameChosen(g, s, w, page, s', f)
    ensures ReadyToLink(g, s, w, s', f)
  {
    hide ReadyToLink, NoneEmpty;
    if HasReclaimable(g, s.tree, s.tree[w], s.tree.Keys) {
      var q :| q != [] && Reclaimable(g, s.tree, s.tree[w], q) && f == s.tree[q] && s' == Unlinked(g, s, q);
      RecycledIsSafe(g, s, w, q);
    } else {
      NoReclaimableNoneEmpty(g, s, w);
      if |s.tree| < g.N {
        NextFrameIsSafe(g, s, w);
      } else {
        var d :| BestOf(g, page, s.tree.Keys, d) && d in s.tree && f == s.tree[d] && s' == Evicted(g, s, d);
        EvictedIsSafe(g, s, w, d);
      }
    }
  }

  lemma FrameOfWalkIsUsed(s: State, w: Path)
    ensures forall q | q <= w && q in s.tree :: s.tree[q] in s.tree.Values
  {
  }

  lemma NoReclaimableNoneEmpty(g: Shape, s: State, w: Path)
    requires Good(g, s) && w in s.tree && !HasReclaimable(g, s.tree, s.tree[w], s.tree.Keys)
    ensures NoneEmpty(g, s.tree, w)
  {
    forall q | IsEmptyTable(g, s.tree, q)
      ensures q == w
    {
      assert !Reclaimable(g, s.tree, s.tree[w], q);
    }
  }

  /** A reclaimable table is never the root: the walk goes through the root. */
  lemma ReclaimableIsNotRoot(g: Shape, s: State, w: Path, q: Path)
    requires Good(g, s) && w in s.tree && Reclaimable(g, s.tree, s.tree[w], q)
    ensures q != []
  {
    LeafIsOffWalk(g, s, w, q);
  }

  /** With every frame in use and no table to reclaim, the search has recorded a victim: some data page
      is resident, and it is not the page being brought in, so its distance is positive. */
  lemma SearchRecordsVictim(g: Shape, s: State, w: Path, page: nat) returns (d: Path)
    requires Faulting(g, s, w, page) && |s.tree| >= g.N && g.D < g.N
    requires !HasReclaimable(g, s.tree, s.tree[w], s.tree.Keys)
    ensures d in s.tree && |d| == g.D && Distance(g, page, d) > 0
  {
    NoReclaimableNoneEmpty(g, s, w);
    d := VictimExists(g, s.mem, s.tree, w);
    NotResident(g, s, w, page);
    ValueRoundTrip(g, d);
    CyclicalDistanceIsLeast(g.pages, page, Value(g.P, d), 0);
  }

  /** A resident data page has its D tables and itself in D + 1 different frames. */
  lemma DataNeedsFrames(g: Shape, s: State, d: Path)
    requires Good(g, s) && Contiguous(s.tree) && d in s.tree && |d| == g.D
    ensures g.D < |s.tree| <= g.N
  {
    PrefixesOf(d);
    WalkIsInTree(g, s, d);
    SubsetSize(Prefixes(d), s.tree.Keys);
    var last: nat := |s.tree| - 1;
    assert last in s.tree.Values;
    var q :| q in s.tree && s.tree[q] == last;
  }

  /** Whenever find_frame comes to evict, there is a page to evict if and only if there are more frames
      than levels. */
  lemma VictimIffRoomy(g: Shape, s: State, w: Path, page: nat)
    requires Faulting(g, s, w, page) && |s.tree| >= g.N
    requires !HasReclaimable(g, s.tree, s.tree[w], s.tree.Keys)
    ensures HasVictim(g, s.tree) <==> g.D < g.N
  {
    if g.D < g.N {
      var d := SearchRecordsVictim(g, s, w, page);
    }
    if d :| d in s.tree && |d| == g.D {
      DataNeedsFrames(g, s, d);
    }
  }

  /** Among finitely many pages one is at the greatest distance, with the smallest number on ties. */
  lemma {:induction false} BestExists(g: Shape, pageIn: nat, V: set<Path>, d: Path) returns (q: Path)
    requires d in V && |d| == g.D
    ensures BestOf(g, pageIn, V, q)
    decreases |V|
  {
    q := d;
    if e :| e in V && e != d && |e| == g.D {
      q := BestExists(g, pageIn, V - {d}, e);
      if || Distance(g, pageIn, q) < Distance(g, pageIn, d)
         || (Distance(g, pageIn, q) == Distance(g, pageIn, d) && Value(g.P, d) <= Value(g.P, q)) {
        q := d;
      }
    }
  }

  /** find_frame has a frame to give exactly under CanChoose. */
  lemma FrameIffCanChoose(g: Shape, s: State, w: Path, page: nat)
    requires Faulting(g, s, w, page)
    ensures CanChoose(g, s, w) <==> exists s', f {:trigger FrameChosen(g, s, w, page, s', f)} ::
                                      FrameChosen(g, s, w, page, s', f)
  {
    if HasReclaimable(g, s.tree, s.tree[w], s.tree.Keys) {
      var q :| q in s.tree.Keys && Reclaimable(g, s.tree, s.tree[w], q);
      ReclaimableIsNotRoot(g, s, w, q);
      assert FrameChosen(g, s, w, page, Unlinked(g, s, q), s.tree[q]);
    } else if |s.tree| < g.N {
      assert FrameChosen(g, s, w, page, s, |s.tree|);
    } else {
      VictimIffRoomy(g, s, w, page);
      if g.D < g.N {
        var d :| d in s.tree && |d| == g.D;
        var q := BestExists(g, page, s.tree.Keys, d);
        assert FrameChosen(g, s, w, page, Evicted(g, s, q), s.tree[q]);
      }
    }
  }

  lemma NotResident(g: Shape, s: State, w: Path, page: nat)
    requires Faulting(g, s, w, page)
    ensures !Resident(g, s, page)
  {
    if Resident(g, s, page) {
      PrefixClosed(g, s.mem, s.tree, PathOf(g, page), |w| + 1);
      assert false;
    }
  }

  /** search_frame is called for the frame at path, in a search for page that must spare the table at w. */
  ghost predicate Visiting(g: Shape, s: State, path: Path, w: Path, frame: nat, depth: nat, illegal: nat,
                           page: nat, number: nat)
  {
    && Good(g, s) && page < g.pages
    && path in s.tree && |path| == depth <= g.D && frame == s.tree[path] && number == Value(g.P, path)
    && w in s.tree && |w| < g.D && illegal == s.tree[w]
  }

  /** What the out-parameters of the whole search tell find_frame. In case 1 and case 3 q is the node
      whose parent entry is to be cleared. */
  lemma SearchResult(g: Shape, st: State, w: Path, page: nat, s: Search) returns (q: Path)
    requires Faulting(g, st, w, page)
    requires s in Outcomes(g, st.tree, st.tree[w], page, st.tree.Keys, Search(false, 0, 0, 0, 0, 0))
    ensures s.emptyFrame <==> HasReclaimable(g, st.tree, st.tree[w], st.tree.Keys)
    ensures s.emptyFrame ==> Reclaimable(g, st.tree, st.tree[w], q) && FoundAt(g, st.tree, s, q) && q != []
    ensures !s.emptyFrame ==> s.maxFrame == |st.tree| - 1
    ensures !s.emptyFrame && |st.tree| >= g.N && g.D < g.N ==>
              BestOf(g, page, st.tree.Keys, q) && VictimAt(g, st.tree, page, s, q)
  {
    q := [];
    if s.emptyFrame {
      q :| q in st.tree && Reclaimable(g, st.tree, st.tree[w], q) && FoundAt(g, st.tree, s, q);
      ReclaimableIsNotRoot(g, st, w, q);
    } else {
      MaxOfAll(st.tree, s.maxFrame);
      if |st.tree| >= g.N && g.D < g.N {
        var d := SearchRecordsVictim(g, st, w, page);
        q :| BestOf(g, page, st.tree.Keys, q) && VictimAt(g, st.tree, page, s, q);
      }
    }
  }

  lemma EvictionIsChoice(g: Shape, st: State, w: Path, page: nat, s: Search, d: Path, st': State)
    requires Faulting(g, st, w, page) && |st.tree| >= g.N
    requires !HasReclaimable(g, st.tree, st.tree[w], st.tree.Keys)
    requires BestOf(g, page, st.tree.Keys, d) && VictimAt(g, st.tree, page, s, d)
    requires d != [] && st' == Unlinked(g, st, d).(swap := st.swap[s.resultPath := st.mem[s.resultFrame]])
    ensures FrameChosen(g, st, w, page, st', s.resultFrame)
  {
    assert st' == Evicted(g, st, d);
  }

  lemma MaxOfAll(tree: Tree, m: Word)
    requires Contiguous(tree) && [] in tree && tree[[]] == 0
    requires 0 <= m && MaxFrameOver(tree, tree.Keys, Search(false, 0, 0, 0, 0, 0), Search(false, m, 0, 0, 0, 0))
    ensures m == |tree| - 1
  {
    assert m in tree.Values;
    MaxFrameIsLast(tree, m);
  }

  // ----- completing the fault -----

  /** A page counts as touched from now on; if it was already, nothing has changed. */
  ghost predicate Touched(v: map<nat, seq<Word>>, v': map<nat, seq<Word>>, page: nat) {
    page in v' && v' == if page in v then v else v[page := v'[page]]
  }

  /** Linking the chosen frame, zeroed, as the next table of the walk. */
  lemma TableLinked(g: Shape, s: State, w: Path, i: nat, f: Word)
    requires 0 < f && f in Installable(g, s, w, i) && |w| + 1 < g.D
    requires forall j :: 0 <= j < g.P ==> s.mem[f][j] == 0
    ensures CanLink(g, s.mem, s.tree, w, i, f)
    ensures Walking(g, Linked(g, s, w, i, f), w + [i])
    ensures View(g, Linked(g, s, w, i, f)) == View(g, s)
  {
    LinkTable(g, s, w, i, f);
    LinkMakesContiguous(s.tree, w + [i], f);
    LinkAtMostOne(g, s.tree, w, i, f);
  }

  function ZeroPage(g: Shape): (page: seq<Word>)
    ensures |page| == g.P
  {
    seq(g.P, i => 0)
  }

  /** The frame f is cleared and linked as the table at entry i below w. */
  ghost predicate TableInstalled(g: Shape, s: State, w: Path, i: nat, f: Word, s': State) {
    0 < f < |s.mem| && var s1 := s.(mem := s.mem[f := ZeroPage(g)]);
    CanLink(g, s1.mem, s1.tree, w, i, f) && s' == Linked(g, s1, w, i, f)
  }

  /** The whole of a fault above the last level: find_frame, initialize_frame and the write of the entry. */
  ghost predicate TableFault(g: Shape, s: State, w: Path, page: nat, s': State) {
    Faulting(g, s, w, page) && |w| + 1 < g.D && exists s1: State, f: nat
      {:trigger FrameChosen(g, s, w, page, s1, f)} ::
      FrameChosen(g, s, w, page, s1, f) && f < 0x8000_0000 &&
      TableInstalled(g, s1, w, PathOf(g, page)[|w|], f, s')
  }

  /** Linking the chosen frame as the data page, after PMrestore has put content into it. */
  lemma PageLinked(g: Shape, s: State, w: Path, i: nat, f: Word, page: nat, content: seq<Word>)
    requires 0 < f && f in Installable(g, s, w, i) && |w| + 1 == g.D
    requires page < g.pages && w + [i] == PathOf(g, page) && |content| == g.P
    ensures var s1 := s.(mem := s.mem[f := content]);
            && CanLink(g, s1.mem, s1.tree, w, i, f)
            && Walking(g, LinkedPage(g, s1, page, w, i, f), w + [i])
            && View(g, LinkedPage(g, s1, page, w, i, f)) == View(g, s)[page := content]
  {
    var s1 := s.(mem := s.mem[f := content]);
    FillFree(g, s, f, content);
    LinkData(g, s1, page, w, i, f);
    LinkMakesContiguous(s.tree, w + [i], f);
    LinkAtMostOne(g, s.tree, w, i, f);
  }

  /** One word of a page has been written; a page touched for the first time has other words too. */
  ghost predicate Written(v: map<nat, seq<Word>>, v': map<nat, seq<Word>>, page: nat, offset: nat, value: Word) {
    && page in v' && offset < |v'[page]| && v'[page][offset] == value
    && (page in v ==> offset < |v[page]| && v'[page] == v[page][offset := value])
    && v' == v[page := v'[page]]
  }

  /** If the restored contents are those in swap, nothing that had been touched changes. */
  lemma RestoreTouches(g: Shape, s: State, page: nat, content: seq<Word>, v': map<nat, seq<Word>>)
    requires Good(g, s) && page < g.pages && !Resident(g, s, page)
    requires page in s.swap ==> content == s.swap[page]
    requires v' == View(g, s)[page := content]
    ensures Touched(View(g, s), v', page)
  {
    assert page in View(g, s) ==> PageContents(g, s, page) == Some(content);
  }

  /** The walk of page passes through every prefix of its path. */
  lemma NextOnWalk(g: Shape, page: nat, level: nat)
    requires g.Valid() && page < g.pages && level < g.D
    ensures PathOf(g, page)[..level] + [PathOf(g, page)[level]] == PathOf(g, page)[..level + 1]
    ensures PathOf(g, page)[level] < g.P
  {
    PathRoundTrip(g, page);
  }

  /** f is free and may be linked at entry i of the table at w. */
  ghost predicate CanInstall(g: Shape, s: State, w: Path, i: nat, f: nat) {
    && Good(g, s) && AtMostOneEmpty(g, s.tree, w) && 0 < f < g.N && Spare(s.tree, f)
    && w in s.tree && |w| < g.D && i < g.P && w + [i] !in s.tree
  }

  ghost function Installable(g: Shape, s: State, w: Path, i: nat): iset<nat> {
    iset f: nat | CanInstall(g, s, w, i, f)
  }

  /** What the rest of the fault needs to know once find_frame has returned f. */
  lemma ChosenFrameFacts(g: Shape, s: State, w: Path, page: nat, s': State, f: nat)
    requires Faulting(g, s, w, page) && FrameChosen(g, s, w, page, s', f)
    ensures |w| < g.D && 0 < f < g.N && f in Installable(g, s', w, PathOf(g, page)[|w|])
    ensures Good(g, s) && Good(g, s') && View(g, s') == View(g, s)
    ensures w in s'.tree && w in s.tree && s'.tree[w] == s.tree[w]
    ensures page < g.pages && (|w| + 1 == g.D ==> w + [PathOf(g, page)[|w|]] == PathOf(g, page))
  {
    ChosenFrameIsSafe(g, s, w, page, s', f);
    ReadyIsInstallable(g, s, w, page, s', f);
  }

  lemma ReadyIsInstallable(g: Shape, s: State, w: Path, page: nat, s': State, f: nat)
    requires Faulting(g, s, w, page) && ReadyToLink(g, s, w, s', f)
    ensures w in s'.tree && f in Installable(g, s', w, PathOf(g, page)[|w|])
    ensures |w| + 1 == g.D ==> w + [PathOf(g, page)[|w|]] == PathOf(g, page)
  {
    NextOnWalk(g, page, |w|);
    assert w <= w;
  }

  /** An address in range lies in a page of the virtual memory. */
  lemma PageOfAddress(c: Config, va: nat)
    requires c.Valid() && va < c.VirtualSize()
    ensures ShapeOf(c).Valid() && Quot(va, c.P()) < c.NumPages()
  {
    ShapeIsValid(c);
    assert c.NumPages() * c.P() == c.P() * c.NumPages();
    QuotLess(va, c.P(), c.NumPages());
  }

  /** What holds between calls. */
  ghost predicate AtRest(g: Shape, s: State) {
    Walking(g, s, []) && forall w: Path :: AtMostOneEmpty(g, s.tree, w)
  }

  ghost function WithWord(s: State, frame: nat, offset: nat, value: Word): State
    requires frame < |s.mem| && offset < |s.mem[frame]|
  {
    s.(mem := SetEntry(s.mem, frame, offset, value))
  }

  /** Writing one word of a page that has just been made resident. */
  lemma WriteWord(g: Shape, v: map<nat, seq<Word>>, s: State, page: nat, frame: nat, offset: nat, value: Word)
    requires AtRest(g, s) && page < g.pages && Resident(g, s, page) && offset < g.P
    requires frame == s.tree[PathOf(g, page)] && Touched(v, View(g, s), page)
    ensures frame < g.N && AtRest(g, WithWord(s, frame, offset, value))
    ensures Written(v, View(g, WithWord(s, frame, offset, value)), page, offset, value)
  {
    var content: seq<Word> := s.mem[frame][offset := value];
    ResidentInView(g, s, page);
    WriteResident(g, s, page, content);
    WrittenAfterTouch(v, View(g, s), page, offset, value, content);
  }

  lemma WrittenAfterTouch(v: map<nat, seq<Word>>, v1: map<nat, seq<Word>>, page: nat, offset: nat, value: Word,
                          content: seq<Word>)
    requires Touched(v, v1, page) && offset < |v1[page]| && content == v1[page][offset := value]
    ensures Written(v, v1[page := content], page, offset, value)
  {
  }

  /** One word of a page has been read; a page touched for the first time has got its contents. */
  ghost predicate Read(v: map<nat, seq<Word>>, v': map<nat, seq<Word>>, page: nat, offset: nat, value: Word) {
    Touched(v, v', page) && offset < |v'[page]| && v'[page][offset] == value
  }

  lemma ReadWord(g: Shape, v: map<nat, seq<Word>>, s: State, page: nat, frame: nat, offset: nat)
    requires AtRest(g, s) && page < g.pages && Resident(g, s, page) && offset < g.P
    requires frame == s.tree[PathOf(g, page)] && Touched(v, View(g, s), page)
    ensures frame < g.N && |s.mem| == g.N && |s.mem[frame]| == g.P
    ensures Read(v, View(g, s), page, offset, s.mem[frame][offset])
  {
    ResidentInView(g, s, page);
  }

  /** VMinitialize clears the root table: no page is resident, those in swap stay there. */
  lemma RootCleared(g: Shape, mem: Memory, swap: Swap)
    requires g.Valid() && Sized(g, mem) && (forall i :: 0 <= i < g.P ==> mem[0][i] == 0)
    requires forall k | k in swap :: k < g.pages && |swap[k]| == g.P
    ensures AtRest(g, State(mem, swap, map[[] := 0])) && View(g, State(mem, swap, map[[] := 0])) == swap
  {
    EmptyRoot(g, mem, swap);
    RootIsContiguous();
  }

  // ----- one call of translate_address -----

  /** The state s of a call for page that started in st and has resolved `level` entries. */
  ghost predicate Progress(g: Shape, st: State, s: State, page: nat, level: nat) {
    && g.Valid() && page < g.pages && level <= g.D
    && Good(g, st) && Walking(g, s, PathOf(g, page)[..level])
    && (level < g.D ==> View(g, s) == View(g, st))
    && (level == g.D ==> Touched(View(g, st), View(g, s), page))
    && (Resident(g, st, page) ==> s == st)
  }

  /** The next entry is zero exactly if the walk faults there, which it does not for a resident page. */
  lemma FollowEntry(g: Shape, st: State, s: State, page: nat, level: nat)
    requires Progress(g, st, s, page, level) && level < g.D
    ensures var q := PathOf(g, page);
            && q[..level] in s.tree && s.tree[q[..level]] < g.N && q[level] < g.P && Sized(g, s.mem)
            && var entry := s.mem[s.tree[q[..level]]][q[level]];
               if entry == 0 then
                 Faulting(g, s, q[..level], page) && !Resident(g, st, page)
               else
                 && Progress(g, st, s, page, level + 1)
                 && q[..level + 1] in s.tree && s.tree[q[..level + 1]] == entry
  {
    var q := PathOf(g, page);
    var w := q[..level];
    NextOnWalk(g, page, level);
    assert s.tree[w] < g.N;
    EntryIffChild(g, s.mem, s.tree, w, q[level]);
    if s.mem[s.tree[w]][q[level]] == 0 {
      if Resident(g, s, page) { PrefixClosed(g, s.mem, s.tree, q, level + 1); }
    } else {
      StepAtMostOne(g, s.tree, w, q[level], q[..level + 1]);
      if level + 1 == g.D {
        assert q[..level + 1] == q;
        assert PageContents(g, s, page).Some?;
      }
    }
  }

  lemma AfterFault(g: Shape, st: State, s: State, s': State, page: nat, level: nat)
    requires Progress(g, st, s, page, level) && level < g.D && !Resident(g, st, page)
    requires Walking(g, s', PathOf(g, page)[..level] + [PathOf(g, page)[level]])
    requires level + 1 < g.D ==> View(g, s') == View(g, s)
    requires level + 1 == g.D ==> Touched(View(g, s), View(g, s'), page)
    ensures Progress(g, st, s', page, level + 1)
    ensures PathOf(g, page)[..level] + [PathOf(g, page)[level]] == PathOf(g, page)[..level + 1]
  {
    NextOnWalk(g, page, level);
  }

  lemma WalkDone(c: Config, st: State, s: State, va: nat)
    requires c.Valid() && va < c.VirtualSize() && Progress(ShapeOf(c), st, s, Quot(va, c.P()), c.D())
    ensures var (g, q, page) := (ShapeOf(c), PathOfAddress(c, va), Quot(va, c.P()));
            && Resident(g, s, page) && q[..c.D()] == q && q in s.tree
            && s.tree[q] == WalkFrame(c, s.mem, va, c.D()) && s.tree[q] < c.N()
            && Touched(View(g, st), View(g, s), page) && (Resident(g, st, page) ==> s == st)
            && AtRest(g, s)
  {
    var q := PathOfAddress(c, va);
    assert q[..c.D()] == q;
    WalkFollowsTree(c, s, va, c.D());
    assert !IsEmptyTable(ShapeOf(c), s.tree, q);
  }

  // ----- the tree is what the code's own walk sees -----

  /** The frame reached after following `level` entries from the root by calculate_bits. */
  ghost function WalkFrame(c: Config, mem: Memory, va: nat, level: nat): int
    requires c.Valid() && level <= c.D()
  {
    if level == 0 then 0 else
      var f, i := WalkFrame(c, mem, va, level - 1), CalculateBits(c, va, level - 1);
      if 0 <= f < |mem| && i < |mem[f]| then mem[f][i] else 0
  }

  function PathOfAddress(c: Config, va: nat): (q: Path)
    requires c.Valid() && ShapeOf(c).Valid()
    ensures |q| == c.D()
  {
    PathOf(ShapeOf(c), Quot(va, c.P()))
  }

  lemma {:induction false} WalkFollowsTree(c: Config, s: State, va: nat, level: nat)
    requires c.Valid() && Good(ShapeOf(c), s) && va < c.VirtualSize() && level <= c.D()
    requires PathOfAddress(c, va)[..level] in s.tree
    ensures WalkFrame(c, s.mem, va, level) == s.tree[PathOfAddress(c, va)[..level]]
  {
    if level > 0 {
      var q := PathOfAddress(c, va)[..level];
      CalculateBitsIsDigit(c, va, level - 1);
      assert Parent(q) == PathOfAddress(c, va)[..level - 1];
      assert LinkedFromParent(ShapeOf(c), s.mem, s.tree, q);
      WalkFollowsTree(c, s, va, level - 1);
    }
  }

  ghost predicate MeetsNoZero(c: Config, mem: Memory, va: nat, level: nat)
    requires c.Valid() && level <= c.D()
  {
    forall l {:trigger WalkFrame(c, mem, va, l)} :: 0 < l <= level ==> WalkFrame(c, mem, va, l) != 0
  }

  /** A page is resident exactly when the walk by calculate_bits meets no zero entry: the ghost tree
      says nothing that RAM does not. */
  lemma ResidentIffWalkable(c: Config, s: State, va: nat)
    requires c.Valid() && Good(ShapeOf(c), s) && va < c.VirtualSize()
    ensures Resident(ShapeOf(c), s, Quot(va, c.P())) <==> MeetsNoZero(c, s.mem, va, c.D())
  {
    var q := PathOfAddress(c, va);
    assert q[..c.D()] == q;
    if Resident(ShapeOf(c), s, Quot(va, c.P())) {
      forall l {:trigger WalkFrame(c, s.mem, va, l)} | 0 < l <= c.D()
        ensures WalkFrame(c, s.mem, va, l) != 0
      {
        ResidentMeetsNoZero(c, s, va, l);
      }
    } else if MeetsNoZero(c, s.mem, va, c.D()) {
      WalkReaches(c, s, va, c.D());
    }
  }

  lemma ResidentMeetsNoZero(c: Config, s: State, va: nat, l: nat)
    requires c.Valid() && Good(ShapeOf(c), s) && va < c.VirtualSize() && 0 < l <= c.D()
    requires PathOfAddress(c, va) in s.tree
    ensures WalkFrame(c, s.mem, va, l) != 0
  {
    var q := PathOfAddress(c, va);
    PrefixClosed(ShapeOf(c), s.mem, s.tree, q, l);
    WalkFollowsTree(c, s, va, l);
    assert s.tree[q[..l]] != s.tree[[]];
  }

  lemma {:induction false} WalkReaches(c: Config, s: State, va: nat, level: nat)
    requires c.Valid() && Good(ShapeOf(c), s) && va < c.VirtualSize() && level <= c.D()
    requires MeetsNoZero(c, s.mem, va, level)
    ensures PathOfAddress(c, va)[..level] in s.tree
  {
    if level > 0 {
      var q := PathOfAddress(c, va);
      assert MeetsNoZero(c, s.mem, va, level - 1);
      WalkReaches(c, s, va, level - 1);
      WalkFollowsTree(c, s, va, level - 1);
      CalculateBitsIsDigit(c, va, level - 1);
      EntryIffChild(ShapeOf(c), s.mem, s.tree, q[..level - 1], q[level - 1]);
      assert q[..level] == q[..level - 1] + [q[level - 1]];
      assert WalkFrame(c, s.mem, va, level) != 0;
    }
  }
}
