/** What search_frame (Ex04/VirtualMemory.cpp) must find in the part of the tree it has visited. */
module FrameSearch {
  import opened Arithmetic
  import opened MemoryConstants
  import opened Addressing
  import opened PageTable

  /** The out-parameters threaded through the recursion. */
  datatype Search = Search(emptyFrame: bool, maxFrame: Word, maxDist: Word,
                           resultFrame: nat, resultPath: nat, prevFrameAdd: nat)

  /** Physical address of the entry that links the frame at q (0 for the root, which has none). */
  function EntryAddress(g: Shape, tree: Tree, q: Path): nat {
    if q == [] || Parent(q) !in tree then 0 else Join(tree[Parent(q)], g.P, Last(q))
  }

  ghost predicate Reclaimable(g: Shape, tree: Tree, illegal: nat, q: Path) {
    IsEmptyTable(g, tree, q) && tree[q] != illegal
  }

  function Distance(g: Shape, pageIn: nat, q: Path): int {
    CyclicalDistance(g.pages, pageIn, Value(g.P, q))
  }

  ghost predicate FoundAt(g: Shape, tree: Tree, s: Search, q: Path) {
    q in tree && s.resultFrame == tree[q] && s.prevFrameAdd == EntryAddress(g, tree, q)
  }

  /** s names the data page at q: its frame, its number, its parent entry and its distance. */
  ghost predicate VictimAt(g: Shape, tree: Tree, pageIn: nat, s: Search, q: Path) {
    FoundAt(g, tree, s, q) && |q| == g.D && s.resultPath == Value(g.P, q) && s.maxDist == Distance(g, pageIn, q)
  }

  ghost predicate SameVictim(s0: Search, s1: Search) {
    && s1.maxDist == s0.maxDist && s1.resultFrame == s0.resultFrame
    && s1.resultPath == s0.resultPath && s1.prevFrameAdd == s0.prevFrameAdd
  }

  ghost predicate MaxFrameOver(tree: Tree, V: set<Path>, s0: Search, s1: Search)
  {
    && (forall q | q in V && q in tree :: tree[q] <= s1.maxFrame)
    && (s1.maxFrame == s0.maxFrame || exists q :: q in V && q in tree && tree[q] == s1.maxFrame)
  }

  /** q is the data page of V at the greatest distance, the one with the smallest number on ties. */
  ghost predicate BestOf(g: Shape, pageIn: nat, V: set<Path>, q: Path) {
    && q in V && |q| == g.D
    && (forall r | r in V && |r| == g.D ::
          || Distance(g, pageIn, r) < Distance(g, pageIn, q)
          || (Distance(g, pageIn, r) == Distance(g, pageIn, q) && Value(g.P, q) <= Value(g.P, r)))
  }

  ghost predicate VictimOver(g: Shape, tree: Tree, pageIn: nat, V: set<Path>, s0: Search, s1: Search) {
    if forall r | r in V && |r| == g.D :: Distance(g, pageIn, r) <= s0.maxDist then
      SameVictim(s0, s1)
    else
      s0.maxDist < s1.maxDist && exists q :: BestOf(g, pageIn, V, q) && VictimAt(g, tree, pageIn, s1, q)
  }

  ghost predicate HasReclaimable(g: Shape, tree: Tree, illegal: nat, V: set<Path>) {
    exists q :: q in V && Reclaimable(g, tree, illegal, q)
  }

  /** The search over the nodes V takes s0 to s1: once an empty table is known nothing else matters;
      otherwise one in V is reported or, when V has none, the greatest linked frame and the
      best victim are brought up to date. */
  ghost predicate Searched(g: Shape, tree: Tree, illegal: nat, pageIn: nat, V: set<Path>, s0: Search, s1: Search)
  {
    && s0.maxFrame <= s1.maxFrame
    && if s0.emptyFrame then
      s1 == s0.(maxFrame := s1.maxFrame)
    else if HasReclaimable(g, tree, illegal, V) then
      s1.emptyFrame && exists q :: q in V && Reclaimable(g, tree, illegal, q) && FoundAt(g, tree, s1, q)
    else
      && !s1.emptyFrame
      && MaxFrameOver(tree, V, s0, s1)
      && VictimOver(g, tree, pageIn, V, s0, s1)
  }

  /** The values the out-parameters may have once the nodes V have been searched from s0. */
  ghost function Outcomes(g: Shape, tree: Tree, illegal: nat, pageIn: nat, V: set<Path>, s0: Search): iset<Search> {
    iset s1 | Searched(g, tree, illegal, pageIn, V, s0, s1)
  }

  lemma SearchedNothing(g: Shape, tree: Tree, illegal: nat, pageIn: nat, V: set<Path>, s: Search)
    requires V == {} || s.emptyFrame
    ensures s in Outcomes(g, tree, illegal, pageIn, V, s)
  {
  }

  /** Searching V1 and then V2, whose pages all come later, is searching both. */
  lemma Compose(g: Shape, tree: Tree, illegal: nat, pageIn: nat,
                V1: set<Path>, V2: set<Path>, s0: Search, s1: Search, s2: Search)
    requires s1 in Outcomes(g, tree, illegal, pageIn, V1, s0)
    requires s2 in Outcomes(g, tree, illegal, pageIn, V2, s1)
    requires forall q, r | q in V1 && r in V2 && |q| == |r| == g.D :: Value(g.P, q) < Value(g.P, r)
    ensures s2 in Outcomes(g, tree, illegal, pageIn, V1 + V2, s0)
  {
    if !s0.emptyFrame && !HasReclaimable(g, tree, illegal, V1 + V2) {
      assert !HasReclaimable(g, tree, illegal, V1) && !HasReclaimable(g, tree, illegal, V2);
      ComposeVictim(g, tree, pageIn, V1, V2, s0, s1, s2);
    }
  }

  lemma ComposeVictim(g: Shape, tree: Tree, pageIn: nat,
                      V1: set<Path>, V2: set<Path>, s0: Search, s1: Search, s2: Search)
    requires VictimOver(g, tree, pageIn, V1, s0, s1)
    requires VictimOver(g, tree, pageIn, V2, s1, s2)
    requires forall q, r | q in V1 && r in V2 && |q| == |r| == g.D :: Value(g.P, q) < Value(g.P, r)
    ensures VictimOver(g, tree, pageIn, V1 + V2, s0, s2)
  {
    var V := V1 + V2;
    if r2 :| r2 in V2 && |r2| == g.D && Distance(g, pageIn, r2) > s1.maxDist {
      var q :| BestOf(g, pageIn, V2, q) && VictimAt(g, tree, pageIn, s2, q);
      assert BestOf(g, pageIn, V, q);
    } else if r1 :| r1 in V1 && |r1| == g.D && Distance(g, pageIn, r1) > s0.maxDist {
      var q :| BestOf(g, pageIn, V1, q) && VictimAt(g, tree, pageIn, s1, q);
      assert BestOf(g, pageIn, V, q);
      assert VictimAt(g, tree, pageIn, s2, q);
      assert r1 in V;
    }
  }

  // ----- the nodes a call visits -----

  ghost function Subtree(tree: Tree, p: Path): set<Path> {
    set q | q in tree && p <= q
  }

  /** The nodes below p whose index at p's level is less than i. */
  ghost function SubtreesBefore(tree: Tree, p: Path, i: nat): set<Path> {
    set q | q in tree && p < q && q[|p|] < i
  }

  lemma NextSubtree(tree: Tree, p: Path, i: nat)
    ensures SubtreesBefore(tree, p, i + 1) == SubtreesBefore(tree, p, i) + Subtree(tree, p + [i])
  {
    forall q | q in tree
      ensures p < q && q[|p|] == i <==> p + [i] <= q
    {
    }
  }

  lemma AllSubtrees(g: Shape, tree: Tree, p: Path)
    requires Bounded(g, tree) && p in tree
    ensures Subtree(tree, p) == SubtreesBefore(tree, p, g.P) + {p}
  {
    forall q | q in tree && p <= q && q != p
      ensures q[|p|] < g.P
    {
      assert IsPath(g.P, q);
    }
  }

  lemma SubtreeOfMissing(g: Shape, mem: Memory, tree: Tree, p: Path)
    requires IsTree(g, mem, tree) && p !in tree
    ensures Subtree(tree, p) == {}
  {
    forall q | q in tree && p <= q
      ensures false
    {
      assert q[..|p|] == p;
      PrefixClosed(g, mem, tree, q, |p|);
    }
  }

  lemma DataHasNoSubtrees(g: Shape, tree: Tree, p: Path)
    requires Bounded(g, tree) && p in tree && |p| == g.D
    ensures Subtree(tree, p) == {p}
  {
    assert forall q | q in tree && p <= q :: |q| == |p| && q == p;
  }

  /** Pages under an earlier entry have smaller numbers. */
  lemma EarlierSubtreesEarlierPages(g: Shape, tree: Tree, p: Path, i: nat)
    requires Bounded(g, tree)
    ensures forall q, r | q in SubtreesBefore(tree, p, i) && r in Subtree(tree, p + [i]) && |q| == |r| == g.D ::
              Value(g.P, q) < Value(g.P, r)
  {
    forall q, r | q in SubtreesBefore(tree, p, i) && r in Subtree(tree, p + [i]) && |q| == |r| == g.D
      ensures Value(g.P, q) < Value(g.P, r)
    {
      assert r[|p|] == i && q[..|p|] == p == r[..|p|];
      DepthFirstIsPageOrder(g.P, q, r, |p|);
    }
  }

  // ----- one step of the loop in search_frame -----

  /** Recording the child's own frame before descending. */
  lemma RecordChild(g: Shape, tree: Tree, illegal: nat, pageIn: nat, p: Path, s0: Search, s1: Search, m: Word)
    requires p in tree && m == (if tree[p] > s0.maxFrame then tree[p] else s0.maxFrame)
    requires s1 in Outcomes(g, tree, illegal, pageIn, Subtree(tree, p), s0.(maxFrame := m))
    ensures s1 in Outcomes(g, tree, illegal, pageIn, Subtree(tree, p), s0)
  {
  }

  /** What the entry at index i of the table at p says about the child there. */
  lemma ReadEntry(g: Shape, mem: Memory, tree: Tree, p: Path, frame: nat, number: nat, i: nat, row: Word,
                  address: nat, childNumber: nat)
    requires IsTree(g, mem, tree) && p in tree && |p| < g.D && i < g.P
    requires frame == tree[p] && number == Value(g.P, p) && row == mem[frame][i]
    requires address == Join(frame, g.P, i) && childNumber == Join(number, g.P, i)
    ensures row != 0 <==> p + [i] in tree
    ensures row != 0 ==> row == tree[p + [i]]
    ensures childNumber == Value(g.P, p + [i]) && address == EntryAddress(g, tree, p + [i])
    ensures row == 0 ==> Subtree(tree, p + [i]) == {}
  {
    if row == 0 {
      EntryIffChild(g, mem, tree, p, i);
      SubtreeOfMissing(g, mem, tree, p + [i]);
    }
    EntryIffChild(g, mem, tree, p, i);
    ChildOf(p, i);
  }

  /** The loop of search_frame over the table at p, with the first i entries done. */
  ghost predicate Scanned(g: Shape, tree: Tree, illegal: nat, pageIn: nat, p: Path, i: nat,
                          s0: Search, s: Search, isEmpty: bool)
  {
    && (isEmpty <==> NoChildBefore(tree, p, i))
    && (isEmpty ==> s == s0)
    && s0.maxFrame <= s.maxFrame
    && s in Outcomes(g, tree, illegal, pageIn, SubtreesBefore(tree, p, i), s0)
  }

  ghost function Scans(g: Shape, tree: Tree, illegal: nat, pageIn: nat, p: Path, i: nat,
                       s0: Search, isEmpty: bool): iset<Search>
  {
    iset s | Scanned(g, tree, illegal, pageIn, p, i, s0, s, isEmpty)
  }

  /** Each entry only ever raises the greatest linked frame. */
  lemma ScanRaises(g: Shape, tree: Tree, illegal: nat, pageIn: nat, p: Path, i: nat,
                   s0: Search, s: Search, isEmpty: bool)
    requires s in Scans(g, tree, illegal, pageIn, p, i, s0, isEmpty)
    ensures s0.maxFrame <= s.maxFrame
  {
  }

  lemma ScanStart(g: Shape, tree: Tree, illegal: nat, pageIn: nat, p: Path, s: Search)
    ensures s in Scans(g, tree, illegal, pageIn, p, 0, s, true)
  {
    assert SubtreesBefore(tree, p, 0) == {};
    SearchedNothing(g, tree, illegal, pageIn, SubtreesBefore(tree, p, 0), s);
  }

  /** Descending into the child at entry i extends the search by that child's subtree. */
  lemma ScanNext(g: Shape, tree: Tree, illegal: nat, pageIn: nat, p: Path, i: nat, row: Word,
                 s0: Search, s1: Search, s2: Search, isEmpty: bool, next: nat, isEmpty': bool)
    requires Bounded(g, tree) && s1 in Scans(g, tree, illegal, pageIn, p, i, s0, isEmpty)
    requires next == i + 1 && isEmpty' == (isEmpty && row == 0)
    requires row != 0 <==> p + [i] in tree
    requires row == 0 ==> s2 == s1
    requires s1.maxFrame <= s2.maxFrame
    requires s2 in Outcomes(g, tree, illegal, pageIn, Subtree(tree, p + [i]), s1)
    ensures s2 in Scans(g, tree, illegal, pageIn, p, next, s0, isEmpty')
  {
    NextSubtree(tree, p, i);
    EarlierSubtreesEarlierPages(g, tree, p, i);
    Compose(g, tree, illegal, pageIn, SubtreesBefore(tree, p, i), Subtree(tree, p + [i]), s0, s1, s2);
  }

  /** After the loop only the table itself remains to be judged. */
  lemma ScanEnd(g: Shape, tree: Tree, illegal: nat, pageIn: nat, p: Path,
                s0: Search, s1: Search, s2: Search, isEmpty: bool)
    requires Bounded(g, tree) && p in tree && |p| < g.D && tree[p] <= s0.maxFrame && !s0.emptyFrame
    requires s1 in Scans(g, tree, illegal, pageIn, p, g.P, s0, isEmpty)
    requires s2 == if isEmpty && tree[p] != illegal
                   then s1.(emptyFrame := true, prevFrameAdd := EntryAddress(g, tree, p), resultFrame := tree[p])
                   else s1
    ensures s2 in Outcomes(g, tree, illegal, pageIn, Subtree(tree, p), s0)
    ensures s0.maxFrame <= s2.maxFrame
  {
    AllSubtrees(g, tree, p);
    SearchTable(g, tree, illegal, pageIn, p, s1, s2);
    Compose(g, tree, illegal, pageIn, SubtreesBefore(tree, p, g.P), {p}, s0, s1, s2);
  }

  lemma SearchTable(g: Shape, tree: Tree, illegal: nat, pageIn: nat, p: Path, s1: Search, s2: Search)
    requires p in tree && |p| < g.D && tree[p] <= s1.maxFrame
    requires if Reclaimable(g, tree, illegal, p)
             then s2 == s1.(emptyFrame := true, prevFrameAdd := EntryAddress(g, tree, p), resultFrame := tree[p])
                  && !s1.emptyFrame
             else s2 == s1
    ensures s2 in Outcomes(g, tree, illegal, pageIn, {p}, s1)
  {
    assert p in {p};
  }
}
