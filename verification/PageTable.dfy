/** The page-table tree that Ex04 keeps inside RAM: the invariant, the view of memory it gives, and
    what linking, unlinking and filling a frame do to them. */
module PageTable {
  import opened MemoryConstants
  import opened Addressing

  type Memory = seq<seq<Word>>
  type Swap = map<nat, seq<Word>>

  /** The frame at each path that can be walked from the root. */
  type Tree = map<Path, nat>

  function SetEntry(mem: Memory, f: nat, i: nat, v: Word): Memory
    requires f < |mem| && i < |mem[f]|
  {
    var page: seq<Word> := mem[f][i := v];
    mem[f := page]
  }

  ghost predicate Sized(g: Shape, mem: Memory) {
    |mem| == g.N && forall f :: 0 <= f < g.N ==> |mem[f]| == g.P
  }

  ghost predicate Bounded(g: Shape, tree: Tree) {
    forall q | q in tree :: |q| <= g.D && IsPath(g.P, q) && tree[q] < g.N
  }

  /** The entry a reachable frame is linked by. */
  ghost predicate LinkedFromParent(g: Shape, mem: Memory, tree: Tree, q: Path)
    requires Sized(g, mem) && q in tree && q != []
  {
    && Parent(q) in tree && tree[Parent(q)] < g.N
    && Last(q) < g.P
    && mem[tree[Parent(q)]][Last(q)] == tree[q]
  }

  ghost predicate EntriesFollowed(g: Shape, mem: Memory, tree: Tree, q: Path)
    requires Sized(g, mem) && q in tree && tree[q] < g.N
  {
    forall i {:trigger mem[tree[q]][i]} :: 0 <= i < g.P && mem[tree[q]][i] != 0 ==> q + [i] in tree
  }

  ghost predicate Distinct(tree: Tree) {
    forall q, r {:trigger tree[q], tree[r]} :: q in tree && r in tree && q != r ==> tree[q] != tree[r]
  }

  /** The nonzero entries reachable from frame 0 form a tree of depth at most D: each reachable frame
      has one path, so one parent entry, and frame 0 has none. Paths of length D end in data pages. */
  ghost predicate IsTree(g: Shape, mem: Memory, tree: Tree) {
    && Sized(g, mem)
    && [] in tree && tree[[]] == 0
    && Bounded(g, tree)
    && (forall q {:trigger LinkedFromParent(g, mem, tree, q)} | q in tree && q != [] ::
          LinkedFromParent(g, mem, tree, q))
    && (forall q {:trigger EntriesFollowed(g, mem, tree, q)} | q in tree && |q| < g.D ::
          EntriesFollowed(g, mem, tree, q))
    && Distinct(tree)
  }

  ghost predicate IsLeaf(g: Shape, tree: Tree, q: Path) {
    NoChildBefore(tree, q, g.P)
  }

  ghost predicate NoChildBefore(tree: Tree, q: Path, n: nat) {
    forall i :: 0 <= i < n ==> q + [i] !in tree
  }

  ghost predicate IsEmptyTable(g: Shape, tree: Tree, q: Path) {
    q in tree && |q| < g.D && IsLeaf(g, tree, q)
  }

  lemma EntryIffChild(g: Shape, mem: Memory, tree: Tree, q: Path, i: nat)
    requires IsTree(g, mem, tree) && q in tree && |q| < g.D && i < g.P
    ensures if q + [i] in tree then mem[tree[q]][i] == tree[q + [i]] != 0 else mem[tree[q]][i] == 0
  {
    var r := q + [i];
    assert EntriesFollowed(g, mem, tree, q);
    if r in tree {
      assert Parent(r) == q && Last(r) == i;
      assert LinkedFromParent(g, mem, tree, r);
    }
  }

  lemma {:induction false} PrefixClosed(g: Shape, mem: Memory, tree: Tree, q: Path, k: nat)
    requires IsTree(g, mem, tree) && q in tree && k <= |q|
    ensures q[..k] in tree
    decreases |q|
  {
    if k == |q| {
      assert q[..k] == q;
    } else {
      assert LinkedFromParent(g, mem, tree, q);
      PrefixClosed(g, mem, tree, Parent(q), k);
      assert Parent(q)[..k] == q[..k];
    }
  }

  lemma ChildOf(q: Path, i: nat)
    ensures Parent(q + [i]) == q && Last(q + [i]) == i
  {
  }

  // ----- how the tree changes -----

  /** Frames that are not tables of the tree, free frames and data pages alike, may be refilled. */
  lemma Refill(g: Shape, mem: Memory, mem': Memory, tree: Tree)
    requires IsTree(g, mem, tree) && Sized(g, mem')
    requires forall q | q in tree && |q| < g.D :: mem'[tree[q]] == mem[tree[q]]
    ensures IsTree(g, mem', tree)
  {
    forall q | q in tree && q != []
      ensures LinkedFromParent(g, mem', tree, q)
    {
      assert LinkedFromParent(g, mem, tree, q);
    }
    forall q | q in tree && |q| < g.D
      ensures EntriesFollowed(g, mem', tree, q)
    {
      assert EntriesFollowed(g, mem, tree, q);
    }
  }

  ghost predicate CanLink(g: Shape, mem: Memory, tree: Tree, w: Path, i: nat, f: Word) {
    && IsTree(g, mem, tree)
    && w in tree && |w| < g.D && i < g.P && w + [i] !in tree
    && 0 < f < g.N && f !in tree.Values
    && (|w| + 1 < g.D ==> forall j :: 0 <= j < g.P ==> mem[f][j] == 0)
  }

  /** Linking a free frame, all zero if it is to be a table, below a table of the tree. */
  lemma Link(g: Shape, mem: Memory, tree: Tree, w: Path, i: nat, f: Word)
    requires CanLink(g, mem, tree, w, i, f)
    ensures IsTree(g, SetEntry(mem, tree[w], i, f), tree[w + [i] := f])
  {
    var mem', tree' := SetEntry(mem, tree[w], i, f), tree[w + [i] := f];
    LinkDistinct(tree, w + [i], f);
    LinkBounded(g, tree, w, i, f);
    forall q {:trigger LinkedFromParent(g, mem', tree', q)} | q in tree' && q != []
      ensures LinkedFromParent(g, mem', tree', q)
    {
      LinkKeeps(g, mem, tree, w, i, f, q);
    }
    forall q {:trigger EntriesFollowed(g, mem', tree', q)} | q in tree' && |q| < g.D
      ensures EntriesFollowed(g, mem', tree', q)
    {
      LinkEntries(g, mem, tree, w, i, f, q);
    }
  }

  lemma LinkDistinct(tree: Tree, x: Path, f: nat)
    requires Distinct(tree) && f !in tree.Values
    ensures Distinct(tree[x := f])
  {
    assert forall q | q in tree :: tree[q] in tree.Values;
  }

  lemma LinkBounded(g: Shape, tree: Tree, w: Path, i: nat, f: nat)
    requires Bounded(g, tree) && w in tree && |w| < g.D && i < g.P && f < g.N
    ensures Bounded(g, tree[w + [i] := f])
  {
  }

  lemma LinkKeeps(g: Shape, mem: Memory, tree: Tree, w: Path, i: nat, f: Word, q: Path)
    requires CanLink(g, mem, tree, w, i, f)
    requires q in tree[w + [i] := f] && q != []
    ensures LinkedFromParent(g, SetEntry(mem, tree[w], i, f), tree[w + [i] := f], q)
  {
    ChildOf(w, i);
    if q in tree {
      assert LinkedFromParent(g, mem, tree, q);
      assert q == Parent(q) + [Last(q)];
    }
  }

  lemma LinkEntries(g: Shape, mem: Memory, tree: Tree, w: Path, i: nat, f: Word, q: Path)
    requires CanLink(g, mem, tree, w, i, f)
    requires q in tree[w + [i] := f] && |q| < g.D
    ensures EntriesFollowed(g, SetEntry(mem, tree[w], i, f), tree[w + [i] := f], q)
  {
    assert tree[w] in tree.Values;
    if q in tree {
      assert EntriesFollowed(g, mem, tree, q);
    }
  }

  /** Clearing the parent entry of a leaf takes the leaf, and nothing else, out of the tree. */
  lemma Unlink(g: Shape, mem: Memory, tree: Tree, q: Path)
    requires IsTree(g, mem, tree) && q in tree && q != [] && IsLeaf(g, tree, q)
    ensures LinkedFromParent(g, mem, tree, q)
    ensures IsTree(g, SetEntry(mem, tree[Parent(q)], Last(q), 0), tree - {q})
    ensures tree[q] !in (tree - {q}).Values
  {
    assert LinkedFromParent(g, mem, tree, q);
    var mem', tree' := SetEntry(mem, tree[Parent(q)], Last(q), 0), tree - {q};
    assert q == Parent(q) + [Last(q)];
    forall r | r in tree' && r != []
      ensures LinkedFromParent(g, mem', tree', r)
    {
      assert LinkedFromParent(g, mem, tree, r);
      assert r == Parent(r) + [Last(r)];
    }
    forall r | r in tree' && |r| < g.D
      ensures EntriesFollowed(g, mem', tree', r)
    {
      UnlinkEntries(g, mem, tree, q, r);
    }
  }

  lemma UnlinkEntries(g: Shape, mem: Memory, tree: Tree, q: Path, r: Path)
    requires IsTree(g, mem, tree) && q in tree && q != [] && LinkedFromParent(g, mem, tree, q)
    requires r in tree && r != q && |r| < g.D
    ensures EntriesFollowed(g, SetEntry(mem, tree[Parent(q)], Last(q), 0), tree - {q}, r)
  {
    var mem' := SetEntry(mem, tree[Parent(q)], Last(q), 0);
    forall i | 0 <= i < g.P && mem'[tree[r]][i] != 0
      ensures r + [i] in tree - {q}
    {
      assert EntriesFollowed(g, mem, tree, r);
      ChildOf(r, i);
    }
  }
}
