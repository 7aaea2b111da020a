/** Which frames the tree occupies, which of its tables can be reclaimed, and why eviction always has
    a data page to evict. */
module FrameUse {
  import opened Sets
  import opened MemoryConstants
  import opened Addressing
  import opened PageTable

  /** The reachable frames are exactly 0 .. |tree| - 1. */
  ghost predicate Contiguous(tree: Tree) {
    forall f: nat :: f in tree.Values <==> f < |tree|
  }

  /** f is the one frame missing: it is free, and linking it makes the reachable frames contiguous. */
  ghost predicate Spare(tree: Tree, f: nat) {
    f !in tree.Values && forall v: nat :: v in tree.Values || v == f <==> v < |tree| + 1
  }

  /** At most one page table other than the one at w is empty. */
  ghost predicate AtMostOneEmpty(g: Shape, tree: Tree, w: Path) {
    forall q, r | IsEmptyTable(g, tree, q) && IsEmptyTable(g, tree, r) && q != w && r != w :: q == r
  }

  ghost predicate NoneEmpty(g: Shape, tree: Tree, w: Path) {
    forall q | IsEmptyTable(g, tree, q) :: q == w
  }

  lemma RootIsContiguous()
    ensures Contiguous(map[[] := 0])
  {
    var tree: Tree := map[[] := 0];
    assert tree.Keys == {[]} && tree[[]] == 0;
  }

  lemma MaxFrameIsLast(tree: Tree, m: nat)
    requires Contiguous(tree) && m in tree.Values
    requires forall q | q in tree :: tree[q] <= m
    ensures m == |tree| - 1
    ensures Spare(tree, m + 1)
  {
    var last: nat := |tree| - 1;
    assert last in tree.Values;
    var q :| q in tree && tree[q] == last;
  }

  lemma UnlinkMakesSpare(tree: Tree, q: Path)
    requires Contiguous(tree) && Distinct(tree) && q in tree
    ensures Spare(tree - {q}, tree[q])
  {
    var tree' := tree - {q};
    assert tree'.Keys == tree.Keys - {q};
    assert |tree'| == |tree| - 1;
    forall v | v in tree'.Values
      ensures v in tree.Values && v != tree[q]
    {
      var r :| r in tree' && tree'[r] == v;
      assert tree[r] == v;
    }
    forall v | v in tree.Values
      ensures v in tree'.Values || v == tree[q]
    {
      var r :| r in tree && tree[r] == v;
      assert r != q ==> r in tree' && tree'[r] == v;
    }
  }

  lemma LinkMakesContiguous(tree: Tree, x: Path, f: nat)
    requires Spare(tree, f) && x !in tree
    ensures Contiguous(tree[x := f])
  {
    var tree' := tree[x := f];
    assert tree'.Keys == tree.Keys + {x};
    assert |tree'| == |tree| + 1;
    forall v: nat
      ensures v in tree'.Values <==> v in tree.Values || v == f
    {
      if v in tree.Values {
        var r :| r in tree && tree[r] == v;
        assert tree'[r] == v;
      }
      assert tree'[x] == f;
    }
  }

  // ----- reclamation -----

  /** Emptying the parent of q is the only thing unlinking q can do to other tables. */
  lemma UnlinkEmpties(g: Shape, tree: Tree, q: Path, r: Path)
    requires q in tree && q != [] && IsEmptyTable(g, tree - {q}, r)
    ensures IsEmptyTable(g, tree, r) || r == Parent(q)
  {
    if r != Parent(q) {
      forall i | 0 <= i < g.P
        ensures r + [i] !in tree
      {
        ChildOf(r, i);
        assert r + [i] !in tree - {q};
      }
    }
  }

  /** Recycling the one empty table, or evicting when there is none, leaves at most one. */
  lemma UnlinkAtMostOne(g: Shape, tree: Tree, w: Path, q: Path)
    requires q in tree && q != []
    requires if IsEmptyTable(g, tree, q) then AtMostOneEmpty(g, tree, w) && q != w else NoneEmpty(g, tree, w)
    ensures AtMostOneEmpty(g, tree - {q}, w)
  {
    forall r, s | IsEmptyTable(g, tree - {q}, r) && IsEmptyTable(g, tree - {q}, s) && r != w && s != w
      ensures r == s
    {
      UnlinkEmpties(g, tree, q, r);
      UnlinkEmpties(g, tree, q, s);
    }
  }

  /** Linking below w makes w nonempty, and only the new frame may be a new empty table. */
  lemma LinkAtMostOne(g: Shape, tree: Tree, w: Path, i: nat, f: nat)
    requires AtMostOneEmpty(g, tree, w) && w in tree && i < g.P
    ensures AtMostOneEmpty(g, tree[w + [i] := f], w + [i])
  {
    var x, tree' := w + [i], tree[w + [i] := f];
    forall q, r | IsEmptyTable(g, tree', q) && IsEmptyTable(g, tree', r) && q != x && r != x
      ensures q == r
    {
      LinkEmpties(g, tree, w, i, f, q);
      LinkEmpties(g, tree, w, i, f, r);
    }
  }

  lemma LinkEmpties(g: Shape, tree: Tree, w: Path, i: nat, f: nat, r: Path)
    requires i < g.P && r != w + [i] && IsEmptyTable(g, tree[w + [i] := f], r)
    ensures IsEmptyTable(g, tree, r) && r != w
  {
    var tree' := tree[w + [i] := f];
    assert w + [i] in tree';
    forall j | 0 <= j < g.P
      ensures r + [j] !in tree
    {
      assert r + [j] !in tree';
    }
  }

  /** Walking on to an existing child changes nothing: w is not empty. */
  lemma StepAtMostOne(g: Shape, tree: Tree, w: Path, i: nat, w': Path)
    requires AtMostOneEmpty(g, tree, w) && w + [i] in tree && i < g.P
    ensures AtMostOneEmpty(g, tree, w')
  {
    assert !IsEmptyTable(g, tree, w);
  }

  // ----- the victim -----

  /** A path that leaves the walk w can be followed down to a data page, no table on it being empty. */
  lemma {:induction false} OffWalkReachesData(g: Shape, mem: Memory, tree: Tree, w: Path, q: Path) returns (d: Path)
    requires IsTree(g, mem, tree) && NoneEmpty(g, tree, w) && q in tree && !(q <= w)
    ensures d in tree && |d| == g.D
    decreases g.D - |q|
  {
    if |q| == g.D {
      d := q;
    } else {
      assert !IsEmptyTable(g, tree, q);
      var i :| 0 <= i < g.P && q + [i] in tree;
      assert q + [i] <= w ==> q <= w;
      d := OffWalkReachesData(g, mem, tree, w, q + [i]);
    }
  }

  function Prefixes(w: Path): set<Path> {
    if w == [] then {[]} else Prefixes(Parent(w)) + {w}
  }

  lemma PrefixStep(q: Path, w: Path)
    requires w != []
    ensures q <= w <==> q <= Parent(w) || q == w
  {
    assert Parent(w) <= w;
  }

  lemma {:induction false} PrefixesOf(w: Path)
    ensures |Prefixes(w)| == |w| + 1
    ensures forall q :: q in Prefixes(w) <==> q <= w
  {
    if w != [] {
      PrefixesOf(Parent(w));
      forall q
        ensures q in Prefixes(w) <==> q <= w
      {
        PrefixStep(q, w);
      }
    }
  }

  /** Every frame is in use and no table but the walk's own is empty: find_frame has to evict. */
  ghost predicate MustEvict(g: Shape, mem: Memory, tree: Tree, w: Path) {
    IsTree(g, mem, tree) && NoneEmpty(g, tree, w) && w in tree && |w| < g.D && |tree| >= g.N
  }

  ghost predicate HasVictim(g: Shape, tree: Tree) {
    exists d :: d in tree && |d| == g.D
  }

  /** With more frames than levels some data page is resident: otherwise the tree would be the walk
      itself, at most D frames long. */
  lemma VictimExists(g: Shape, mem: Memory, tree: Tree, w: Path) returns (d: Path)
    requires g.D < g.N && MustEvict(g, mem, tree, w)
    ensures d in tree && |d| == g.D
  {
    if q :| q in tree && !(q <= w) {
      d := OffWalkReachesData(g, mem, tree, w, q);
    } else {
      PrefixesOf(w);
      assert tree.Keys <= Prefixes(w);
      SubsetSize(tree.Keys, Prefixes(w));
      assert false;
    }
  }
}
