/** The flat memory that RAM, the page-table tree in it and the swap file stand for, and the steps of
    a page fault that leave it unchanged. */
module FlatView {
  import opened Wrappers
  import opened MemoryConstants
  import opened Addressing
  import opened PageTable

  datatype State = State(mem: Memory, swap: Swap, tree: Tree)

  /** Resident and swapped pages are disjoint, and all are pages of the virtual memory. */
  ghost predicate PagesOk(g: Shape, s: State) {
    && (forall q | q in s.tree && |q| == g.D :: Value(g.P, q) < g.pages && Value(g.P, q) !in s.swap)
    && (forall k | k in s.swap :: k < g.pages && |s.swap[k]| == g.P)
  }

  ghost predicate Good(g: Shape, s: State) {
    g.Valid() && IsTree(g, s.mem, s.tree) && PagesOk(g, s)
  }

  ghost predicate Resident(g: Shape, s: State, page: nat)
    requires g.Valid()
  {
    PathOf(g, page) in s.tree
  }

  /** The contents of a page that has been touched, whether it is in RAM or in swap. */
  ghost function PageContents(g: Shape, s: State, page: nat): Option<seq<Word>>
    requires Good(g, s)
  {
    if Resident(g, s, page) then Some(s.mem[s.tree[PathOf(g, page)]])
    else if page in s.swap then Some(s.swap[page])
    else None
  }

  /** The touched pages of the flat memory with their contents. */
  ghost function View(g: Shape, s: State): map<nat, seq<Word>>
    requires Good(g, s)
  {
    map page | 0 <= page < g.pages && PageContents(g, s, page).Some? :: PageContents(g, s, page).value
  }

  /** Each touched page is in RAM or in swap, and never in both. */
  lemma ResidentOrSwapped(g: Shape, s: State, page: nat)
    requires Good(g, s) && page < g.pages
    ensures page in View(g, s) <==> Resident(g, s, page) || page in s.swap
    ensures !(Resident(g, s, page) && page in s.swap)
  {
    PathRoundTrip(g, page);
    assert page in View(g, s) <==> PageContents(g, s, page).Some?;
  }

  /** Different resident pages lie in different frames, none of them a table's. */
  lemma ResidentPagesHaveOwnFrames(g: Shape, s: State, page: nat, other: nat, q: Path)
    requires Good(g, s) && page < g.pages && other < g.pages && page != other
    requires Resident(g, s, page) && Resident(g, s, other) && q in s.tree && |q| < g.D
    ensures s.tree[PathOf(g, page)] != s.tree[PathOf(g, other)] && s.tree[PathOf(g, page)] != s.tree[q]
  {
    DifferentPagesDifferentPaths(g, page, other);
    DataFramesAreNotTables(g, s, PathOf(g, page), q);
  }

  lemma SameView(g: Shape, s: State, s': State)
    requires Good(g, s) && Good(g, s')
    requires forall page {:trigger PageContents(g, s', page)} | 0 <= page < g.pages ::
               PageContents(g, s', page) == PageContents(g, s, page)
    ensures View(g, s') == View(g, s)
  {
  }

  lemma OnePageChanged(g: Shape, s: State, s': State, page: nat, content: seq<Word>)
    requires Good(g, s) && Good(g, s') && page < g.pages
    requires PageContents(g, s', page) == Some(content)
    requires forall k {:trigger PageContents(g, s', k)} | 0 <= k < g.pages && k != page ::
               PageContents(g, s', k) == PageContents(g, s, k)
    ensures View(g, s') == View(g, s)[page := content]
  {
    var v, v' := View(g, s)[page := content], View(g, s');
    forall k: nat
      ensures k in v' <==> k in v
      ensures k in v' ==> v'[k] == v[k]
    {
      if k < g.pages && k != page {
        assert PageContents(g, s', k) == PageContents(g, s, k);
      }
    }
    assert v'.Keys == v.Keys;
  }

  ghost function Unlinked(g: Shape, s: State, q: Path): State
    requires IsTree(g, s.mem, s.tree) && q in s.tree && q != []
  {
    assert LinkedFromParent(g, s.mem, s.tree, q);
    State(SetEntry(s.mem, s.tree[Parent(q)], Last(q), 0), s.swap, s.tree - {q})
  }

  ghost function Linked(g: Shape, s: State, w: Path, i: nat, f: Word): State
    requires CanLink(g, s.mem, s.tree, w, i, f)
  {
    State(SetEntry(s.mem, s.tree[w], i, f), s.swap, s.tree[w + [i] := f])
  }

  lemma DataFramesAreNotTables(g: Shape, s: State, d: Path, q: Path)
    requires IsTree(g, s.mem, s.tree) && d in s.tree && q in s.tree && |d| == g.D && |q| < g.D
    ensures s.tree[d] != s.tree[q]
  {
  }

  /** Recycling an empty table: its parent entry is cleared, no page is affected. */
  lemma Recycle(g: Shape, s: State, q: Path)
    requires Good(g, s) && q != [] && IsEmptyTable(g, s.tree, q)
    ensures Good(g, Unlinked(g, s, q)) && View(g, Unlinked(g, s, q)) == View(g, s)
  {
    var s' := Unlinked(g, s, q);
    Unlink(g, s.mem, s.tree, q);
    assert PagesOk(g, s');
    assert LinkedFromParent(g, s.mem, s.tree, q);
    forall page {:trigger PageContents(g, s', page)} | 0 <= page < g.pages
      ensures PageContents(g, s', page) == PageContents(g, s, page)
    {
      if Resident(g, s, page) { DataFramesAreNotTables(g, s, PathOf(g, page), Parent(q)); }
    }
    SameView(g, s, s');
  }

  ghost function Evicted(g: Shape, s: State, d: Path): State
    requires IsTree(g, s.mem, s.tree) && d in s.tree && |d| == g.D > 0
  {
    Unlinked(g, s, d).(swap := s.swap[Value(g.P, d) := s.mem[s.tree[d]]])
  }

  /** Evicting a data page: it moves from RAM to swap with its contents. */
  lemma Evict(g: Shape, s: State, d: Path)
    requires Good(g, s) && d in s.tree && |d| == g.D
    ensures Value(g.P, d) < g.pages && Value(g.P, d) !in s.swap
    ensures Good(g, Evicted(g, s, d)) && View(g, Evicted(g, s, d)) == View(g, s)
  {
    EvictedIsGood(g, s, d);
    var s' := Evicted(g, s, d);
    forall page {:trigger PageContents(g, s', page)} | 0 <= page < g.pages
      ensures PageContents(g, s', page) == PageContents(g, s, page)
    {
      EvictedContents(g, s, d, page);
    }
    SameView(g, s, s');
  }

  lemma EvictedIsGood(g: Shape, s: State, d: Path)
    requires Good(g, s) && d in s.tree && |d| == g.D
    ensures Good(g, Evicted(g, s, d))
  {
    assert IsLeaf(g, s.tree, d) by {
      forall i | 0 <= i < g.P
        ensures d + [i] !in s.tree
      {
        assert |d + [i]| > g.D;
      }
    }
    Unlink(g, s.mem, s.tree, d);
    var s' := Evicted(g, s, d);
    forall q | q in s'.tree && |q| == g.D
      ensures Value(g.P, q) < g.pages && Value(g.P, q) !in s'.swap
    {
      ValueRoundTrip(g, d);
      ValueRoundTrip(g, q);
    }
  }

  /** Clearing the victim's parent entry does not touch the victim's own frame. */
  lemma VictimKeepsContents(g: Shape, s: State, d: Path)
    requires Good(g, s) && d in s.tree && |d| == g.D
    ensures Sized(g, Unlinked(g, s, d).mem)
    ensures Unlinked(g, s, d).mem[s.tree[d]] == s.mem[s.tree[d]]
  {
    assert LinkedFromParent(g, s.mem, s.tree, d);
    DataFramesAreNotTables(g, s, d, Parent(d));
  }

  lemma EvictedContents(g: Shape, s: State, d: Path, page: nat)
    requires Good(g, s) && d in s.tree && |d| == g.D && page < g.pages
    requires Good(g, Evicted(g, s, d))
    ensures PageContents(g, Evicted(g, s, d), page) == PageContents(g, s, page)
  {
    PathRoundTrip(g, page);
    ValueRoundTrip(g, d);
    assert LinkedFromParent(g, s.mem, s.tree, d);
    if Resident(g, s, page) { DataFramesAreNotTables(g, s, PathOf(g, page), Parent(d)); }
  }

  /** Overwriting a frame outside the tree. */
  lemma FillFree(g: Shape, s: State, f: nat, content: seq<Word>)
    requires Good(g, s) && f < g.N && f !in s.tree.Values && |content| == g.P
    ensures Good(g, s.(mem := s.mem[f := content])) && View(g, s.(mem := s.mem[f := content])) == View(g, s)
  {
    var s' := s.(mem := s.mem[f := content]);
    assert forall q | q in s.tree :: s.tree[q] in s.tree.Values;
    Refill(g, s.mem, s'.mem, s.tree);
    SameView(g, s, s');
  }

  /** Linking a zeroed frame as a table. */
  lemma LinkTable(g: Shape, s: State, w: Path, i: nat, f: Word)
    requires Good(g, s) && CanLink(g, s.mem, s.tree, w, i, f) && |w| + 1 < g.D
    ensures Good(g, Linked(g, s, w, i, f)) && View(g, Linked(g, s, w, i, f)) == View(g, s)
  {
    var s' := Linked(g, s, w, i, f);
    Link(g, s.mem, s.tree, w, i, f);
    assert PagesOk(g, s');
    forall page {:trigger PageContents(g, s', page)} | 0 <= page < g.pages
      ensures PageContents(g, s', page) == PageContents(g, s, page)
    {
      if Resident(g, s, page) { DataFramesAreNotTables(g, s, PathOf(g, page), w); }
    }
    SameView(g, s, s');
  }

  ghost function LinkedPage(g: Shape, s: State, page: nat, w: Path, i: nat, f: Word): State
    requires CanLink(g, s.mem, s.tree, w, i, f)
  {
    Linked(g, s, w, i, f).(swap := s.swap - {page})
  }

  /** Linking the frame of page, after the swapped contents have been moved into it: pages other than
      page keep their contents, and page has whatever the frame holds. */
  lemma LinkData(g: Shape, s: State, page: nat, w: Path, i: nat, f: Word)
    requires Good(g, s) && CanLink(g, s.mem, s.tree, w, i, f) && page < g.pages && w + [i] == PathOf(g, page)
    ensures Good(g, LinkedPage(g, s, page, w, i, f))
    ensures View(g, LinkedPage(g, s, page, w, i, f)) == View(g, s)[page := s.mem[f]]
  {
    LinkedPageIsGood(g, s, page, w, i, f);
    var s' := LinkedPage(g, s, page, w, i, f);
    assert s.tree[w] in s.tree.Values;
    forall k {:trigger PageContents(g, s', k)} | 0 <= k < g.pages && k != page
      ensures PageContents(g, s', k) == PageContents(g, s, k)
    {
      LinkedPageContents(g, s, page, w, i, f, k);
    }
    OnePageChanged(g, s, s', page, s.mem[f]);
  }

  lemma LinkedPageIsGood(g: Shape, s: State, page: nat, w: Path, i: nat, f: Word)
    requires Good(g, s) && CanLink(g, s.mem, s.tree, w, i, f) && page < g.pages && w + [i] == PathOf(g, page)
    ensures Good(g, LinkedPage(g, s, page, w, i, f))
  {
    Link(g, s.mem, s.tree, w, i, f);
    PathRoundTrip(g, page);
  }

  lemma LinkedPageContents(g: Shape, s: State, page: nat, w: Path, i: nat, f: Word, k: nat)
    requires Good(g, s) && CanLink(g, s.mem, s.tree, w, i, f) && page < g.pages && w + [i] == PathOf(g, page)
    requires Good(g, LinkedPage(g, s, page, w, i, f))
    requires k < g.pages && k != page
    ensures PageContents(g, LinkedPage(g, s, page, w, i, f), k) == PageContents(g, s, k)
  {
    PathRoundTrip(g, page);
    PathRoundTrip(g, k);
    if Resident(g, s, k) { DataFramesAreNotTables(g, s, PathOf(g, k), w); }
  }

  /** Writing into a resident page changes that page of the view and nothing else. */
  lemma WriteResident(g: Shape, s: State, page: nat, content: seq<Word>)
    requires Good(g, s) && page < g.pages && Resident(g, s, page) && |content| == g.P
    ensures var s' := s.(mem := s.mem[s.tree[PathOf(g, page)] := content]);
            Good(g, s') && View(g, s') == View(g, s)[page := content]
  {
    var s' := s.(mem := s.mem[s.tree[PathOf(g, page)] := content]);
    Refill(g, s.mem, s'.mem, s.tree);
    forall k {:trigger PageContents(g, s', k)} | 0 <= k < g.pages && k != page
      ensures PageContents(g, s', k) == PageContents(g, s, k)
    {
      DifferentPagesDifferentPaths(g, k, page);
    }
    OnePageChanged(g, s, s', page, content);
  }

  lemma DifferentPagesDifferentPaths(g: Shape, k: nat, page: nat)
    requires g.Valid() && k < g.pages && page < g.pages && k != page
    ensures PathOf(g, k) != PathOf(g, page)
  {
    PathRoundTrip(g, k);
    PathRoundTrip(g, page);
  }

  /** The state VMinitialize sets up: an empty root table and whatever is in swap. */
  lemma EmptyRoot(g: Shape, mem: Memory, swap: Swap)
    requires g.Valid() && Sized(g, mem) && (forall i :: 0 <= i < g.P ==> mem[0][i] == 0)
    requires forall k | k in swap :: k < g.pages && |swap[k]| == g.P
    ensures Good(g, State(mem, swap, map[[] := 0])) && View(g, State(mem, swap, map[[] := 0])) == swap
  {
    var s := State(mem, swap, map[[] := 0]);
    assert EntriesFollowed(g, mem, s.tree, []);
    assert Good(g, s);
    forall page: nat | page < g.pages
      ensures PageContents(g, s, page) == if page in swap then Some(swap[page]) else None
    {
      assert PathOf(g, page) != [];
    }
  }

  lemma ResidentInView(g: Shape, s: State, page: nat)
    requires Good(g, s) && page < g.pages && Resident(g, s, page)
    ensures page in View(g, s) && View(g, s)[page] == s.mem[s.tree[PathOf(g, page)]]
  {
    assert PageContents(g, s, page).Some?;
  }
}
