/** Ex04/VirtualMemory.cpp: the procedures that work on RAM and swap in place. */
module VirtualMemory {
  import opened Wrappers
  import opened Arithmetic
  import opened Bits
  import opened MemoryConstants
  import opened Addressing
  import opened PageTable
  import opened PhysicalMemory
  import opened FrameSearch
  import opened FlatView
  import opened PageFault
  import opened PageWalk

  class VirtualMemory {
    const c: Config
    const pm: PhysicalMemory
    ghost var tree: Tree

    ghost predicate Wired()
      reads this, pm
    {
      c.Valid() && ShapeOf(c).Valid() && pm.c == c && pm.Valid()
    }

    ghost function Now(): State
      reads this, pm
    {
      State(pm.RAM, pm.swapFile, tree)
    }

    /** Between calls: the tree invariant, frames 0..m in use, at most one empty table. There must be more
        frames than levels, or some walk would find no frame to use. */
    ghost predicate Valid()
      reads this, pm
    {
      Wired() && c.Roomy() && AtRest(ShapeOf(c), Now())
    }

    constructor (pm: PhysicalMemory)
      requires pm.Valid()
      ensures this.pm == pm && c == pm.c && Wired()
    {
      this.c := pm.c;
      this.pm := pm;
      tree := map[];
      ShapeIsValid(pm.c);
    }

    method InitializeFrame(frame: nat)
      requires Wired() && frame < c.N()
      modifies pm`RAM
      ensures Wired()
      ensures pm.RAM == old(pm.RAM)[frame := seq(c.P(), i => 0)]
    {
      var i := 0;
      while i < c.P()
        invariant 0 <= i <= c.P() && Wired()
        invariant forall f | 0 <= f < c.N() && f != frame :: pm.RAM[f] == old(pm.RAM[f])
        invariant forall j | 0 <= j < i :: pm.RAM[frame][j] == 0
      {
        FrameAddress(c, frame, i);
        pm.PMWrite(Join(frame, c.P(), i), 0);
        i := i + 1;
      }
      assert pm.RAM[frame] == seq(c.P(), i => 0);
    }

    method UpdateDistance(pageIn: nat, currPath: nat, frame: nat, illegalAdd: nat, prevAdd: nat, s0: Search,
                          ghost st: State, ghost path: Path, ghost w: Path)
      returns (s: Search)
      requires c.Valid() && Visiting(ShapeOf(c), st, path, w, frame, c.D(), illegalAdd, pageIn, currPath)
      requires prevAdd == EntryAddress(ShapeOf(c), st.tree, path)
      requires !s0.emptyFrame && frame <= s0.maxFrame
      ensures s in Outcomes(ShapeOf(c), st.tree, illegalAdd, pageIn, {path}, s0)
    {
      s := s0;
      DataFramesAreNotTables(ShapeOf(c), st, path, w);
      if frame != illegalAdd {
        var currDist := CyclicalDistance(c.NumPages(), pageIn, currPath);
        if currDist > s.maxDist {
          s := s.(maxDist := currDist, resultFrame := frame, prevFrameAdd := prevAdd, resultPath := currPath);
          assert BestOf(ShapeOf(c), pageIn, {path}, path) && VictimAt(ShapeOf(c), st.tree, pageIn, s, path);
        }
      }
      assert path in {path};
    }

    /** The depth-first search of find_frame, from the frame at path; s0 and s are the values of the
        out-parameters before and after. */
    method SearchFrame(frame: nat, depth: nat, illegalAdd: nat, prevAdd: nat, pageIn: nat, currPath: nat,
                       s0: Search, ghost st: State, ghost path: Path, ghost w: Path)
      returns (s: Search)
      requires Wired() && Now() == st && frame <= s0.maxFrame
      requires Visiting(ShapeOf(c), st, path, w, frame, depth, illegalAdd, pageIn, currPath)
      requires prevAdd == EntryAddress(ShapeOf(c), st.tree, path)
      ensures s in Outcomes(ShapeOf(c), st.tree, illegalAdd, pageIn, Subtree(st.tree, path), s0)
      ensures s0.maxFrame <= s.maxFrame
      decreases c.D() - depth, 2
    {
      ghost var g, t := ShapeOf(c), st.tree;
      if s0.emptyFrame || frame >= c.N() {
        SearchedNothing(g, t, illegalAdd, pageIn, Subtree(t, path), s0);
        return s0;
      }
      if depth == c.D() {
        DataHasNoSubtrees(g, t, path);
        s := UpdateDistance(pageIn, currPath, frame, illegalAdd, prevAdd, s0, st, path, w);
        return;
      }
      var isEmpty;
      isEmpty, s := SearchEntries(frame, depth, illegalAdd, pageIn, currPath, s0, st, path, w);
      ghost var looped := s;
      if isEmpty && frame != illegalAdd {
        s := s.(emptyFrame := true, prevFrameAdd := prevAdd, resultFrame := frame);
      }
      ScanEnd(g, t, illegalAdd, pageIn, path, s0, looped, s, isEmpty);
    }

    /** The loop of search_frame over the entries of a table. */
    method SearchEntries(frame: nat, depth: nat, illegalAdd: nat, pageIn: nat, currPath: nat,
                         s0: Search, ghost st: State, ghost path: Path, ghost w: Path)
      returns (isEmpty: bool, s: Search)
      requires Wired() && Now() == st && frame <= s0.maxFrame && depth < c.D()
      requires Visiting(ShapeOf(c), st, path, w, frame, depth, illegalAdd, pageIn, currPath)
      ensures s in Scans(ShapeOf(c), st.tree, illegalAdd, pageIn, path, c.P(), s0, isEmpty)
      decreases c.D() - depth, 1
    {
      hide Outcomes, Scans;
      ghost var g, t := ShapeOf(c), st.tree;
      isEmpty := true;
      var i := 0;
      s := s0;
      ScanStart(g, t, illegalAdd, pageIn, path, s);
      while i < c.P()
        invariant 0 <= i <= c.P()
        invariant Wired() && Now() == st
        invariant s in Scans(g, t, illegalAdd, pageIn, path, i, s0, isEmpty)
      {
        ghost var before, wasEmpty, at := s, isEmpty, i;
        ScanRaises(g, t, illegalAdd, pageIn, path, i, s0, s, isEmpty);
        var rowVal;
        rowVal, s := VisitEntry(frame, i, depth, illegalAdd, pageIn, currPath, s, st, path, w);
        if rowVal != 0 {
          isEmpty := false;
        }
        i := i + 1;
        ScanNext(g, t, illegalAdd, pageIn, path, at, rowVal, s0, before, s, wasEmpty, i, isEmpty);
      }
    }

    /** The body of that loop for the entry at index i. */
    method VisitEntry(frame: nat, i: nat, depth: nat, illegalAdd: nat, pageIn: nat, currPath: nat,
                      s0: Search, ghost st: State, ghost path: Path, ghost w: Path)
      returns (rowVal: Word, s: Search)
      requires Wired() && Now() == st && frame <= s0.maxFrame
      requires Visiting(ShapeOf(c), st, path, w, frame, depth, illegalAdd, pageIn, currPath)
      requires depth < c.D() && i < c.P()
      ensures rowVal != 0 <==> path + [i] in st.tree
      ensures s in Outcomes(ShapeOf(c), st.tree, illegalAdd, pageIn, Subtree(st.tree, path + [i]), s0)
      ensures s.maxFrame >= s0.maxFrame && (rowVal == 0 ==> s == s0)
      decreases c.D() - depth, 0
    {
      ghost var g, t := ShapeOf(c), st.tree;
      s := s0;
      var currAdd, childPath := Join(frame, c.P(), i), Or(ShiftLeft(currPath, c.offsetWidth), i);
      OrIsJoin(currPath, c.offsetWidth, i);
      FrameAddress(c, frame, i);
      rowVal := pm.PMRead(currAdd);
      ReadEntry(g, st.mem, t, path, frame, currPath, i, rowVal, currAdd, childPath);
      if rowVal != 0 {
        if rowVal > s.maxFrame {
          s := s.(maxFrame := rowVal);
        }
        ghost var m := s.maxFrame;
        s := SearchFrame(rowVal, depth + 1, illegalAdd, currAdd, pageIn, childPath, s, st, path + [i], w);
        RecordChild(g, t, illegalAdd, pageIn, path + [i], s0, s, m);
      } else {
        SearchedNothing(g, t, illegalAdd, pageIn, Subtree(t, path + [i]), s);
      }
    }

    /** find_frame: w is the path of the table that faulted, which must not be taken. */
    method FindFrame(illegalAdd: nat, pageIn: nat, ghost w: Path) returns (resultFrame: nat)
      requires Wired() && Faulting(ShapeOf(c), Now(), w, pageIn) && illegalAdd == tree[w]
      requires CanChoose(ShapeOf(c), Now(), w)
      modifies this`tree, pm`swapFile, pm`RAM
      ensures Wired()
      ensures FrameChosen(ShapeOf(c), old(Now()), w, pageIn, Now(), resultFrame)
    {
      hide Outcomes, Searched, HasReclaimable, BestOf, Reclaimable, View;
      ghost var g, st := ShapeOf(c), Now();
      var s := Search(false, 0, 0, 0, 0, 0);
      s := SearchFrame(0, 0, illegalAdd, 0, pageIn, 0, s, st, [], w);
      assert Subtree(tree, []) == tree.Keys;
      ghost var q := SearchResult(g, st, w, pageIn, s);
      resultFrame := s.resultFrame;
      if s.emptyFrame {
        ClearEntry(s.prevFrameAdd, q);
      } else if s.maxFrame + 1 < c.N() {
        resultFrame := s.maxFrame + 1;
      } else {
        Evict(g, st, q);
        ClearEntry(s.prevFrameAdd, q);
        VictimKeepsContents(g, st, q);
        pm.PMEvict(resultFrame, s.resultPath);
        EvictionIsChoice(g, st, w, pageIn, s, q, Now());
      }
    }

    /** The PMwrite(prev_frame_add, 0) of find_frame, which takes the node at q out of the tree. */
    method ClearEntry(prevFrameAdd: nat, ghost q: Path)
      requires Wired() && Good(ShapeOf(c), Now()) && q in tree && q != []
      requires prevFrameAdd == EntryAddress(ShapeOf(c), tree, q)
      modifies this`tree, pm`RAM
      ensures Wired() && Now() == Unlinked(ShapeOf(c), old(Now()), q)
    {
      assert LinkedFromParent(ShapeOf(c), pm.RAM, tree, q);
      FrameAddress(c, tree[Parent(q)], Last(q));
      pm.PMWrite(prevFrameAdd, 0);
      tree := tree - {q};
    }

    /** The branch of translate_address taken when the entry at index i of the table at w is empty. */
    method Fault(lastFrame: nat, nextFrame: nat, level: nat, pageIn: nat, ghost w: Path, ghost i: nat)
      returns (currFrame: Word)
      requires Wired() && Faulting(ShapeOf(c), Now(), w, pageIn) && CanChoose(ShapeOf(c), Now(), w)
      requires |w| == level && lastFrame == tree[w] && i == PathOf(ShapeOf(c), pageIn)[level]
      requires i < c.P() && nextFrame == Join(lastFrame, c.P(), i)
      modifies this`tree, pm`swapFile, pm`RAM
      ensures Wired() && Walking(ShapeOf(c), Now(), w + [i]) && currFrame == tree[w + [i]]
      ensures level + 1 < c.D() ==> View(ShapeOf(c), Now()) == View(ShapeOf(c), old(Now()))
      ensures level + 1 < c.D() ==> TableFault(ShapeOf(c), old(Now()), w, pageIn, Now())
      ensures level + 1 == c.D() ==> Touched(View(ShapeOf(c), old(Now())), View(ShapeOf(c), Now()), pageIn)
      ensures level + 1 == c.D() ==> DataFault(ShapeOf(c), old(Now()), w, pageIn, Now())
    {
      hide Installable, CanInstall, FrameChosen;
      ghost var g, st := ShapeOf(c), Now();
      var f := FindFrame(lastFrame, pageIn, w);
      ChosenFrameFacts(g, st, w, pageIn, Now(), f);
      currFrame := f;
      if level + 1 < c.D() {
        InstallTable(currFrame, lastFrame, nextFrame, w, i);
      } else {
        InstallPage(currFrame, lastFrame, nextFrame, pageIn, w, i);
      }
    }

    /** The frame is cleared and linked as the next table of the walk. */
    method InstallTable(frame: Word, lastFrame: nat, nextFrame: nat, ghost w: Path, ghost i: nat)
      requires Wired() && 0 < frame && (frame as nat) in Installable(ShapeOf(c), Now(), w, i) && |w| + 1 < c.D()
      requires lastFrame == tree[w] && nextFrame == Join(lastFrame, c.P(), i)
      modifies this`tree, pm`RAM
      ensures Wired() && Walking(ShapeOf(c), Now(), w + [i]) && tree == old(tree)[w + [i] := frame as nat]
      ensures View(ShapeOf(c), Now()) == View(ShapeOf(c), old(Now()))
      ensures TableInstalled(ShapeOf(c), old(Now()), w, i, frame, Now())
    {
      ghost var g, st := ShapeOf(c), Now();
      FrameAddress(c, lastFrame, i);
      InitializeFrame(frame);
      ghost var st1 := Now();
      FillFree(g, st, frame, st1.mem[frame]);
      TableLinked(g, st1, w, i, frame);
      pm.PMWrite(nextFrame, frame);
      tree := tree[w + [i] := frame];
      assert Now() == Linked(g, st1, w, i, frame);
    }

    /** The page is restored into the frame, which is linked as the data page of the walk. */
    method InstallPage(frame: Word, lastFrame: nat, nextFrame: nat, pageIn: nat, ghost w: Path, ghost i: nat)
      requires Wired() && 0 < frame && (frame as nat) in Installable(ShapeOf(c), Now(), w, i) && |w| + 1 == c.D()
      requires lastFrame == tree[w] && nextFrame == Join(lastFrame, c.P(), i)
      requires pageIn < c.NumPages() && w + [i] == PathOf(ShapeOf(c), pageIn)
      modifies this`tree, pm`swapFile, pm`RAM
      ensures Wired() && Walking(ShapeOf(c), Now(), w + [i]) && tree == old(tree)[w + [i] := frame as nat]
      ensures Touched(View(ShapeOf(c), old(Now())), View(ShapeOf(c), Now()), pageIn)
      ensures PageInstalled(ShapeOf(c), old(Now()), w, i, frame, pageIn, Now())
    {
      hide View, Touched;
      ghost var g, st := ShapeOf(c), Now();
      FrameAddress(c, lastFrame, i);
      pm.PMRestore(frame, pageIn);
      ghost var content := pm.RAM[frame];
      ghost var st1 := st.(mem := st.mem[frame := content]);
      assert pm.RAM == st1.mem;
      PageLinked(g, st, w, i, frame, pageIn, content);
      RestoreTouches(g, st, pageIn, content, View(g, st)[pageIn := content]);
      pm.PMWrite(nextFrame, frame);
      tree := tree[w + [i] := frame];
      assert Now() == LinkedPage(g, st1, pageIn, w, i, frame);
    }

    method TranslateAddress(va: nat) returns (currFrame: nat)
      requires Valid() && va < c.VirtualSize()
      modifies this`tree, pm`swapFile, pm`RAM
      ensures Valid()
      ensures Touched(View(ShapeOf(c), old(Now())), View(ShapeOf(c), Now()), Quot(va, c.P()))
      ensures Resident(ShapeOf(c), Now(), Quot(va, c.P()))
      ensures currFrame < c.N() && currFrame == tree[PathOfAddress(c, va)]
      ensures currFrame == WalkFrame(c, pm.RAM, va, c.D())
      ensures Resident(ShapeOf(c), old(Now()), Quot(va, c.P())) ==> Now() == old(Now())
      ensures Walked(ShapeOf(c), old(Now()), Quot(va, c.P()), Now())
    {
      ghost var g, st, q := ShapeOf(c), Now(), PathOfAddress(c, va);
      var pageIn := ShiftRight(va, c.offsetWidth);
      ShiftRightIsQuot(va, c.offsetWidth);
      PageOfAddress(c, va);
      assert Progress(g, st, st, pageIn, 0);
      var lastFrame := 0;
      currFrame := 0;
      var level := 0;
      ghost var states := [st];
      while level < c.D()
        invariant |states| == level + 1 && states[0] == st && states[level] == Now() && WalkSteps(g, pageIn, states)
        invariant 0 <= level <= c.D() && Wired() && Progress(g, st, Now(), pageIn, level)
        invariant q[..level] in tree && lastFrame == tree[q[..level]] && currFrame == lastFrame
      {
        ghost var s := Now();
        FollowEntry(g, st, s, pageIn, level);
        var currBit := CalculateBits(c, va, level);
        CalculateBitsIsDigit(c, va, level);
        FrameAddress(c, lastFrame, currBit);
        var nextFrame := Join(lastFrame, c.P(), currBit);
        var entry := pm.PMRead(nextFrame);
        if entry == 0 {
          entry := Fault(lastFrame, nextFrame, level, pageIn, q[..level], currBit);
          AfterFault(g, st, s, Now(), pageIn, level);
          FaultIsStep(g, s, pageIn, level, Now());
        } else {
          EntryIsFollowed(g, s, pageIn, level);
        }
        WalkGoesOn(g, pageIn, states, Now());
        states := states + [Now()];
        currFrame := entry;
        lastFrame := entry;
        level := level + 1;
      }
      WalkDone(c, st, Now(), va);
    }

    method VMInitialize()
      requires Wired()
      requires forall k | k in pm.swapFile :: k < c.NumPages() && |pm.swapFile[k]| == c.P()
      modifies this`tree, pm`RAM
      ensures Wired() && tree == map[[] := 0] && pm.RAM == old(pm.RAM)[0 := seq(c.P(), i => 0)]
      ensures AtRest(ShapeOf(c), Now()) && View(ShapeOf(c), Now()) == pm.swapFile
    {
      InitializeFrame(0);
      tree := map[[] := 0];
      RootCleared(ShapeOf(c), pm.RAM, pm.swapFile);
    }

    /** None stands for the return value 0. */
    method VMRead(va: nat) returns (value: Option<Word>)
      requires Valid()
      modifies this`tree, pm`swapFile, pm`RAM
      ensures Valid()
      ensures value.Some? <==> va < c.VirtualSize()
      ensures value.None? ==> Now() == old(Now())
      ensures value.Some? ==>
                Read(View(ShapeOf(c), old(Now())), View(ShapeOf(c), Now()),
                     Quot(va, c.P()), Rem(va, c.P()), value.value)
      ensures value.Some? ==> Walked(ShapeOf(c), old(Now()), Quot(va, c.P()), Now())
    {
      hide IsTree, PagesOk, View, Read, Touched, Quot, Rem, Join;
      if va > c.VirtualSize() - 1 {
        return None;
      }
      var offset := FindOffset(c, va);
      FindOffsetIsLowBits(c, va);
      PageOfAddress(c, va);
      var frame := TranslateAddress(va);
      FrameAddress(c, frame, offset);
      ReadWord(ShapeOf(c), View(ShapeOf(c), old(Now())), Now(), Quot(va, c.P()), frame, offset);
      var word := pm.PMRead(Join(frame, c.P(), offset));
      value := Some(word);
    }

    method VMWrite(va: nat, value: Word) returns (success: bool)
      requires Valid()
      modifies this`tree, pm`swapFile, pm`RAM
      ensures Valid()
      ensures success <==> va < c.VirtualSize()
      ensures !success ==> Now() == old(Now())
      ensures success ==>
                Written(View(ShapeOf(c), old(Now())), View(ShapeOf(c), Now()), Quot(va, c.P()), Rem(va, c.P()), value)
      ensures success ==> exists st {:trigger Walked(ShapeOf(c), old(Now()), Quot(va, c.P()), st)} ::
                            Walked(ShapeOf(c), old(Now()), Quot(va, c.P()), st) &&
                            WordWritten(ShapeOf(c), st, Quot(va, c.P()), Rem(va, c.P()), value, Now())
    {
      hide IsTree, PagesOk, View, Written, Touched, Quot, Rem, Join;
      if va > c.VirtualSize() - 1 {
        return false;
      }
      var offset := FindOffset(c, va);
      FindOffsetIsLowBits(c, va);
      PageOfAddress(c, va);
      ghost var g, page := ShapeOf(c), Quot(va, c.P());
      var frame := TranslateAddress(va);
      ghost var st := Now();
      FrameAddress(c, frame, offset);
      WriteWord(g, View(g, old(Now())), st, page, frame, offset, value);
      pm.PMWrite(Join(frame, c.P(), offset), value);
      assert Now() == WithWord(st, frame, offset, value);
      success := true;
    }
  }
}
