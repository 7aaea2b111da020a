/** Ex04/PhysicalMemory.cpp: RAM as an array of frames, and the swap file. The asserts of the source
    are the preconditions here. */
module PhysicalMemory {
  import opened Arithmetic
  import opened MemoryConstants
  import opened PageTable

  /** RAM holds a whole number of frames. */
  lemma RamHoldsFrames(c: Config)
    requires c.Valid()
    ensures c.N() * c.P() == c.RamSize()
  {
    var o, w := c.offsetWidth, c.physicalWidth;
    if w < o {
      Pow2Increases(w, o - 1);
      QuotRemUnique(c.RamSize(), c.P(), 0, c.RamSize());
      assert false;
    }
    Pow2Add(w - o, o);
    QuotRemUnique(c.RamSize(), c.P(), Pow2(w - o), 0);
  }

  /** Every entry of every frame has a physical address, from which frame and index are recovered. */
  lemma FrameAddress(c: Config, frame: nat, i: nat)
    requires c.Valid() && frame < c.N() && i < c.P()
    ensures Join(frame, c.P(), i) < c.RamSize()
    ensures Quot(Join(frame, c.P(), i), c.P()) == frame && Rem(Join(frame, c.P(), i), c.P()) == i
  {
    RamHoldsFrames(c);
    JoinOrder(frame, c.N(), c.P(), i, 0);
    JoinIsProduct(c.N(), c.P(), 0);
    SplitJoin(frame, c.P(), i);
  }

  lemma AddressInFrame(c: Config, pa: nat)
    requires c.Valid() && pa < c.RamSize()
    ensures Quot(pa, c.P()) < c.N()
  {
    RamHoldsFrames(c);
    assert c.N() * c.P() == c.P() * c.N();
    QuotLess(pa, c.P(), c.N());
  }

  class PhysicalMemory {
    const c: Config
    var RAM: Memory
    var swapFile: Swap

    ghost predicate Valid()
      reads this
    {
      c.Valid() && Sized(ShapeOf(c), RAM)
    }

    constructor (c: Config)
      requires c.Valid()
      ensures Valid() && this.c == c
      ensures swapFile == map[]
      ensures forall f, i :: 0 <= f < c.N() && 0 <= i < c.P() ==> RAM[f][i] == 0
    {
      this.c := c;
      RAM := seq(c.N(), f => seq(c.P(), i => 0));
      swapFile := map[];
    }

    method PMRead(pa: nat) returns (value: Word)
      requires Valid() && pa < c.RamSize()
      ensures Quot(pa, c.P()) < c.N()
      ensures value == RAM[Quot(pa, c.P())][Rem(pa, c.P())]
    {
      AddressInFrame(c, pa);
      value := RAM[Quot(pa, c.P())][Rem(pa, c.P())];
    }

    method PMWrite(pa: nat, value: Word)
      requires Valid() && pa < c.RamSize()
      modifies this`RAM
      ensures Valid() && Quot(pa, c.P()) < c.N()
      ensures RAM == SetEntry(old(RAM), Quot(pa, c.P()), Rem(pa, c.P()), value)
    {
      AddressInFrame(c, pa);
      var frame := Quot(pa, c.P());
      var page: seq<Word> := RAM[frame][Rem(pa, c.P()) := value];
      RAM := RAM[frame := page];
    }

    method PMEvict(frameIndex: nat, evictedPageIndex: nat)
      requires Valid()
      requires evictedPageIndex !in swapFile
      requires frameIndex < c.N()
      requires evictedPageIndex < c.NumPages()
      modifies this`swapFile
      ensures swapFile == old(swapFile)[evictedPageIndex := RAM[frameIndex]]
    {
      swapFile := swapFile[evictedPageIndex := RAM[frameIndex]];
    }

    /** A page that is not in swap is referenced for the first time: the frame keeps what it holds. */
    method PMRestore(frameIndex: nat, restoredPageIndex: nat)
      requires Valid()
      requires frameIndex < c.N()
      requires restoredPageIndex in swapFile ==> |swapFile[restoredPageIndex]| == c.P()
      modifies this`swapFile, this`RAM
      ensures Valid()
      ensures swapFile == old(swapFile) - {restoredPageIndex}
      ensures RAM == if restoredPageIndex in old(swapFile)
                     then old(RAM)[frameIndex := old(swapFile)[restoredPageIndex]]
                     else old(RAM)
    {
      if restoredPageIndex !in swapFile {
        return;
      }
      RAM := RAM[frameIndex := swapFile[restoredPageIndex]];
      swapFile := swapFile - {restoredPageIndex};
    }
  }
}
