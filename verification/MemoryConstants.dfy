/** The widths of Ex04/MemoryConstants.h, kept symbolic: the shipped header is one instance. */
module MemoryConstants {
  import opened Arithmetic

  /** word_t: a 32-bit signed integer. */
  type Word = x: int | -0x8000_0000 <= x < 0x8000_0000

  /** OFFSET_WIDTH, PHYSICAL_ADDRESS_WIDTH and VIRTUAL_ADDRESS_WIDTH with the macros derived from them. */
  datatype Config = Config(offsetWidth: nat, physicalWidth: nat, virtualWidth: nat) {

    // PAGE_SIZE
    function P(): (r: nat)
      ensures r > 0
    {
      Pow2(offsetWidth)
    }

    // RAM_SIZE
    function RamSize(): nat {
      Pow2(physicalWidth)
    }

    // NUM_FRAMES
    function N(): nat {
      Quot(RamSize(), P())
    }

    // VIRTUAL_MEMORY_SIZE
    function VirtualSize(): nat {
      Pow2(virtualWidth)
    }

    // NUM_PAGES
    function NumPages(): nat {
      Quot(VirtualSize(), P())
    }

    // TABLES_DEPTH: the quotient (V - O) / O rounded up
    function D(): nat
      requires 0 < offsetWidth < virtualWidth
    {
      Quot(virtualWidth - offsetWidth + offsetWidth - 1, offsetWidth)
    }

    /** A walk needs the root, D - 1 tables and a data page resident together. */
    predicate Roomy()
      requires 0 < offsetWidth < virtualWidth
    {
      D() < N()
    }

    /** What the code takes for granted about its widths: frame and page numbers travel in a Word. */
    predicate Valid() {
      && 0 < offsetWidth < virtualWidth < 64
      && 0 < N() <= 0x8000_0000
      && NumPages() <= 0x8000_0000
    }
  }

  /** What the paging algorithm depends on: entries per table, levels, frames and virtual pages. */
  datatype Shape = Shape(P: nat, D: nat, N: nat, pages: nat) {
    predicate Valid() {
      0 < P && 0 < D && 0 < N && pages <= Pow(P, D)
    }
  }

  function ShapeOf(c: Config): (g: Shape)
    requires c.Valid()
  {
    Shape(c.P(), c.D(), c.N(), c.NumPages())
  }

  lemma ShapeIsValid(c: Config)
    requires c.Valid()
    ensures ShapeOf(c).Valid()
    ensures c.NumPages() * c.P() == c.VirtualSize()
  {
    var o, v := c.offsetWidth, c.virtualWidth;
    PowOfPow2(o, c.D());
    Pow2Add(v - o, o);
    QuotRemUnique(c.VirtualSize(), c.P(), Pow2(v - o), 0);
    QuotRem(v - 1, o);
    assert v - 1 >= o;
    Pow2Increases(v - o, c.D() * o);
  }

  /** TABLES_DEPTH is the least number of levels of OFFSET_WIDTH bits that hold the bits above the offset. */
  lemma DepthIsLeast(c: Config)
    requires c.Valid()
    ensures (c.D() - 1) * c.offsetWidth < c.virtualWidth - c.offsetWidth <= c.D() * c.offsetWidth
  {
    QuotRem(c.virtualWidth - 1, c.offsetWidth);
  }

  const SHIPPED := Config(4, 10, 20)

  lemma ShippedIsValid()
    ensures SHIPPED.Valid() && SHIPPED.Roomy()
    ensures SHIPPED.P() == 16 && SHIPPED.D() == 4 && SHIPPED.N() == 64 && SHIPPED.NumPages() == 65536
  {
    assert Pow2(5) == 32;
    Pow2Add(5, 5);
    Pow2Add(10, 10);
    QuotRemUnique(1024, 16, 64, 0);
    QuotRemUnique(0x10_0000, 16, 65536, 0);
    QuotRemUnique(19, 4, 4, 3);
  }
}
