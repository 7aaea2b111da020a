/** Address arithmetic of Ex04/VirtualMemory.cpp: the pure functions at the top of the file, and
    how page numbers correspond to paths in the page-table tree. */
module Addressing {
  import opened Arithmetic
  import opened Bits
  import opened MemoryConstants

  /** A path from the root table: one table index per level. */
  type Path = seq<nat>

  function Parent(q: Path): Path
    requires q != []
  {
    q[..|q| - 1]
  }

  function Last(q: Path): nat
    requires q != []
  {
    q[|q| - 1]
  }

  /** calculate_bits: shift right by (D - level) * O, then mask; level 0 may have a narrower mask. */
  function CalculateBits(c: Config, va: nat, level: nat): nat
    requires c.Valid() && level < c.D()
  {
    var rem := Rem(c.virtualWidth, c.offsetWidth);
    var width := if level != 0 || rem == 0 then c.offsetWidth else rem;
    And(ShiftRight(va, (c.D() - level) * c.offsetWidth), Mask(width))
  }

  /** find_offset: (va << (64 - O)) >> (64 - O), where the left shift drops the bits above 64. */
  function FindOffset(c: Config, va: nat): nat
    requires c.Valid()
  {
    var dist := 64 - c.offsetWidth;
    ShiftRight(ShiftLeft(va, dist) % 0x1_0000_0000_0000_0000, dist)
  }

  /** cyclical_distance */
  function CyclicalDistance(numPages: nat, p1: nat, p2: nat): int {
    var subtraction := if p1 > p2 then p1 - p2 else p2 - p1;
    if numPages - subtraction < subtraction then numPages - subtraction else subtraction
  }

  /** The path number search_frame accumulates as it descends: (curr_path << O) | i. */
  function Value(p: nat, q: Path): nat {
    if q == [] then 0 else Join(Value(p, Parent(q)), p, Last(q))
  }

  /** The last n base-P digits of a page number, most significant first. */
  function DigitsOf(p: nat, page: nat, n: nat): (q: Path)
    requires p > 0
    ensures |q| == n
    decreases n
  {
    if n == 0 then [] else DigitsOf(p, Quot(page, p), n - 1) + [Rem(page, p)]
  }

  /** The path by which translate_address reaches a page. */
  function PathOf(g: Shape, page: nat): (q: Path)
    requires g.Valid()
    ensures |q| == g.D
  {
    DigitsOf(g.P, page, g.D)
  }

  ghost predicate IsPath(p: nat, q: Path) {
    forall i :: 0 <= i < |q| ==> q[i] < p
  }

  // ----- paths and page numbers -----

  /** The page number rebuilt during the descent determines the path taken. */
  lemma {:induction false} DigitsOfValue(p: nat, q: Path)
    requires p > 0 && IsPath(p, q)
    ensures DigitsOf(p, Value(p, q), |q|) == q
  {
    if q != [] {
      DigitsOfValue(p, Parent(q));
      SplitJoin(Value(p, Parent(q)), p, Last(q));
      assert q == Parent(q) + [Last(q)];
    }
  }

  lemma DropLastDigit(x: nat, p: nat, n: nat)
    requires n > 0 && p > 0 && x < Pow(p, n)
    ensures Quot(x, p) < Pow(p, n - 1)
  {
    var m := Pow(p, n - 1);
    assert m * p == p * m;
    QuotLess(x, p, m);
  }

  lemma {:induction false} ValueOfDigits(p: nat, page: nat, n: nat)
    requires p > 0 && page < Pow(p, n)
    decreases n
    ensures IsPath(p, DigitsOf(p, page, n))
    ensures Value(p, DigitsOf(p, page, n)) == page
  {
    if n > 0 {
      var hi, q := Quot(page, p), DigitsOf(p, page, n);
      DropLastDigit(page, p, n);
      JoinSplit(page, p);
      ValueOfDigits(p, hi, n - 1);
      assert Parent(q) == DigitsOf(p, hi, n - 1);
    }
  }

  /** Every page has a path, and its number is the value of that path. */
  lemma PathRoundTrip(g: Shape, page: nat)
    requires g.Valid() && page < g.pages
    ensures IsPath(g.P, PathOf(g, page))
    ensures Value(g.P, PathOf(g, page)) == page
  {
    ValueOfDigits(g.P, page, g.D);
  }

  /** ... and every full-depth path is the path of its value. */
  lemma ValueRoundTrip(g: Shape, q: Path)
    requires g.Valid() && IsPath(g.P, q) && |q| == g.D
    ensures PathOf(g, Value(g.P, q)) == q
  {
    DigitsOfValue(g.P, q);
  }

  /** Depth-first order is increasing page order. */
  lemma {:induction false} DepthFirstIsPageOrder(p: nat, q1: Path, q2: Path, k: nat)
    requires IsPath(p, q1) && IsPath(p, q2)
    requires k < |q1| == |q2|
    requires q1[..k] == q2[..k] && q1[k] < q2[k]
    ensures Value(p, q1) < Value(p, q2)
    decreases |q1|
  {
    if |q1| == k + 1 {
      assert Parent(q1) == q1[..k] && Parent(q2) == q2[..k];
      JoinIsProduct(Value(p, Parent(q1)), p, Last(q1));
      JoinIsProduct(Value(p, Parent(q1)), p, Last(q2));
    } else {
      assert Parent(q1)[..k] == q1[..k] && Parent(q2)[..k] == q2[..k];
      assert |Parent(q1)| == |Parent(q2)|;
      DepthFirstIsPageOrder(p, Parent(q1), Parent(q2), k);
      JoinOrder(Value(p, Parent(q1)), Value(p, Parent(q2)), p, Last(q1), Last(q2));
    }
  }

  // ----- the pure functions compute what their names say -----

  lemma {:induction false} DigitAt(p: nat, page: nat, n: nat, l: nat)
    requires p > 0 && l < n
    ensures DigitsOf(p, page, n)[l] == Rem(Quot(page, Pow(p, n - 1 - l)), p)
    decreases n
  {
    if l == n - 1 {
      QuotRemUnique(page, 1, page, 0);
    } else {
      DigitAt(p, Quot(page, p), n - 1, l);
      var m := Pow(p, n - 2 - l);
      QuotQuot(page, p, m);
      assert Pow(p, n - 1 - l) == m * p == p * m;
    }
  }

  /** The shift and the mask of calculate_bits as quotient and remainder. */
  lemma CalculateBitsIsRem(c: Config, va: nat, level: nat)
    requires c.Valid() && level < c.D()
    ensures var rem := Rem(c.virtualWidth, c.offsetWidth);
            CalculateBits(c, va, level)
            == Rem(Quot(va, Pow2((c.D() - level) * c.offsetWidth)),
                   Pow2(if level != 0 || rem == 0 then c.offsetWidth else rem))
  {
    var rem := Rem(c.virtualWidth, c.offsetWidth);
    var x := ShiftRight(va, (c.D() - level) * c.offsetWidth);
    ShiftRightIsQuot(va, (c.D() - level) * c.offsetWidth);
    MaskIsRem(x, if level != 0 || rem == 0 then c.offsetWidth else rem);
  }

  /** calculate_bits reads off the digit of the page number for its level, also where the root
      level is narrower than the others. */
  lemma CalculateBitsIsDigit(c: Config, va: nat, level: nat)
    requires c.Valid() && va < c.VirtualSize() && level < c.D()
    ensures ShapeOf(c).Valid()
    ensures CalculateBits(c, va, level) == PathOf(ShapeOf(c), Quot(va, c.P()))[level]
    ensures CalculateBits(c, va, level) < c.P()
  {
    hide CalculateBits;
    ShapeIsValid(c);
    var o, d, p := c.offsetWidth, c.D(), c.P();
    var m := Pow(p, d - 1 - level);
    PowOfPow2(o, d - level);
    CalculateBitsIsRem(c, va, level);
    DigitAt(c.P(), Quot(va, p), d, level);
    assert Pow(p, d - level) == m * p == p * m;
    QuotQuot(va, p, m);
    if level == 0 && Rem(c.virtualWidth, o) != 0 {
      RootIsNarrower(c, va);
    }
  }

  lemma RootIsNarrower(c: Config, va: nat)
    requires c.Valid() && va < c.VirtualSize()
    requires Rem(c.virtualWidth, c.offsetWidth) != 0
    ensures var x := Quot(va, Pow2(c.D() * c.offsetWidth));
            Rem(x, Pow2(Rem(c.virtualWidth, c.offsetWidth))) == Rem(x, c.P())
  {
    var o, v := c.offsetWidth, c.virtualWidth;
    var rem := Rem(v, o);
    QuotRem(v, o);
    QuotRemUnique(v - 1, o, Quot(v, o), rem - 1);
    var x := Quot(va, Pow2(c.D() * o));
    Pow2Add(c.D() * o, rem);
    QuotLess(va, Pow2(c.D() * o), Pow2(rem));
    Pow2Increases(rem, o);
    QuotRemUnique(x, Pow2(rem), 0, x);
    QuotRemUnique(x, c.P(), 0, x);
  }

  lemma TotalBits()
    ensures Pow2(64) == 0x1_0000_0000_0000_0000
  {
    assert Pow2(8) == 256;
    Pow2Add(8, 8);
    Pow2Add(16, 16);
    Pow2Add(32, 32);
  }

  /** The double shift of find_offset keeps exactly the low offset bits. */
  lemma FindOffsetIsLowBits(c: Config, va: nat)
    requires c.Valid()
    ensures FindOffset(c, va) == Rem(va, c.P())
  {
    Pow2Add(c.offsetWidth, 64 - c.offsetWidth);
    TotalBits();
    ShiftLeftIsTimes(va, 64 - c.offsetWidth);
    QuotIsDivision(ShiftLeft(va, 64 - c.offsetWidth), Pow2(64));
    ShiftRightIsQuot(ShiftLeft(va, 64 - c.offsetWidth) % Pow2(64), 64 - c.offsetWidth);
    ShiftLeftRight(va, c.P(), Pow2(64 - c.offsetWidth));
  }

  /** cyclical_distance is the least number of steps between two pages around the cycle of pages. */
  lemma CyclicalDistanceIsLeast(n: nat, p1: nat, p2: nat, steps: nat)
    requires p1 < n && p2 < n
    ensures var d := CyclicalDistance(n, p1, p2);
            && 0 <= d
            && (Rem(p1 + d, n) == p2 || Rem(p2 + d, n) == p1)
            && (Rem(p1 + steps, n) == p2 || Rem(p2 + steps, n) == p1 ==> d <= steps)
            && (d == 0 <==> p1 == p2)
            && d == CyclicalDistance(n, p2, p1)
  {
    var d := CyclicalDistance(n, p1, p2);
    RemOnce(p1 + d, n);
    RemOnce(p2 + d, n);
    if steps < n {
      RemOnce(p1 + steps, n);
      RemOnce(p2 + steps, n);
    }
  }

  lemma RemOnce(x: nat, n: nat)
    requires 0 < n && x < 2 * n
    ensures Rem(x, n) == if x < n then x else x - n
  {
    if x < n { QuotRemUnique(x, n, 0, x); } else { QuotRemUnique(x, n, 1, x - n); }
  }
}
