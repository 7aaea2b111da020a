/** The bit operations of Ex04 on unsigned numbers, bit by bit, and the arithmetic they stand for. */
module Bits {
  import opened Arithmetic

  // x << k
  function ShiftLeft(x: nat, k: nat): nat {
    if k == 0 then x else 2 * ShiftLeft(x, k - 1)
  }

  // x >> k
  function ShiftRight(x: nat, k: nat): nat {
    if k == 0 then x else ShiftRight(x / 2, k - 1)
  }

  // x & y
  function And(x: nat, y: nat): nat {
    if x == 0 || y == 0 then 0
    else 2 * And(x / 2, y / 2) + if x % 2 == 1 && y % 2 == 1 then 1 else 0
  }

  // x | y
  function Or(x: nat, y: nat): nat {
    if x == 0 then y else if y == 0 then x
    else 2 * Or(x / 2, y / 2) + if x % 2 == 1 || y % 2 == 1 then 1 else 0
  }

  // (1 << k) - 1
  function Mask(k: nat): nat {
    Pow2(k) - 1
  }

  lemma {:induction false} ShiftLeftIsTimes(x: nat, k: nat)
    ensures ShiftLeft(x, k) == x * Pow2(k)
  {
    if k > 0 {
      ShiftLeftIsTimes(x, k - 1);
      assert x * Pow2(k) == 2 * (x * Pow2(k - 1));
    }
  }

  /** Halving x halves both digits of x to the base 2 * p. */
  lemma HalveDigits(x: nat, p: nat)
    requires p > 0
    ensures Quot(x, 2 * p) == Quot(x / 2, p) && Rem(x, 2 * p) == 2 * Rem(x / 2, p) + x % 2
  {
    QuotRem(x / 2, p);
    var q, m := Quot(x / 2, p), Rem(x / 2, p);
    assert q * (2 * p) == 2 * (q * p);
    QuotRemUnique(x, 2 * p, q, 2 * m + x % 2);
  }

  /** x >> k is the quotient by 2^k. */
  lemma {:induction false} ShiftRightIsQuot(x: nat, k: nat)
    ensures ShiftRight(x, k) == Quot(x, Pow2(k))
  {
    if k == 0 {
      QuotRemUnique(x, 1, x, 0);
    } else {
      ShiftRightIsQuot(x / 2, k - 1);
      HalveDigits(x, Pow2(k - 1));
    }
  }

  /** x & ((1 << k) - 1) is the remainder by 2^k. */
  lemma {:induction false} MaskIsRem(x: nat, k: nat)
    ensures And(x, Mask(k)) == Rem(x, Pow2(k))
  {
    if k == 0 {
      QuotRemUnique(x, 1, x, 0);
    } else {
      MaskIsRem(x / 2, k - 1);
      HalveDigits(x, Pow2(k - 1));
      assert Mask(k) / 2 == Mask(k - 1) && Mask(k) % 2 == 1;
    }
  }

  lemma OrOfDouble(a: nat, lo: nat)
    ensures Or(2 * a, lo) == 2 * Or(a, lo / 2) + lo % 2
  {
    assert 2 * a / 2 == a && 2 * a % 2 == 0;
    assert lo == 2 * (lo / 2) + lo % 2;
  }

  /** (hi << k) | lo puts lo below hi when it has no more than k bits. */
  lemma {:induction false} OrIsJoin(hi: nat, k: nat, lo: nat)
    requires lo < Pow2(k)
    ensures Or(ShiftLeft(hi, k), lo) == Join(hi, Pow2(k), lo)
  {
    hide Or, Join;
    JoinIsProduct(hi, Pow2(k), lo);
    if k == 0 {
      OrOfNothing(hi);
    } else {
      OrIsJoin(hi, k - 1, lo / 2);
      OrOfDouble(ShiftLeft(hi, k - 1), lo);
      JoinIsProduct(hi, Pow2(k - 1), lo / 2);
      assert hi * Pow2(k) == 2 * (hi * Pow2(k - 1));
    }
  }

  lemma OrOfNothing(x: nat)
    ensures Or(x, 0) == x
  {
  }
}
