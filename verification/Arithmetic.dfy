/** Unsigned division and powers, kept apart so that nonlinear reasoning stays in small lemmas. */
module Arithmetic {

  lemma MulMono(a: nat, b: nat, k: nat)
    requires a <= b
    ensures a * k <= b * k
  {
  }

  lemma MulNegative(q: int, d: nat)
    requires q <= -1
    ensures q * d <= -(d as int)
  {
  }

  /** Unsigned division x / d, by repeated subtraction; x >> k is Quot(x, Pow2(k)). */
  function Quot(x: nat, d: nat): (r: nat)
    requires d > 0
  {
    if x < d then 0 else 1 + Quot(x - d, d)
  }

  /** Unsigned remainder x % d; x & ((1 << k) - 1) is Rem(x, Pow2(k)). */
  function Rem(x: nat, d: nat): (r: nat)
    requires d > 0
    ensures r < d
  {
    if x < d then x else Rem(x - d, d)
  }

  lemma {:induction false} QuotRem(x: nat, d: nat)
    requires d > 0
    ensures x == Quot(x, d) * d + Rem(x, d)
  {
    if x >= d {
      QuotRem(x - d, d);
      assert (1 + Quot(x - d, d)) * d == d + Quot(x - d, d) * d;
    }
  }

  lemma {:induction false} QuotRemUnique(x: nat, d: nat, hi: nat, lo: nat)
    requires lo < d && x == hi * d + lo
    ensures Quot(x, d) == hi && Rem(x, d) == lo
  {
    if hi > 0 {
      assert hi * d == (hi - 1) * d + d;
      QuotRemUnique(x - d, d, hi - 1, lo);
    }
  }

  lemma QuotIsDivision(x: nat, d: nat)
    requires d > 0
    ensures Quot(x, d) == x / d && Rem(x, d) == x % d
  {
    QuotRem(x, d);
    var e: int := x / d - Quot(x, d);
    assert e * d == (x / d) * d - Quot(x, d) * d;
    assert e * d == Rem(x, d) - x % d;
    if e >= 1 { MulMono(1, e, d); assert false; }
    if e <= -1 { MulNegative(e, d); assert false; }
  }

  lemma QuotQuot(x: nat, a: nat, b: nat)
    requires a > 0 && b > 0
    ensures a * b > 0 && Quot(x, a * b) == Quot(Quot(x, a), b)
  {
    var y := Quot(x, a);
    JoinSplit(x, a);
    JoinSplit(y, b);
    QuotQuotOfDigits(Quot(y, b), Rem(y, b), Rem(x, a), a, b);
  }

  lemma {:induction false} QuotQuotOfDigits(hi: nat, mid: nat, lo: nat, a: nat, b: nat)
    requires mid < b && lo < a
    ensures a * b > 0 && Quot(Join(Join(hi, b, mid), a, lo), a * b) == hi
  {
    JoinIsProduct(b, a, 0);
    if hi == 0 {
      JoinOrder(mid, b, a, lo, 0);
    } else {
      QuotQuotOfDigits(hi - 1, mid, lo, a, b);
      JoinAdd(b, Join(hi - 1, b, mid), a, lo);
    }
  }

  lemma {:induction false} JoinAdd(m: nat, n: nat, d: nat, lo: nat)
    ensures Join(m + n, d, lo) == Join(m, d, 0) + Join(n, d, lo)
  {
    if m > 0 {
      JoinAdd(m - 1, n, d, lo);
    }
  }

  lemma QuotLess(x: nat, a: nat, b: nat)
    requires a > 0 && x < a * b
    ensures Quot(x, a) < b
  {
    QuotRem(x, a);
    var q := Quot(x, a);
    if q >= b {
      MulMono(b, q, a);
      assert false;
    }
  }

  /** hi * d + lo, by repeated addition: the inverse of Quot and Rem; (hi << k) | lo with lo below
      1 << k is Join(hi, Pow2(k), lo). */
  function Join(hi: nat, d: nat, lo: nat): (r: nat)
    ensures r >= lo
  {
    if hi == 0 then lo else d + Join(hi - 1, d, lo)
  }

  lemma {:induction false} JoinIsProduct(hi: nat, d: nat, lo: nat)
    ensures Join(hi, d, lo) == hi * d + lo
  {
    if hi > 0 {
      JoinIsProduct(hi - 1, d, lo);
      assert hi * d == (hi - 1) * d + d;
    }
  }

  lemma {:induction false} SplitJoin(hi: nat, d: nat, lo: nat)
    requires lo < d
    ensures Quot(Join(hi, d, lo), d) == hi && Rem(Join(hi, d, lo), d) == lo
  {
    if hi > 0 {
      SplitJoin(hi - 1, d, lo);
    }
  }

  lemma {:induction false} JoinSplit(x: nat, d: nat)
    requires d > 0
    ensures Join(Quot(x, d), d, Rem(x, d)) == x
  {
    if x >= d {
      JoinSplit(x - d, d);
    }
  }

  /** The leading digit decides. */
  lemma {:induction false} JoinOrder(a: nat, b: nat, d: nat, x: nat, y: nat)
    requires a < b && x < d
    ensures Join(a, d, x) < Join(b, d, y)
  {
    if a > 0 {
      JoinOrder(a - 1, b - 1, d, x, y);
    }
  }

  /** Comparing two-digit numbers by their leading digits. */
  lemma LeadingDigitDecides(a: nat, b: nat, d: nat, x: nat, y: nat)
    requires a < b && x < d
    ensures a * d + x < b * d + y
  {
    MulMono(a + 1, b, d);
    assert (a + 1) * d == a * d + d;
  }

  /** Shifting left by k out of a word of p * k and back right keeps the remainder by p. */
  lemma ShiftLeftRight(x: nat, p: nat, k: nat)
    requires p > 0 && k > 0
    ensures p * k > 0 && Quot(Rem(x * k, p * k), k) == Rem(x, p)
  {
    var hi, lo := Quot(x, p), Rem(x, p);
    QuotRem(x, p);
    assert (hi * p + lo) * k == hi * (p * k) + lo * k;
    LeadingDigitDecides(lo, p, k, 0, 0);
    QuotRemUnique(x * k, p * k, hi, lo * k);
    QuotRemUnique(lo * k, k, lo, 0);
  }

  /** 1 << n */
  function Pow2(n: nat): (r: nat)
    ensures r > 0
  {
    if n == 0 then 1 else 2 * Pow2(n - 1)
  }

  function Pow(b: nat, n: nat): (r: nat)
    ensures b > 0 ==> r > 0
  {
    if n == 0 then 1 else Pow(b, n - 1) * b
  }

  lemma {:induction false} Pow2Add(a: nat, b: nat)
    ensures Pow2(a + b) == Pow2(a) * Pow2(b)
  {
    if a > 0 {
      Pow2Add(a - 1, b);
      assert Pow2(a + b) == 2 * Pow2(a - 1 + b);
      assert 2 * (Pow2(a - 1) * Pow2(b)) == (2 * Pow2(a - 1)) * Pow2(b);
    }
  }

  lemma {:induction false} PowOfPow2(o: nat, n: nat)
    ensures Pow(Pow2(o), n) == Pow2(n * o)
  {
    if n > 0 {
      PowOfPow2(o, n - 1);
      assert n * o == (n - 1) * o + o;
      Pow2Add((n - 1) * o, o);
    }
  }

  lemma {:induction false} Pow2Increases(a: nat, b: nat)
    requires a <= b
    ensures Pow2(a) <= Pow2(b)
  {
    if a < b {
      Pow2Increases(a, b - 1);
    }
  }
}
