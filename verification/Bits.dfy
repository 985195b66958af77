/** Bitwise AND on naturals and the masks built from powers of two. */
module Bits {
  import opened Arith

  function Pow2(k: nat): (p: nat)
    ensures p >= 1
  {
    if k == 0 then 1 else 2 * Pow2(k - 1)
  }

  function And(x: nat, y: nat): nat
    decreases x
  {
    if x == 0 || y == 0 then 0
    else (if x % 2 == 1 && y % 2 == 1 then 1 else 0) + 2 * And(x / 2, y / 2)
  }

  lemma {:induction false} AndBound(x: nat, y: nat)
    ensures And(x, y) <= x
    decreases x
  {
    if x != 0 && y != 0 {
      AndBound(x / 2, y / 2);
    }
  }

  lemma {:induction false} Pow2Monotone(i: nat, j: nat)
    requires i <= j
    ensures Pow2(i) <= Pow2(j)
    ensures i < j ==> 2 * Pow2(i) <= Pow2(j)
    decreases j - i
  {
    if i < j {
      Pow2Monotone(i, j - 1);
    }
  }

  lemma Pow2Facts()
    ensures Pow2(5) == 32 && Pow2(26) == 0x400_0000 && Pow2(31) == 0x8000_0000 && Pow2(32) == 0x1_0000_0000
    ensures Pow2(64) == 0x1_0000_0000_0000_0000
  {
    assert Pow2(5) == 32;
    assert Pow2(10) == 32 * Pow2(5);
    assert Pow2(15) == 32 * Pow2(10);
    assert Pow2(20) == 32 * Pow2(15);
    assert Pow2(25) == 32 * Pow2(20);
    assert Pow2(30) == 32 * Pow2(25);
    assert Pow2(32) == 4 * Pow2(30);
    assert Pow2(37) == 32 * Pow2(32);
    assert Pow2(42) == 32 * Pow2(37);
    assert Pow2(47) == 32 * Pow2(42);
    assert Pow2(52) == 32 * Pow2(47);
    assert Pow2(57) == 32 * Pow2(52);
    assert Pow2(62) == 32 * Pow2(57);
  }

  lemma AndDigit(x: nat, y: nat)
    ensures And(x, y) == (if x % 2 == 1 && y % 2 == 1 then 1 else 0) + 2 * And(x / 2, y / 2)
  {
  }

  /** Masking with 2^k - 1 takes the remainder. */
  lemma {:induction false} AndLowMask(x: nat, k: nat)
    ensures And(x, Pow2(k) - 1) == x % Pow2(k)
    decreases k
  {
    if k > 0 {
      var p := Pow2(k - 1);
      AndDigit(x, 2 * p - 1);
      assert (2 * p - 1) / 2 == p - 1;
      AndLowMask(x / 2, k - 1);
      ModSplit(2, x, p);
    }
  }

  lemma AndEven(x: nat, t: nat)
    ensures And(x, 2 * t) == 2 * And(x / 2, t)
  {
    var y := 2 * t;
    assert y % 2 == 0 && y / 2 == t;
    AndDigit(x, y);
  }

  lemma HighPart(x: nat, p: nat, k: nat)
    requires k == 2 * p && p >= 1
    ensures 2 * (x / 2 - (x / 2) % p) == x - x % k
  {
    ModSplit(2, x, p);
  }

  lemma HighMaskStep(x: nat, p: nat, q: nat, pk: nat, qw: nat)
    requires 1 <= p <= q && pk == 2 * p && qw == 2 * q && And(x / 2, q - p) == x / 2 - (x / 2) % p
    ensures And(x, qw - pk) == x - x % pk
  {
    AndEven(x, q - p);
    assert 2 * (q - p) == qw - pk;
    HighPart(x, p, pk);
  }

  lemma HighMaskBase(x: nat, w: nat)
    requires x < Pow2(w)
    ensures And(x, Pow2(w) - 1) == x - x % 1
  {
    AndLowMask(x, w);
    SmallMod(x, Pow2(w));
  }

  /** Masking a w-bit value with the complement of 2^k - 1 rounds down to a multiple of 2^k. */
  lemma {:induction false} AndHighMask(x: nat, k: nat, w: nat)
    requires k <= w && x < Pow2(w)
    ensures Pow2(k) <= Pow2(w)
    ensures And(x, Pow2(w) - Pow2(k)) == x - x % Pow2(k)
    decreases k
  {
    hide And, Pow2;
    Pow2Monotone(k, w);
    Pow2Step(k);
    if k == 0 {
      HighMaskBase(x, w);
    } else {
      Pow2Step(w);
      AndHighMask(x / 2, k - 1, w - 1);
      HighMaskStep(x, Pow2(k - 1), Pow2(w - 1), Pow2(k), Pow2(w));
    }
  }

  lemma Pow2Step(k: nat)
    ensures Pow2(k) == if k == 0 then 1 else 2 * Pow2(k - 1)
  {
  }

  ghost predicate IsPow2(x: nat) {
    exists k: nat :: x == Pow2(k)
  }

  /** x & (x - 1) is zero exactly for powers of two. */
  lemma {:induction false} PowerOfTwoTest(x: nat)
    requires x > 0
    ensures And(x, x - 1) == 0 <==> IsPow2(x)
    decreases x
  {
    if x == 1 {
      assert x == Pow2(0);
    } else if x % 2 == 0 {
      PowerOfTwoTest(x / 2);
      assert (x - 1) / 2 == x / 2 - 1;
      if IsPow2(x / 2) {
        var k: nat :| x / 2 == Pow2(k);
        assert x == Pow2(k + 1);
      }
      if IsPow2(x) {
        var k: nat :| x == Pow2(k);
        assert k > 0 && x / 2 == Pow2(k - 1);
      }
    } else {
      assert (x - 1) / 2 == x / 2;
      AndSelf(x / 2);
      if IsPow2(x) {
        var k: nat :| x == Pow2(k);
        Pow2Even(k);
        assert false;
      }
    }
  }

  lemma Pow2Even(k: nat)
    ensures Pow2(k) == 1 || Pow2(k) % 2 == 0
  {
  }

  lemma {:induction false} AndSelf(x: nat)
    ensures And(x, x) == x
  {
    if x > 0 {
      AndSelf(x / 2);
    }
  }
}
