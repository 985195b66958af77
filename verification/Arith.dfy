/** The few facts of multiplication and division the models need. */
module Arith {
  /** The number of values of a 32-bit and of a 64-bit word. */
  const DWORDS: nat := 0x1_0000_0000
  const QWORDS: nat := 0x1_0000_0000_0000_0000

  lemma MulGap(d: nat, a: int, b: int)
    requires a < b
    ensures d * a + d <= d * b
    decreases b - a
  {
    if a + 1 < b {
      MulGap(d, a, b - 1);
    }
    assert d * b == d * (b - 1) + d;
  }

  lemma DivModUnique(x: nat, d: nat, k: nat, y: nat)
    requires d >= 1 && x == d * k + y && y < d
    ensures x % d == y && x / d == k
  {
    var k', y' := x / d, x % d;
    assert x == d * k' + y';
    if k' < k {
      MulGap(d, k', k);
    } else if k < k' {
      MulGap(d, k, k');
    }
  }

  /** Taking a remainder digit by digit. */
  lemma ModSplit(b: nat, x: nat, p: nat)
    requires b >= 1 && p >= 1
    ensures b * p >= 1
    ensures x % (b * p) == x % b + b * ((x / b) % p)
  {
    var q := x / b;
    TwoDigits(b, p, x, q, x % b, q / p, q % p);
  }

  lemma TwoDigits(b: nat, p: nat, x: nat, q: nat, r: nat, k: nat, m: nat)
    requires q == p * k + m && m < p && x == b * q + r && r < b
    ensures b * p >= 1 && x % (b * p) == r + b * m
  {
    MulGap(b, m, p);
    Regroup(b, p, k, m);
    var d := b * p;
    assert x == d * k + (b * m + r);
    DivModUnique(x, d, k, b * m + r);
  }

  lemma Regroup(b: nat, p: nat, k: nat, m: nat)
    ensures b * (p * k + m) == (b * p) * k + b * m
  {
    var t := p * k;
    assert b * (t + m) == b * t + b * m;
    assert b * (p * k) == (b * p) * k;
  }

  lemma SmallMod(x: nat, m: nat)
    requires x < m
    ensures x % m == x
  {
  }

  /** Adding multiples of the modulus changes nothing. */
  lemma ModShift(x: int, m: int, k: int)
    requires m >= 1
    ensures (x + m * k) % m == x % m
    decreases if k < 0 then -k else k
  {
    if k > 0 {
      ModShift(x, m, k - 1);
      assert x + m * k == (x + m * (k - 1)) + m;
      ModPlus(x + m * (k - 1), m);
    } else if k < 0 {
      ModShift(x, m, k + 1);
      assert x + m * (k + 1) == (x + m * k) + m;
      ModPlus(x + m * k, m);
    }
  }

  lemma ModPlus(x: int, m: int)
    requires m >= 1
    ensures (x + m) % m == x % m
  {
    var k, y := x / m, x % m;
    assert x == m * k + y;
    assert x + m == m * (k + 1) + y;
    IntDivModUnique(x + m, m, k + 1, y);
  }

  lemma IntDivModUnique(x: int, d: int, k: int, y: int)
    requires d >= 1 && x == d * k + y && 0 <= y < d
    ensures x % d == y
  {
    var k', y' := x / d, x % d;
    assert x == d * k' + y';
    if k' < k {
      MulGap(d, k', k);
    } else if k < k' {
      MulGap(d, k, k');
    }
  }

  /** x reduced to an unsigned machine word with w values. */
  function Wrap(x: int, w: nat): (r: nat)
    requires w >= 1
    ensures r < w
  {
    x % w
  }

  /** Reducing a summand first does not change the reduced sum. */
  lemma WrapAdd(x: int, y: int, w: nat)
    requires w >= 1
    ensures Wrap(Wrap(x, w) + y, w) == Wrap(x + y, w)
  {
    var k := x / w;
    assert x == w * k + x % w;
    ModShift(x % w + y, w, k);
    assert x + y == (x % w + y) + w * k;
  }

  lemma WrapSmall(x: nat, w: nat)
    requires x < w
    ensures Wrap(x, w) == x
  {
  }
}
