/** The arithmetic of the hash table: rounding of bucket counts, hashing and key masking. */
module Hashing {
  import opened Arith
  import opened Bits
  import opened Bytes

  type Key = k: nat | k < QWORDS

  const SEED: nat := 314159
  const COEFFICIENT: nat := 37
  const MAX_BUCKETS: nat := 0x400_0000

  // ------------------------------------------------------------------ bucket counts

  function BitLength(v: nat): nat { if v == 0 then 0 else 1 + BitLength(v / 2) }

  lemma {:induction false} BitLengthBounds(v: nat)
    requires v > 0
    ensures Pow2(BitLength(v)) <= 2 * v && v < Pow2(BitLength(v))
  {
    if v > 1 {
      BitLengthBounds(v / 2);
    }
  }

  method GetHighestBitIndex(value: nat) returns (index: nat)
    ensures value > 0 ==> Pow2(index) <= 2 * value && value < Pow2(index)
    ensures value == 0 ==> index == 0
  {
    index := 0;
    var v := value;
    while v > 0
      invariant index + BitLength(v) == BitLength(value)
    {
      index := index + 1;
      v := v / 2;
    }
    if value > 0 {
      BitLengthBounds(value);
    }
  }

  function IsPowerOfTwo(x: nat): (r: bool)
    ensures r <==> IsPow2(x)
  {
    if x > 0 then
      PowerOfTwoTest(x);
      And(x, x - 1) == 0
    else
      false
  }

  /** r is the least power of two that is not below v. */
  ghost predicate LeastPower(v: nat, r: nat) {
    IsPow2(r) && v <= r && forall k: nat :: v <= Pow2(k) ==> r <= Pow2(k)
  }

  /** Without rounding up to the next power: the least power of two from the value up; 0 stays 0. */
  method RoundToPowerOfTwo(value: nat, roundUpToNext: bool) returns (r: nat)
    requires value <= 0x8000_0000
    requires roundUpToNext ==> value < 0x4000_0000 || IsPow2(value)
    ensures value == 0 ==> r == 0
    ensures value > 0 && (!roundUpToNext || IsPow2(value)) ==> LeastPower(value, r)
    ensures value > 0 && roundUpToNext && !IsPow2(value) ==> r % 2 == 0 && LeastPower(value, r / 2)
    ensures value > 0 ==> r <= 0x8000_0000
  {
    if value == 0 {
      return value;
    }
    if IsPowerOfTwo(value) {
      return value;
    }
    var idx := GetHighestBitIndex(value);
    ShiftInRange(value, idx);
    hide LeastPower, IsPow2;
    if roundUpToNext {
      idx := idx + 1;
    }
    r := Pow2(idx);
  }

  lemma ShiftInRange(value: nat, idx: nat)
    requires 0 < value <= 0x8000_0000 && Pow2(idx) <= 2 * value && value < Pow2(idx) && !IsPow2(value)
    ensures LeastPower(value, Pow2(idx)) && Pow2(idx) <= 0x8000_0000
    ensures value < 0x4000_0000 ==> 2 * Pow2(idx) <= 0x8000_0000
  {
    LeastAbove(value, idx);
    Pow2Facts();
    assert 0x4000_0000 == Pow2(30);
    assert value <= Pow2(31);
  }

  lemma LeastAbove(v: nat, idx: nat)
    requires Pow2(idx) <= 2 * v && v < Pow2(idx) && !IsPow2(v)
    ensures LeastPower(v, Pow2(idx))
  {
    forall k: nat | v <= Pow2(k) ensures Pow2(idx) <= Pow2(k) {
      assert v != Pow2(k);
      if k < idx {
        Pow2Monotone(k, idx);
      } else {
        Pow2Monotone(idx, k);
      }
    }
  }

  // ------------------------------------------------------------------ hashing

  /** The polynomial in the coefficient whose digits are the bytes, without overflow. */
  function Poly(bytes: seq<Byte>, coefficient: nat, seed: nat): nat {
    if bytes == [] then seed
    else bytes[|bytes| - 1] + coefficient * Poly(bytes[..|bytes| - 1], coefficient, seed)
  }

  method HashBytesGeneric(bytes: seq<Byte>, kMagicNum: Key, coefficient: nat) returns (hashCode: Key)
    ensures hashCode == Wrap(Poly(bytes, coefficient, kMagicNum), QWORDS)
  {
    hide Wrap;
    hashCode := kMagicNum;
    WrapSmall(kMagicNum, QWORDS);
    assert bytes[..|bytes|] == bytes;
    for i := 0 to |bytes|
      invariant hashCode == Wrap(Poly(bytes[..i], coefficient, kMagicNum), QWORDS)
    {
      assert bytes[..i + 1][..i] == bytes[..i];
      WrapStep(bytes[i], coefficient, Poly(bytes[..i], coefficient, kMagicNum));
      hashCode := Wrap(bytes[i] + coefficient * hashCode, QWORDS);
    }
  }

  lemma WrapStep(b: nat, c: nat, x: nat)
    ensures Wrap(b + c * Wrap(x, QWORDS), QWORDS) == Wrap(b + c * x, QWORDS)
  {
    WrapDivisor(b, c, x, QWORDS);
  }

  lemma WrapDivisor(b: nat, c: nat, x: nat, m: nat)
    requires m >= 1
    ensures Wrap(b + c * Wrap(x, m), m) == Wrap(b + c * x, m)
  {
    var q, r := x / m, x % m;
    assert x == m * q + r;
    Distribute(c, m, q, r);
    ModShift(b + c * r, m, c * q);
  }

  lemma Distribute(c: nat, m: nat, q: nat, r: nat)
    ensures c * (m * q + r) == m * (c * q) + c * r
  {
    var t := m * q;
    assert c * (t + r) == c * t + c * r;
    assert c * (m * q) == m * (c * q);
  }

  /** The hash of a pointer-sized value: the polynomial over its eight bytes, modulo 2^64. */
  ghost function Hash(key: Key): (h: Key) {
    Wrap(Poly(LE(key, 8), COEFFICIENT, SEED), QWORDS)
  }

  method HashUlongPtr(value: Key) returns (h: Key)
    ensures h == Hash(value)
  {
    h := HashBytesGeneric(LE(value, 8), SEED, COEFFICIENT);
  }

  /** The bucket a masked key belongs to. */
  ghost function Index(bucketCount: nat, key: Key): (i: nat)
    requires bucketCount >= 1
    ensures i < bucketCount
  {
    Wrap(Hash(key), bucketCount)
  }

  method GetBucketIndex(bucketCount: nat, key: Key) returns (i: nat)
    requires IsPow2(bucketCount)
    ensures i == Index(bucketCount, key) < bucketCount
  {
    hide Hash, Wrap;
    var h := HashUlongPtr(key);
    i := And(h, bucketCount - 1);
    MaskIsRemainder(h, bucketCount);
  }

  lemma MaskIsRemainder(h: nat, count: nat)
    requires IsPow2(count)
    ensures count >= 1 && And(h, count - 1) == Wrap(h, count)
  {
    var k: nat :| count == Pow2(k);
    AndLowMask(h, k);
  }

  /** Overflow never shows in a bucket index: it is the polynomial modulo the bucket count. */
  lemma IndexIsPolynomial(bucketCount: nat, key: Key)
    requires IsPow2(bucketCount) && bucketCount <= MAX_BUCKETS
    ensures bucketCount >= 1 && Index(bucketCount, key) == Poly(LE(key, 8), COEFFICIENT, SEED) % bucketCount
  {
    var k: nat :| bucketCount == Pow2(k);
    var x := Poly(LE(key, 8), COEFFICIENT, SEED);
    Pow2Facts();
    if k > 64 {
      Pow2Monotone(64, k);
    }
    Pow2Divides(k, 64);
    var t :| QWORDS == bucketCount * t;
    WrapTwice(x, bucketCount, t);
  }

  lemma {:induction false} Pow2Divides(i: nat, j: nat)
    requires i <= j
    ensures exists t: nat :: Pow2(j) == Pow2(i) * t
    decreases j - i
  {
    if i == j {
      assert Pow2(j) == Pow2(i) * 1;
    } else {
      Pow2Divides(i, j - 1);
      var t: nat :| Pow2(j - 1) == Pow2(i) * t;
      assert Pow2(i) * (2 * t) == 2 * (Pow2(i) * t);
    }
  }

  lemma WrapTwice(x: nat, m: nat, t: nat)
    requires m >= 1 && m * t >= 1
    ensures Wrap(Wrap(x, m * t), m) == x % m
  {
    var d := m * t;
    var q, r := x / d, x % d;
    assert x == d * q + r;
    assert d * q == m * (t * q);
    ModShift(r, m, t * q);
  }

  // ------------------------------------------------------------------ key masks

  /** All ones shifted left, in 64 bits. */
  function KeyMask(maskBitCount: nat): nat {
    Wrap((QWORDS - 1) * Pow2(maskBitCount), QWORDS)
  }

  function Masked(maskBitCount: nat, key: Key): (k: Key) {
    AndBound(key, KeyMask(maskBitCount));
    And(key, KeyMask(maskBitCount))
  }

  /** The mask drops the low bits: masked keys are equal exactly when the rest of the bits are. */
  lemma MaskDropsLowBits(m: nat, key: Key)
    requires m < 32
    ensures Masked(m, key) == key - key % Pow2(m)
  {
    Pow2Facts();
    Pow2Monotone(m, 32);
    var p := Pow2(m);
    ShiftedOnes(p);
    AndHighMask(key, m, 64);
  }

  lemma ShiftedOnes(p: nat)
    requires 1 <= p <= QWORDS
    ensures Wrap((QWORDS - 1) * p, QWORDS) == QWORDS - p
  {
    assert (QWORDS - 1) * p == QWORDS * (p - 1) + (QWORDS - p);
    ModShift(QWORDS - p, QWORDS, p - 1);
  }

  lemma MaskedEqual(m: nat, a: Key, b: Key)
    requires m < 32
    ensures Masked(m, a) == Masked(m, b) <==> a / Pow2(m) == b / Pow2(m)
  {
    hide Masked;
    MaskDropsLowBits(m, a);
    MaskDropsLowBits(m, b);
    SameQuotient(a, b, Pow2(m));
  }

  lemma SameQuotient(a: nat, b: nat, p: nat)
    requires p >= 1
    ensures a - a % p == b - b % p <==> a / p == b / p
  {
    var x, y := a / p, b / p;
    assert a - a % p == p * x && b - b % p == p * y;
    if x < y {
      MulGap(p, x, y);
    } else if y < x {
      MulGap(p, y, x);
    }
  }
}
