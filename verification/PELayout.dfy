/** Section headers, alignment and the arrangement of sections in a file. */
module PELayout {
  import opened Arith
  import opened Bits
  import opened Bytes

  const SECTION_HEADER_SIZE: nat := 40

  datatype SectionHeader = SectionHeader(
    virtualAddress: nat, virtualSize: nat, pointerToRawData: nat, sizeOfRawData: nat)
  {
    function RawEnd(): nat { pointerToRawData + sizeOfRawData }

    function VirtualEnd(): nat { virtualAddress + virtualSize }
  }

  // ------------------------------------------------------------------ alignment

  ghost predicate Multiple(n: nat, a: nat) { a > 0 && n % a == 0 }

  /** Rounding by mask, in 32-bit arithmetic. */
  function AlignValue(badValue: nat, alignTo: nat): nat
    requires alignTo < DWORDS
  {
    And((badValue + alignTo + (DWORDS - 1)) % DWORDS, (DWORDS - alignTo) % DWORDS)
  }

  /** For a power of two, AlignValue gives the least multiple that is not below its argument, if and
      only if the rounding does not overflow 32 bits. */
  lemma AlignUp(v: nat, a: nat)
    requires IsPow2(a) && a <= 0x8000_0000 && v < DWORDS
    ensures AlignValue(v, a) % a == 0
    ensures v <= AlignValue(v, a) < v + a <==> v + a <= DWORDS
    ensures v + a > DWORDS ==> AlignValue(v, a) == 0
  {
    if v + a > DWORDS {
      AlignOverflows(v, a);
    } else {
      AlignFits(v, a);
    }
  }

  lemma AlignFits(v: nat, a: nat)
    requires IsPow2(a) && a <= 0x8000_0000 && v + a <= DWORDS
    ensures AlignValue(v, a) % a == 0 && v <= AlignValue(v, a) < v + a
  {
    var y := v + a - 1;
    SmallMod(y, DWORDS);
    AlignMasks(v, a, y);
    RoundDown(y, a);
  }

  lemma AlignOverflows(v: nat, a: nat)
    requires IsPow2(a) && a <= 0x8000_0000 && v < DWORDS < v + a
    ensures AlignValue(v, a) == 0
  {
    var y := v + a - 1 - DWORDS;
    DivModUnique(v + a - 1, DWORDS, 1, y);
    AlignMasks(v, a, y);
    SmallMod(y, a);
  }

  lemma AlignBound(v: nat, a: nat)
    requires a < DWORDS
    ensures AlignValue(v, a) < DWORDS
  {
    AndBound((v + a + (DWORDS - 1)) % DWORDS, (DWORDS - a) % DWORDS);
  }

  lemma MaskForm(v: nat, a: nat)
    requires 1 <= a < DWORDS
    ensures AlignValue(v, a) == And((v + a - 1) % DWORDS, DWORDS - a)
  {
    ModPlus(v + a - 1, DWORDS);
    SmallMod(DWORDS - a, DWORDS);
  }

  lemma MaskRounds(y: nat, a: nat)
    requires IsPow2(a) && a <= 0x8000_0000 && y < DWORDS
    ensures And(y, DWORDS - a) == y - y % a
  {
    var k: nat :| a == Pow2(k);
    Pow2Facts();
    if 32 <= k {
      Pow2Monotone(32, k);
    }
    AndHighMask(y, k, 32);
  }

  lemma AlignMasks(v: nat, a: nat, y: nat)
    requires IsPow2(a) && a <= 0x8000_0000 && y == (v + a - 1) % DWORDS
    ensures AlignValue(v, a) == y - y % a
  {
    MaskForm(v, a);
    MaskRounds(y, a);
  }

  lemma RoundDown(y: nat, a: nat)
    requires a >= 1
    ensures (y - y % a) % a == 0
    ensures y - y % a >= 0 && y % a < a
  {
    assert y - y % a == a * (y / a) + 0;
    DivModUnique(y - y % a, a, y / a, 0);
  }

  lemma Multiples(m: nat, r: nat, a: nat)
    requires a >= 1 && m % a == 0 && r % a == 0
    ensures m < r ==> m + a <= r
  {
    var i, j := m / a, r / a;
    assert m == a * i && r == a * j;
    if i < j {
      MulGap(a, i, j);
    } else if j < i {
      MulGap(a, j, i);
    }
  }

  /** Of two multiples, one that lies at or above v also lies at or above v rounded up. */
  lemma LeastMultiple(v: nat, a: nat, m: nat)
    requires IsPow2(a) && a <= 0x8000_0000 && v + a <= DWORDS
    requires m % a == 0 && v <= m
    ensures AlignValue(v, a) <= m
  {
    AlignUp(v, a);
    var r := AlignValue(v, a);
    Multiples(m, r, a);
  }

  // ------------------------------------------------------------------ the section table on disk

  /** The fields of a section header at their offsets; name, relocation fields and flags are not modelled. */
  function EncodeHeader(h: SectionHeader): (r: seq<Byte>)
    ensures |r| == SECTION_HEADER_SIZE
  {
    Zeros(8) + LE(h.virtualSize, 4) + LE(h.virtualAddress, 4) + LE(h.sizeOfRawData, 4)
    + LE(h.pointerToRawData, 4) + Zeros(16)
  }

  function DecodeHeader(r: seq<Byte>): SectionHeader
    requires |r| == SECTION_HEADER_SIZE
  {
    SectionHeader(FromLE(r[12..16]), FromLE(r[8..12]), FromLE(r[20..24]), FromLE(r[16..20]))
  }

  lemma FieldSlices(a: seq<Byte>, b: seq<Byte>, c: seq<Byte>, d: seq<Byte>)
    requires |a| == |b| == |c| == |d| == 4
    ensures var r := Zeros(8) + a + b + c + d + Zeros(16);
      r[8..12] == a && r[12..16] == b && r[16..20] == c && r[20..24] == d
  {
  }

  lemma FieldValue(x: nat)
    requires x < DWORDS
    ensures FromLE(LE(x, 4)) == x
  {
    WordRoundTrip(x, 4);
    CapacityFacts();
    SmallMod(x, DWORDS);
  }

  /** Every field fits its 32 bits. */
  ghost predicate Words(h: SectionHeader) {
    h.virtualAddress < DWORDS && h.virtualSize < DWORDS && h.pointerToRawData < DWORDS && h.sizeOfRawData < DWORDS
  }

  lemma HeaderRoundTrip(h: SectionHeader)
    requires Words(h)
    ensures DecodeHeader(EncodeHeader(h)) == h
  {
    var a, b, c, d := LE(h.virtualSize, 4), LE(h.virtualAddress, 4), LE(h.sizeOfRawData, 4), LE(h.pointerToRawData, 4);
    FieldSlices(a, b, c, d);
    FieldValue(h.virtualSize);
    FieldValue(h.virtualAddress);
    FieldValue(h.sizeOfRawData);
    FieldValue(h.pointerToRawData);
  }

  /** n section headers one behind the other. */
  function DecodeTable(f: seq<Byte>, at: nat, n: nat): (hs: seq<SectionHeader>)
    requires at + SECTION_HEADER_SIZE * n <= |f|
    ensures |hs| == n
    decreases n
  {
    if n == 0 then []
    else
      var last := at + SECTION_HEADER_SIZE * (n - 1);
      DecodeTable(f, at, n - 1) + [DecodeHeader(f[last..last + SECTION_HEADER_SIZE])]
  }

  function EncodeTable(hs: seq<SectionHeader>): (r: seq<Byte>)
    ensures |r| == SECTION_HEADER_SIZE * |hs|
  {
    if hs == [] then [] else EncodeTable(hs[..|hs| - 1]) + EncodeHeader(hs[|hs| - 1])
  }

  /** A table that was written is read back. */
  lemma {:induction false} TableRoundTrip(hs: seq<SectionHeader>, f: seq<Byte>, at: nat)
    requires (forall i :: 0 <= i < |hs| ==> Words(hs[i])) && at + |EncodeTable(hs)| <= |f|
    requires f[at..at + |EncodeTable(hs)|] == EncodeTable(hs)
    ensures DecodeTable(f, at, |hs|) == hs
    decreases |hs|
  {
    hide EncodeHeader, DecodeHeader, Words;
    if hs != [] {
      var n := |hs| - 1;
      var front, last := EncodeTable(hs[..n]), at + SECTION_HEADER_SIZE * n;
      assert f[at..at + |front|] == f[at..at + |EncodeTable(hs)|][..|front|] == front;
      assert f[last..last + SECTION_HEADER_SIZE] == f[at..at + |EncodeTable(hs)|][|front|..] == EncodeHeader(hs[n]);
      TableRoundTrip(hs[..n], f, at);
      HeaderRoundTrip(hs[n]);
      assert hs[..n] + [hs[n]] == hs;
    }
  }

  /** The low byte of the virtual size, in a table of one header. */
  lemma OneHeader(f: seq<Byte>, at: nat)
    requires at + SECTION_HEADER_SIZE <= |f|
    ensures DecodeTable(f, at, 1)[0].virtualSize % 256 == f[at + 8]
  {
    hide FromLE;
    var r := f[at..at + SECTION_HEADER_SIZE];
    assert DecodeTable(f, at, 0) == [];
    assert DecodeTable(f, at, 1)[0] == DecodeHeader(r);
    LowByte(r[8..12]);
  }

  // ------------------------------------------------------------------ files

  /** A byte of a file; beyond its end a file reads as zero. */
  function ByteAt(f: seq<Byte>, i: nat): Byte {
    if i < |f| then f[i] else 0
  }

  /** The file after a write at `at`; a gap below it is filled with zeros. */
  function Overwrite(f: seq<Byte>, at: nat, b: seq<Byte>): (r: seq<Byte>)
    ensures |r| == if b == [] || at + |b| <= |f| then |f| else at + |b|
  {
    if b == [] then f
    else if at + |b| <= |f| then Blit(f, at, b)
    else if at <= |f| then f[..at] + b
    else f + Zeros(at - |f|) + b
  }

  lemma OverwriteAt(f: seq<Byte>, at: nat, b: seq<Byte>, i: nat)
    ensures ByteAt(Overwrite(f, at, b), i) == if at <= i < at + |b| then b[i - at] else ByteAt(f, i)
  {
  }

  /** A section's raw data as a loader maps it: `n` bytes from the raw pointer, zero beyond the end. */
  function ReadBack(f: seq<Byte>, at: nat, n: nat): (r: seq<Byte>)
    ensures |r| == n
  {
    seq<Byte>(n, i requires 0 <= i < n => ByteAt(f, at + i))
  }
}
