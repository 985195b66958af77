/** Bytes, little-endian words and in-place stores: the vocabulary in which section buffers,
    code memory and output files are described. */
module Bytes {
  import opened Arith

  type Byte = b: int | 0 <= b < 256

  /** A zero-terminated C string without its terminator. */
  type CString = s: seq<Byte> | 0 !in s witness []

  /** The number of values an n-byte word can hold. */
  function Capacity(n: nat): (c: nat)
    ensures c >= 1
  {
    if n == 0 then 1 else 256 * Capacity(n - 1)
  }

  /** The n-byte little-endian encoding of x, truncated as a C store truncates it. */
  function LE(x: nat, n: nat): (s: seq<Byte>)
    ensures |s| == n
  {
    if n == 0 then [] else [x % 256] + LE(x / 256, n - 1)
  }

  /** The unsigned value of a little-endian word. */
  function FromLE(s: seq<Byte>): nat {
    if s == [] then 0 else s[0] + 256 * FromLE(s[1..])
  }

  lemma LowByte(s: seq<Byte>)
    requires s != []
    ensures FromLE(s) % 256 == s[0]
  {
  }

  /** Reading back an n-byte word yields the stored value modulo the word's capacity. */
  lemma {:induction false} WordRoundTrip(x: nat, n: nat)
    ensures FromLE(LE(x, n)) == x % Capacity(n)
  {
    if n > 0 {
      WordRoundTrip(x / 256, n - 1);
      ModSplit(256, x, Capacity(n - 1));
    }
  }

  /** The unsigned little-endian word of n bytes stored at `at`. */
  function Read(data: seq<Byte>, at: nat, n: nat): nat
    requires at + n <= |data|
    decreases n
  {
    if n == 0 then 0 else data[at] + 256 * Read(data, at + 1, n - 1)
  }

  lemma {:induction false} ReadIsSlice(data: seq<Byte>, at: nat, n: nat)
    requires at + n <= |data|
    ensures Read(data, at, n) == FromLE(data[at..at + n])
    decreases n
  {
    if n > 0 {
      ReadIsSlice(data, at + 1, n - 1);
      assert data[at..at + n][1..] == data[at + 1..at + n];
    }
  }

  lemma CapacityFacts()
    ensures Capacity(1) == 0x100
    ensures Capacity(2) == 0x1_0000
    ensures Capacity(4) == 0x1_0000_0000
    ensures Capacity(8) == 0x1_0000_0000_0000_0000
  {
    assert Capacity(2) == 256 * Capacity(1);
    assert Capacity(3) == 256 * Capacity(2);
    assert Capacity(4) == 256 * Capacity(3);
    assert Capacity(5) == 256 * Capacity(4);
    assert Capacity(6) == 256 * Capacity(5);
    assert Capacity(7) == 256 * Capacity(6);
    assert Capacity(8) == 256 * Capacity(7);
  }

  function Fill(b: Byte, n: nat): (s: seq<Byte>)
    ensures |s| == n
  {
    seq(n, _ => b)
  }

  function Zeros(n: nat): (s: seq<Byte>)
    ensures |s| == n
  {
    Fill(0, n)
  }

  /** `mem` after the bytes `b` have been stored at offset `at`. */
  function Blit(mem: seq<Byte>, at: nat, b: seq<Byte>): (r: seq<Byte>)
    requires at + |b| <= |mem|
    ensures |r| == |mem|
  {
    mem[..at] + b + mem[at + |b|..]
  }

  /** memcpy into a buffer. */
  method Store(a: array<Byte>, at: nat, b: seq<Byte>)
    requires at + |b| <= a.Length
    modifies a
    ensures a[..] == Blit(old(a[..]), at, b)
  {
    for i := 0 to |b|
      invariant a[..] == old(a[..])[..at] + b[..i] + old(a[..])[at + i..]
    {
      a[at + i] := b[i];
    }
  }

  /** One byte of a buffer. */
  method SetByte(a: array<Byte>, at: nat, b: Byte)
    requires at < a.Length
    modifies a
    ensures a[..] == old(a[..])[at := b]
  {
    a[at] := b;
  }
}
