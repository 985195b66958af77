/** Patching code that may be running: stores to locked pages, and what a processor can see between
    them. */
module LockedCopy {
  import opened Arith
  import opened Options
  import opened Bytes
  import opened InstructionCopy

  /** A jump to itself, padded to the word that one interlocked exchange stores. */
  const SPIN: seq<Byte> := [0xEB, 0xFE, 0x00, 0x00]

  /** The spin word is a branch to its own address. */
  lemma SpinIsJumpToSelf(x64: bool, address: nat, rest: seq<Byte>)
    requires address < Space(x64)
    ensures DecodeBranch(x64, address, SPIN + rest, 0) == Some(Branch(0xE9, address))
  {
    WrapSmall(address, Space(x64));
    var code := SPIN + rest;
    assert code[0] == 0xEB && code[1] == 0xFE;
    assert code[0] / 16 == 14;
    assert DecodeBranch(x64, address, code, 0) == BranchAt(x64, address, code, 0);
  }

  /** What may be seen while `src` replaces the bytes at dst: the old code, the new code, or, when more
      than a word is replaced, a spin at the start; never a changed byte elsewhere. */
  ghost predicate Harmless(before: seq<Byte>, dst: nat, src: seq<Byte>, now: seq<Byte>)
    requires dst + |src| <= |before|
  {
    && |now| == |before|
    && (forall i :: 0 <= i < dst || dst + |src| <= i < |before| ==> now[i] == before[i])
    && (now == before || now == Blit(before, dst, src) || (|src| > 4 && now[dst..dst + 4] == SPIN))
  }

  // ------------------------------------------------------------------ the stores

  /** One store. */
  datatype Write = Write(at: nat, bytes: seq<Byte>)
  {
    function End(): nat { at + |bytes| }

    predicate Covers(a: int) { at <= a < End() }
  }

  ghost predicate AllWithin(stores: seq<Write>, from: nat, to: nat) {
    forall i :: 0 <= i < |stores| ==> from <= stores[i].at && stores[i].End() <= to
  }

  /** The memory after k of the stores. */
  function StateAfter(mem: seq<Byte>, stores: seq<Write>, k: nat): (now: seq<Byte>)
    requires k <= |stores| && AllWithin(stores, 0, |mem|)
    ensures |now| == |mem|
  {
    if k == 0 then mem else Blit(StateAfter(mem, stores, k - 1), stores[k - 1].at, stores[k - 1].bytes)
  }

  /** A further store does not change the states before it. */
  lemma {:induction false} StateBefore(mem: seq<Byte>, stores: seq<Write>, w: Write, k: nat)
    requires AllWithin(stores, 0, |mem|) && AllWithin(stores + [w], 0, |mem|) && k <= |stores|
    ensures StateAfter(mem, stores + [w], k) == StateAfter(mem, stores, k)
    decreases k
  {
    hide Blit;
    if k > 0 {
      StateBefore(mem, stores, w, k - 1);
    }
  }

  /** Wherever stores were made, the last of them wrote what was there at first. */
  ghost predicate WritesBack(mem: seq<Byte>, stores: seq<Write>)
    requires AllWithin(stores, 0, |mem|)
  {
    forall k, a :: 0 <= k < |stores| && stores[k].Covers(a) && LastAt(stores, k, a) ==>
      stores[k].bytes[a - stores[k].at] == mem[a]
  }

  ghost predicate LastAt(stores: seq<Write>, k: nat, a: int) {
    forall l :: k < l < |stores| ==> !stores[l].Covers(a)
  }

  /** The byte at a is what the last of n stores there wrote, or the one that was there at first. */
  lemma {:induction false} ByteAfter(mem: seq<Byte>, stores: seq<Write>, n: nat, a: nat) returns (last: Option<nat>)
    requires AllWithin(stores, 0, |mem|) && n <= |stores| && a < |mem|
    ensures last.Some? ==>
      && last.value < n && stores[last.value].Covers(a)
      && StateAfter(mem, stores, n)[a] == stores[last.value].bytes[a - stores[last.value].at]
    ensures last.None? ==> StateAfter(mem, stores, n)[a] == mem[a]
    ensures forall l :: (if last.Some? then last.value + 1 else 0) <= l < n ==> !stores[l].Covers(a)
    decreases n
  {
    if n == 0 {
      return None;
    }
    if stores[n - 1].Covers(a) {
      return Some(n - 1);
    }
    last := ByteAfter(mem, stores, n - 1, a);
  }

  /** All stores together change nothing exactly if they write back what was there. */
  lemma UnchangedIffWrittenBack(mem: seq<Byte>, stores: seq<Write>)
    requires AllWithin(stores, 0, |mem|)
    ensures StateAfter(mem, stores, |stores|) == mem <==> WritesBack(mem, stores)
  {
    hide StateAfter;
    var now := StateAfter(mem, stores, |stores|);
    if WritesBack(mem, stores) {
      forall a | 0 <= a < |mem| ensures now[a] == mem[a] {
        var last := ByteAfter(mem, stores, |stores|, a);
        assert last.Some? ==> LastAt(stores, last.value, a);
      }
    }
    if now == mem {
      forall k, a | 0 <= k < |stores| && stores[k].Covers(a) && LastAt(stores, k, a)
        ensures stores[k].bytes[a - stores[k].at] == mem[a]
      {
        var last := ByteAfter(mem, stores, |stores|, a);
        assert last == Some(k);
      }
    }
  }

  /** The bytes of src behind its first word, one by one. */
  function TailWrites(dst: nat, src: seq<Byte>): (r: seq<Write>)
    requires |src| > 4
    ensures |r| == |src| - 4 && forall k :: 0 <= k < |r| ==> r[k] == Write(dst + 4 + k, [src[4 + k]])
  {
    seq(|src| - 4, k requires 0 <= k < |src| - 4 => Write(dst + 4 + k, [src[4 + k]]))
  }

  /** A spin word, then what replaces the tail, then the first word. */
  function Guarded(dst: nat, src: seq<Byte>, tail: seq<Write>): (r: seq<Write>)
    requires |src| > 4
    ensures |r| == |tail| + 2
  {
    [Write(dst, SPIN)] + tail + [Write(dst, src[..4])]
  }

  /** What is stored to put src at dst; up to four bytes are one exchange together with the bytes behind
      them. */
  function Stores(mem: seq<Byte>, dst: nat, src: seq<Byte>): (r: seq<Write>)
    requires dst + |src| <= |mem| && dst + 4 <= |mem|
    ensures AllWithin(r, 0, |mem|) && |r| == if |src| > 4 then |src| - 2 else 1
  {
    if |src| > 4 then Guarded(dst, src, TailWrites(dst, src))
    else [Write(dst, src + mem[dst + |src|..dst + 4])]
  }

  /** A spin at the start, and no byte outside changed. */
  ghost predicate Spinning(before: seq<Byte>, dst: nat, src: seq<Byte>, now: seq<Byte>)
    requires dst + |src| <= |before| && |src| > 4
  {
    && |now| == |before| && now[dst..dst + 4] == SPIN
    && forall i :: 0 <= i < dst || dst + |src| <= i < |before| ==> now[i] == before[i]
  }

  lemma StillSpinning(before: seq<Byte>, dst: nat, src: seq<Byte>, now: seq<Byte>, w: Write)
    requires dst + |src| <= |before| && |src| > 4 && Spinning(before, dst, src, now)
    requires dst + 4 <= w.at && w.End() <= dst + |src|
    ensures Spinning(before, dst, src, Blit(now, w.at, w.bytes))
  {
    assert Blit(now, w.at, w.bytes)[dst..dst + 4] == now[dst..dst + 4];
  }

  lemma {:induction false} SpinsBehind(mem: seq<Byte>, dst: nat, src: seq<Byte>, tail: seq<Write>, k: nat)
    requires dst + |src| <= |mem| && |src| > 4 && AllWithin(tail, dst + 4, dst + |src|) && 1 <= k <= |tail| + 1
    ensures AllWithin(Guarded(dst, src, tail), 0, |mem|)
    ensures Spinning(mem, dst, src, StateAfter(mem, Guarded(dst, src, tail), k))
    decreases k
  {
    hide Blit, Spinning;
    var stores := Guarded(dst, src, tail);
    if k == 1 {
      assert StateAfter(mem, stores, 0) == mem;
      FirstSpin(mem, dst, src);
    } else {
      SpinsBehind(mem, dst, src, tail, k - 1);
      assert stores[k - 1] == tail[k - 2];
      StillSpinning(mem, dst, src, StateAfter(mem, stores, k - 1), tail[k - 2]);
    }
  }

  lemma FirstSpin(mem: seq<Byte>, dst: nat, src: seq<Byte>)
    requires dst + |src| <= |mem| && |src| > 4
    ensures Spinning(mem, dst, src, Blit(mem, dst, SPIN))
  {
  }

  /** Between the spin word and the first word nothing but a spin is seen, in whatever order and pieces the
      tail is stored. */
  lemma TailInAnyOrder(mem: seq<Byte>, dst: nat, src: seq<Byte>, tail: seq<Write>, k: nat)
    requires dst + |src| <= |mem| && |src| > 4 && AllWithin(tail, dst + 4, dst + |src|) && k <= |tail| + 1
    ensures AllWithin(Guarded(dst, src, tail), 0, |mem|)
    ensures Harmless(mem, dst, src, StateAfter(mem, Guarded(dst, src, tail), k))
  {
    hide Blit;
    SpinsBehind(mem, dst, src, tail, if k == 0 then 1 else k);
  }

  /** The bytes stored so far lie behind the spin word, one behind the other. */
  lemma {:induction false} TailState(mem: seq<Byte>, dst: nat, src: seq<Byte>, k: nat)
    requires dst + |src| <= |mem| && |src| > 4 && k <= |src| - 4
    ensures StateAfter(mem, Stores(mem, dst, src), k + 1) == Blit(mem, dst, SPIN + src[4..4 + k])
    decreases k
  {
    hide Blit, StateAfter, Stores;
    var stores := Stores(mem, dst, src);
    StoredAt(mem, dst, src, k);
    NextStore(mem, stores, k);
    if k == 0 {
      NoStore(mem, stores);
      assert SPIN + src[4..4] == SPIN;
    } else {
      TailState(mem, dst, src, k - 1);
      OneByteMore(mem, dst, SPIN + src[4..3 + k], src[3 + k]);
      assert SPIN + src[4..3 + k] + [src[3 + k]] == SPIN + src[4..4 + k];
    }
  }

  lemma StoredAt(mem: seq<Byte>, dst: nat, src: seq<Byte>, k: nat)
    requires dst + |src| <= |mem| && |src| > 4 && k <= |src| - 4
    ensures Stores(mem, dst, src)[k] == if k == 0 then Write(dst, SPIN) else Write(dst + 3 + k, [src[3 + k]])
  {
  }

  lemma OneByteMore(mem: seq<Byte>, dst: nat, s: seq<Byte>, b: Byte)
    requires dst + |s| < |mem|
    ensures Blit(Blit(mem, dst, s), dst + |s|, [b]) == Blit(mem, dst, s + [b])
  {
  }

  /** The stores put src at dst, and every state from the first to the last is harmless. */
  lemma StoresHarmless(mem: seq<Byte>, dst: nat, src: seq<Byte>, k: nat)
    requires dst + |src| <= |mem| && dst + 4 <= |mem| && k <= |Stores(mem, dst, src)|
    ensures Harmless(mem, dst, src, StateAfter(mem, Stores(mem, dst, src), k))
    ensures StateAfter(mem, Stores(mem, dst, src), |Stores(mem, dst, src)|) == Blit(mem, dst, src)
  {
    hide Blit, Harmless;
    var stores := Stores(mem, dst, src);
    Untouched(mem, dst, src);
    LastWord(mem, dst, src);
    if |src| > 4 {
      TailState(mem, dst, src, |src| - 4);
      assert src[4..4 + (|src| - 4)] == src[4..];
      if k < |stores| {
        TailInAnyOrder(mem, dst, src, TailWrites(dst, src), k);
      }
    } else {
      assert StateAfter(mem, stores, 0) == mem;
    }
  }

  lemma Untouched(before: seq<Byte>, dst: nat, src: seq<Byte>)
    requires dst + |src| <= |before|
    ensures Harmless(before, dst, src, before) && Harmless(before, dst, src, Blit(before, dst, src))
  {
  }

  /** The last exchange completes the copy. */
  lemma LastWord(before: seq<Byte>, dst: nat, src: seq<Byte>)
    requires dst + |src| <= |before| && dst + 4 <= |before|
    ensures |src| > 4 ==> Blit(Blit(before, dst, SPIN + src[4..]), dst, src[..4]) == Blit(before, dst, src)
    ensures |src| <= 4 ==> Blit(before, dst, src + before[dst + |src|..dst + 4]) == Blit(before, dst, src)
  {
    if |src| > 4 {
      assert src == src[..4] + src[4..];
    }
  }

  // ------------------------------------------------------------------ the method

  /** The states from before the first store to behind the last. */
  ghost predicate Traces(trace: seq<seq<Byte>>, mem: seq<Byte>, stores: seq<Write>, n: nat)
    requires AllWithin(stores, 0, |mem|) && n <= |stores|
  {
    |trace| == n + 1 && forall k :: 0 <= k <= n ==> trace[k] == StateAfter(mem, stores, k)
  }

  /** Stores src at dst: a spin word, the tail byte by byte, then the first word, or one exchange. The trace
      is the memory before the first store and after each, and all of these states are harmless. Nothing is
      stored if the page cannot be mapped. */
  method MapLockedCopyMemory(mem: array<Byte>, dst: nat, src: seq<Byte>, mapped: bool)
    returns (ghost trace: seq<seq<Byte>>)
    requires dst + |src| <= mem.Length && dst + 4 <= mem.Length
    modifies mem
    ensures mem[..] == if mapped then Blit(old(mem[..]), dst, src) else old(mem[..])
    ensures var stores := Stores(old(mem[..]), dst, src);
      Traces(trace, old(mem[..]), stores, if mapped then |stores| else 0) && trace[|trace| - 1] == mem[..]
    ensures forall k :: 0 <= k < |trace| ==> Harmless(old(mem[..]), dst, src, trace[k])
  {
    hide Blit, Harmless, StateAfter;
    ghost var before, stores := mem[..], Stores(mem[..], dst, src);
    NoStore(before, stores);
    trace := [before];
    var code := if |src| > 4 then src[..4] else src + mem[dst + |src|..dst + 4];
    if mapped {
      if |src| > 4 {
        NextStore(before, stores, 0);
        Store(mem, dst, SPIN);
        trace := trace + [mem[..]];
        for i := 4 to |src|
          invariant Traces(trace, before, stores, i - 3) && mem[..] == trace[i - 3]
        {
          NextStore(before, stores, i - 3);
          assert stores[i - 3] == Write(dst + i, [src[i]]);
          Store(mem, dst + i, [src[i]]);
          trace := trace + [mem[..]];
        }
      }
      NextStore(before, stores, |stores| - 1);
      Store(mem, dst, code);
      trace := trace + [mem[..]];
    }
    forall k | 0 <= k < |trace| ensures Harmless(before, dst, src, trace[k]) {
      StoresHarmless(before, dst, src, k);
    }
    StoresHarmless(before, dst, src, 0);
  }

  lemma NoStore(mem: seq<Byte>, stores: seq<Write>)
    requires AllWithin(stores, 0, |mem|)
    ensures StateAfter(mem, stores, 0) == mem
  {
  }

  lemma NextStore(mem: seq<Byte>, stores: seq<Write>, k: nat)
    requires AllWithin(stores, 0, |mem|) && k < |stores|
    ensures StateAfter(mem, stores, k + 1) == Blit(StateAfter(mem, stores, k), stores[k].at, stores[k].bytes)
  {
    hide Blit;
  }
}
