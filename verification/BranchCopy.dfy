/** Direct branches keep their destinations when they are copied. */
module BranchCopy {
  import opened Arith
  import opened Options
  import opened Bytes
  import opened CopyTables
  import opened CopyRoutes
  import opened InstructionCopy

  predicate AnyPrefix(x64: bool, b: Byte) { LegacyPrefix(b) || (x64 && b / 16 == 4) }

  predicate NearOpcode(b: Byte) { b in {0xE8, 0xE9} }

  predicate ShortOpcode(b: Byte) { b == 0xEB || 0x70 <= b <= 0x7F }

  predicate ConditionOpcode(b: Byte) { 0x80 <= b <= 0x8F }

  // ------------------------------------------------------------------ routes of branches

  /** The table entries of prefixes and direct branches. */
  ghost predicate EntryIsRight(x64: bool, b: Byte) {
    var e := CopyTable(x64, b);
    && (AnyPrefix(x64, b) ==> e.Prefix? || e.Segment? || e.Rex? || e.F2? || e.F3? || e.Op67?)
    && (NearOpcode(b) ==> e == Bytes(Target(x64))) && (ShortOpcode(b) ==> e == Jump) && (b == 0x0F ==> e == TwoByte)
  }

  lemma EntriesBelow60(x64: bool, b: Byte)
    requires b < 0x60
    ensures EntryIsRight(x64, b)
  {
  }

  lemma EntriesFrom60(x64: bool, b: Byte)
    requires b >= 0x60
    ensures EntryIsRight(x64, b)
  {
  }

  lemma BranchEntries(x64: bool, b: Byte)
    ensures EntryIsRight(x64, b)
  {
    hide EntryIsRight;
    if b < 0x60 {
      EntriesBelow60(x64, b);
    } else {
      EntriesFrom60(x64, b);
    }
  }

  lemma ConditionEntries(x64: bool, b: Byte)
    requires ConditionOpcode(b)
    ensures CopyTable0F(x64, b) == Bytes(Target(x64))
  {
  }

  /** From s on: prefixes up to j, and a direct branch there, which route r handles. */
  ghost predicate BranchRoute(x64: bool, code: seq<Byte>, s: nat, j: nat, r: Route) {
    && s <= j < |code| && (forall i :: s <= i < j ==> AnyPrefix(x64, code[i]))
    && !AnyPrefix(x64, code[j]) && !r.flags.operand && !r.group5
    && if NearOpcode(code[j]) then r.at == j && r.leaf == Fixed(Target(x64)) && j + 5 <= |code|
       else if ShortOpcode(code[j]) then r.at == j && r.leaf == Enlarge && j + 2 <= |code|
       else
         && code[j] == 0x0F && r.at == j + 1 && r.leaf == Fixed(Target(x64))
         && j + 6 <= |code| && ConditionOpcode(code[j + 1])
  }

  /** A prefix other than 66 hands over to the next byte, without an operand-size override. */
  lemma PrefixStep(x64: bool, fl: Overrides, code: seq<Byte>, s: nat) returns (w: Overrides)
    requires s < |code| && !fl.operand && AnyPrefix(x64, code[s])
    ensures !w.operand && Dispatch(x64, fl, code, s) == Dispatch(x64, w, code, s + 1)
  {
    hide CopyTable, AnyPrefix, HandleNext;
    var e := CopyTable(x64, code[s]);
    BranchEntries(x64, code[s]);
    w := match e
      case Segment => fl.(segment := code[s])
      case Rex => fl.(rax := fl.rax || (code[s] as int) * 8 != 0)
      case F2 => fl.(f2 := true)
      case F3 => fl.(f3 := true)
      case Op67 => fl.(address := true)
      case _ => fl;
  }

  lemma LastStep(x64: bool, fl: Overrides, base: int, code: seq<Byte>, s: nat)
    requires s < |code| && !fl.operand && !AnyPrefix(x64, code[s]) && BranchAt(x64, base, code, s).Some?
    ensures Dispatch(x64, fl, code, s).Some? && BranchRoute(x64, code, s, s, Dispatch(x64, fl, code, s).value)
  {
    hide CopyTable, CopyTable0F, Near, Short, AnyPrefix;
    var e := CopyTable(x64, code[s]);
    BranchEntries(x64, code[s]);
    if code[s] == 0x0F {
      ConditionEntries(x64, code[s + 1]);
      assert Handle(x64, e, fl, code, s) == HandleNext(x64, e, code[s + 1], fl, code, s);
      assert HandleNext(x64, e, code[s + 1], fl, code, s) == Handle(x64, Bytes(Target(x64)), fl, code, s + 1);
    }
    assert Dispatch(x64, fl, code, s) == Handle(x64, e, fl, code, s);
  }

  lemma {:induction false} RouteOfBranch(x64: bool, fl: Overrides, base: int, code: seq<Byte>, s: nat) returns (j: nat)
    requires !fl.operand && DecodeBranch(x64, base, code, s).Some?
    ensures Dispatch(x64, fl, code, s).Some? && BranchRoute(x64, code, s, j, Dispatch(x64, fl, code, s).value)
    ensures DecodeBranch(x64, base, code, s) == BranchAt(x64, base, code, j)
    decreases |code| - s
  {
    hide Dispatch, BranchAt;
    if AnyPrefix(x64, code[s]) {
      var w := PrefixStep(x64, fl, code, s);
      j := RouteOfBranch(x64, w, base, code, s + 1);
    } else {
      j := s;
      LastStep(x64, fl, base, code, s);
    }
  }

  /** Decoding passes over prefixes. */
  lemma {:induction false} DecodePastPrefixes(x64: bool, base: int, code: seq<Byte>, i: nat, j: nat)
    requires i <= j < |code| && (forall k :: i <= k < j ==> AnyPrefix(x64, code[k])) && !AnyPrefix(x64, code[j])
    ensures DecodeBranch(x64, base, code, i) == BranchAt(x64, base, code, j)
    decreases j - i
  {
    if i < j {
      DecodePastPrefixes(x64, base, code, i + 1, j);
    }
  }

  // ------------------------------------------------------------------ leaves

  /** A stored 32-bit operand reaches what it is meant to reach exactly when that is within reach. */
  lemma StoredOperand(x64: bool, head: seq<Byte>, r: int, next: int)
    ensures Near(x64, next, head + LE(Wrap(r, DWORDS), 4), |head|) == Wrap(next + r, Space(x64))
      <==> InReach(x64, next, Wrap(next + r, Space(x64)))
  {
    hide Wrap, LE, Read;
    CapacityFacts();
    ReadOfStored(head, Wrap(r, DWORDS), 4, []);
    assert head + LE(Wrap(r, DWORDS), 4) + [] == head + LE(Wrap(r, DWORDS), 4);
    Reach64(x64, next, r);
    WrapSmall(Wrap(next + r, Space(x64)), Space(x64));
    ReachCongruent(x64, next, next + r, Wrap(next + r, Space(x64)));
  }

  /** A near branch: `op` and a 32-bit operand. Its copy names the same destination exactly when that
      is within reach. */
  lemma NearCopy(x64: bool, fl: Overrides, code: seq<Byte>, at: nat, from: int, delta: int)
    requires !fl.operand && at + 5 <= |code|
    ensures var o := CopyFixed(x64, Target(x64), fl, code, at, from, delta);
      && o.Some? && o.value.consumed == |o.value.out| == 5 && o.value.extra == 0 && o.value.out[0] == code[at]
      && o.value.target == At(Near(x64, from + 5, code, at + 1))
      && (Near(x64, from + delta + 5, o.value.out, 1) == Near(x64, from + 5, code, at + 1)
          <==> InReach(x64, from + delta + 5, Near(x64, from + 5, code, at + 1)))
  {
    hide Wrap, LE, Read;
    var bytes := code[at..at + 5];
    CapacityFacts();
    ReadIsSlice(bytes, 1, 4);
    ReadIsSlice(code, at + 1, 4);
    assert bytes[1..5] == code[at + 1..at + 5];
    var rel := Signed(Read(bytes, 1, 4), DWORDS);
    var v := Wrap(Moved(x64, rel, delta), DWORDS);
    assert Blit(bytes, 1, LE(v, 4)) == [code[at]] + LE(v, 4);
    MovedWord(x64, rel - delta);
    StoredOperand(x64, [code[at]], rel - delta, from + delta + 5);
    assert from + delta + 5 + (rel - delta) == from + 5 + rel;
  }

  lemma MovedWord(x64: bool, r: int)
    ensures Wrap(SignedWrap(r, Space(x64)), DWORDS) == Wrap(r, DWORDS)
  {
    hide Wrap, SignedWrap;
    SignedWrapFacts(r, Space(x64));
    WrapDivisor(r, DWORDS, if x64 then DWORDS else 1);
    WrapDivisor(SignedWrap(r, Space(x64)), DWORDS, if x64 then DWORDS else 1);
  }

  /** A short jump grows to a near one with the same destination, if that is within reach. */
  lemma ShortCopy(x64: bool, code: seq<Byte>, at: nat, from: int, delta: int)
    requires at + 2 <= |code| && ShortOpcode(code[at])
    ensures var o, k := CopyShort(x64, code, at, from, delta), if code[at] == 0xEB then 1 else 2;
      && o.Some? && o.value.consumed == 2 && |o.value.out| == 4 + k && o.value.extra == 2 + k
      && (if k == 1 then o.value.out[0] == 0xE9 else o.value.out[0] == 0x0F && o.value.out[1] == code[at] + 0x10)
      && o.value.target == At(Short(x64, from + 2, code, at + 1))
      && (Near(x64, from + delta + 4 + k, o.value.out, k) == Short(x64, from + 2, code, at + 1)
          <==> InReach(x64, from + delta + 4 + k, Short(x64, from + 2, code, at + 1)))
  {
    hide Wrap, LE, Read;
    var rel, k := SignedByte(code[at + 1]), if code[at] == 0xEB then 1 else 2;
    var head: seq<Byte> := if k == 1 then [0xE9] else [0x0F, 0x80 + code[at] % 16];
    var r := rel - (delta + 2 + k);
    StoredOperand(x64, head, r, from + delta + 4 + k);
    assert from + delta + 4 + k + r == from + 2 + rel;
  }

  // ------------------------------------------------------------------ whole instructions

  /** A direct branch without an operand-size prefix is copied to a branch of the same kind. It has the
      same destination exactly when that is within reach of the copy, as it always is in 32-bit code;
      the copier reports the destination, and by how many bytes the branch grew. */
  lemma BranchKept(x64: bool, fl: Overrides, code: seq<Byte>, s: nat, base: int, delta: int)
    requires !fl.operand && DecodeBranch(x64, base, code, s).Some?
    ensures var o, b := Copied(x64, fl, code, s, base, delta), DecodeBranch(x64, base, code, s).value;
      && o.Some? && o.value.target == At(b.destination) && o.value.extra == |o.value.out| - o.value.consumed >= 0
      && DecodeBranch(x64, base + s + delta, o.value.out, 0).Some?
      && DecodeBranch(x64, base + s + delta, o.value.out, 0).value.op == b.op
      && (DecodeBranch(x64, base + s + delta, o.value.out, 0) == Some(b)
          <==> InReach(x64, base + s + delta + |o.value.out|, b.destination))
  {
    hide DecodeBranch, BranchAt, InReach, CopyLeaf, Dispatch, BranchRoute, AnyPrefix;
    var j := RouteOfBranch(x64, fl, base, code, s);
    var r := Dispatch(x64, fl, code, s).value;
    RouteFacts(x64, code, s, j, r);
    LeafOfBranch(x64, code, s, j, r, base, delta);
    var leaf := CopyLeaf(x64, r, code, base + r.at, delta).value;
    DecodeJoined(x64, base + s + delta, code[s..j], code[j..r.at] + leaf.out);
    assert code[s..r.at] + leaf.out == code[s..j] + (code[j..r.at] + leaf.out);
    assert base + s + delta + |code[s..j]| == base + j + delta;
  }

  lemma DecodeJoined(x64: bool, base: int, head: seq<Byte>, tail: seq<Byte>)
    requires tail != [] && !AnyPrefix(x64, tail[0]) && forall k :: 0 <= k < |head| ==> AnyPrefix(x64, head[k])
    ensures DecodeBranch(x64, base, head + tail, 0) == BranchAt(x64, base + |head|, tail, 0)
  {
    hide AnyPrefix, BranchAt;
    DecodePastPrefixes(x64, base, head + tail, 0, |head|);
    BranchAtShift(x64, base, head, tail);
  }

  lemma RouteFacts(x64: bool, code: seq<Byte>, s: nat, j: nat, r: Route)
    requires BranchRoute(x64, code, s, j, r)
    ensures s <= j <= r.at <= |code| && forall k :: 0 <= k < j - s ==> AnyPrefix(x64, code[s..j][k])
  {
  }

  /** The branch itself, at position j, copied to an address delta further on. */
  lemma LeafOfBranch(x64: bool, code: seq<Byte>, s: nat, j: nat, r: Route, base: int, delta: int)
    requires BranchRoute(x64, code, s, j, r) && BranchAt(x64, base, code, j).Some?
    ensures j <= r.at && var o, b := CopyLeaf(x64, r, code, base + r.at, delta), BranchAt(x64, base, code, j).value;
      && o.Some? && var out := code[j..r.at] + o.value.out;
         && out != [] && !AnyPrefix(x64, out[0])
         && o.value.target == At(b.destination) && o.value.extra == |o.value.out| - o.value.consumed >= 0
         && var c := BranchAt(x64, base + j + delta, out, 0);
            && c.Some? && c.value.op == b.op
            && (c == Some(b) <==> InReach(x64, base + j + delta + |out|, b.destination))
  {
    hide Near, Short, InReach, CopyFixed, CopyShort;
    if ShortOpcode(code[j]) {
      ShortCopy(x64, code, r.at, base + r.at, delta);
    } else {
      NearCopy(x64, r.flags, code, r.at, base + r.at, delta);
    }
    var leaf := CopyLeaf(x64, r, code, base + r.at, delta).value;
    NearShift(x64, code[j..r.at], leaf.out);
  }

  /** Operands behind other bytes are read where they are. */
  lemma NearShift(x64: bool, a: seq<Byte>, b: seq<Byte>)
    ensures forall next, at: nat :: at + 4 <= |b| ==> Near(x64, next, a + b, |a| + at) == Near(x64, next, b, at)
  {
    forall next, at: nat | at + 4 <= |b| ensures Near(x64, next, a + b, |a| + at) == Near(x64, next, b, at) {
      ReadIsSlice(a + b, |a| + at, 4);
      ReadIsSlice(b, at, 4);
      assert (a + b)[|a| + at..|a| + at + 4] == b[at..at + 4];
    }
  }

  lemma BranchAtShift(x64: bool, base: int, a: seq<Byte>, b: seq<Byte>)
    requires b != []
    ensures BranchAt(x64, base, a + b, |a|) == BranchAt(x64, base + |a|, b, 0)
  {
    hide Near;
    NearShift(x64, a, b);
  }

  /** In the x86 build every direct branch keeps its destination. */
  lemma X86BranchKept(fl: Overrides, code: seq<Byte>, s: nat, base: int, delta: int)
    requires !fl.operand && DecodeBranch(false, base, code, s).Some?
    ensures var o := Copied(false, fl, code, s, base, delta);
      o.Some? && DecodeBranch(false, base + s + delta, o.value.out, 0) == DecodeBranch(false, base, code, s)
  {
    BranchKept(false, fl, code, s, base, delta);
    var b, o := DecodeBranch(false, base, code, s).value, Copied(false, fl, code, s, base, delta).value;
    var next := base + s + delta + |o.out|;
    Reach64(false, next, b.destination - next);
  }

  // ------------------------------------------------------------------ branches with 16-bit operands

  /** Where a branch with a 16-bit operand at `at` leads: it cuts the instruction pointer to 16 bits. */
  function WordBranch(next: int, code: seq<Byte>, at: nat): nat
    requires at + 2 <= |code|
  {
    Wrap(next + Signed(Read(code, at, 2), 0x1_0000), 0x1_0000)
  }

  /** With an operand-size prefix, a near branch of the x86 build always keeps its destination; when the moved
      operand does not fit 16 bits the copier reports a growth of two, though it writes none. */
  lemma WordBranchKept(fl: Overrides, code: seq<Byte>, s: nat, base: int, delta: int)
    requires var r := Dispatch(false, fl, code, s);
      r.Some? && r.value.leaf == Fixed(Target(false)) && r.value.flags.operand && !r.value.group5
      && r.value.at + 3 <= |code|
    ensures var r, o := Dispatch(false, fl, code, s).value, Copied(false, fl, code, s, base, delta);
      && o.Some? && o.value.consumed == |o.value.out| == r.at - s + 3
      && o.value.out[..r.at - s + 1] == code[s..r.at + 1]
      && WordBranch(base + s + delta + o.value.consumed, o.value.out, r.at - s + 1)
         == WordBranch(base + s + o.value.consumed, code, r.at + 1)
      && var moved := Moved(false, Signed(Read(code, r.at + 1, 2), 0x1_0000), delta);
         o.value.extra == if -0x8000 <= moved <= 0x7FFF then 0 else 2
  {
    hide Dispatch, CopyFixed, Read, Wrap, Moved;
    var r := Dispatch(false, fl, code, s).value;
    WordCopy(r.flags, code, r.at, base + r.at, delta);
    var out, a := CopyFixed(false, Target(false), r.flags, code, r.at, base + r.at, delta).value.out, code[s..r.at];
    ReadIsSlice(a + out, |a| + 1, 2);
    ReadIsSlice(out, 1, 2);
    assert (a + out)[|a| + 1..|a| + 3] == out[1..3];
    assert (a + out)[..|a| + 1] == a + [out[0]] == code[s..r.at + 1];
  }

  lemma WordCopy(fl: Overrides, code: seq<Byte>, at: nat, from: int, delta: int)
    requires fl.operand && at + 3 <= |code|
    ensures var o := CopyFixed(false, Target(false), fl, code, at, from, delta);
      && o.Some? && o.value.consumed == |o.value.out| == 3 && o.value.out[0] == code[at]
      && WordBranch(from + delta + 3, o.value.out, 1) == WordBranch(from + 3, code, at + 1)
      && var moved := Moved(false, Signed(Read(code, at + 1, 2), 0x1_0000), delta);
         o.value.extra == if -0x8000 <= moved <= 0x7FFF then 0 else 2
  {
    hide LE, Read, Wrap, SignedWrap;
    var bytes := code[at..at + 3];
    CapacityFacts();
    ReadIsSlice(bytes, 1, 2);
    ReadIsSlice(code, at + 1, 2);
    assert bytes[1..3] == code[at + 1..at + 3];
    var rel := Signed(Read(bytes, 1, 2), 0x1_0000);
    var v := Wrap(Moved(false, rel, delta), 0x1_0000);
    ReadOfStored([code[at]], v, 2, []);
    assert Blit(bytes, 1, LE(v, 2)) == [code[at]] + LE(v, 2) + [];
    WordMoves(rel - delta, from + delta + 3);
    assert from + delta + 3 + (rel - delta) == from + 3 + rel;
  }

  lemma WordMoves(r: int, next: int)
    ensures var v := Wrap(SignedWrap(r, DWORDS), 0x1_0000);
      v % 0x1_0000 == v && Wrap(next + Signed(v, 0x1_0000), 0x1_0000) == Wrap(next + r, 0x1_0000)
  {
    hide Wrap, SignedWrap;
    var v := Wrap(SignedWrap(r, DWORDS), 0x1_0000);
    Reach(next, r, 0x1_0000, DWORDS, 0x1_0000);
    SignedWrapFacts(r, 0x1_0000);
    assert Signed(v, 0x1_0000) == SignedWrap(SignedWrap(r, DWORDS), 0x1_0000) by {
      SignedWrapIs(SignedWrap(r, DWORDS), 0x1_0000);
    }
    CongruentShift(next, SignedWrap(r, 0x1_0000), r, 0x1_0000);
  }

  lemma SignedWrapIs(x: int, m: nat)
    requires m >= 1
    ensures SignedWrap(x, m) == Signed(Wrap(x, m), m)
  {
  }

  // ------------------------------------------------------------------ LOOP and JCXZ

  predicate LoopOpcode(b: Byte) { 0xE0 <= b <= 0xE3 }

  /** LOOP and JCXZ cannot grow: their copy has the same destination exactly when the moved operand
      fits a byte. When it does not, the reported growth is negative, though two bytes are written. */
  lemma LoopKeptIffItFits(x64: bool, fl: Overrides, code: seq<Byte>, s: nat, base: int, delta: int)
    requires s + 2 <= |code| && LoopOpcode(code[s])
    ensures var o := Copied(x64, fl, code, s, base, delta);
      && o.Some? && o.value.consumed == |o.value.out| == 2 && o.value.out[0] == code[s]
      && o.value.target == At(Short(x64, base + s + 2, code, s + 1))
      && var fits := FitsByte(Moved(x64, SignedByte(code[s + 1]), delta));
         && (Short(x64, base + s + delta + 2, o.value.out, 1) == Short(x64, base + s + 2, code, s + 1) <==> fits)
         && o.value.extra == if fits then 0 else -3
  {
    hide CopyFixed, CopyTable, HandleNext, Short, FitsByte, Moved;
    LoopEntry(x64, code[s]);
    LoopCopy(x64, fl, code, s, base + s, delta);
    assert Dispatch(x64, fl, code, s) == Some(Route(s, Fixed(CantJump()), fl, false));
    var o := CopyFixed(x64, CantJump(), fl, code, s, base + s, delta).value;
    assert code[s..s] + o.out == o.out;
  }

  lemma LoopCopy(x64: bool, fl: Overrides, code: seq<Byte>, s: nat, from: int, delta: int)
    requires s + 2 <= |code|
    ensures var o := CopyFixed(x64, CantJump(), fl, code, s, from, delta);
      && o.Some? && o.value.consumed == |o.value.out| == 2 && o.value.out[0] == code[s]
      && o.value.target == At(Short(x64, from + 2, code, s + 1))
      && var fits := FitsByte(Moved(x64, SignedByte(code[s + 1]), delta));
         && (Short(x64, from + delta + 2, o.value.out, 1) == Short(x64, from + 2, code, s + 1) <==> fits)
         && o.value.extra == if fits then 0 else -3
  {
    hide Wrap;
    CapacityFacts();
    var bytes, rel := code[s..s + 2], SignedByte(code[s + 1]);
    assert Read(bytes, 1, 1) == bytes[1] + 256 * Read(bytes, 2, 0);
    var v := Wrap(Moved(x64, rel, delta), 0x100);
    assert LE(v, 1) == [v % 256] + LE(v / 256, 0);
    assert Blit(bytes, 1, LE(v, 1)) == [code[s], v];
    var next := from + delta + 2;
    Reach(next, rel - delta, 0x100, Space(x64), if x64 then 0x100_0000_0000_0000 else 0x100_0000);
    assert next + (rel - delta) == from + 2 + rel;
  }

  lemma LoopEntry(x64: bool, b: Byte)
    requires LoopOpcode(b)
    ensures CopyTable(x64, b) == Bytes(CantJump())
  {
  }
}
