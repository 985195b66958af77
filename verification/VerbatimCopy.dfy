/** What copying leaves of an instruction's bytes: all but a relative operand. */
module VerbatimCopy {
  import opened Arith
  import opened Options
  import opened Bytes
  import opened CopyTables
  import opened CopyRoutes
  import opened InstructionCopy
  import opened BranchCopy

  // ------------------------------------------------------------------ the bytes of a copy

  /** A ModR/M byte for an operand relative to the instruction pointer, in 64-bit code. */
  predicate RipForm(modRm: Byte) { modRm / 64 == 0 && modRm % 8 == 5 }

  /** The route leads to a fixed form without an operand that moves. */
  ghost predicate Unmoved(x64: bool, r: Route, code: seq<Byte>) {
    && r.leaf.Fixed? && r.leaf.entry.relOffset == 0
    && (x64 && 0 < r.leaf.entry.modOffset && r.at + r.leaf.entry.modOffset < |code| ==>
      var modRm := code[r.at + r.leaf.entry.modOffset]; !RipForm(modRm) || Flagged(modRm))
  }

  /** Byte i of an instruction at s belongs to an operand that moves: all that is behind the opcode of a
      branch, or the four bytes behind a ModR/M byte. */
  ghost predicate InOperand(x64: bool, r: Route, code: seq<Byte>, s: nat, i: nat)
    requires r.leaf.Fixed?
  {
    var e, at := r.leaf.entry, s + i;
    !Unmoved(x64, r, code)
    && if e.relOffset > 0 then r.at + e.relOffset <= at
       else r.at + e.modOffset < at <= r.at + e.modOffset + 4
  }

  /** Prefixes are copied as they are. Of an instruction without a moving operand every byte is copied as it
      is, wherever the copy goes, and of any other that is not enlarged every byte but the operand. An invalid
      opcode itself is passed over. */
  lemma CopyIsVerbatim(x64: bool, fl: Overrides, code: seq<Byte>, s: nat, base: int, delta: int)
    requires Copied(x64, fl, code, s, base, delta).Some?
    ensures var r, o := Dispatch(x64, fl, code, s), Copied(x64, fl, code, s, base, delta).value;
      && r.Some? && s <= r.value.at <= s + o.consumed <= |code|
      && (r.value.leaf.Bad? ==> o == Outcome(r.value.at - s + 1, code[s..r.value.at], NoTarget, 0))
      && (r.value.leaf.Enlarge? ==> o.consumed == r.value.at - s + 2 && code[s..r.value.at] <= o.out)
      && (r.value.leaf.Fixed? ==>
            && Charge(x64, r.value.leaf.entry, r.value.flags, code, r.value.at) == Some(o.consumed - (r.value.at - s))
            && |o.out| == o.consumed
            && (Unmoved(x64, r.value, code) ==> o.out == code[s..s + o.consumed] && o.extra == 0)
            && forall i :: 0 <= i < o.consumed && !InOperand(x64, r.value, code, s, i) ==> o.out[i] == code[s + i])
  {
    hide Dispatch, CopyFixed, CopyShort, Charge, Unmoved, Group5Target, InOperand;
    var r := Dispatch(x64, fl, code, s).value;
    if r.leaf.Fixed? {
      FixedIsVerbatim(x64, r, code, base + r.at, delta);
      var o := CopyFixed(x64, r.leaf.entry, r.flags, code, r.at, base + r.at, delta).value;
      assert code[s..r.at] + code[r.at..r.at + o.consumed] == code[s..r.at + o.consumed];
      forall i | 0 <= i < r.at - s + o.consumed && !InOperand(x64, r, code, s, i)
        ensures (code[s..r.at] + o.out)[i] == code[s + i]
      {
        if i >= r.at - s {
          SameByte(x64, r, code, s, i);
        }
      }
    } else if r.leaf.Enlarge? {
      ShortSize(x64, code, r.at, base + r.at, delta);
    }
  }

  lemma ShortSize(x64: bool, code: seq<Byte>, at: nat, from: int, delta: int)
    requires at < |code|
    ensures var o := CopyShort(x64, code, at, from, delta); o.Some? ==> o.value.consumed == 2
  {
  }

  lemma SameByte(x64: bool, r: Route, code: seq<Byte>, s: nat, i: nat)
    requires r.leaf.Fixed? && s + i >= r.at
    ensures InOperand(x64, r, code, s, i) == InOperand(x64, r, code, r.at, s + i - r.at)
  {
    hide Unmoved;
  }

  lemma FixedIsVerbatim(x64: bool, r: Route, code: seq<Byte>, from: int, delta: int)
    requires r.leaf.Fixed? && CopyFixed(x64, r.leaf.entry, r.flags, code, r.at, from, delta).Some?
    ensures var o := CopyFixed(x64, r.leaf.entry, r.flags, code, r.at, from, delta).value;
      && Charge(x64, r.leaf.entry, r.flags, code, r.at) == Some(o.consumed) && |o.out| == o.consumed
      && r.at + o.consumed <= |code|
      && (Unmoved(x64, r, code) ==> o.out == code[r.at..r.at + o.consumed] && o.extra == 0)
      && forall i :: 0 <= i < o.consumed && !InOperand(x64, r, code, r.at, i) ==> o.out[i] == code[r.at + i]
  {
    hide LE, Read, Charge, Wrap;
    OperandIsMoved(x64, r, code);
  }

  /** The operand that CopyBytes moves is the one that the manual has. */
  lemma OperandIsMoved(x64: bool, r: Route, code: seq<Byte>)
    requires r.leaf.Fixed? && Charge(x64, r.leaf.entry, r.flags, code, r.at).Some?
    ensures var e, n := r.leaf.entry, Charge(x64, r.leaf.entry, r.flags, code, r.at).value;
      var (off, k) := Relative(x64, e, r.flags, code, r.at);
      && (off == 0 <==> Unmoved(x64, r, code))
      && (off > 0 ==> forall i :: off <= i < off + k ==> InOperand(x64, r, code, r.at, i))
  {
  }

  // ------------------------------------------------------------------ operands of 64-bit code

  /** The address that an operand relative to the instruction pointer names, in an instruction that starts at
      `from` and has n bytes, with the displacement at code[at..]. */
  function RipAddress(from: int, n: nat, code: seq<Byte>, at: nat): nat
    requires at + 4 <= |code|
  {
    Near(true, from + n, code, at)
  }

  /** An operand relative to the instruction pointer names the same address in the copy exactly if that is
      within reach, unless it is one of the four that the ModR/M table takes for something else: then the copy
      has to be at the same address, modulo 2^64. */
  lemma RipKept(fl: Overrides, code: seq<Byte>, s: nat, base: int, delta: int)
    requires Copied(true, fl, code, s, base, delta).Some?
    requires var r := Dispatch(true, fl, code, s);
      && r.Some? && r.value.leaf.Fixed? && 0 < r.value.leaf.entry.modOffset
      && r.value.at + r.value.leaf.entry.modOffset < |code| && RipForm(code[r.value.at + r.value.leaf.entry.modOffset])
    ensures var r, o := Dispatch(true, fl, code, s).value, Copied(true, fl, code, s, base, delta).value;
      var disp := r.at + r.leaf.entry.modOffset + 1;
      && disp + 4 <= |code| && disp - s + 4 <= |o.out| == o.consumed
      && var address := RipAddress(base + s, o.consumed, code, disp);
         RipAddress(base + s + delta, o.consumed, o.out, disp - s) == address
         <==> if Flagged(code[disp - 1]) then Wrap(delta, QWORDS) == 0
              else InReach(true, base + s + delta + o.consumed, address)
  {
    hide Dispatch, CopyFixed, Near, Group5Target, Unmoved, Wrap, InReach;
    var r := Dispatch(true, fl, code, s).value;
    RipCopy(r, code, base + r.at, delta);
    var o := CopyFixed(true, r.leaf.entry, r.flags, code, r.at, base + r.at, delta).value;
    NearShift(true, code[s..r.at], o.out);
  }

  lemma RipCopy(r: Route, code: seq<Byte>, from: int, delta: int)
    requires r.leaf.Fixed? && CopyFixed(true, r.leaf.entry, r.flags, code, r.at, from, delta).Some?
    requires 0 < r.leaf.entry.modOffset && r.at + r.leaf.entry.modOffset < |code|
    requires RipForm(code[r.at + r.leaf.entry.modOffset])
    ensures
      var o, disp := CopyFixed(true, r.leaf.entry, r.flags, code, r.at, from, delta).value, r.leaf.entry.modOffset + 1;
      && r.at + disp + 4 <= |code| && disp + 4 <= |o.out| == o.consumed
      && var address := Near(true, from + o.consumed, code, r.at + disp);
         Near(true, from + delta + o.consumed, o.out, disp) == address
         <==> if Flagged(code[r.at + disp - 1]) then Wrap(delta, QWORDS) == 0
              else InReach(true, from + delta + o.consumed, address)
  {
    hide LE, Wrap, InReach, ModRm, CopyFixed, Charge, Moved, Flagged, Signed, Blit, SignedWrap, Read;
    RipBytes(r, code, from, delta);
    var o := CopyFixed(true, r.leaf.entry, r.flags, code, r.at, from, delta).value;
    var n, disp := o.consumed, r.leaf.entry.modOffset + 1;
    var bytes := code[r.at..r.at + n];
    OperandInSlice(code, r.at, n, disp);
    var rel := Signed(Read(bytes, disp, 4), DWORDS);
    if Flagged(code[r.at + disp - 1]) {
      ShiftedEqual(from + n + rel, delta, QWORDS);
      assert from + delta + n + rel == from + n + rel + delta;
    } else {
      OperandReplaced(bytes, disp, rel, delta, from + n);
    }
  }

  lemma OperandInSlice(code: seq<Byte>, at: nat, n: nat, disp: nat)
    requires at + n <= |code| && disp + 4 <= n
    ensures Read(code[at..at + n], disp, 4) == Read(code, at + disp, 4)
  {
    hide Read;
    ReadIsSlice(code[at..at + n], disp, 4);
    ReadIsSlice(code, at + disp, 4);
    var x, y := code[at..at + n][disp..disp + 4], code[at + disp..at + disp + 4];
    assert forall i :: 0 <= i < 4 ==> x[i] == code[at + disp + i] == y[i];
    assert x == y;
  }

  lemma RipBytes(r: Route, code: seq<Byte>, from: int, delta: int)
    requires r.leaf.Fixed? && CopyFixed(true, r.leaf.entry, r.flags, code, r.at, from, delta).Some?
    requires 0 < r.leaf.entry.modOffset && r.at + r.leaf.entry.modOffset < |code|
    requires RipForm(code[r.at + r.leaf.entry.modOffset])
    ensures
      var o, disp := CopyFixed(true, r.leaf.entry, r.flags, code, r.at, from, delta).value, r.leaf.entry.modOffset + 1;
      && disp + 4 <= o.consumed && r.at + o.consumed <= |code|
      && var bytes := code[r.at..r.at + o.consumed];
         o.out == if Flagged(code[r.at + disp - 1]) then bytes
                  else Blit(bytes, disp, LE(Wrap(Moved(true, Signed(Read(bytes, disp, 4), DWORDS), delta), DWORDS), 4))
  {
    hide LE, Wrap, Moved, Read, Signed, Charge, Relative, Blit, Flagged;
    CapacityFacts();
    RipSize(r, code);
  }

  lemma RipSize(r: Route, code: seq<Byte>)
    requires r.leaf.Fixed? && Charge(true, r.leaf.entry, r.flags, code, r.at).Some?
    requires 0 < r.leaf.entry.modOffset && r.at + r.leaf.entry.modOffset < |code|
    requires RipForm(code[r.at + r.leaf.entry.modOffset])
    ensures var e, n := r.leaf.entry, Charge(true, r.leaf.entry, r.flags, code, r.at).value;
      && e.modOffset + 5 <= n && r.at + n <= |code|
      && Relative(true, e, r.flags, code, r.at)
         == if Flagged(code[r.at + e.modOffset]) then (0, 0) else (e.modOffset + 1, 4)
  {
  }

  lemma OperandReplaced(bytes: seq<Byte>, disp: nat, rel: int, delta: int, next: int)
    requires disp + 4 <= |bytes|
    ensures var out := Blit(bytes, disp, LE(Wrap(Moved(true, rel, delta), DWORDS), 4));
      Near(true, next + delta, out, disp) == Wrap(next + rel, QWORDS)
      <==> InReach(true, next + delta, Wrap(next + rel, QWORDS))
  {
    hide LE, Wrap, InReach;
    var v := Wrap(Moved(true, rel, delta), DWORDS);
    MovedWord(true, rel - delta);
    var head := bytes[..disp];
    StoredOperand(true, head, rel - delta, next + delta);
    assert next + delta + (rel - delta) == next + rel;
    var out, direct := Blit(bytes, disp, LE(v, 4)), head + LE(v, 4);
    ReadIsSlice(out, disp, 4);
    ReadIsSlice(direct, disp, 4);
    assert out[disp..disp + 4] == direct[disp..disp + 4];
  }

  /** Of an opcode FF the copier reports: the pointer of a call or jump through an address in the instruction,
      unless a segment override changes what it means; that the target is not known, for any other indirect call
      or jump; and nothing for INC, DEC and PUSH. */
  lemma IndirectReported(x64: bool, fl: Overrides, code: seq<Byte>, s: nat, base: int, delta: int)
    requires s + 6 <= |code| && code[s] == 0xFF && Copied(x64, fl, code, s, base, delta).Some?
    ensures var target, reg := Copied(x64, fl, code, s, base, delta).value.target, code[s + 1] / 8 % 8;
      if reg !in {2, 3, 4, 5} then target == NoTarget
      else if code[s + 1] !in {0x15, 0x25} then target == AnyTarget
      else if (if x64 then fl.segment in {0x64, 0x65} else fl.segment !in {0, 0x2E}) then target == AnyTarget
      else target == PointerAt(if x64 then RipAddress(base + s, 6, code, s + 2) else Read(code, s + 2, 4))
  {
    hide CopyTable, HandleNext, CopyFixed, Dispatch, Group5Target, RipAddress, Read;
    IndirectEntry(x64);
    IndirectRoute(x64, fl, code, s);
    Group5Reported(x64, fl, code, s, base + s);
    if CopyFixed(x64, Mod(2), fl, code, s, base + s, delta).Some? {
      ModTarget(x64, fl, code, s, base + s, delta);
    }
  }

  lemma Group5Reported(x64: bool, fl: Overrides, code: seq<Byte>, s: nat, from: int)
    requires s + 6 <= |code|
    ensures var target, reg := Group5Target(x64, fl, code, s, from, NoTarget), code[s + 1] / 8 % 8;
      if reg !in {2, 3, 4, 5} then target == NoTarget
      else if code[s + 1] !in {0x15, 0x25} then target == AnyTarget
      else if (if x64 then fl.segment in {0x64, 0x65} else fl.segment !in {0, 0x2E}) then target == AnyTarget
      else target == PointerAt(if x64 then RipAddress(from, 6, code, s + 2) else Read(code, s + 2, 4))
  {
    hide Read, Wrap;
  }

  lemma ModTarget(x64: bool, fl: Overrides, code: seq<Byte>, s: nat, from: int, delta: int)
    requires CopyFixed(x64, Mod(2), fl, code, s, from, delta).Some?
    ensures CopyFixed(x64, Mod(2), fl, code, s, from, delta).value.target == NoTarget
  {
    hide LE, Read, Wrap, Charge, Moved, Growth, Blit;
  }

  lemma IndirectRoute(x64: bool, fl: Overrides, code: seq<Byte>, s: nat)
    requires s + 1 < |code| && code[s] == 0xFF && CopyTable(x64, 0xFF) == OpFF
    ensures Dispatch(x64, fl, code, s) == Some(Route(s, Fixed(Mod(2)), fl, true))
  {
    hide CopyTable;
    assert Dispatch(x64, fl, code, s) == HandleNext(x64, OpFF, code[s + 1], fl, code, s);
  }

  lemma IndirectEntry(x64: bool)
    ensures CopyTable(x64, 0xFF) == OpFF
  {
  }

  // ------------------------------------------------------------------ which instructions move an operand

  /** The first byte from i on that is no prefix. */
  function PastPrefixes(code: seq<Byte>, i: nat): (j: nat)
    ensures i <= j && (j < |code| ==> !LegacyPrefix(code[j]) && code[j] != 0x66)
    decreases |code| - i
  {
    if i < |code| && (LegacyPrefix(code[i]) || code[i] == 0x66) then PastPrefixes(code, i + 1) else i
  }

  /** The opcode of a jump or call relative to the instruction pointer, a loop included. */
  predicate RelativeOpcode(code: seq<Byte>, j: nat) {
    j < |code| && (LoopOpcode(code[j]) || NearOpcode(code[j]) || ShortOpcode(code[j])
      || (code[j] == 0x0F && j + 1 < |code| && ConditionOpcode(code[j + 1])))
  }

  /** In 32-bit code, VEX, EVEX and their look-alikes aside, exactly the relative jumps and calls have an operand
      that moves, and an invalid opcode is none. */
  lemma {:induction false} UnmovedIfNoBranch(fl: Overrides, code: seq<Byte>, s: nat)
    requires Dispatch(false, fl, code, s).Some? && PastPrefixes(code, s) < |code|
    requires code[PastPrefixes(code, s)] !in {0x62, 0xC4, 0xC5}
    ensures var r := Dispatch(false, fl, code, s).value;
      RelativeOpcode(code, PastPrefixes(code, s)) <==> !r.leaf.Bad? && !Unmoved(false, r, code)
    decreases |code| - s
  {
    hide CopyTable, CopyTable0F;
    FirstByte(code[s]);
    if LegacyPrefix(code[s]) || code[s] == 0x66 {
      var w := AnyStep(fl, code, s);
      UnmovedIfNoBranch(w, code, s + 1);
    } else if code[s] == 0x0F {
      SecondByteRoute0F(fl, code, s);
    } else {
      assert Dispatch(false, fl, code, s) == Handle(false, CopyTable(false, code[s]), fl, code, s);
      LeafOfEntry(CopyTable(false, code[s]), fl, code, s);
    }
  }

  lemma SecondByteRoute0F(fl: Overrides, code: seq<Byte>, s: nat)
    requires s < |code| && code[s] == 0x0F && Dispatch(false, fl, code, s).Some?
    ensures var r := Dispatch(false, fl, code, s).value;
      s + 1 < |code| && (ConditionOpcode(code[s + 1]) <==> !r.leaf.Bad? && !Unmoved(false, r, code))
  {
    hide CopyTable, CopyTable0F;
    FirstByte(0x0F);
    var e := CopyTable(false, code[s]);
    assert Dispatch(false, fl, code, s) == Handle(false, e, fl, code, s);
    assert s + 1 < |code|;
    SecondByte(code[s + 1]);
    assert Handle(false, e, fl, code, s) == HandleNext(false, e, code[s + 1], fl, code, s);
    assert HandleNext(false, e, code[s + 1], fl, code, s)
      == Handle(false, CopyTable0F(false, code[s + 1]), fl, code, s + 1);
    LeafOfEntry(CopyTable0F(false, code[s + 1]), fl, code, s + 1);
  }

  /** The handlers that copy at once, or look at one more byte. */
  ghost predicate AtOnce(e: CopyEntry) {
    e.Bytes? || e.Jump? || e.Invalid? || e.Op0F78? || e.Op0FB8? || e.Op0F00? || e.OpF6? || e.OpF7? || e.OpFF? || e.Xop?
  }

  lemma LeafOfEntry(e: CopyEntry, fl: Overrides, code: seq<Byte>, s: nat)
    requires s < |code| && AtOnce(e) && Handle(false, e, fl, code, s).Some?
    ensures var r := Handle(false, e, fl, code, s).value;
      && (r.leaf.Bad? <==> e.Invalid?)
      && (Unmoved(false, r, code) <==> !e.Invalid? && !e.Jump? && !(e.Bytes? && e.form.relOffset > 0))
  {
  }

  lemma AnyStep(fl: Overrides, code: seq<Byte>, s: nat) returns (w: Overrides)
    requires s < |code| && (LegacyPrefix(code[s]) || code[s] == 0x66)
    ensures Dispatch(false, fl, code, s) == Dispatch(false, w, code, s + 1)
  {
    hide CopyTable, HandleNext;
    var e := CopyTable(false, code[s]);
    FirstByte(code[s]);
    w := match e
      case Segment => fl.(segment := code[s])
      case F2 => fl.(f2 := true)
      case F3 => fl.(f3 := true)
      case Op66 => fl.(operand := true)
      case Op67 => fl.(address := true)
      case _ => fl;
  }

  /** What the table says of a first byte. */
  ghost predicate FirstIsRight(b: Byte) {
    var e := CopyTable(false, b);
    && (LegacyPrefix(b) || b == 0x66 ==> e.Prefix? || e.Segment? || e.F2? || e.F3? || e.Op66? || e.Op67?)
    && (e.Prefix? || e.Segment? || e.F2? || e.F3? || e.Op66? || e.Op67? || e.Rex? ==> LegacyPrefix(b) || b == 0x66)
    && !e.Rex? && (e.TwoByte? <==> b == 0x0F) && (e.Jump? <==> ShortOpcode(b))
    && (e.Bytes? ==> (e.form.relOffset > 0 <==> LoopOpcode(b) || NearOpcode(b)))
    && (LoopOpcode(b) || NearOpcode(b) ==> e.Bytes?) && !e.Op0F78? && !e.Op0FB8? && !e.Op0F00?
    && (e.Vex2? || e.Vex3? || e.Evex? ==> b in {0x62, 0xC4, 0xC5})
  }

  lemma FirstBelow10(b: Byte)
    requires b < 0x10
    ensures FirstIsRight(b)
  {
  }

  lemma FirstBelow20(b: Byte)
    requires 0x10 <= b < 0x20
    ensures FirstIsRight(b)
  {
  }

  lemma FirstBelow40(b: Byte)
    requires 0x20 <= b < 0x40
    ensures FirstIsRight(b)
  {
  }

  lemma FirstBelow70(b: Byte)
    requires 0x40 <= b < 0x70
    ensures FirstIsRight(b)
  {
  }

  lemma FirstBelow90(b: Byte)
    requires 0x70 <= b < 0x90
    ensures FirstIsRight(b)
  {
  }

  lemma FirstBelowB0(b: Byte)
    requires 0x90 <= b < 0xB0
    ensures FirstIsRight(b)
  {
  }

  lemma FirstBelowC0(b: Byte)
    requires 0xB0 <= b < 0xC0
    ensures FirstIsRight(b)
  {
  }

  lemma FirstBelowC8(b: Byte)
    requires 0xC0 <= b < 0xC8
    ensures FirstIsRight(b)
  {
  }

  lemma FirstBelowD0(b: Byte)
    requires 0xC8 <= b < 0xD0
    ensures FirstIsRight(b)
  {
  }

  lemma FirstFromD0(b: Byte)
    requires 0xD0 <= b
    ensures FirstIsRight(b)
  {
  }

  lemma FirstByte(b: Byte)
    ensures FirstIsRight(b)
  {
    hide FirstIsRight;
    if b < 0x10 {
      FirstBelow10(b);
    } else if b < 0x20 {
      FirstBelow20(b);
    } else if b < 0x40 {
      FirstBelow40(b);
    } else if b < 0x70 {
      FirstBelow70(b);
    } else if b < 0x90 {
      FirstBelow90(b);
    } else if b < 0xB0 {
      FirstBelowB0(b);
    } else if b < 0xC0 {
      FirstBelowC0(b);
    } else if b < 0xC8 {
      FirstBelowC8(b);
    } else if b < 0xD0 {
      FirstBelowD0(b);
    } else {
      FirstFromD0(b);
    }
  }

  lemma SecondByte(b: Byte)
    ensures var e := CopyTable0F(false, b);
      && (e.Bytes? || e.Op0F78? || e.Op0F00? || e.Op0FB8? || e.Invalid?)
      && (e.Bytes? ==> (e.form.relOffset > 0 <==> ConditionOpcode(b))) && (ConditionOpcode(b) ==> e.Bytes?)
  {
  }
}
