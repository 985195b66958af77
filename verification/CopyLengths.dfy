/** How many bytes the copier takes an instruction to have, against the manual. */
module CopyLengths {
  import opened Arith
  import opened Options
  import opened Bytes
  import opened CopyTables
  import opened CopyRoutes
  import opened InstructionCopy

  /** The length by the manual of a 32-bit one-byte-opcode instruction whose opcode stands at `at`. */
  function ManualLength(f: Operands, fl: Overrides, code: seq<Byte>, at: nat): nat
    requires at + 2 < |code|
  {
    var wide := if f.addressSized then !fl.address else !fl.operand;
    FormSize(f, wide) + if !f.modRm then 0 else if fl.address then Forms16(code[at + 1])
      else Forms32(code[at + 1], code[at + 2])
  }

  /** The forms for which the copier's ModR/M table gives the manual's length. */
  predicate TableIsRight(fl: Overrides, code: seq<Byte>, at: nat)
    requires at + 2 < |code|
  {
    var mode, rm := code[at + 1] / 64, code[at + 1] % 8;
    if fl.address then mode == 3 || (mode == 0 && rm !in {4, 5, 6}) || (mode == 1 && rm != 4)
    else !(code[at + 1] in {0x0D, 0x1D, 0x2D, 0x3D} && code[at + 2] % 8 == 5)
  }

  /** An entry with the sizes of a form is charged the manual's length exactly when the form has no
      ModR/M byte or the table is right about it. */
  lemma ChargeIsManual(e: FixedEntry, f: Operands, fl: Overrides, code: seq<Byte>, at: nat)
    requires at + 24 <= |code| && Charges(e, f) && f.imm <= 3 && !(f.modRm && f.addressSized)
    ensures Charge(false, e, fl, code, at) == Some(ManualLength(f, fl, code, at)) <==>
      !f.modRm || TableIsRight(fl, code, at)
  {
    hide Addressing;
    if f.modRm {
      AddressingIs32BitForm(code, at + 1);
      AddressingIs16BitForm(code, at + 1);
      AddressingBound(code, at + 1);
    }
  }

  /** So is every x86 instruction with a one-byte opcode. */
  lemma LengthIsManual(fl: Overrides, code: seq<Byte>, at: nat)
    requires at + 24 <= |code| && OneByteForm(code[at]).Some?
    ensures var e, f := CopyTable(false, code[at]), OneByteForm(code[at]).value;
      e.Bytes? && (Charge(false, e.form, fl, code, at) == Some(ManualLength(f, fl, code, at))
                   <==> !f.modRm || TableIsRight(fl, code, at))
  {
    hide CopyTable, OneByteForm, Charge, TableIsRight;
    TableIsOpcodeMap(code[at]);
    OperandBytes(code[at]);
    ChargeIsManual(CopyTable(false, code[at]).form, OneByteForm(code[at]).value, fl, code, at);
  }

  /** The length by the manual of a 32-bit instruction whose opcode behind 0F stands at `at`, from there on. */
  function ManualLength0F(f: Operands, fl: Overrides, code: seq<Byte>, at: nat): nat
    requires at + 2 < |code|
  {
    if RegistersOnly(code[at]) then FormSize(f, !fl.operand) else ManualLength(f, fl, code, at)
  }

  /** No SIB or displacement bytes are charged. */
  predicate NoneCharged(modRm: Byte) { modRm / 64 == 3 || (modRm / 64 == 0 && modRm % 8 !in {4, 5}) }

  lemma NoneChargedExactly(code: seq<Byte>, at: nat)
    requires at + 1 < |code|
    ensures Addressing(code, at) == Some(0) <==> NoneCharged(code[at])
  {
  }

  /** And every one with an opcode behind 0F; for an opcode with register operands only, exactly when nothing
      is charged behind its ModR/M byte. */
  lemma Length0FIsManual(fl: Overrides, code: seq<Byte>, at: nat)
    requires at + 24 <= |code| && TwoByteForm(code[at]).Some?
    ensures var e, f := CopyTable0F(false, code[at]), TwoByteForm(code[at]).value;
      e.Bytes? && (Charge(false, e.form, fl, code, at) == Some(ManualLength0F(f, fl, code, at))
                   <==> if RegistersOnly(code[at]) then NoneCharged(code[at + 1])
                        else !f.modRm || TableIsRight(fl, code, at))
  {
    hide CopyTable0F, TableIsRight, Addressing, NoneCharged;
    Table0FIsOpcodeMap(code[at]);
    ChargeIsManual(CopyTable0F(false, code[at]).form, TwoByteForm(code[at]).value, fl, code, at);
    NoneChargedExactly(code, at + 1);
    AddressingBound(code, at + 1);
  }

  /** MOV EAX, CR0 with a mod field of 1: three bytes, by the copier four. */
  lemma ControlRegisterOvercharged(fl: Overrides, tail: seq<Byte>)
    requires |tail| >= 24
    ensures var code := [0x0F, 0x20, 0x45] + tail; var r := Dispatch(false, fl, code, 0);
      && r.Some? && r.value.at == 1 && r.value.leaf.Fixed?
      && Charge(false, r.value.leaf.entry, fl, code, 1) == Some(3)
      && ManualLength0F(Operands(true, 0, false, false), fl, code, 1) == 2
  {
    hide CopyTable, CopyTable0F, Dispatch, Addressing;
    var code := [0x0F, 0x20, 0x45] + tail;
    ControlRegisterEntries();
    SecondByteRoute(false, fl, code, 0);
  }

  lemma ControlRegisterEntries()
    ensures CopyTable0F(false, 0x20) == Bytes(Mod(2))
    ensures forall code: seq<Byte>, at: nat :: at < |code| && code[at] == 0x45 ==> Addressing(code, at) == Some(1)
  {
  }

  lemma SecondByteRoute(x64: bool, fl: Overrides, code: seq<Byte>, s: nat)
    requires s + 1 < |code| && code[s] == 0x0F && CopyTable0F(x64, code[s + 1]).Bytes?
    ensures Dispatch(x64, fl, code, s) == Some(Route(s + 1, Fixed(CopyTable0F(x64, code[s + 1]).form), fl, false))
  {
    hide CopyTable, CopyTable0F;
    assert CopyTable(x64, 0x0F) == TwoByte by {
      EscapeEntry(x64);
    }
    var e := CopyTable0F(x64, code[s + 1]);
    assert Dispatch(x64, fl, code, s) == HandleNext(x64, TwoByte, code[s + 1], fl, code, s);
    assert HandleNext(x64, TwoByte, code[s + 1], fl, code, s) == Handle(x64, e, fl, code, s + 1);
  }

  lemma EscapeEntry(x64: bool)
    ensures CopyTable(x64, 0x0F) == TwoByte
  {
  }

  /** Group 3: F6 and F7 have an immediate with reg field 0, a TEST; the manual leaves field 1
      undefined. Groups 4 and 5 have none. */
  function GroupForm(op: Byte, modRm: Byte): Operands
    requires op in {0xF6, 0xF7, 0xFF}
  {
    if op == 0xFF || Reg(modRm) != 0 then Operands(true, 0, false, false)
    else if op == 0xF6 then Operands(true, 1, false, false)
    else Operands(true, 0, true, false)
  }

  lemma GroupLengthIsManual(fl: Overrides, code: seq<Byte>, at: nat)
    requires at + 24 <= |code| && code[at] in {0xF6, 0xF7, 0xFF}
    ensures var r := Dispatch(false, fl, code, at);
      && r.Some? && r.value.at == at && r.value.leaf.Fixed?
      && (Charge(false, r.value.leaf.entry, fl, code, at)
          == Some(ManualLength(GroupForm(code[at], code[at + 1]), fl, code, at))
          <==> TableIsRight(fl, code, at))
  {
    hide CopyTable, Charge, TableIsRight, ManualLength, Reg;
    GroupEntries();
    var e := CopyTable(false, code[at]);
    assert Dispatch(false, fl, code, at) == HandleNext(false, e, code[at + 1], fl, code, at);
    var r := Dispatch(false, fl, code, at);
    ChargeIsManual(r.value.leaf.entry, GroupForm(code[at], code[at + 1]), fl, code, at);
  }

  lemma GroupEntries()
    ensures forall x64 :: CopyTable(x64, 0xF6) == OpF6 && CopyTable(x64, 0xF7) == OpF7 && CopyTable(x64, 0xFF) == OpFF
  {
  }

  lemma OperandBytes(b: Byte)
    requires OneByteForm(b).Some?
    ensures var f := OneByteForm(b).value; f.imm <= 3 && !(f.modRm && f.addressSized)
  {
  }

  lemma AddressingBound(code: seq<Byte>, at: nat)
    requires at + 1 < |code|
    ensures Addressing(code, at).Some? && Addressing(code, at).value <= 9
  {
  }

  // ------------------------------------------------------------------ 64-bit code

  /** The one-byte opcode map of 64-bit code: without the opcodes that are invalid there, and those that
      are REX prefixes. */
  function OneByteForm64(b: Byte): Option<Operands> {
    if b in {0x06, 0x07, 0x0E, 0x16, 0x17, 0x1E, 0x1F, 0x27, 0x2F,
      0x37, 0x3F, 0x60, 0x61, 0x82, 0x9A, 0xCE, 0xD4, 0xD5, 0xEA}
      || 0x40 <= b <= 0x4F then None
    else OneByteForm(b)
  }

  /** The size of the sized immediate behind opcode b: near branches have four bytes, addresses eight or
      with 67 four, MOV B8 to BF eight with REX.W, and all others four, or two with 66 and without REX.W. */
  function Immediate64(b: Byte, f: Operands, fl: Overrides, w: bool): nat {
    if f.addressSized then (if fl.address then 4 else 8)
    else if !f.operandSized then 0
    else if b in {0xE8, 0xE9} then 4
    else if w && 0xB8 <= b <= 0xBF then 8
    else if fl.operand && !w then 2
    else 4
  }

  /** The length by the manual of a 64-bit instruction with a one-byte opcode at `at`, where w says
      whether it has REX.W. Addressing forms have the 32-bit sizes, with 67 or without. */
  function ManualLength64(f: Operands, fl: Overrides, w: bool, code: seq<Byte>, at: nat): nat
    requires at + 2 < |code|
  {
    1 + f.imm + Immediate64(code[at], f, fl, w) + if f.modRm then 1 + Forms32(code[at + 1], code[at + 2]) else 0
  }

  /** The copier takes any REX for REX.W: wrong for MOV B8 to BF, and for an operand-sized immediate
      behind 66. */
  predicate RexIsRight(b: Byte, f: Operands, fl: Overrides, w: bool) {
    fl.rax == w || !f.operandSized || b in {0xE8, 0xE9} || !(0xB8 <= b <= 0xBF || fl.operand)
  }

  ghost predicate AddressingIsRight(f: Operands, code: seq<Byte>, at: nat)
    requires at + 2 < |code|
  {
    f.modRm ==> !(Flagged(code[at + 1]) && code[at + 2] % 8 == 5)
  }

  /** The entry has the sizes of a form of the opcode map of 64-bit code. */
  ghost predicate Charges64(e: FixedEntry, b: Byte, f: Operands) {
    && (e.modOffset == if f.modRm then 1 else 0) && (e.flag == AddressSized <==> f.addressSized)
    && (e.flag == RaxSized <==> 0xB8 <= b <= 0xBF) && !(f.addressSized && f.operandSized)
    && e.fixedSize == 1 + (if f.modRm then 1 else 0) + f.imm
       + (if f.addressSized then 8 else if f.operandSized then 4 else 0)
    && e.fixedSize16 == 1 + (if f.modRm then 1 else 0) + f.imm
       + (if f.addressSized || b in {0xE8, 0xE9} then 4 else if f.operandSized then 2 else 0)
    && f.imm <= 3 && (0xB8 <= b <= 0xBF || b in {0xE8, 0xE9} ==> f.operandSized)
  }

  ghost predicate SizedByMap64(b: Byte)
    requires OneByteForm64(b).Some?
  {
    CopyTable(true, b).Bytes? && Charges64(CopyTable(true, b).form, b, OneByteForm64(b).value)
  }

  lemma Map64From00(b: Byte)
    requires OneByteForm64(b).Some? && b < 0x20
    ensures SizedByMap64(b)
  {
    assert b == 8 * (b / 8) + b % 8;
  }

  lemma Map64From20(b: Byte)
    requires OneByteForm64(b).Some? && 0x20 <= b < 0x40
    ensures SizedByMap64(b)
  {
    assert b == 8 * (b / 8) + b % 8;
  }

  lemma Map64From40(b: Byte)
    requires OneByteForm64(b).Some? && 0x40 <= b < 0x68
    ensures SizedByMap64(b)
  {
  }

  lemma Map64From68(b: Byte)
    requires OneByteForm64(b).Some? && 0x68 <= b < 0x80
    ensures SizedByMap64(b)
  {
  }

  lemma Map64From80(b: Byte)
    requires OneByteForm64(b).Some? && 0x80 <= b < 0xA0
    ensures SizedByMap64(b)
  {
  }

  lemma Map64FromA0(b: Byte)
    requires OneByteForm64(b).Some? && 0xA0 <= b < 0xC8
    ensures SizedByMap64(b)
  {
  }

  lemma Map64FromC8(b: Byte)
    requires OneByteForm64(b).Some? && 0xC8 <= b < 0xE0
    ensures SizedByMap64(b)
  {
  }

  lemma Map64FromE0(b: Byte)
    requires OneByteForm64(b).Some? && 0xE0 <= b
    ensures SizedByMap64(b)
  {
  }

  /** The x64 table charges the opcode map's sizes. */
  lemma TableIsOpcodeMap64(b: Byte)
    requires OneByteForm64(b).Some?
    ensures SizedByMap64(b)
  {
    hide SizedByMap64, CopyTable, OneByteForm64;
    if b < 0x20 {
      Map64From00(b);
    } else if b < 0x40 {
      Map64From20(b);
    } else if b < 0x68 {
      Map64From40(b);
    } else if b < 0x80 {
      Map64From68(b);
    } else if b < 0xA0 {
      Map64From80(b);
    } else if b < 0xC8 {
      Map64FromA0(b);
    } else if b < 0xE0 {
      Map64FromC8(b);
    } else {
      Map64FromE0(b);
    }
  }

  /** A 64-bit instruction with a one-byte opcode is charged the manual's length exactly when its REX
      prefix, if it has one, sets W where that matters and the addressing form is one the table is right
      about. */
  lemma Length64IsManual(fl: Overrides, w: bool, code: seq<Byte>, at: nat)
    requires at + 24 <= |code| && OneByteForm64(code[at]).Some? && (w ==> fl.rax)
    ensures var e, f := CopyTable(true, code[at]), OneByteForm64(code[at]).value;
      e.Bytes? && (Charge(true, e.form, fl, code, at) == Some(ManualLength64(f, fl, w, code, at))
                   <==> RexIsRight(code[at], f, fl, w) && AddressingIsRight(f, code, at))
  {
    hide CopyTable, OneByteForm64, Charge, RexIsRight, AddressingIsRight, ManualLength64;
    TableIsOpcodeMap64(code[at]);
    Charge64(CopyTable(true, code[at]).form, OneByteForm64(code[at]).value, fl, w, code, at);
  }

  lemma Charge64(e: FixedEntry, f: Operands, fl: Overrides, w: bool, code: seq<Byte>, at: nat)
    requires at + 24 <= |code| && Charges64(e, code[at], f) && (w ==> fl.rax)
    ensures Charge(true, e, fl, code, at) == Some(ManualLength64(f, fl, w, code, at))
      <==> RexIsRight(code[at], f, fl, w) && AddressingIsRight(f, code, at)
  {
    hide Addressing, Forms32;
    if f.modRm {
      AddressingIs32BitForm(code, at + 1);
      AddressingBound(code, at + 1);
      AddressingNotShort(code, at + 1);
    }
  }

  /** The charge for the addressing form is never too small. */
  lemma AddressingNotShort(code: seq<Byte>, at: nat)
    requires at + 1 < |code|
    ensures Addressing(code, at).Some? && Forms32(code[at], code[at + 1]) <= Addressing(code, at).value
  {
  }

  /** Groups 3 to 5 in 64-bit code. */
  lemma GroupLength64(fl: Overrides, w: bool, code: seq<Byte>, at: nat)
    requires at + 24 <= |code| && code[at] in {0xF6, 0xF7, 0xFF} && (w ==> fl.rax)
    ensures var r, f := Dispatch(true, fl, code, at), GroupForm(code[at], code[at + 1]);
      && r.Some? && r.value.at == at && r.value.leaf.Fixed?
      && (Charge(true, r.value.leaf.entry, fl, code, at) == Some(ManualLength64(f, fl, w, code, at))
          <==> RexIsRight(code[at], f, fl, w) && AddressingIsRight(f, code, at))
  {
    hide CopyTable, Charge, RexIsRight, AddressingIsRight, ManualLength64, Reg;
    GroupEntries();
    var e := CopyTable(true, code[at]);
    assert Dispatch(true, fl, code, at) == HandleNext(true, e, code[at + 1], fl, code, at);
    Charge64(Dispatch(true, fl, code, at).value.leaf.entry, GroupForm(code[at], code[at + 1]), fl, w, code, at);
  }

  /** Behind a REX prefix, with its W bit or without, the copier charges as with REX.W. */
  lemma RexLength(fl: Overrides, code: seq<Byte>, s: nat)
    requires s + 25 <= |code| && code[s] / 16 == 4 && OneByteForm64(code[s + 1]).Some?
    ensures var r, f, w := Dispatch(true, fl, code, s), OneByteForm64(code[s + 1]).value, Bit(code[s], 3);
      && r.Some? && r.value.at == s + 1 && r.value.leaf.Fixed? && r.value.flags == fl.(rax := true)
      && (Charge(true, r.value.leaf.entry, r.value.flags, code, s + 1)
          == Some(ManualLength64(f, r.value.flags, w, code, s + 1))
          <==> RexIsRight(code[s + 1], f, r.value.flags, w) && AddressingIsRight(f, code, s + 1))
  {
    hide CopyTable, OneByteForm64, Charge, RexIsRight, AddressingIsRight, ManualLength64;
    RexRoute(fl, code, s);
    TableIsOpcodeMap64(code[s + 1]);
    BytesRoute(fl.(rax := true), code, s + 1);
    Length64IsManual(fl.(rax := true), Bit(code[s], 3), code, s + 1);
  }

  /** The length by the manual of a 64-bit instruction whose opcode behind 0F stands at `at`, from there on. No
      prefix changes it. */
  function ManualLength0F64(f: Operands, code: seq<Byte>, at: nat): nat
    requires at + 2 < |code|
  {
    FormSize(f, true) + if !f.modRm || RegistersOnly(code[at]) then 0 else Forms32(code[at + 1], code[at + 2])
  }

  /** A 64-bit instruction with an opcode behind 0F is charged the manual's length, with a REX prefix or
      without, exactly when the addressing form is one the table is right about. */
  lemma Length0F64(fl: Overrides, code: seq<Byte>, s: nat)
    requires s + 25 <= |code| && code[s] == 0x0F && TwoByteForm64(code[s + 1]).Some?
    ensures var r, f := Dispatch(true, fl, code, s), TwoByteForm64(code[s + 1]).value;
      && r.Some? && r.value.at == s + 1 && r.value.leaf.Fixed? && r.value.flags == fl
      && (Charge(true, r.value.leaf.entry, fl, code, s + 1) == Some(ManualLength0F64(f, code, s + 1))
          <==> if RegistersOnly(code[s + 1]) then NoneCharged(code[s + 2]) else AddressingIsRight(f, code, s + 1))
  {
    hide CopyTable0F, Addressing, NoneCharged, Dispatch, TwoByteForm64;
    Table0FIsOpcodeMap64(code[s + 1]);
    SecondByteRoute(true, fl, code, s);
    AddressingIs32BitForm(code, s + 2);
    NoneChargedExactly(code, s + 2);
    AddressingBound(code, s + 2);
  }

  lemma RexRoute(fl: Overrides, code: seq<Byte>, s: nat)
    requires s < |code| && code[s] / 16 == 4
    ensures Dispatch(true, fl, code, s) == Dispatch(true, fl.(rax := true), code, s + 1)
  {
    assert CopyTable(true, code[s]) == Rex;
  }

  lemma BytesRoute(fl: Overrides, code: seq<Byte>, s: nat)
    requires s < |code| && CopyTable(true, code[s]).Bytes?
    ensures Dispatch(true, fl, code, s) == Some(Route(s, Fixed(CopyTable(true, code[s]).form), fl, false))
  {
    hide CopyTable;
  }

  /** ADD with a two-byte immediate and a register above the eighth, 66 41 81 C0 34 12: six bytes, by the
      copier eight. */
  lemma WordImmediateOvercharged(fl: Overrides, tail: seq<Byte>)
    requires |tail| >= 24
    ensures var code := [0x66, 0x41, 0x81, 0xC0, 0x34, 0x12] + tail; var r := Dispatch(true, fl, code, 0);
      && r.Some? && r.value.at == 2 && r.value.leaf.Fixed?
      && Charge(true, r.value.leaf.entry, r.value.flags, code, 2) == Some(6)
      && ManualLength64(Operands(true, 0, true, false), r.value.flags, false, code, 2) == 4
  {
    hide CopyTable, Dispatch, Forms32;
    var code := [0x66, 0x41, 0x81, 0xC0, 0x34, 0x12] + tail;
    AddEntries();
    SizeRoute(fl, code, 0);
    RexRoute(fl.(operand := true), code, 1);
    BytesRoute(fl.(operand := true, rax := true), code, 2);
    assert Forms32(0xC0, 0x34) == 0 by {
      RegisterForm(0x34);
    }
  }

  lemma RegisterForm(next: Byte)
    ensures Forms32(0xC0, next) == 0 && ModRm(0xC0) == ModRmRow(0, false, false)
  {
  }

  lemma SizeRoute(fl: Overrides, code: seq<Byte>, s: nat)
    requires s < |code| && code[s] == 0x66
    ensures Dispatch(true, fl, code, s) == Dispatch(true, fl.(operand := true), code, s + 1)
  {
    hide CopyTable;
    AddEntries();
  }

  lemma AddEntries()
    ensures CopyTable(true, 0x66) == Op66 && CopyTable(true, 0x81) == Bytes(ModOperand())
  {
  }

  /** A near conditional jump behind a VEX prefix violates the assertion of CopyBytes in the x86 build. */
  lemma X86VexViolation(fl: Overrides, tail: seq<Byte>)
    ensures var r := Dispatch(false, fl, [0xC5, 0xF8, 0x80] + tail, 0); r.Some? && !VexSafe(r.value)
  {
    hide CopyTable, CopyTable0F;
    var code: seq<Byte> := [0xC5, 0xF8, 0x80] + tail;
    Vex2Entry();
    SecondByteEntries(false, 0x80);
    assert Dispatch(false, fl, code, 0) == HandleNext(false, Vex2, 0xF8, fl, code, 0);
    assert HandleNext(false, Vex2, 0xF8, fl, code, 0) == VexCommon(false, 1, 0, fl.(vex := true), code, 2);
    VexCommonSafe(false, 1, 0, fl.(vex := true), code, 2);
  }

  lemma Vex2Entry()
    ensures CopyTable(false, 0xC5) == Vex2
  {
  }

  /** XBEGIN, whose relative operand the copier does not know, keeps its destination exactly when the
      copy is at the same address. */
  lemma XbeginMoves(fl: Overrides, code: seq<Byte>, s: nat, base: int, delta: int)
    requires s + 6 <= |code| && code[s] == 0xC7 && code[s + 1] == 0xF8 && !fl.operand
    ensures var o := Copied(false, fl, code, s, base, delta);
      && o.Some? && o.value.out == code[s..s + 6] && o.value.target == NoTarget
      && (Near(false, base + s + delta + 6, o.value.out, 2) == Near(false, base + s + 6, code, s + 2)
          <==> Wrap(delta, DWORDS) == 0)
  {
    hide CopyTable, HandleNext, Wrap, Read;
    XbeginEntry();
    assert ModRm(0xF8) == ModRmRow(0, false, false);
    var out := code[s..s + 6];
    assert code[s..s] + out == out;
    assert Dispatch(false, fl, code, s) == Some(Route(s, Fixed(ModOperand()), fl, false));
    ReadIsSlice(out, 2, 4);
    ReadIsSlice(code, s + 2, 4);
    assert out[2..6] == code[s + 2..s + 6];
    ShiftedEqual(base + s + 6 + Signed(Read(out, 2, 4), DWORDS), delta, DWORDS);
  }

  lemma XbeginEntry()
    ensures CopyTable(false, 0xC7) == Bytes(ModOperand())
  {
  }
}
