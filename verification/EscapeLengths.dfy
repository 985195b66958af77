/** How many bytes the copier takes instructions behind escapes, VEX, EVEX and XOP to have, against the manuals. */
module EscapeLengths {
  import opened Options
  import opened Bytes
  import opened CopyTables
  import opened CopyRoutes
  import opened InstructionCopy
  import opened CopyLengths

  // ------------------------------------------------------------------ addressing forms

  /** SIB and displacement bytes by the manual, behind a ModR/M byte at m. */
  function AddressBytes(x64: bool, fl: Overrides, code: seq<Byte>, m: nat): nat
    requires m + 1 < |code|
  {
    if !x64 && fl.address then Forms16(code[m]) else Forms32(code[m], code[m + 1])
  }

  /** The ModR/M table is right about the addressing form. */
  ghost predicate FormIsRight(x64: bool, fl: Overrides, code: seq<Byte>, m: nat)
    requires m + 1 < |code|
  {
    if !x64 && fl.address then
      var mode, rm := code[m] / 64, code[m] % 8;
      mode == 3 || (mode == 0 && rm !in {4, 5, 6}) || (mode == 1 && rm != 4)
    else !(Flagged(code[m]) && code[m + 1] % 8 == 5)
  }

  /** A form with a ModR/M byte and `imm` bytes of immediates, whose ModR/M byte is k bytes behind its first
      byte, is charged the manual's size exactly if the table is right about the addressing form. */
  lemma FormCharge(x64: bool, e: FixedEntry, fl: Overrides, code: seq<Byte>, at: nat, k: nat, imm: nat)
    requires at + 24 <= |code| && 1 <= k <= 4 && imm <= 4 && e.flag in {Plain, Dynamic}
    requires e.modOffset == k && e.fixedSize == e.fixedSize16 == k + 1 + imm
    ensures Charge(x64, e, fl, code, at) == Some(k + 1 + imm + AddressBytes(x64, fl, code, at + k))
      <==> FormIsRight(x64, fl, code, at + k)
  {
    hide Addressing, Forms32, Forms16;
    AddressingIs32BitForm(code, at + k);
    AddressingIs16BitForm(code, at + k);
    AddressingBound(code, at + k);
  }

  // ------------------------------------------------------------------ 0F 38 and 0F 3A

  /** Two escape bytes, an opcode and a ModR/M byte, and behind 3A an immediate byte. */
  lemma EscapedLength(x64: bool, fl: Overrides, code: seq<Byte>, s: nat)
    requires s + 25 <= |code| && code[s] == 0x0F && code[s + 1] in {0x38, 0x3A}
    ensures var r, imm := Dispatch(x64, fl, code, s), if code[s + 1] == 0x3A then 1 else 0;
      && r.Some? && r.value.at == s + 1 && r.value.leaf.Fixed? && r.value.flags == fl
      && (Charge(x64, r.value.leaf.entry, fl, code, s + 1) == Some(3 + imm + AddressBytes(x64, fl, code, s + 3))
          <==> FormIsRight(x64, fl, code, s + 3))
  {
    hide CopyTable, CopyTable0F, Charge, Dispatch;
    EscapeEntries();
    SecondByteRoute(x64, fl, code, s);
    FormCharge(x64, if code[s + 1] == 0x3A then Mod3A() else Mod38(), fl, code, s + 1, 2,
      if code[s + 1] == 0x3A then 1 else 0);
  }

  lemma EscapeEntries()
    ensures forall x64 :: CopyTable0F(x64, 0x38) == Bytes(Mod38()) && CopyTable0F(x64, 0x3A) == Bytes(Mod3A())
  {
  }

  // ------------------------------------------------------------------ VEX and EVEX

  /** Where the opcode behind a VEX or EVEX prefix stands, and its map; none for the instructions that share
      their first byte with the prefix in 32-bit code, and for invalid prefixes. */
  function VexOpcode(x64: bool, code: seq<Byte>, s: nat): Option<(nat, nat)>
    requires s + 4 < |code|
  {
    if !x64 && code[s + 1] < 0xC0 then None
    else if code[s] == 0xC5 then Some((s + 2, 1))
    else if code[s] == 0xC4 then Some((s + 3, code[s + 1] % 32))
    else if code[s] == 0x62 && code[s + 1] / 8 % 2 == 0 && code[s + 2] / 4 % 2 == 1 then Some((s + 4, code[s + 1] % 8))
    else None
  }

  /** What follows the opcode: a ModR/M byte, in map 3 an immediate byte, and in map 1 what follows without the
      prefix; 78, branches and moves to control registers aside. */
  function VexForm(m: nat, b: Byte): Option<Operands> {
    if m == 1 then
      if 0x80 <= b <= 0x8F || RegistersOnly(b) then None else TwoByteForm(b)
    else if m in {2, 5, 6} then Some(Operands(true, 0, false, false))
    else if m == 3 then Some(Operands(true, 1, false, false))
    else None
  }

  lemma VexLength(x64: bool, fl: Overrides, code: seq<Byte>, s: nat)
    requires s + 32 <= |code| && VexOpcode(x64, code, s).Some?
    requires var (at, m) := VexOpcode(x64, code, s).value; VexForm(m, code[at]).Some?
    ensures var r, (at, m) := Dispatch(x64, fl, code, s), VexOpcode(x64, code, s).value;
      var f := VexForm(m, code[at]).value;
      && r.Some? && r.value.at == at && r.value.leaf.Fixed?
      && if !f.modRm then Charge(x64, r.value.leaf.entry, r.value.flags, code, at) == Some(1)
         else Charge(x64, r.value.leaf.entry, r.value.flags, code, at)
                == Some(2 + f.imm + AddressBytes(x64, r.value.flags, code, at + 1))
              <==> FormIsRight(x64, r.value.flags, code, at + 1)
  {
    hide CopyTable, CopyTable0F, Charge, TwoByteForm, Dispatch;
    var (at, m) := VexOpcode(x64, code, s).value;
    var w := VexRoute(x64, fl, code, s, at, m);
    if m == 1 {
      OneOfMap1(x64, Implied(w.0, w.1), code, at);
    } else {
      FormCharge(x64, if m == 3 then Mod(3) else Mod(2), Implied(w.0, w.1), code, at, 1, if m == 3 then 1 else 0);
    }
  }

  /** The prefix leads to the common handler, with a pp field and flags. */
  lemma VexRoute(x64: bool, fl: Overrides, code: seq<Byte>, s: nat, at: nat, m: nat) returns (w: (nat, Overrides))
    requires s + 5 < |code| && VexOpcode(x64, code, s) == Some((at, m))
    ensures Dispatch(x64, fl, code, s) == VexCommon(x64, m, w.0, w.1, code, at)
    ensures code[s] == 0x62 ==> w.0 == code[s + 2] % 4
  {
    hide CopyTable, VexCommon;
    VexEntries();
    var b := code[s + 1];
    var e := CopyTable(x64, code[s]);
    assert Dispatch(x64, fl, code, s) == HandleNext(x64, e, b, fl, code, s);
    if code[s] == 0xC5 {
      w := (b % 4, fl.(vex := true));
    } else if code[s] == 0xC4 {
      w := (code[s + 2] % 4, fl.(vex := true, rax := fl.rax || (x64 && Bit(code[s + 2], 7))));
    } else {
      EvexMap(b);
      assert HandleNext(x64, e, b, fl, code, s) == EvexRoute(x64, b, fl, code, s);
      w := (code[s + 2] % 4, fl.(evex := true, rax := fl.rax || (x64 && Bit(code[s + 2], 7))));
    }
  }

  lemma VexEntries()
    ensures forall x64 :: CopyTable(x64, 0xC5) == Vex2 && CopyTable(x64, 0xC4) == Vex3 && CopyTable(x64, 0x62) == Evex
  {
  }

  lemma EvexMap(b: Byte)
    ensures b % 8 == b % 4 + if Bit(b, 2) then 4 else 0
    ensures forall c: Byte :: (Bit(c, 3) <==> c / 8 % 2 == 1) && (Bit(c, 2) <==> c / 4 % 2 == 1)
  {
  }

  lemma OneOfMap1(x64: bool, w: Overrides, code: seq<Byte>, at: nat)
    requires at + 24 <= |code| && VexForm(1, code[at]).Some?
    ensures var r, f := Handle(x64, CopyTable0F(x64, code[at]), w, code, at), VexForm(1, code[at]).value;
      && r.Some? && r.value.at == at && r.value.leaf.Fixed? && r.value.flags == w
      && if !f.modRm then Charge(x64, r.value.leaf.entry, w, code, at) == Some(1)
         else Charge(x64, r.value.leaf.entry, w, code, at) == Some(2 + f.imm + AddressBytes(x64, w, code, at + 1))
              <==> FormIsRight(x64, w, code, at + 1)
  {
    hide CopyTable0F, TwoByteForm;
    EntryOfMap1(x64, code[at]);
    var f := VexForm(1, code[at]).value;
    if f.modRm {
      FormCharge(x64, CopyTable0F(x64, code[at]).form, w, code, at, 1, f.imm);
    }
  }

  lemma EntryOfMap1(x64: bool, b: Byte)
    requires VexForm(1, b).Some?
    ensures var e, f := CopyTable0F(x64, b), VexForm(1, b).value;
      && e.Bytes? && e.form.flag == Plain && (e.form.modOffset == if f.modRm then 1 else 0) && f.imm <= 1
      && e.form.fixedSize == e.form.fixedSize16 == 1 + (if f.modRm then 1 else 0) + f.imm
      && (!f.modRm ==> f.imm == 0)
  {
    if b < 0x40 {
      Map1Below40(x64, b);
    } else {
      Map1From40(x64, b);
    }
  }

  lemma Map1Below40(x64: bool, b: Byte)
    requires VexForm(1, b).Some? && b < 0x40
    ensures var e, f := CopyTable0F(x64, b), VexForm(1, b).value;
      && e.Bytes? && e.form.flag == Plain && (e.form.modOffset == if f.modRm then 1 else 0) && f.imm <= 1
      && e.form.fixedSize == e.form.fixedSize16 == 1 + (if f.modRm then 1 else 0) + f.imm
      && (!f.modRm ==> f.imm == 0)
  {
  }

  lemma Map1From40(x64: bool, b: Byte)
    requires VexForm(1, b).Some? && b >= 0x40
    ensures var e, f := CopyTable0F(x64, b), VexForm(1, b).value;
      && e.Bytes? && e.form.flag == Plain && (e.form.modOffset == if f.modRm then 1 else 0) && f.imm <= 1
      && e.form.fixedSize == e.form.fixedSize16 == 1 + (if f.modRm then 1 else 0) + f.imm
      && (!f.modRm ==> f.imm == 0)
  {
  }

  /** VCVTTPS2UQQ XMM0, XMM0, 62 F1 7D 08 78 C0: six bytes, by the copier eight, which takes the opcode for that of
      EXTRQ. */
  lemma EvexConvertOvercharged(fl: Overrides, tail: seq<Byte>)
    requires |tail| >= 32
    ensures var code := [0x62, 0xF1, 0x7D, 0x08, 0x78, 0xC0] + tail; var r := Dispatch(true, fl, code, 0);
      && r.Some? && r.value.at == 4 && r.value.leaf.Fixed?
      && Charge(true, r.value.leaf.entry, r.value.flags, code, 4) == Some(4)
  {
    hide CopyTable, CopyTable0F;
    var code := [0x62, 0xF1, 0x7D, 0x08, 0x78, 0xC0] + tail;
    var w := VexRoute(true, fl, code, 0, 4, 1);
    SpecialEntries(true);
    FlatCharge(true, Implied(w.0, w.1), code, 4);
  }

  // ------------------------------------------------------------------ XOP

  /** AMD's XOP prefix has three bytes; behind the opcode and the ModR/M byte there is an immediate byte in map 8,
      none in map 9, and four in map 10. With another map 8F is POP, whose ModR/M byte is next. */
  lemma XopLength(x64: bool, fl: Overrides, code: seq<Byte>, s: nat)
    requires s + 32 <= |code| && code[s] == 0x8F
    ensures var r, m := Dispatch(x64, fl, code, s), code[s + 1] % 32;
      var k, imm := if 8 <= m <= 10 then 4 else 1, if m == 8 then 1 else if m == 10 then 4 else 0;
      && r.Some? && r.value.at == s && r.value.leaf.Fixed? && r.value.flags == fl
      && (Charge(x64, r.value.leaf.entry, fl, code, s) == Some(k + 1 + imm + AddressBytes(x64, fl, code, s + k))
          <==> FormIsRight(x64, fl, code, s + k))
  {
    hide CopyTable, Charge;
    XopByte();
    var m := code[s + 1] % 32;
    assert Dispatch(x64, fl, code, s) == HandleNext(x64, Xop, code[s + 1], fl, code, s);
    FormCharge(x64, XopEntry(m), fl, code, s, if 8 <= m <= 10 then 4 else 1,
      if m == 8 then 1 else if m == 10 then 4 else 0);
  }

  lemma XopByte()
    ensures forall x64 :: CopyTable(x64, 0x8F) == Xop
  {
  }

  // ------------------------------------------------------------------ opcodes that depend on more

  /** Group 6 behind 0F 00; VMREAD behind 0F 78, or with 66 or F2 EXTRQ and INSERTQ with two immediate bytes;
      POPCNT behind F3 0F B8, and in 32-bit code otherwise a jump of four bytes, or two with 66. */
  lemma SpecialLength(x64: bool, fl: Overrides, code: seq<Byte>, s: nat)
    requires s + 32 <= |code| && code[s] == 0x0F && code[s + 1] in {0x00, 0x78, 0xB8}
    ensures var r, b := Dispatch(x64, fl, code, s), code[s + 1];
      && r.Some? && r.value.at == s + 1 && r.value.leaf.Fixed? && r.value.flags == fl
      && var n := Charge(x64, r.value.leaf.entry, fl, code, s + 1);
         if b == 0x78 && (fl.f2 || fl.operand) then n == Some(4)
         else if b == 0xB8 && !x64 && !fl.f3 then n == Some(if fl.operand then 3 else 5)
         else n == Some(2 + AddressBytes(x64, fl, code, s + 2)) <==> FormIsRight(x64, fl, code, s + 2)
  {
    hide CopyTable, CopyTable0F, Charge;
    EscapeEntry(x64);
    SpecialEntries(x64);
    var e := CopyTable0F(x64, code[s + 1]);
    assert Dispatch(x64, fl, code, s) == HandleNext(x64, TwoByte, code[s + 1], fl, code, s);
    assert HandleNext(x64, TwoByte, code[s + 1], fl, code, s) == Handle(x64, e, fl, code, s + 1);
    if e.Op0F00? {
      assert Handle(x64, e, fl, code, s + 1) == HandleNext(x64, e, code[s + 2], fl, code, s + 1);
    }
    FormCharge(x64, Mod(2), fl, code, s + 1, 1, 0);
    FormCharge(x64, ModDynamic(), fl, code, s + 1, 1, 0);
    FlatCharge(x64, fl, code, s + 1);
  }

  lemma FlatCharge(x64: bool, fl: Overrides, code: seq<Byte>, at: nat)
    requires at + 24 <= |code|
    ensures Charge(x64, Copy(4), fl, code, at) == Some(4)
    ensures !x64 ==> Charge(x64, Dyn(5, 3), fl, code, at) == Some(if fl.operand then 3 else 5)
  {
  }

  lemma SpecialEntries(x64: bool)
    ensures CopyTable0F(x64, 0x78) == Op0F78
    ensures CopyTable0F(x64, 0x00) == if x64 then Bytes(Mod(2)) else Op0F00
    ensures CopyTable0F(x64, 0xB8) == if x64 then Bytes(Mod(2)) else Op0FB8
  {
  }
}
