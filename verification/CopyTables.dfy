/** The tables of the instruction copier, for the x86 and the x64 build, and the reference forms they
    are measured against. */
module CopyTables {
  import opened Options
  import opened Bytes

  datatype FlagBits = Plain | Dynamic | AddressSized | NoEnlarge | RaxSized

  /** A fixed form: its size without and with an operand-size (or address-size) override, the place
      of its ModR/M byte and of its relative operand, if any. */
  datatype Form = Form(fixedSize: nat, fixedSize16: nat, modOffset: nat, relOffset: nat, flag: FlagBits)

  /** A relative operand has one, two or four bytes and no ModR/M byte beside it. */
  type FixedEntry = e: Form |
    && e.fixedSize >= 1 && e.fixedSize16 >= 1
    && (e.modOffset > 0 ==> e.relOffset == 0 && e.fixedSize > e.modOffset && e.fixedSize16 > e.modOffset)
    && (e.relOffset > 0 ==> e.fixedSize - e.relOffset in {1, 2, 4} && e.fixedSize16 - e.relOffset in {1, 2, 4})
    && (e.relOffset > 0 ==> e.flag == Plain || e.flag == NoEnlarge)
    witness Form(1, 1, 0, 0, Plain)

  /** A table entry: a fixed form that CopyBytes copies, or a handler of its own. */
  datatype CopyEntry =
    | Bytes(form: FixedEntry)
    | Jump | Prefix | Segment | Rex | F2 | F3 | TwoByte | Op0F78 | Op0F00 | Op0FB8 | Op66 | Op67
    | OpF6 | OpF7 | OpFF | Vex2 | Vex3 | Evex | Xop | Invalid

  function Copy(n: nat): FixedEntry
    requires n >= 1
  {
    Form(n, n, 0, 0, Plain)
  }

  function Sized(n: nat, n16: nat): FixedEntry
    requires n >= 1 && n16 >= 1
  {
    Form(n, n16, 0, 0, Plain)
  }

  function Dyn(n: nat, n16: nat): FixedEntry
    requires n >= 1 && n16 >= 1
  {
    Form(n, n16, 0, 0, Dynamic)
  }

  function MovOffset(x64: bool): FixedEntry {
    if x64 then Form(9, 5, 0, 0, AddressSized) else Form(5, 3, 0, 0, AddressSized)
  }

  function MovImmediate(x64: bool): FixedEntry { if x64 then Form(5, 3, 0, 0, RaxSized) else Sized(5, 3) }

  function CantJump(): FixedEntry { Form(2, 2, 0, 1, NoEnlarge) }

  function Target(x64: bool): FixedEntry { if x64 then Form(5, 5, 0, 1, Plain) else Form(5, 3, 0, 1, Plain) }

  function Mod(n: nat): FixedEntry
    requires n >= 2
  {
    Form(n, n, 1, 0, Plain)
  }

  function ModDynamic(): FixedEntry { Form(2, 2, 1, 0, Dynamic) }

  function ModOperand(): FixedEntry { Form(6, 4, 1, 0, Plain) }

  function Mod38(): FixedEntry { Form(3, 3, 2, 0, Plain) }

  function Mod3A(): FixedEntry { Form(4, 4, 2, 0, Plain) }

  function XopForm(n: nat): FixedEntry
    requires n >= 5
  {
    Form(n, n, 4, 0, Plain)
  }

  /** The one-byte opcodes. */
  function CopyTable(x64: bool, b: Byte): CopyEntry {
    if b <= 0x03 then Bytes(Mod(2))
    else if b <= 0x04 then Bytes(Copy(2))
    else if b <= 0x05 then Bytes(Sized(5, 3))
    else if b <= 0x07 then (if x64 then Invalid else Bytes(Copy(1)))
    else if b <= 0x0B then Bytes(Mod(2))
    else if b <= 0x0C then Bytes(Copy(2))
    else if b <= 0x0D then Bytes(Sized(5, 3))
    else if b <= 0x0E then (if x64 then Invalid else Bytes(Copy(1)))
    else if b <= 0x0F then TwoByte
    else if b <= 0x13 then Bytes(Mod(2))
    else if b <= 0x14 then Bytes(Copy(2))
    else if b <= 0x15 then Bytes(Sized(5, 3))
    else if b <= 0x17 then (if x64 then Invalid else Bytes(Copy(1)))
    else if b <= 0x1B then Bytes(Mod(2))
    else if b <= 0x1C then Bytes(Copy(2))
    else if b <= 0x1D then Bytes(Sized(5, 3))
    else if b <= 0x1F then (if x64 then Invalid else Bytes(Copy(1)))
    else if b <= 0x23 then Bytes(Mod(2))
    else if b <= 0x24 then Bytes(Copy(2))
    else if b <= 0x25 then Bytes(Sized(5, 3))
    else if b <= 0x26 then Segment
    else if b <= 0x27 then (if x64 then Invalid else Bytes(Copy(1)))
    else if b <= 0x2B then Bytes(Mod(2))
    else if b <= 0x2C then Bytes(Copy(2))
    else if b <= 0x2D then Bytes(Sized(5, 3))
    else if b <= 0x2E then Segment
    else if b <= 0x2F then (if x64 then Invalid else Bytes(Copy(1)))
    else if b <= 0x33 then Bytes(Mod(2))
    else if b <= 0x34 then Bytes(Copy(2))
    else if b <= 0x35 then Bytes(Sized(5, 3))
    else if b <= 0x36 then Segment
    else if b <= 0x37 then (if x64 then Invalid else Bytes(Copy(1)))
    else if b <= 0x3B then Bytes(Mod(2))
    else if b <= 0x3C then Bytes(Copy(2))
    else if b <= 0x3D then Bytes(Sized(5, 3))
    else if b <= 0x3E then Segment
    else if b <= 0x3F then (if x64 then Invalid else Bytes(Copy(1)))
    else if b <= 0x4F then (if x64 then Rex else Bytes(Copy(1)))
    else if b <= 0x5F then Bytes(Copy(1))
    else if b <= 0x61 then (if x64 then Invalid else Bytes(Copy(1)))
    else if b <= 0x62 then Evex
    else if b <= 0x63 then Bytes(Mod(2))
    else if b <= 0x65 then Segment
    else if b <= 0x66 then Op66
    else if b <= 0x67 then Op67
    else if b <= 0x68 then Bytes(Sized(5, 3))
    else if b <= 0x69 then Bytes(ModOperand())
    else if b <= 0x6A then Bytes(Copy(2))
    else if b <= 0x6B then Bytes(Mod(3))
    else if b <= 0x6F then Bytes(Copy(1))
    else if b <= 0x7F then Jump
    else if b <= 0x80 then Bytes(Mod(3))
    else if b <= 0x81 then Bytes(ModOperand())
    else if b <= 0x82 then (if x64 then Invalid else Bytes(Mod(3)))
    else if b <= 0x83 then Bytes(Mod(3))
    else if b <= 0x8E then Bytes(Mod(2))
    else if b <= 0x8F then Xop
    else if b <= 0x99 then Bytes(Copy(1))
    else if b <= 0x9A then (if x64 then Invalid else Bytes(Dyn(7, 5)))
    else if b <= 0x9F then Bytes(Copy(1))
    else if b <= 0xA3 then Bytes(MovOffset(x64))
    else if b <= 0xA7 then Bytes(Copy(1))
    else if b <= 0xA8 then Bytes(Copy(2))
    else if b <= 0xA9 then Bytes(Sized(5, 3))
    else if b <= 0xAF then Bytes(Copy(1))
    else if b <= 0xB7 then Bytes(Copy(2))
    else if b <= 0xBF then Bytes(MovImmediate(x64))
    else if b <= 0xC1 then Bytes(Mod(3))
    else if b <= 0xC2 then Bytes(Copy(3))
    else if b <= 0xC3 then Bytes(Copy(1))
    else if b <= 0xC4 then Vex3
    else if b <= 0xC5 then Vex2
    else if b <= 0xC6 then Bytes(Mod(3))
    else if b <= 0xC7 then Bytes(ModOperand())
    else if b <= 0xC8 then Bytes(Copy(4))
    else if b <= 0xC9 then Bytes(Copy(1))
    else if b <= 0xCA then Bytes(Dyn(3, 3))
    else if b <= 0xCC then Bytes(Dyn(1, 1))
    else if b <= 0xCD then Bytes(Dyn(2, 2))
    else if b <= 0xCE then (if x64 then Invalid else Bytes(Dyn(1, 1)))
    else if b <= 0xCF then Bytes(Dyn(1, 1))
    else if b <= 0xD3 then Bytes(Mod(2))
    else if b <= 0xD5 then (if x64 then Invalid else Bytes(Copy(2)))
    else if b <= 0xD6 then Invalid
    else if b <= 0xD7 then Bytes(Copy(1))
    else if b <= 0xDF then Bytes(Mod(2))
    else if b <= 0xE3 then Bytes(CantJump())
    else if b <= 0xE7 then Bytes(Copy(2))
    else if b <= 0xE9 then Bytes(Target(x64))
    else if b <= 0xEA then (if x64 then Invalid else Bytes(Dyn(7, 5)))
    else if b <= 0xEB then Jump
    else if b <= 0xEF then Bytes(Copy(1))
    else if b <= 0xF0 then Prefix
    else if b <= 0xF1 then Bytes(Dyn(1, 1))
    else if b <= 0xF2 then F2
    else if b <= 0xF3 then F3
    else if b <= 0xF5 then Bytes(Copy(1))
    else if b <= 0xF6 then OpF6
    else if b <= 0xF7 then OpF7
    else if b <= 0xFD then Bytes(Copy(1))
    else if b <= 0xFE then Bytes(Mod(2))
    else OpFF
  }

  /** The opcodes behind 0F. */
  function CopyTable0F(x64: bool, b: Byte): CopyEntry {
    if b <= 0x00 then (if x64 then Bytes(Mod(2)) else Op0F00)
    else if b <= 0x03 then Bytes(Mod(2))
    else if b <= 0x04 then Invalid
    else if b <= 0x09 then Bytes(Copy(1))
    else if b <= 0x0A then Invalid
    else if b <= 0x0B then Bytes(Copy(1))
    else if b <= 0x0C then Invalid
    else if b <= 0x0D then Bytes(Mod(2))
    else if b <= 0x0E then Bytes(Copy(1))
    else if b <= 0x0F then Bytes(Mod(3))
    else if b <= 0x23 then Bytes(Mod(2))
    else if b <= 0x24 then (if x64 then Invalid else Bytes(Mod(2)))
    else if b <= 0x25 then Invalid
    else if b <= 0x26 then (if x64 then Invalid else Bytes(Mod(2)))
    else if b <= 0x27 then Invalid
    else if b <= 0x2F then Bytes(Mod(2))
    else if b <= 0x35 then Bytes(Copy(1))
    else if b <= 0x36 then Invalid
    else if b <= 0x37 then Bytes(Copy(1))
    else if b <= 0x38 then Bytes(Mod38())
    else if b <= 0x39 then Invalid
    else if b <= 0x3A then Bytes(Mod3A())
    else if b <= 0x3F then Invalid
    else if b <= 0x6F then Bytes(Mod(2))
    else if b <= 0x73 then Bytes(Mod(3))
    else if b <= 0x76 then Bytes(Mod(2))
    else if b <= 0x77 then Bytes(Copy(1))
    else if b <= 0x78 then Op0F78
    else if b <= 0x79 then Bytes(Mod(2))
    else if b <= 0x7B then Invalid
    else if b <= 0x7F then Bytes(Mod(2))
    else if b <= 0x8F then Bytes(Target(x64))
    else if b <= 0x9F then Bytes(Mod(2))
    else if b <= 0xA2 then Bytes(Copy(1))
    else if b <= 0xA3 then Bytes(Mod(2))
    else if b <= 0xA4 then Bytes(Mod(3))
    else if b <= 0xA7 then Bytes(Mod(2))
    else if b <= 0xAA then Bytes(Copy(1))
    else if b <= 0xAB then Bytes(Mod(2))
    else if b <= 0xAC then Bytes(Mod(3))
    else if b <= 0xB7 then Bytes(Mod(2))
    else if b <= 0xB8 then (if x64 then Bytes(Mod(2)) else Op0FB8)
    else if b <= 0xB9 then Invalid
    else if b <= 0xBA then Bytes(Mod(3))
    else if b <= 0xC1 then Bytes(Mod(2))
    else if b <= 0xC2 then Bytes(Mod(3))
    else if b <= 0xC3 then Bytes(Mod(2))
    else if b <= 0xC6 then Bytes(Mod(3))
    else if b <= 0xC7 then Bytes(Mod(2))
    else if b <= 0xCF then Bytes(Copy(1))
    else if b <= 0xFE then Bytes(Mod(2))
    else Invalid
  }

  /** The row of the ModR/M table: displacement and SIB bytes, whether a SIB byte is looked at, and
      whether the form is relative to the instruction pointer in 64-bit code. */
  datatype ModRmRow = ModRmRow(notSib: nat, sib: bool, rip: bool)

  function ModRm(b: Byte): (r: ModRmRow)
    ensures !(r.sib && r.rip)
  {
    if b < 0x40 then
      if b % 8 == 4 then ModRmRow(1, true, false)
      else if b % 16 == 5 then ModRmRow(4, false, true)
      else if b % 16 == 13 then ModRmRow(4, true, false)
      else ModRmRow(0, false, false)
    else if b < 0x80 then ModRmRow(if b % 8 == 4 then 2 else 1, false, false)
    else if b < 0xC0 then ModRmRow(if b % 8 == 4 then 5 else 4, false, false)
    else ModRmRow(0, false, false)
  }

  /** What CopyBytes adds for an addressing form whose table row asks for a SIB byte. */
  function SibExtra(modRm: Byte, sib: Byte): nat {
    if sib % 8 != 5 then 0
    else if modRm / 64 == 0 then 4
    else if modRm / 64 == 1 then 1
    else if modRm / 64 == 2 then 4
    else 0
  }

  /** SIB and displacement bytes that CopyBytes charges behind the ModR/M byte at `at`; none if the
      bytes it looks at are missing. */
  function Addressing(code: seq<Byte>, at: nat): Option<nat> {
    if at >= |code| then None
    else
      var row := ModRm(code[at]);
      if !row.sib then Some(row.notSib)
      else if at + 1 >= |code| then None
      else Some(row.notSib + SibExtra(code[at], code[at + 1]))
  }

  // ------------------------------------------------------------------ Intel SDM Vol. 2A, section 2.1.5

  /** Table 2-2 and 2-3: SIB and displacement bytes of the 32-bit addressing forms. */
  function Forms32(modRm: Byte, next: Byte): nat {
    var mode, rm := modRm / 64, modRm % 8;
    if mode == 3 then 0
    else
      (if rm == 4 then 1 else 0) +
      (if mode == 1 then 1
       else if mode == 2 then 4
       else if rm == 5 || (rm == 4 && next % 8 == 5) then 4
       else 0)
  }

  /** Table 2-1: displacement bytes of the 16-bit addressing forms. */
  function Forms16(modRm: Byte): nat {
    var mode, rm := modRm / 64, modRm % 8;
    if mode == 1 then 1
    else if mode == 2 || (mode == 0 && rm == 6) then 2
    else 0
  }

  ghost predicate Flagged(modRm: Byte) { modRm in {0x0D, 0x1D, 0x2D, 0x3D} }

  /** The charge is that of the 32-bit forms except for the four entries with the wrong flag, where
      it is right exactly when the displacement's low three bits are not 101. */
  lemma AddressingIs32BitForm(code: seq<Byte>, at: nat)
    requires at + 1 < |code|
    ensures Addressing(code, at) == Some(Forms32(code[at], code[at + 1])) <==>
      !(Flagged(code[at]) && code[at + 1] % 8 == 5)
  {
  }

  /** CopyBytes does not look at the address-size override: in 32-bit code with that prefix the charge
      is right exactly for the forms that both address sizes share. */
  lemma AddressingIs16BitForm(code: seq<Byte>, at: nat)
    requires at + 1 < |code|
    ensures Addressing(code, at) == Some(Forms16(code[at])) <==>
      (var mode, rm := code[at] / 64, code[at] % 8;
       mode == 3 || (mode == 0 && rm !in {4, 5, 6}) || (mode == 1 && rm != 4))
  {
  }

  // ------------------------------------------------------------------ Intel SDM Vol. 2D, table A-2

  /** What follows a one-byte opcode: a ModR/M byte, and immediate bytes of fixed, operand-sized and
      address-sized kind. */
  datatype Operands = Operands(modRm: bool, imm: nat, operandSized: bool, addressSized: bool)

  const NOTHING: Operands := Operands(false, 0, false, false)

  /** The one-byte opcode map of 32-bit code, for opcodes that are not prefixes or escapes, change
      their form with the ModR/M byte, or are short jumps that the copier enlarges. */
  function OneByteForm(b: Byte): Option<Operands> {
    var rm, rm8, rmz :=
      Operands(true, 0, false, false), Operands(true, 1, false, false), Operands(true, 0, true, false);
    var i8, i16, iz :=
      Operands(false, 1, false, false), Operands(false, 2, false, false), Operands(false, 0, true, false);
    if b < 0x40 then
      if b == 0x0F || (b >= 0x20 && b % 8 == 6) then None
      else Some(if b % 8 < 4 then rm else if b % 8 == 4 then i8 else if b % 8 == 5 then iz else NOTHING)
    else if b in {0x62, 0x64, 0x65, 0x66, 0x67, 0x8F, 0xC4, 0xC5, 0xD6, 0xEB, 0xF0, 0xF2, 0xF3, 0xF6, 0xF7, 0xFF}
      || 0x70 <= b <= 0x7F then None
    else if b in {0x68, 0xA9, 0xE8, 0xE9} || 0xB8 <= b <= 0xBF then Some(iz)
    else if b in {0x69, 0x81, 0xC7} then Some(rmz)
    else if b in {0x6B, 0x80, 0x82, 0x83, 0xC0, 0xC1, 0xC6} then Some(rm8)
    else if b in {0x63, 0xFE} || 0x84 <= b <= 0x8E || 0xD0 <= b <= 0xD3 || 0xD8 <= b <= 0xDF then Some(rm)
    else if b in {0x6A, 0xA8, 0xCD, 0xD4, 0xD5} || 0xB0 <= b <= 0xB7 || 0xE0 <= b <= 0xE7 then Some(i8)
    else if b in {0xC2, 0xCA} then Some(i16)
    else if b == 0xC8 then Some(Operands(false, 3, false, false))
    else if b in {0x9A, 0xEA} then Some(Operands(false, 2, true, false))
    else if 0xA0 <= b <= 0xA3 then Some(Operands(false, 0, false, true))
    else Some(NOTHING)
  }

  /** Opcode, ModR/M byte and immediates; with an operand-size or address-size prefix the sized
      immediate has two bytes, otherwise four. */
  function FormSize(f: Operands, wide: bool): nat {
    1 + (if f.modRm then 1 else 0) + f.imm + (if f.operandSized || f.addressSized then (if wide then 4 else 2) else 0)
  }

  /** The entry has the sizes of a form of the opcode map. */
  ghost predicate Charges(e: FixedEntry, f: Operands) {
    && e.fixedSize == FormSize(f, true) && e.fixedSize16 == FormSize(f, false)
    && (e.modOffset == if f.modRm then 1 else 0) && (e.flag == AddressSized <==> f.addressSized)
  }

  ghost predicate SizedByMap(b: Byte)
    requires OneByteForm(b).Some?
  {
    var e := CopyTable(false, b);
    e.Bytes? && Charges(e.form, OneByteForm(b).value)
      && (e.form.relOffset > 0 <==> b in {0xE8, 0xE9} || 0xE0 <= b <= 0xE3)
  }

  lemma MapBelow20(b: Byte)
    requires OneByteForm(b).Some? && b < 0x20
    ensures SizedByMap(b)
  {
    assert b == 8 * (b / 8) + b % 8;
  }

  lemma MapBelow40(b: Byte)
    requires OneByteForm(b).Some? && 0x20 <= b < 0x40
    ensures SizedByMap(b)
  {
    assert b == 8 * (b / 8) + b % 8;
  }

  lemma MapBelow90(b: Byte)
    requires OneByteForm(b).Some? && 0x40 <= b < 0x90
    ensures SizedByMap(b)
  {
  }

  lemma MapBelowC8(b: Byte)
    requires OneByteForm(b).Some? && 0x90 <= b < 0xC8
    ensures SizedByMap(b)
  {
  }

  lemma MapFromC8(b: Byte)
    requires OneByteForm(b).Some? && 0xC8 <= b
    ensures SizedByMap(b)
  {
  }

  /** The x86 table charges the opcode map's sizes. */
  lemma TableIsOpcodeMap(b: Byte)
    requires OneByteForm(b).Some?
    ensures SizedByMap(b)
  {
    hide SizedByMap, CopyTable, OneByteForm;
    if b < 0x20 {
      MapBelow20(b);
    } else if b < 0x40 {
      MapBelow40(b);
    } else if b < 0x90 {
      MapBelow90(b);
    } else if b < 0xC8 {
      MapBelowC8(b);
    } else {
      MapFromC8(b);
    }
  }

  /** The map of opcodes behind 0F (table A-3) in 32-bit code, but for the escapes 38 and 3A, the opcodes
      00, 78 and B8 that depend on more than themselves, and those that are undefined; 0E, 0F, 24, 26, A6 and
      A7 are those of other makers and of older processors. */
  function TwoByteForm(b: Byte): Option<Operands> {
    if b in {0x00, 0x04, 0x0A, 0x0C, 0x25, 0x27, 0x36, 0x78, 0x7A, 0x7B, 0xB8, 0xB9, 0xFF}
      || 0x38 <= b <= 0x3F then None
    else if 0x80 <= b <= 0x8F then Some(Operands(false, 0, true, false))
    else if b in {0x0F, 0xA4, 0xAC, 0xBA, 0xC2} || 0x70 <= b <= 0x73
      || 0xC4 <= b <= 0xC6 then Some(Operands(true, 1, false, false))
    else if b in {0x0B, 0x0E, 0x37, 0x77} || 0x05 <= b <= 0x09 || 0x30 <= b <= 0x35 || 0xA0 <= b <= 0xA2
      || 0xA8 <= b <= 0xAA || 0xC8 <= b <= 0xCF then Some(NOTHING)
    else Some(Operands(true, 0, false, false))
  }

  /** MOV to and from control, debug and test registers: the ModR/M byte names two registers, whatever its
      mod field says, so that no addressing bytes follow it. */
  predicate RegistersOnly(b: Byte) { 0x20 <= b <= 0x24 || b == 0x26 }

  /** The map in 64-bit code, where also 00 and B8 have one form. */
  function TwoByteForm64(b: Byte): Option<Operands> {
    if b in {0x00, 0xB8} then Some(Operands(true, 0, false, false))
    else if b in {0x24, 0x26} then None
    else TwoByteForm(b)
  }

  ghost predicate SizedBy0FMap(b: Byte)
    requires TwoByteForm(b).Some?
  {
    var e := CopyTable0F(false, b);
    e.Bytes? && Charges(e.form, TwoByteForm(b).value) && (e.form.relOffset > 0 <==> 0x80 <= b <= 0x8F)
  }

  lemma Map0FBelow40(b: Byte)
    requires TwoByteForm(b).Some? && b < 0x40
    ensures SizedBy0FMap(b)
  {
  }

  lemma Map0FFrom40(b: Byte)
    requires TwoByteForm(b).Some? && 0x40 <= b
    ensures SizedBy0FMap(b)
  {
  }

  /** The x86 table behind 0F charges the opcode map's sizes. */
  lemma Table0FIsOpcodeMap(b: Byte)
    requires TwoByteForm(b).Some?
    ensures SizedBy0FMap(b)
  {
    hide SizedBy0FMap, CopyTable0F, TwoByteForm;
    if b < 0x40 {
      Map0FBelow40(b);
    } else {
      Map0FFrom40(b);
    }
  }

  /** The entry has the sizes of a form behind 0F in 64-bit code, where near branches have four bytes with an
      operand-size prefix, too. */
  ghost predicate SizedBy0FMap64(b: Byte)
    requires TwoByteForm64(b).Some?
  {
    var e, f := CopyTable0F(true, b), TwoByteForm64(b).value;
    && e.Bytes? && e.form.flag == Plain && e.form.modOffset == (if f.modRm then 1 else 0)
    && e.form.fixedSize == e.form.fixedSize16 == FormSize(f, true) && f.imm <= 1 && (RegistersOnly(b) ==> f.modRm)
  }

  lemma Map0FBelow40In64(b: Byte)
    requires TwoByteForm64(b).Some? && b < 0x40
    ensures SizedBy0FMap64(b)
  {
  }

  lemma Map0FFrom40In64(b: Byte)
    requires TwoByteForm64(b).Some? && 0x40 <= b
    ensures SizedBy0FMap64(b)
  {
  }

  /** The x64 table behind 0F charges the opcode map's sizes. */
  lemma Table0FIsOpcodeMap64(b: Byte)
    requires TwoByteForm64(b).Some?
    ensures SizedBy0FMap64(b)
  {
    hide SizedBy0FMap64, CopyTable0F, TwoByteForm64;
    if b < 0x40 {
      Map0FBelow40In64(b);
    } else {
      Map0FFrom40In64(b);
    }
  }
}
