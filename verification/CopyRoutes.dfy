/** Which table entry copies an instruction, and what its copy at another address is. */
module CopyRoutes {
  import opened Options
  import opened Bytes
  import opened CopyTables

  /** The override flags that prefixes set. */
  datatype Overrides = Overrides(operand: bool, address: bool,
    rax: bool, vex: bool, evex: bool, f2: bool, f3: bool, segment: Byte)

  datatype Leaf = Fixed(entry: FixedEntry) | Enlarge | Bad

  /** The handler that ends a chain of prefix and escape handlers: at which byte, with which flags, and
      whether CopyFF called it. */
  datatype Route = Route(at: nat, leaf: Leaf, flags: Overrides, group5: bool)

  function Bit(b: Byte, k: nat): bool
    requires k < 8
  {
    match k
    case 0 => b % 2 == 1
    case 1 => b / 2 % 2 == 1
    case 2 => b / 4 % 2 == 1
    case 3 => b / 8 % 2 == 1
    case 4 => b / 16 % 2 == 1
    case 5 => b / 32 % 2 == 1
    case 6 => b / 64 % 2 == 1
    case 7 => b / 128 == 1
  }

  /** The reg field of a ModR/M byte. */
  function Reg(modRm: Byte): nat { modRm / 8 % 8 }

  // ------------------------------------------------------------------ dispatch

  /** A jump through the one-byte table, at the start and behind a prefix. */
  function Dispatch(x64: bool, fl: Overrides, code: seq<Byte>, s: nat): (r: Option<Route>)
    ensures r.Some? ==> s <= r.value.at < |code|
    decreases |code| - s, 3
  {
    if s >= |code| then None else Handle(x64, CopyTable(x64, code[s]), fl, code, s)
  }

  /** The handler of entry e, with its opcode byte at s. Missing bytes give none. */
  function Handle(x64: bool, e: CopyEntry, fl: Overrides, code: seq<Byte>, s: nat): (r: Option<Route>)
    requires s < |code|
    ensures r.Some? ==> s <= r.value.at < |code|
    decreases |code| - s, 2
  {
    match e
    case Bytes(form) => Some(Route(s, Fixed(form), fl, false))
    case Jump => Some(Route(s, Enlarge, fl, false))
    case Invalid => Some(Route(s, Bad, fl, false))
    case Prefix => Dispatch(x64, fl, code, s + 1)
    case Segment => Dispatch(x64, fl.(segment := code[s]), code, s + 1)
    case Rex => Dispatch(x64, fl.(rax := fl.rax || (code[s] as int) * 8 != 0), code, s + 1)
    case F2 => Dispatch(x64, fl.(f2 := true), code, s + 1)
    case F3 => Dispatch(x64, fl.(f3 := true), code, s + 1)
    case Op66 => Dispatch(x64, fl.(operand := true), code, s + 1)
    case Op67 => Dispatch(x64, fl.(address := true), code, s + 1)
    case Op0F78 => Some(Route(s, Fixed(if fl.f2 || fl.operand then Copy(4) else Mod(2)), fl, false))
    case Op0FB8 => Some(Route(s, Fixed(if fl.f3 then Mod(2) else Dyn(5, 3)), fl, false))
    case _ => if s + 1 >= |code| then None else HandleNext(x64, e, code[s + 1], fl, code, s)
  }

  /** The handlers that look at the byte b behind their opcode byte. */
  function HandleNext(x64: bool, e: CopyEntry, b: Byte, fl: Overrides, code: seq<Byte>, s: nat): (r: Option<Route>)
    requires s + 1 < |code|
    ensures r.Some? ==> s <= r.value.at < |code|
    decreases |code| - s, 1
  {
    match e
    case TwoByte => Handle(x64, CopyTable0F(x64, b), fl, code, s + 1)
    case Op0F00 => Some(Route(s, Fixed(if Reg(b) == 6 then ModDynamic() else Mod(2)), fl, false))
    case OpF6 => Some(Route(s, Fixed(if Reg(b) == 0 then Mod(3) else Mod(2)), fl, false))
    case OpF7 => Some(Route(s, Fixed(if Reg(b) == 0 then ModOperand() else Mod(2)), fl, false))
    case OpFF => Some(Route(s, Fixed(Mod(2)), fl, true))
    case Vex2 =>
      if !x64 && b < 0xC0 then Some(Route(s, Fixed(Mod(2)), fl, false))
      else VexCommon(x64, 1, b % 4, fl.(vex := true), code, s + 2)
    case Vex3 =>
      if !x64 && b < 0xC0 then Some(Route(s, Fixed(Mod(2)), fl, false))
      else if s + 2 >= |code| then None
      else
        var w := fl.(vex := true, rax := fl.rax || (x64 && Bit(code[s + 2], 7)));
        VexCommon(x64, b % 32, code[s + 2] % 4, w, code, s + 3)
    case Evex => EvexRoute(x64, b, fl, code, s)
    case Xop => Some(Route(s, Fixed(XopEntry(b % 32)), fl, false))
    case _ => None
  }

  function XopEntry(m: nat): FixedEntry {
    if m == 8 then XopForm(6) else if m == 9 then XopForm(5) else if m == 10 then XopForm(9) else Mod(2)
  }

  function EvexRoute(x64: bool, p0: Byte, fl: Overrides, code: seq<Byte>, s: nat): (r: Option<Route>)
    requires s < |code|
    ensures r.Some? ==> s <= r.value.at < |code|
    decreases |code| - s, 0
  {
    if !x64 && p0 < 0xC0 then Some(Route(s, Fixed(Mod(2)), fl, false))
    else if Bit(p0, 3) then Some(Route(s, Bad, fl, false))
    else if s + 2 >= |code| then None
    else
      var p1 := code[s + 2];
      if !Bit(p1, 2) then Some(Route(s, Bad, fl, false))
      else if s + 4 > |code| then None
      else
        var w := fl.(evex := true, rax := fl.rax || (x64 && Bit(p1, 7)));
        VexCommon(x64, p0 % 4 + (if Bit(p0, 2) then 4 else 0), p1 % 4, w, code, s + 4)
  }

  /** The opcode maps behind VEX and EVEX, with the prefix that their pp field stands for. */
  function VexCommon(x64: bool, m: nat, p: nat, fl: Overrides, code: seq<Byte>, s: nat): (r: Option<Route>)
    ensures r.Some? ==> s <= r.value.at < |code|
    decreases |code| - s, 3
  {
    var w := Implied(p, fl);
    if s >= |code| then None
    else if m == 1 then Handle(x64, CopyTable0F(x64, code[s]), w, code, s)
    else if m == 2 || m == 5 || m == 6 then Some(Route(s, Fixed(Mod(2)), w, false))
    else if m == 3 then Some(Route(s, Fixed(Mod(3)), w, false))
    else Some(Route(s, Bad, w, false))
  }

  function Implied(p: nat, fl: Overrides): Overrides {
    if p == 1 then fl.(operand := true)
    else if p == 2 then fl.(f3 := true)
    else if p == 3 then fl.(f2 := true)
    else fl
  }

  // ------------------------------------------------------------------ VEX and EVEX against CopyBytes

  /** CopyBytes asserts this of the entry it is given. */
  ghost predicate VexSafe(r: Route) {
    r.leaf.Fixed? && (r.flags.vex || r.flags.evex) ==>
      r.leaf.entry.flag == Plain && r.leaf.entry.fixedSize == r.leaf.entry.fixedSize16
  }

  /** What the assertion fails for in the x86 build: near jumps, and the two entries for JMPE. */
  ghost predicate JumpBehindVex(code: seq<Byte>, s: nat, fl: Overrides) {
    s < |code| &&
    (0x80 <= code[s] <= 0x8F || (code[s] == 0xB8 && !fl.f3)
      || (code[s] == 0 && s + 1 < |code| && Reg(code[s + 1]) == 6))
  }

  lemma SecondByteEntries(x64: bool, b: Byte)
    ensures var e := CopyTable0F(x64, b);
      && (e.Bytes? || e.Op0F78? || e.Op0F00? || e.Op0FB8? || e.Invalid?)
      && (e.Bytes? ==>
        e.form.flag == Plain && (e.form.fixedSize == e.form.fixedSize16 <==> x64 || !(0x80 <= b <= 0x8F)))
      && (e.Op0F00? <==> !x64 && b == 0) && (e.Op0FB8? <==> !x64 && b == 0xB8) && (e.Op0F78? <==> b == 0x78)
      && (0x80 <= b <= 0x8F ==> e.Bytes?)
  {
  }

  /** The byte at s is looked up in the 0F map of a VEX or EVEX instruction: in the x64 build the
      assertion always holds, in the x86 build exactly where there is no jump. */
  lemma VexMapSafe(x64: bool, fl: Overrides, code: seq<Byte>, s: nat)
    requires s < |code| && (fl.vex || fl.evex)
    ensures var r := Handle(x64, CopyTable0F(x64, code[s]), fl, code, s);
      r.Some? ==> (VexSafe(r.value) <==> x64 || !JumpBehindVex(code, s, fl))
  {
    hide CopyTable0F;
    SecondByteEntries(x64, code[s]);
  }

  lemma VexCommonSafe(x64: bool, m: nat, p: nat, fl: Overrides, code: seq<Byte>, s: nat)
    requires fl.vex || fl.evex
    ensures var r := VexCommon(x64, m, p, fl, code, s);
      r.Some? ==> (VexSafe(r.value) <==> x64 || m != 1 || !JumpBehindVex(code, s, Implied(p, fl)))
  {
    if s < |code| && m == 1 {
      VexMapSafe(x64, Implied(p, fl), code, s);
    }
  }

  /** In the x64 build no instruction, whatever its bytes, violates the assertion of CopyBytes. */
  lemma {:induction false} X64AlwaysSafe(fl: Overrides, code: seq<Byte>, s: nat)
    requires !fl.vex && !fl.evex
    ensures var r := Dispatch(true, fl, code, s); r.Some? ==> VexSafe(r.value)
    decreases |code| - s
  {
    hide CopyTable, CopyTable0F, VexCommon;
    if s < |code| {
      var e := CopyTable(true, code[s]);
      if e.Prefix? || e.Segment? || e.Rex? || e.F2? || e.F3? || e.Op66? || e.Op67? {
        var w := match e
          case Segment => fl.(segment := code[s])
          case Rex => fl.(rax := fl.rax || (code[s] as int) * 8 != 0)
          case F2 => fl.(f2 := true)
          case F3 => fl.(f3 := true)
          case Op66 => fl.(operand := true)
          case Op67 => fl.(address := true)
          case _ => fl;
        X64AlwaysSafe(w, code, s + 1);
      } else if s + 1 < |code| {
        SafeBehindEscape(e, fl, code, s);
      }
    }
  }

  lemma SafeBehindEscape(e: CopyEntry, fl: Overrides, code: seq<Byte>, s: nat)
    requires s + 1 < |code| && !fl.vex && !fl.evex
    requires !(e.Prefix? || e.Segment? || e.Rex? || e.F2? || e.F3? || e.Op66? || e.Op67?)
    ensures var r := Handle(true, e, fl, code, s); r.Some? ==> VexSafe(r.value)
  {
    hide VexCommon;
    var b := code[s + 1];
    match e
    case Vex2 => VexCommonSafe(true, 1, b % 4, fl.(vex := true), code, s + 2);
    case Vex3 =>
      if s + 2 < |code| {
        VexCommonSafe(true, b % 32, code[s + 2] % 4,
          fl.(vex := true, rax := fl.rax || Bit(code[s + 2], 7)), code, s + 3);
      }
    case Evex =>
      assert Handle(true, e, fl, code, s) == EvexRoute(true, b, fl, code, s);
      if s + 4 <= |code| {
        var p1 := code[s + 2];
        var w := fl.(evex := true, rax := fl.rax || Bit(p1, 7));
        VexCommonSafe(true, b % 4 + (if Bit(b, 2) then 4 else 0), p1 % 4, w, code, s + 4);
      }
    case TwoByte => SecondByteKeepsFlags(fl, code, s + 1);
    case _ =>
  }

  lemma SecondByteKeepsFlags(fl: Overrides, code: seq<Byte>, s: nat)
    requires s < |code|
    ensures var r := Handle(true, CopyTable0F(true, code[s]), fl, code, s); r.Some? ==> r.value.flags == fl
  {
    hide CopyTable0F;
    SecondByteEntries(true, code[s]);
  }
}
