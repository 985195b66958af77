/** The table-driven instruction copier. */
module Disassembler {
  import opened Arith
  import opened Options
  import opened Bytes
  import opened CopyTables
  import opened CopyRoutes
  import opened InstructionCopy

  /** Copies one instruction. Byte i of the source lies at address base + i, and its place in the
      copy delta further on. The source is given up to some byte; an instruction that needs more
      gives none. */
  class Disasm {
    const x64: bool
    var flags: Overrides
    var target: BranchTarget
    var extra: int

    /** The segment override is not initialised. */
    constructor (x64: bool, segment: Byte)
      ensures this.x64 == x64 && flags == Overrides(false, false, false, false, false, false, false, segment)
      ensures target == NoTarget && extra == 0
    {
      this.x64 := x64;
      flags := Overrides(false, false, false, false, false, false, false, segment);
      target, extra := NoTarget, 0;
    }

    method CopyInstruction(dst: array<Byte>, d: nat, code: seq<Byte>, s: nat, base: int, delta: int)
      returns (next: Option<nat>)
      requires target == NoTarget && extra == 0 && s <= |code| && d + (|code| - s) + 4 <= dst.Length
      modifies this, dst
      ensures HasCopied(Copied(x64, old(flags), code, s, base, delta), next, target, extra, old(dst[..]), dst[..], d, s)
    {
      if s >= |code| {
        return None;
      }
      next := Call(CopyTable(x64, code[s]), dst, d, code, s, base, delta);
    }

    /** The handler of a table entry. */
    method Call(e: CopyEntry, dst: array<Byte>, d: nat, code: seq<Byte>, s: nat, base: int, delta: int)
      returns (next: Option<nat>)
      requires target == NoTarget && extra == 0 && s < |code| && d + (|code| - s) + 4 <= dst.Length
      modifies this, dst
      ensures HasCopied(CopyAlong(x64, Handle(x64, e, old(flags), code, s), code, s, base, delta),
        next, target, extra, old(dst[..]), dst[..], d, s)
      decreases |code| - s, 3
    {
      hide CopyTable, CopyTable0F, Blit;
      match e
      case Bytes(form) => next := CopyBytes(form, dst, d, code, s, base, delta);
      case Jump => next := CopyBytesJump(dst, d, code, s, base, delta);
      case Invalid => next := InvalidInstruction(dst, d, code, s, base, delta);
      case Prefix | Segment | Rex | F2 | F3 | Op66 | Op67 => next := CopyPrefixed(e, dst, d, code, s, base, delta);
      case Op0F78 => next :=
        CopyBytes(if flags.f2 || flags.operand then Copy(4) else Mod(2), dst, d, code, s, base, delta);
      case Op0FB8 => next := CopyBytes(if flags.f3 then Mod(2) else Dyn(5, 3), dst, d, code, s, base, delta);
      case _ =>
        if s + 1 >= |code| {
          return None;
        }
        next := CallNext(e, dst, d, code, s, base, delta);
    }

    /** The prefix handlers: set an override, then copy the prefix and go on behind it. */
    method CopyPrefixed(e: CopyEntry, dst: array<Byte>, d: nat, code: seq<Byte>, s: nat, base: int, delta: int)
      returns (next: Option<nat>)
      requires target == NoTarget && extra == 0 && s < |code| && d + (|code| - s) + 4 <= dst.Length
      requires e.Prefix? || e.Segment? || e.Rex? || e.F2? || e.F3? || e.Op66? || e.Op67?
      modifies this, dst
      ensures HasCopied(CopyAlong(x64, Handle(x64, e, old(flags), code, s), code, s, base, delta),
        next, target, extra, old(dst[..]), dst[..], d, s)
      decreases |code| - s, 2
    {
      hide CopyTable, CopyTable0F, Blit;
      match e {
        case Segment => flags := flags.(segment := code[s]);
        case Rex =>
          if (code[s] as int) * 8 != 0 {
            flags := flags.(rax := true);
          }
        case F2 => flags := flags.(f2 := true);
        case F3 => flags := flags.(f3 := true);
        case Op66 => flags := flags.(operand := true);
        case Op67 => flags := flags.(address := true);
        case _ =>
      }
      assert Handle(x64, e, old(flags), code, s) == Dispatch(x64, flags, code, s + 1);
      next := CopyBytesPrefix(dst, d, code, s, base, delta);
    }

    /** Copies one byte and goes on through the one-byte table. */
    method CopyBytesPrefix(dst: array<Byte>, d: nat, code: seq<Byte>, s: nat, base: int, delta: int)
      returns (next: Option<nat>)
      requires target == NoTarget && extra == 0 && s < |code| && d + (|code| - s) + 4 <= dst.Length
      modifies this, dst
      ensures HasCopied(CopyAlong(x64, Dispatch(x64, old(flags), code, s + 1), code, s, base, delta),
        next, target, extra, old(dst[..]), dst[..], d, s)
      decreases |code| - s, 1
    {
      Store(dst, d, code[s..s + 1]);
      if s + 1 >= |code| {
        return None;
      }
      hide CopyTable, CopyTable0F, Blit, Handle, CopyLeaf;
      ghost var mem := dst[..];
      next := Call(CopyTable(x64, code[s + 1]), dst, d + 1, code, s + 1, base, delta);
      Extend(x64, Dispatch(x64, old(flags), code, s + 1), code, s, 1,
        base, delta, next, target, extra, old(dst[..]), mem, dst[..], d);
    }

    /** The handlers that look at the next byte. */
    method CallNext(e: CopyEntry, dst: array<Byte>, d: nat, code: seq<Byte>, s: nat, base: int, delta: int)
      returns (next: Option<nat>)
      requires target == NoTarget && extra == 0 && s + 1 < |code| && d + (|code| - s) + 4 <= dst.Length
      modifies this, dst
      ensures HasCopied(CopyAlong(x64, HandleNext(x64, e, code[s + 1], old(flags), code, s), code, s, base, delta),
        next, target, extra, old(dst[..]), dst[..], d, s)
      decreases |code| - s, 2
    {
      hide CopyTable, CopyTable0F, Blit, CopyLeaf, Handle, VexCommon, EvexRoute, Reg, XopEntry;
      var b := code[s + 1];
      match e
      case TwoByte => next := Copy0F(dst, d, code, s, base, delta);
      case Op0F00 => next := CopyBytes(if Reg(b) == 6 then ModDynamic() else Mod(2), dst, d, code, s, base, delta);
      case OpF6 => next := CopyBytes(if Reg(b) == 0 then Mod(3) else Mod(2), dst, d, code, s, base, delta);
      case OpF7 => next := CopyBytes(if Reg(b) == 0 then ModOperand() else Mod(2), dst, d, code, s, base, delta);
      case OpFF => next := CopyFF(dst, d, code, s, base, delta);
      case Vex2 =>
        if !x64 && b < 0xC0 {
          next := CopyBytes(Mod(2), dst, d, code, s, base, delta);
        } else {
          flags := flags.(vex := true);
          next := CopyVexEvexCommon(1, b % 4, 2, dst, d, code, s, base, delta);
        }
      case Vex3 => next := CopyVex3(b, dst, d, code, s, base, delta);
      case Evex => next := CopyEvex(b, dst, d, code, s, base, delta);
      case Xop => next := CopyBytes(XopEntry(b % 32), dst, d, code, s, base, delta);
      case _ => next := None;
    }

    method Copy0F(dst: array<Byte>, d: nat, code: seq<Byte>, s: nat, base: int, delta: int) returns (next: Option<nat>)
      requires target == NoTarget && extra == 0 && s + 1 < |code| && d + (|code| - s) + 4 <= dst.Length
      modifies this, dst
      ensures HasCopied(CopyAlong(x64, Handle(x64, CopyTable0F(x64, code[s + 1]), old(flags), code, s + 1),
        code, s, base, delta), next, target, extra, old(dst[..]), dst[..], d, s)
      decreases |code| - s, 1
    {
      hide CopyTable, CopyTable0F, Blit, Handle, CopyLeaf;
      Store(dst, d, code[s..s + 1]);
      ghost var mem := dst[..];
      var e := CopyTable0F(x64, code[s + 1]);
      next := Call(e, dst, d + 1, code, s + 1, base, delta);
      Extend(x64, Handle(x64, e, old(flags), code, s + 1), code, s, 1,
        base, delta, next, target, extra, old(dst[..]), mem, dst[..], d);
    }

    method CopyVex3(b: Byte, dst: array<Byte>, d: nat, code: seq<Byte>, s: nat, base: int, delta: int)
      returns (next: Option<nat>)
      requires target == NoTarget && extra == 0 && s + 1 < |code|
      requires b == code[s + 1] && d + (|code| - s) + 4 <= dst.Length
      modifies this, dst
      ensures HasCopied(CopyAlong(x64, HandleNext(x64, Vex3, b, old(flags), code, s), code, s, base, delta),
        next, target, extra, old(dst[..]), dst[..], d, s)
      decreases |code| - s, 1
    {
      hide CopyTable, CopyTable0F, Blit, CopyLeaf;
      if !x64 && b < 0xC0 {
        next := CopyBytes(Mod(2), dst, d, code, s, base, delta);
      } else if s + 2 >= |code| {
        next := None;
      } else {
        flags := flags.(vex := true, rax := flags.rax || (x64 && Bit(code[s + 2], 7)));
        next := CopyVexEvexCommon(b % 32, code[s + 2] % 4, 3, dst, d, code, s, base, delta);
      }
    }

    method CopyEvex(p0: Byte, dst: array<Byte>, d: nat, code: seq<Byte>, s: nat, base: int, delta: int)
      returns (next: Option<nat>)
      requires target == NoTarget && extra == 0 && s + 1 < |code| && d + (|code| - s) + 4 <= dst.Length
      modifies this, dst
      ensures HasCopied(CopyAlong(x64, EvexRoute(x64, p0, old(flags), code, s), code, s, base, delta),
        next, target, extra, old(dst[..]), dst[..], d, s)
      decreases |code| - s, 1
    {
      hide CopyTable, CopyTable0F, Blit, CopyLeaf;
      if !x64 && p0 < 0xC0 {
        next := CopyBytes(Mod(2), dst, d, code, s, base, delta);
      } else if Bit(p0, 3) {
        next := InvalidInstruction(dst, d, code, s, base, delta);
      } else if s + 2 >= |code| {
        next := None;
      } else if !Bit(code[s + 2], 2) {
        next := InvalidInstruction(dst, d, code, s, base, delta);
      } else if s + 4 > |code| {
        next := None;
      } else {
        var p1 := code[s + 2];
        flags := flags.(evex := true, rax := flags.rax || (x64 && Bit(p1, 7)));
        next := CopyVexEvexCommon(p0 % 4 + (if Bit(p0, 2) then 4 else 0), p1 % 4, 4, dst, d, code, s, base, delta);
      }
    }

    /** Copies a VEX or EVEX prefix of k bytes and what is behind it. */
    method CopyVexEvexCommon(m: nat, p: nat, k: nat, dst: array<Byte>, d: nat, code: seq<Byte>, s: nat, base: int,
                             delta: int)
      returns (next: Option<nat>)
      requires target == NoTarget && extra == 0 && 1 <= k && s + k <= |code| && d + (|code| - s) + 4 <= dst.Length
      modifies this, dst
      ensures HasCopied(CopyAlong(x64, VexCommon(x64, m, p, old(flags), code, s + k), code, s, base, delta),
        next, target, extra, old(dst[..]), dst[..], d, s)
      decreases |code| - s, 0
    {
      hide CopyTable, CopyTable0F, Blit, Handle, CopyLeaf;
      Store(dst, d, code[s..s + k]);
      ghost var mem, route := dst[..], VexCommon(x64, m, p, flags, code, s + k);
      if p == 1 {
        flags := flags.(operand := true);
      } else if p == 2 {
        flags := flags.(f3 := true);
      } else if p == 3 {
        flags := flags.(f2 := true);
      }
      if s + k >= |code| {
        next := None;
      } else if m == 1 {
        next := Call(CopyTable0F(x64, code[s + k]), dst, d + k, code, s + k, base, delta);
      } else if m == 2 || m == 5 || m == 6 {
        next := CopyBytes(Mod(2), dst, d + k, code, s + k, base, delta);
      } else if m == 3 {
        next := CopyBytes(Mod(3), dst, d + k, code, s + k, base, delta);
      } else {
        next := InvalidInstruction(dst, d + k, code, s + k, base, delta);
      }
      Extend(x64, route, code, s, k, base, delta, next, target, extra, old(dst[..]), mem, dst[..], d);
    }

    /** The handler of bytes that are no instruction: nothing is written. */
    method InvalidInstruction(dst: array<Byte>, d: nat, code: seq<Byte>, s: nat, base: int, delta: int)
      returns (next: Option<nat>)
      requires target == NoTarget && extra == 0 && s < |code| && d <= dst.Length
      ensures HasCopied(CopyAlong(x64, Some(Route(s, Bad, flags, false)), code, s, base, delta),
        next, target, extra, old(dst[..]), dst[..], d, s)
    {
      return Some(s + 1);
    }

    method CopyBytesJump(dst: array<Byte>, d: nat, code: seq<Byte>, s: nat, base: int, delta: int)
      returns (next: Option<nat>)
      requires target == NoTarget && extra == 0 && s < |code| && d + (|code| - s) + 4 <= dst.Length
      modifies this, dst
      ensures HasCopied(CopyAlong(x64, Some(Route(s, Enlarge, old(flags), false)), code, s, base, delta),
        next, target, extra, old(dst[..]), dst[..], d, s)
    {
      hide LE, Wrap, Space;
      if s + 2 > |code| {
        return None;
      }
      var offset := SignedByte(code[s + 1]);
      target := At(Wrap(base + s + 2 + offset, Space(x64)));
      if code[s] == 0xEB {
        Store(dst, d, [0xE9] + LE(Wrap(offset - (delta + 3), DWORDS), 4));
        extra := 3;
      } else {
        Store(dst, d, [0x0F, 0x80 + code[s] % 16] + LE(Wrap(offset - (delta + 4), DWORDS), 4));
        extra := 4;
      }
      return Some(s + 2);
    }

    method CopyFF(dst: array<Byte>, d: nat, code: seq<Byte>, s: nat, base: int, delta: int) returns (next: Option<nat>)
      requires target == NoTarget && extra == 0 && s + 1 < |code| && d + (|code| - s) + 4 <= dst.Length
      modifies this, dst
      ensures HasCopied(CopyAlong(x64, Some(Route(s, Fixed(Mod(2)), old(flags), true)), code, s, base, delta),
        next, target, extra, old(dst[..]), dst[..], d, s)
    {
      hide Blit, CopyFixed, Space, Wrap, Group5Target;
      next := CopyBytes(Mod(2), dst, d, code, s, base, delta);
      if next.Some? {
        target := Group5Target(x64, flags, code, s, base + s, target);
      }
    }

    /** The fixed forms. */
    method CopyBytes(e: FixedEntry, dst: array<Byte>, d: nat, code: seq<Byte>, s: nat, base: int, delta: int)
      returns (next: Option<nat>)
      requires target == NoTarget && extra == 0 && s < |code| && d + (|code| - s) + 4 <= dst.Length
      modifies this, dst
      ensures flags == old(flags)
      ensures HasCopied(CopyAlong(x64, Some(Route(s, Fixed(e), flags, false)), code, s, base, delta),
        next, target, extra, old(dst[..]), dst[..], d, s)
    {
      hide Blit, CopyFixed, CopyAlong;
      AtOnce(x64, Route(s, Fixed(e), flags, false), code, base, delta);
      next := CopyForm(e, dst, d, code, s, base + s, delta);
    }

    /** A fixed form from address `from`. */
    method CopyForm(e: FixedEntry, dst: array<Byte>, d: nat, code: seq<Byte>, s: nat, from: int, delta: int)
      returns (next: Option<nat>)
      requires target == NoTarget && extra == 0 && s < |code| && d + (|code| - s) + 4 <= dst.Length
      modifies this, dst
      ensures flags == old(flags)
      ensures HasCopied(CopyFixed(x64, e, flags, code, s, from, delta),
        next, target, extra, old(dst[..]), dst[..], d, s)
    {
      hide Blit, LE, Wrap, Read, Space, Moved, Growth, Relative, Charge;
      var charge, relOffset, targetSize := Measure(e, code, s);
      if charge.None? {
        return None;
      }
      var bytes := charge.value;
      Store(dst, d, code[s..s + bytes]);
      if relOffset > 0 {
        WithinCopy(old(dst[..]), d, code[s..s + bytes], relOffset, targetSize);
        AdjustTarget(dst, d, bytes, relOffset, targetSize, from, delta);
        ghost var o := CopyFixed(x64, e, flags, code, s, from, delta);
        assert dst[..] == Blit(old(dst[..]), d, o.value.out);
        if x64 && e.relOffset == 0 {
          target := NoTarget;
        }
      }
      if e.flag == NoEnlarge {
        extra := -extra;
      }
      if e.flag == Dynamic {
        target := AnyTarget;
      }
      next := Some(s + bytes);
    }

    /** The size of a fixed form, and the place and size of its relative operand. */
    method Measure(e: FixedEntry, code: seq<Byte>, s: nat) returns (charge: Option<nat>, off: nat, size: nat)
      requires s < |code|
      ensures charge == Charge(x64, e, flags, code, s)
      ensures charge.Some? ==> (off, size) == Relative(x64, e, flags, code, s)
    {
      hide ModRm;
      var bytes: nat;
      if e.flag == AddressSized {
        bytes := if flags.address then e.fixedSize16 else e.fixedSize;
      } else if x64 && flags.rax {
        bytes := e.fixedSize + (if e.flag == RaxSized then 4 else 0);
      } else {
        bytes := if flags.operand then e.fixedSize16 else e.fixedSize;
      }
      var relOffset, targetSize := e.relOffset, if e.relOffset > 0 then bytes - e.relOffset else 0;
      if e.modOffset > 0 {
        if s + e.modOffset >= |code| {
          return None, 0, 0;
        }
        var modRm := code[s + e.modOffset];
        var row := ModRm(modRm);
        bytes := bytes + row.notSib;
        if row.sib {
          if s + e.modOffset + 1 >= |code| {
            return None, 0, 0;
          }
          if code[s + e.modOffset + 1] % 8 == 5 {
            if modRm / 64 == 0 {
              bytes := bytes + 4;
            } else if modRm / 64 == 1 {
              bytes := bytes + 1;
            } else if modRm / 64 == 2 {
              bytes := bytes + 4;
            }
          }
        } else if x64 && row.rip {
          relOffset, targetSize := e.modOffset + 1, 4;
        }
      }
      if s + bytes > |code| {
        return None, 0, 0;
      }
      return Some(bytes), relOffset, targetSize;
    }

    /** Moves the relative operand of the bytes copied to dst[d..]. */
    method AdjustTarget(dst: array<Byte>, d: nat, op: nat, targetOffset: nat, targetSize: nat, from: int, delta: int)
      requires targetSize in {1, 2, 4} && d + targetOffset + targetSize <= dst.Length && extra == 0
      modifies this`target, this`extra, dst
      ensures var rel := Signed(Read(old(dst[..]), d + targetOffset, targetSize), Capacity(targetSize));
        && target == At(Wrap(from + op + rel, Space(x64))) && extra == Growth(Moved(x64, rel, delta), targetSize)
        && dst[..]
          == Blit(old(dst[..]), d + targetOffset, LE(Wrap(Moved(x64, rel, delta), Capacity(targetSize)), targetSize))
    {
      var offset := Signed(Read(dst[..], d + targetOffset, targetSize), Capacity(targetSize));
      target := At(Wrap(from + op + offset, Space(x64)));
      var moved := Moved(x64, offset, delta);
      Store(dst, d + targetOffset, LE(Wrap(moved, Capacity(targetSize)), targetSize));
      if targetSize == 1 {
        if moved < -0x80 || moved > 0x7F {
          extra := 3;
        }
      } else if targetSize == 2 {
        if moved < -0x8000 || moved > 0x7FFF {
          extra := 2;
        }
      } else if moved < -0x8000_0000 || moved > 0x7FFF_FFFF {
        extra := 0;
      }
    }
  }

  /** From `before` to `after`, position d on has received what `o` says. */
  ghost predicate HasCopied(o: Option<Outcome>, next: Option<nat>, target: BranchTarget, extra: int,
                            before: seq<Byte>, after: seq<Byte>, d: nat, s: nat)
  {
    && |after| == |before|
    && if o.None? then next.None? && d <= |before| && after[..d] == before[..d]
       else
         && d + |o.value.out| <= |before|
         && next == Some(s + o.value.consumed) && target == o.value.target && extra == o.value.extra
         && after == Blit(before, d, o.value.out)
  }

  /** k bytes copied as they are, and the rest copied behind them. */
  lemma Extend(x64: bool, route: Option<Route>, code: seq<Byte>, s: nat, k: nat, base: int, delta: int,
               next: Option<nat>, target: BranchTarget, extra: int,
                 before: seq<Byte>, mem: seq<Byte>, after: seq<Byte>, d: nat)
    requires s + k <= |code| && (route.Some? ==> s + k <= route.value.at < |code|) && d + k <= |before|
    requires mem == Blit(before, d, code[s..s + k])
    requires HasCopied(CopyAlong(x64, route, code, s + k, base, delta), next, target, extra, mem, after, d + k, s + k)
    ensures HasCopied(CopyAlong(x64, route, code, s, base, delta), next, target, extra, before, after, d, s)
  {
    hide CopyLeaf;
    if route.Some? && CopyAlong(x64, route, code, s + k, base, delta).Some? {
      var leaf := CopyLeaf(x64, route.value, code, base + route.value.at, delta).value;
      SliceJoin(code, s, k, route.value.at, leaf.out);
      BlitTwice(before, d, code[s..s + k], code[s + k..route.value.at] + leaf.out);
    } else {
      assert after[..d] == after[..d + k][..d] && mem[..d] == before[..d];
    }
  }

  lemma SliceJoin(code: seq<Byte>, s: nat, k: nat, at: nat, out: seq<Byte>)
    requires s + k <= at <= |code|
    ensures code[s..at] + out == code[s..s + k] + (code[s + k..at] + out)
  {
  }

  /** Bytes that were copied to mem[d..] are read and overwritten there as in the copy itself. */
  lemma WithinCopy(mem: seq<Byte>, d: nat, bytes: seq<Byte>, off: nat, k: nat)
    requires d + |bytes| <= |mem| && off + k <= |bytes|
    ensures Read(Blit(mem, d, bytes), d + off, k) == Read(bytes, off, k)
    ensures forall w: seq<Byte> :: |w| == k ==>
      Blit(Blit(mem, d, bytes), d + off, w) == Blit(mem, d, Blit(bytes, off, w))
  {
    var m := Blit(mem, d, bytes);
    assert m[d..d + |bytes|] == bytes;
    assert m[d + off..d + off + k] == m[d..d + |bytes|][off..off + k];
    ReadIsSlice(m, d + off, k);
    ReadIsSlice(bytes, off, k);
    forall w: seq<Byte> | |w| == k ensures Blit(m, d + off, w) == Blit(mem, d, Blit(bytes, off, w)) {
      BlitInside(mem, d, bytes, off, w);
    }
  }

  lemma BlitInside(mem: seq<Byte>, d: nat, bytes: seq<Byte>, off: nat, w: seq<Byte>)
    requires d + |bytes| <= |mem| && off + |w| <= |bytes|
    ensures Blit(Blit(mem, d, bytes), d + off, w) == Blit(mem, d, Blit(bytes, off, w))
  {
  }

  /** A route that ends where it starts copies what its leaf copies. */
  lemma AtOnce(x64: bool, r: Route, code: seq<Byte>, base: int, delta: int)
    requires r.at < |code|
    ensures CopyAlong(x64, Some(r), code, r.at, base, delta) == CopyLeaf(x64, r, code, base + r.at, delta)
  {
    var o := CopyLeaf(x64, r, code, base + r.at, delta);
    if o.Some? {
      assert code[r.at..r.at] + o.value.out == o.value.out;
    }
  }

  lemma BlitTwice(mem: seq<Byte>, at: nat, a: seq<Byte>, b: seq<Byte>)
    requires at + |a| + |b| <= |mem|
    ensures Blit(Blit(mem, at, a), at + |a|, b) == Blit(mem, at, a + b)
  {
  }
}
