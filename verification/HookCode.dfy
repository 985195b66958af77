/** Moving the first instructions of a function into a trampoline. */
module HookCode {
  import opened Options
  import opened Bytes
  import opened CopyTables
  import opened CopyRoutes
  import opened InstructionCopy
  import opened BranchCopy
  import opened VerbatimCopy
  import opened Disassembler
  import opened TrampolineLayout

  const JUMP_SIZE: nat := 5

  /** How far behind a function's start the copier looks. */
  const WINDOW: nat := 36

  /** The longest instruction the architecture has. */
  const LONGEST: nat := 15

  function Start(segment: Byte): Overrides { Overrides(false, false, false, false, false, false, false, segment) }

  function At(code: seq<Byte>, at: nat, pattern: seq<Byte>): bool {
    at + |pattern| <= |code| && code[at..at + |pattern|] == pattern
  }

  /** DetourDoesCodeEndFunction. */
  function EndsFunction(code: seq<Byte>, at: nat): bool {
    at < |code| &&
    (code[at] in {0xEB, 0xE9, 0xE0, 0xC2, 0xC3, 0xCC} || At(code, at, [0xF3, 0xC3]) || At(code, at, [0xFF, 0x25])
     || (code[at] in {0x26, 0x2E, 0x36, 0x3E, 0x64, 0x65} && At(code, at + 1, [0xFF, 0x25])))
  }

  /** DetourIsCodeFiller: the length of the no-operation at `at`, 0 if there is none. */
  function Filler(code: seq<Byte>, at: nat): (n: nat)
    ensures n <= 11 && (n > 0 ==> at + n <= |code|)
  {
    if At(code, at, [0x90]) then 1
    else if At(code, at, [0x66, 0x90]) then 2
    else if At(code, at, [0x0F, 0x1F, 0x00]) then 3
    else if At(code, at, [0x0F, 0x1F, 0x40, 0x00]) then 4
    else if At(code, at, [0x0F, 0x1F, 0x44, 0x00, 0x00]) then 5
    else if At(code, at, [0x66, 0x0F, 0x1F, 0x44, 0x00, 0x00]) then 6
    else if At(code, at, [0x0F, 0x1F, 0x80, 0x00, 0x00, 0x00, 0x00]) then 7
    else if At(code, at, [0x0F, 0x1F, 0x84, 0x00, 0x00, 0x00, 0x00, 0x00]) then 8
    else if At(code, at, [0x66, 0x0F, 0x1F, 0x84, 0x00, 0x00, 0x00, 0x00, 0x00]) then 9
    else if At(code, at, [0x66, 0x66, 0x0F, 0x1F, 0x84, 0x00, 0x00, 0x00, 0x00, 0x00]) then 10
    else if At(code, at, [0x66, 0x66, 0x66, 0x0F, 0x1F, 0x84, 0x00, 0x00, 0x00, 0x00, 0x00]) then 11
    else if At(code, at, [0xCC]) then 1
    else 0
  }

  /** An instruction of the function at `src`, its copy in the trampoline at `dst`. */
  datatype Piece = Piece(src: nat, dst: nat, copy: Outcome)

  /** The number of source bytes of the instruction at s; it does not depend on where the copy goes. */
  function Length(segment: Byte, code: seq<Byte>, s: nat): Option<nat> {
    var o :- Copied(false, Start(segment), code, s, 0, 0);
    Some(o.consumed)
  }

  /** From s on, up to the instruction that frees the fifth byte or ends the function, there is no LOOP or
      JCXZ, and every instruction is as long as the architecture allows. */
  ghost predicate Movable(segment: Byte, code: seq<Byte>, s: nat)
    decreases JUMP_SIZE - s
  {
    s < JUMP_SIZE ==>
      var n := Length(segment, code, s);
      && n.Some? && 1 <= n.value <= LONGEST && s + n.value <= |code| && !IsLoop(segment, code, s)
      && (EndsFunction(code, s) || Movable(segment, code, s + n.value))
  }

  ghost predicate IsLoop(segment: Byte, code: seq<Byte>, s: nat) {
    var r := Dispatch(false, Start(segment), code, s);
    r.Some? && r.value.leaf.Fixed? && r.value.leaf.entry.flag == NoEnlarge
  }

  /** Apart from LOOP and JCXZ, a copy never shrinks, its growth covers what it writes, and only an
      instruction of two bytes or more grows. */
  lemma {:induction false} GrowthCovers(segment: Byte, code: seq<Byte>, s: nat, base: int, delta: int)
    requires !IsLoop(segment, code, s)
    ensures var o := Copied(false, Start(segment), code, s, base, delta);
      o.Some? ==>
        && 0 <= o.value.extra <= 4 && o.value.extra <= 2 * o.value.consumed
        && |o.value.out| <= o.value.consumed + o.value.extra
  {
    hide Dispatch, LE, Read, Moved;
  }

  /** Every instruction has at least one byte, and as many wherever its copy goes. */
  lemma {:induction false} LengthFixed(segment: Byte, code: seq<Byte>, s: nat, base: int, delta: int)
    ensures var o := Copied(false, Start(segment), code, s, base, delta);
      && (o.Some? <==> Length(segment, code, s).Some?)
      && (o.Some? ==>
        Length(segment, code, s) == Some(o.value.consumed) && 1 <= o.value.consumed && s + o.value.consumed <= |code|)
  {
    hide Dispatch, LE, Read, Moved, Relative, Growth, Group5Target, Signed, Blit, Addressing;
  }

  /** Where copying ends in the function and in the trampoline: with n instructions copied, the next one
      is at s and its copy goes to d. */
  function CopyEnd(segment: Byte, code: seq<Byte>, base: nat, address: nat, s: nat, d: int, n: nat): (r: (nat, int))
    requires s <= |code| && Movable(segment, code, s)
    ensures r.0 <= |code|
    decreases JUMP_SIZE - s
  {
    hide Copied, EndsFunction, IsLoop;
    if s >= JUMP_SIZE then (s, d)
    else
      LengthFixed(segment, code, s, base, address + d - (base + s));
      var size := Length(segment, code, s).value;
      var end := d + size + Copied(false, Start(segment), code, s, base, address + d - (base + s)).value.extra;
      if n + 1 >= ALIGNMENTS || EndsFunction(code, s) then (s + size, end)
      else CopyEnd(segment, code, base, address, s + size, end, n + 1)
  }

  /** Behind the padding at s, as far as it is needed. */
  function PastPadding(code: seq<Byte>, s: nat): (r: nat)
    requires s <= |code|
    ensures s <= r <= |code|
    decreases JUMP_SIZE - s
  {
    if s >= JUMP_SIZE || Filler(code, s) == 0 then s else PastPadding(code, s + Filler(code, s))
  }

  /** Pieces that follow each other, in the function and in the trampoline. */
  ghost predicate Follows(pieces: seq<Piece>, segment: Byte, code: seq<Byte>, base: nat, address: nat, endSrc: nat,
                          endDst: nat)
  {
    if pieces == [] then endSrc == 0 && endDst == 0
    else
      var p := pieces[|pieces| - 1];
      && Some(p.copy) == Copied(false, Start(segment), code, p.src, base, address + p.dst - (base + p.src))
      && endSrc == p.src + p.copy.consumed && endDst == p.dst + p.copy.consumed + p.copy.extra
      && Follows(pieces[..|pieces| - 1], segment, code, base, address, p.src, p.dst)
  }

  /** The trampoline's bytes hold the copies. */
  ghost predicate HoldsCopies(pieces: seq<Piece>, mem: seq<Byte>) {
    forall k :: 0 <= k < |pieces| ==> HoldsCopy(pieces[k], mem)
  }

  ghost predicate HoldsCopy(p: Piece, mem: seq<Byte>) {
    p.dst + |p.copy.out| <= |mem| && mem[p.dst..p.dst + |p.copy.out|] == p.copy.out
  }

  /** An entry of the alignment table: three bits of an offset behind an instruction, five of the offset
      behind its copy. */
  function Alignment(source: nat, copy: nat): Byte { source % 8 + 8 * (copy % 32) }

  /** The table has an entry for each piece. */
  ghost predicate HoldsAlignments(pieces: seq<Piece>, mem: seq<Byte>) {
    && |pieces| <= ALIGNMENTS && |mem| == TRAMPOLINE_SIZE
    && forall k :: 0 <= k < |pieces| ==> mem[R_ALIGN + k] == EntryOf(pieces[k])
  }

  ghost function EntryOf(p: Piece): Byte {
    var end := p.dst + p.copy.consumed + p.copy.extra;
    if end < 0 then 0 else Alignment(p.src + p.copy.consumed, end)
  }

  /** None of the first n instructions ends the function. */
  ghost predicate NoneEnds(pieces: seq<Piece>, code: seq<Byte>, n: int) {
    forall k :: 0 <= k < n && k < |pieces| ==> !EndsFunction(code, pieces[k].src)
  }

  /** Copying stops as soon as five bytes are free, the table is full, or the function ends. */
  ghost predicate StopsAt(pieces: seq<Piece>, code: seq<Byte>, copied: nat) {
    && pieces != [] && NoneEnds(pieces, code, |pieces| - 1)
    && (copied >= JUMP_SIZE || |pieces| >= ALIGNMENTS || EndsFunction(code, pieces[|pieces| - 1].src))
  }

  /** Every copy ends at or in front of the cursor. */
  ghost predicate CopiesBelow(pieces: seq<Piece>, cursor: nat) {
    forall k :: 0 <= k < |pieces| ==> pieces[k].dst + |pieces[k].copy.out| <= cursor
  }

  /** With the pieces copied, the next instruction is at s and its copy goes to d. */
  ghost predicate Copying(pieces: seq<Piece>, segment: Byte, code: seq<Byte>, base: nat, address: nat, s: nat, d: nat,
                          mem: seq<Byte>)
  {
    && Follows(pieces, segment, code, base, address, s, d) && HoldsCopies(pieces, mem) && HoldsAlignments(pieces, mem)
    && |mem| == TRAMPOLINE_SIZE && CopiesBelow(pieces, d) && d <= CODE_SIZE + 1
    && s <= |code| && s <= JUMP_SIZE - 1 + LONGEST
    && (s < JUMP_SIZE ==> d <= 3 * s)
  }

  /** Copies instructions from the function at `base` to the trampoline at `address` until five bytes
      are free, the alignment table is full, or the function ends; then skips padding. */
  method CopyTarget(code: seq<Byte>, base: nat, dst: array<Byte>, address: nat, segment: Byte)
    returns (target: nat, cursor: nat, ghost pieces: seq<Piece>, ghost copied: nat)
    requires |code| == WINDOW && dst.Length == TRAMPOLINE_SIZE && Movable(segment, code, 0)
    modifies dst
    ensures (copied, cursor) == CopyEnd(segment, code, base, address, 0, 0, 0) && StopsAt(pieces, code, copied)
    ensures Copying(pieces, segment, code, base, address, copied, cursor, dst[..]) && |pieces| >= 1
    ensures copied <= |code| && target == PastPadding(code, copied) <= JUMP_SIZE - 1 + LONGEST
  {
    hide Copying, EndsFunction, Filler, CopyEnd, Movable;
    target, cursor := 0, 0;
    var align := 0;
    ghost var ended := false;
    pieces := [];
    NothingCopied(segment, code, base, address, dst[..]);
    while target < JUMP_SIZE
      invariant align == |pieces| < ALIGNMENTS && Copying(pieces, segment, code, base, address, target, cursor, dst[..])
      invariant target <= |code| && target <= JUMP_SIZE - 1 + LONGEST && (align == 0 ==> target == 0)
      invariant Movable(segment, code, target) && NoneEnds(pieces, code, |pieces|)
      invariant CopyEnd(segment, code, base, address, 0, 0, 0)
        == CopyEnd(segment, code, base, address, target, cursor, align)
      decreases JUMP_SIZE - target
    {
      var at := target;
      target, cursor, pieces := CopyOne(code, base, dst, address, segment, target, cursor, align, pieces);
      align := align + 1;
      if align >= ALIGNMENTS || EndsFunction(code, at) {
        ended := true;
        assert CopyEnd(segment, code, base, address, 0, 0, 0) == (target, cursor);
        break;
      }
    }
    if !ended {
      CopyStops(segment, code, base, address, target, cursor, align);
    }
    copied := target;
    while target < JUMP_SIZE
      invariant copied <= target <= |code| && target <= JUMP_SIZE - 1 + LONGEST
      invariant PastPadding(code, copied) == PastPadding(code, target)
    {
      var filler := Filler(code, target);
      if filler == 0 {
        break;
      }
      target := target + filler;
    }
  }

  /** Copies the instruction at `target` to the cursor, fills its entry of the alignment table, and says
      where source and copy end. */
  method CopyOne(code: seq<Byte>, base: nat, dst: array<Byte>, address: nat, segment: Byte, target: nat, cursor: nat,
                 align: nat, ghost pieces: seq<Piece>)
    returns (next: nat, end: nat, ghost more: seq<Piece>)
    requires target < JUMP_SIZE && |code| == WINDOW && dst.Length == TRAMPOLINE_SIZE && align == |pieces| < ALIGNMENTS
    requires Copying(pieces, segment, code, base, address, target, cursor, dst[..]) && Movable(segment, code, target)
    modifies dst
    ensures target < next <= |code| && next <= JUMP_SIZE - 1 + LONGEST
    ensures |more| == |pieces| + 1 && more[..|pieces|] == pieces && more[|pieces|].src == target
    ensures Copying(more, segment, code, base, address, next, end, dst[..])
    ensures EndsFunction(code, target) || Movable(segment, code, next)
    ensures CopyEnd(segment, code, base, address, target, cursor, align)
      == if align + 1 >= ALIGNMENTS || EndsFunction(code, target) then (next, end)
         else CopyEnd(segment, code, base, address, next, end, align + 1)
  {
    hide Copied, Copying, CopyEnd, Blit, EndsFunction, Movable, Alignment;
    Ready(pieces, segment, code, base, address, target, cursor, dst[..]);
    ghost var _, _, _ := NextEnd(segment, code, base, address, target, cursor, align);
    ghost var before, o := dst[..], Outcome(0, [], NoTarget, 0);
    next, end, o := CopyInstruction(code, base, dst, address, segment, target, cursor);
    more := pieces + [Piece(target, cursor, o)];
    CopyAdded(pieces, segment, code, base, address, before, Piece(target, cursor, o));
    SetByte(dst, R_ALIGN + align, Alignment(next, end));
  }

  /** Copies the instruction at `target` to the cursor. */
  method CopyInstruction(code: seq<Byte>, base: nat, dst: array<Byte>, address: nat, segment: Byte, target: nat,
                         cursor: nat)
    returns (next: nat, end: nat, ghost o: Outcome)
    requires target < JUMP_SIZE && |code| == WINDOW && cursor <= 3 * target && Movable(segment, code, target)
    requires dst.Length == TRAMPOLINE_SIZE
    modifies dst
    ensures Some(o) == Copied(false, Start(segment), code, target, base, address + cursor - (base + target))
    ensures next == target + o.consumed <= |code| && 1 <= o.consumed <= LONGEST
    ensures end == cursor + o.consumed + o.extra && |o.out| <= o.consumed + o.extra
    ensures 0 <= o.extra <= 4 && o.extra <= 2 * o.consumed
    ensures EndsFunction(code, target) || Movable(segment, code, next)
    ensures dst[..] == Blit(old(dst[..]), cursor, o.out)
  {
    hide Copied, Blit, IsLoop, Length, Movable, EndsFunction;
    var disasm := new Disasm(false, segment);
    var delta := address + cursor - (base + target);
    MovableHere(segment, code, target);
    LengthFixed(segment, code, target, base, delta);
    GrowthCovers(segment, code, target, base, delta);
    o := Copied(false, Start(segment), code, target, base, delta).value;
    var r := disasm.CopyInstruction(dst, cursor, code, target, base, delta);
    next := r.value;
    end := cursor + (next - target) + disasm.extra;
  }

  lemma NothingCopied(segment: Byte, code: seq<Byte>, base: nat, address: nat, mem: seq<Byte>)
    requires |mem| == TRAMPOLINE_SIZE
    ensures Copying([], segment, code, base, address, 0, 0, mem)
  {
  }

  lemma Ready(pieces: seq<Piece>, segment: Byte, code: seq<Byte>, base: nat, address: nat, s: nat, d: nat,
              mem: seq<Byte>)
    requires Copying(pieces, segment, code, base, address, s, d, mem)
    ensures s < JUMP_SIZE ==> d <= 3 * s
  {
    hide Follows, HoldsCopies, HoldsAlignments, CopiesBelow;
  }

  /** One step of copying, seen from its end. */
  lemma NextEnd(segment: Byte, code: seq<Byte>, base: nat, address: nat, s: nat, d: nat, n: nat)
    returns (o: Outcome, next: nat, end: int)
    requires s < JUMP_SIZE && s <= |code| && Movable(segment, code, s)
    ensures Copied(false, Start(segment), code, s, base, address + d - (base + s)) == Some(o)
    ensures next == s + o.consumed <= |code| && end == d + o.consumed + o.extra
    ensures EndsFunction(code, s) || Movable(segment, code, next)
    ensures CopyEnd(segment, code, base, address, s, d, n)
      == if n + 1 >= ALIGNMENTS || EndsFunction(code, s) then (next, end)
         else CopyEnd(segment, code, base, address, next, end, n + 1)
  {
    hide Copied, EndsFunction, IsLoop;
    LengthFixed(segment, code, s, base, address + d - (base + s));
    o := Copied(false, Start(segment), code, s, base, address + d - (base + s)).value;
    next, end := s + o.consumed, d + o.consumed + o.extra;
  }

  lemma CopyStops(segment: Byte, code: seq<Byte>, base: nat, address: nat, s: nat, d: nat, n: nat)
    requires s >= JUMP_SIZE && s <= |code| && Movable(segment, code, s)
    ensures CopyEnd(segment, code, base, address, s, d, n) == (s, d)
  {
  }

  lemma MovableHere(segment: Byte, code: seq<Byte>, s: nat)
    requires Movable(segment, code, s) && s < JUMP_SIZE
    ensures var n := Length(segment, code, s);
      && n.Some? && 1 <= n.value <= LONGEST && !IsLoop(segment, code, s)
      && (EndsFunction(code, s) || Movable(segment, code, s + n.value))
  {
  }

  /** A further copy and its entry of the table leave the earlier ones as they are. */
  lemma CopyAdded(pieces: seq<Piece>, segment: Byte, code: seq<Byte>, base: nat, address: nat, mem: seq<Byte>, p: Piece)
    requires Copying(pieces, segment, code, base, address, p.src, p.dst, mem)
    requires |pieces| < ALIGNMENTS && p.src < JUMP_SIZE
    requires Some(p.copy) == Copied(false, Start(segment), code, p.src, base, address + p.dst - (base + p.src))
    requires 0 <= p.copy.extra <= 4 && p.copy.extra <= 2 * p.copy.consumed && 1 <= p.copy.consumed <= LONGEST
    requires p.src + p.copy.consumed <= |code|
    requires |p.copy.out| <= p.copy.consumed + p.copy.extra
    ensures p.dst + |p.copy.out| <= R_ALIGN && |mem| == TRAMPOLINE_SIZE
    ensures var next, end := p.src + p.copy.consumed, p.dst + p.copy.consumed + p.copy.extra;
      Copying(pieces + [p], segment, code, base, address, next, end,
        Blit(mem, p.dst, p.copy.out)[R_ALIGN + |pieces| := Alignment(next, end)])
  {
    hide Copied, Alignment, HoldsCopies, HoldsAlignments, Blit;
    CopyKept(pieces, mem, p, Alignment(p.src + p.copy.consumed, p.dst + p.copy.consumed + p.copy.extra));
    AlignmentKept(pieces, mem, p);
    assert (pieces + [p])[..|pieces|] == pieces;
  }

  lemma CopyKept(pieces: seq<Piece>, mem: seq<Byte>, p: Piece, entry: Byte)
    requires HoldsCopies(pieces, mem) && |pieces| < ALIGNMENTS && |mem| == TRAMPOLINE_SIZE
    requires CopiesBelow(pieces, p.dst) && p.dst + |p.copy.out| <= R_ALIGN
    ensures HoldsCopies(pieces + [p], Blit(mem, p.dst, p.copy.out)[R_ALIGN + |pieces| := entry])
  {
    var now := Blit(mem, p.dst, p.copy.out)[R_ALIGN + |pieces| := entry];
    assert now[p.dst..p.dst + |p.copy.out|] == p.copy.out;
    forall k | 0 <= k < |pieces| ensures HoldsCopy(pieces[k], now) {
      var q := pieces[k];
      assert HoldsCopy(q, mem);
      assert now[q.dst..q.dst + |q.copy.out|] == mem[q.dst..q.dst + |q.copy.out|];
    }
  }

  lemma AlignmentKept(pieces: seq<Piece>, mem: seq<Byte>, p: Piece)
    requires HoldsAlignments(pieces, mem) && |pieces| < ALIGNMENTS && p.dst + |p.copy.out| <= R_ALIGN
    requires p.dst + p.copy.consumed + p.copy.extra >= 0
    ensures HoldsAlignments(pieces + [p],
      Blit(mem, p.dst, p.copy.out)[R_ALIGN + |pieces| :=
        Alignment(p.src + p.copy.consumed, p.dst + p.copy.consumed + p.copy.extra)])
  {
    hide Alignment;
  }

  lemma {:induction false} PieceIsCopy(pieces: seq<Piece>, segment: Byte, code: seq<Byte>, base: nat, address: nat,
                                       endSrc: nat, endDst: nat, k: nat)
    requires Follows(pieces, segment, code, base, address, endSrc, endDst) && k < |pieces|
    ensures var p := pieces[k];
      Some(p.copy) == Copied(false, Start(segment), code, p.src, base, address + p.dst - (base + p.src))
    decreases |pieces|
  {
    hide Copied;
    var p := pieces[|pieces| - 1];
    if k < |pieces| - 1 {
      assert pieces[..|pieces| - 1][k] == pieces[k];
      PieceIsCopy(pieces[..|pieces| - 1], segment, code, base, address, p.src, p.dst, k);
    }
  }

  /** Every direct branch among the moved instructions, unless it has an operand-size prefix, reads in
      the trampoline as a branch of the same kind to the same destination, and the cursor moved over
      exactly its bytes. */
  lemma BranchesKept(pieces: seq<Piece>, segment: Byte, code: seq<Byte>, base: nat, address: nat, endSrc: nat,
                     endDst: nat, mem: seq<Byte>, k: nat)
    requires Follows(pieces, segment, code, base, address, endSrc, endDst) && HoldsCopies(pieces, mem) && k < |pieces|
    requires DecodeBranch(false, base, code, pieces[k].src).Some?
    ensures var p := pieces[k];
      && p.dst + p.copy.consumed + p.copy.extra <= |mem| && p.copy.extra == |p.copy.out| - p.copy.consumed
      && DecodeBranch(false, address + p.dst, mem[p.dst..p.dst + p.copy.consumed + p.copy.extra], 0)
         == DecodeBranch(false, base, code, p.src)
  {
    hide Copied, DecodeBranch;
    var p := pieces[k];
    assert HoldsCopy(p, mem);
    PieceIsCopy(pieces, segment, code, base, address, endSrc, endDst, k);
    X86BranchKept(Start(segment), code, p.src, base, address + p.dst - (base + p.src));
    BranchKept(false, Start(segment), code, p.src, base, address + p.dst - (base + p.src));
    assert base + p.src + (address + p.dst - (base + p.src)) == address + p.dst;
  }

  /** The instruction at s is copied byte by byte: it has no operand that moves, and its opcode is valid. */
  ghost predicate Ordinary(segment: Byte, code: seq<Byte>, s: nat) {
    var r := Dispatch(false, Start(segment), code, s);
    r.Some? && Unmoved(false, r.value, code)
  }

  /** VEX and EVEX aside, that is so for every valid opcode that is no relative jump or call. */
  lemma OrdinaryUnlessBranch(segment: Byte, code: seq<Byte>, s: nat)
    requires Dispatch(false, Start(segment), code, s).Some? && PastPrefixes(code, s) < |code|
    requires code[PastPrefixes(code, s)] !in {0x62, 0xC4, 0xC5}
    ensures Ordinary(segment, code, s) <==>
      !Dispatch(false, Start(segment), code, s).value.leaf.Bad? && !RelativeOpcode(code, PastPrefixes(code, s))
  {
    UnmovedIfNoBranch(Start(segment), code, s);
  }

  /** A moved instruction that is ordinary reads in the trampoline as the function's own bytes. */
  lemma OrdinaryKept(pieces: seq<Piece>, segment: Byte, code: seq<Byte>, base: nat, address: nat, endSrc: nat,
                     endDst: nat, mem: seq<Byte>, k: nat)
    requires Follows(pieces, segment, code, base, address, endSrc, endDst) && HoldsCopies(pieces, mem) && k < |pieces|
    requires Ordinary(segment, code, pieces[k].src)
    ensures var p := pieces[k];
      && p.copy.extra == 0 && p.src + p.copy.consumed <= |code| && p.dst + p.copy.consumed <= |mem|
      && mem[p.dst..p.dst + p.copy.consumed] == code[p.src..p.src + p.copy.consumed]
  {
    hide Copied, Dispatch;
    var p := pieces[k];
    assert HoldsCopy(p, mem);
    PieceIsCopy(pieces, segment, code, base, address, endSrc, endDst, k);
    CopyIsVerbatim(false, Start(segment), code, p.src, base, address + p.dst - (base + p.src));
  }

  /** If all are, the trampoline starts with the function's first bytes. */
  lemma {:induction false} FrontKept(pieces: seq<Piece>, segment: Byte, code: seq<Byte>, base: nat, address: nat,
                                     endSrc: nat, endDst: nat, mem: seq<Byte>)
    requires Follows(pieces, segment, code, base, address, endSrc, endDst) && HoldsCopies(pieces, mem)
    requires forall k :: 0 <= k < |pieces| ==> Ordinary(segment, code, pieces[k].src)
    ensures endDst == endSrc <= |code| && endSrc <= |mem| && mem[..endSrc] == code[..endSrc]
    decreases |pieces|
  {
    hide Copied, Ordinary;
    if pieces != [] {
      var n := |pieces| - 1;
      var p, front := pieces[n], pieces[..n];
      forall k | 0 <= k < n ensures HoldsCopy(front[k], mem) && Ordinary(segment, code, front[k].src) {
        assert front[k] == pieces[k] && HoldsCopy(pieces[k], mem) && Ordinary(segment, code, pieces[k].src);
      }
      FrontKept(front, segment, code, base, address, p.src, p.dst, mem);
      OrdinaryKept(pieces, segment, code, base, address, endSrc, endDst, mem, n);
      assert mem[..endSrc] == mem[..p.src] + mem[p.src..endSrc];
      assert code[..endSrc] == code[..p.src] + code[p.src..endSrc];
    }
  }

  // ------------------------------------------------------------------ ends and padding

  /** The instruction does not fall through: a jump, a return, a breakpoint, or a jump through a pointer. */
  ghost predicate NeverFalls(code: seq<Byte>, at: nat) {
    var j := PastPrefixes(code, at);
    && j < |code|
    && (code[j] in {0xEB, 0xE9, 0xC2, 0xC3, 0xCC} || (code[j] == 0xFF && j + 1 < |code| && code[j + 1] == 0x25))
  }

  /** The function's end is recognised at a LOOPNE, and at an instruction that does not fall through if it has no
      prefix, or only F3 in front of a RET or a segment override in front of a jump through a pointer. */
  lemma EndsExactly(code: seq<Byte>, at: nat)
    requires at < |code|
    ensures var j := PastPrefixes(code, at);
      EndsFunction(code, at) <==>
        || code[at] == 0xE0
        || (NeverFalls(code, at)
            && (j == at
                || (j == at + 1 && (if code[j] == 0xFF then code[at] in {0x26, 0x2E, 0x36, 0x3E, 0x64, 0x65}
                                    else code[at] == 0xF3 && code[j] == 0xC3))))
  {
    TwoBytes(code, at, 0xF3, 0xC3);
    TwoBytes(code, at, 0xFF, 0x25);
    TwoBytes(code, at + 1, 0xFF, 0x25);
    if at + 1 < |code| {
      assert PastPrefixes(code, at + 1) >= at + 1;
    }
  }

  lemma TwoBytes(code: seq<Byte>, at: nat, a: Byte, b: Byte)
    ensures At(code, at, [a, b]) <==> at + 2 <= |code| && code[at] == a && code[at + 1] == b
  {
  }

  /** No operation, or a breakpoint. */
  ghost predicate Nop(code: seq<Byte>, at: nat) {
    var j := PastPrefixes(code, at);
    j < |code| && (code[j] in {0x90, 0xCC} || (code[j] == 0x0F && j + 1 < |code| && code[j + 1] == 0x1F))
  }

  /** What is passed over as padding is one whole instruction without effect, or a breakpoint. */
  lemma FillerIsNop(segment: Byte, code: seq<Byte>, at: nat)
    requires Filler(code, at) > 0
    ensures Nop(code, at) && Length(segment, code, at) == Some(Filler(code, at))
  {
    hide Length;
    var n := Filler(code, at);
    var k: nat := if n == 2 || n == 6 || n == 9 then 1 else if n == 10 then 2 else if n == 11 then 3 else 0;
    FillerBytes(code, at, k);
    OperandPrefixes(Start(segment), code, at, k);
    NopLength(segment, code, at, k, n);
  }

  /** k operand-size prefixes, then NOP, INT3 or a NOP with a ModR/M byte. */
  ghost predicate PaddingBytes(code: seq<Byte>, at: nat, k: nat, n: nat) {
    && k < n && at + n <= |code| && (forall i :: at <= i < at + k ==> code[i] == 0x66)
    && if n - k == 1 then code[at + k] in {0x90, 0xCC}
       else
         && code[at + k] == 0x0F && code[at + k + 1] == 0x1F && n - k >= 3
         && (n - k, code[at + k + 2]) in {(3, 0x00), (4, 0x40), (5, 0x44), (7, 0x80), (8, 0x84)}
         && (n - k in {5, 8} ==> code[at + k + 3] == 0)
  }

  lemma FillerBytes(code: seq<Byte>, at: nat, k: nat)
    requires Filler(code, at) > 0
    requires var n := Filler(code, at);
      k == if n == 2 || n == 6 || n == 9 then 1 else if n == 10 then 2 else if n == 11 then 3 else 0
    ensures PaddingBytes(code, at, k, Filler(code, at))
  {
    hide At, PaddingBytes;
    PatternBytes(code, at, [0x90], 0);
    PatternBytes(code, at, [0x66, 0x90], 1);
    PatternBytes(code, at, [0x0F, 0x1F, 0x00], 0);
    PatternBytes(code, at, [0x0F, 0x1F, 0x40, 0x00], 0);
    PatternBytes(code, at, [0x0F, 0x1F, 0x44, 0x00, 0x00], 0);
    PatternBytes(code, at, [0x66, 0x0F, 0x1F, 0x44, 0x00, 0x00], 1);
    PatternBytes(code, at, [0x0F, 0x1F, 0x80, 0x00, 0x00, 0x00, 0x00], 0);
    PatternBytes(code, at, [0x0F, 0x1F, 0x84, 0x00, 0x00, 0x00, 0x00, 0x00], 0);
    PatternBytes(code, at, [0x66, 0x0F, 0x1F, 0x84, 0x00, 0x00, 0x00, 0x00, 0x00], 1);
    PatternBytes(code, at, [0x66, 0x66, 0x0F, 0x1F, 0x84, 0x00, 0x00, 0x00, 0x00, 0x00], 2);
    PatternBytes(code, at, [0x66, 0x66, 0x66, 0x0F, 0x1F, 0x84, 0x00, 0x00, 0x00, 0x00, 0x00], 3);
    PatternBytes(code, at, [0xCC], 0);
  }

  lemma PatternBytes(code: seq<Byte>, at: nat, pattern: seq<Byte>, k: nat)
    requires PaddingBytes(pattern, 0, k, |pattern|)
    ensures At(code, at, pattern) ==> PaddingBytes(code, at, k, |pattern|)
  {
    if At(code, at, pattern) {
      assert forall i :: 0 <= i < |pattern| ==> code[at + i] == code[at..at + |pattern|][i] == pattern[i];
      forall i | at <= i < at + k ensures code[i] == 0x66 {
        assert code[at + (i - at)] == pattern[i - at];
      }
    }
  }

  lemma {:induction false} OperandPrefixes(fl: Overrides, code: seq<Byte>, s: nat, k: nat)
    requires s + k <= |code| && forall i :: s <= i < s + k ==> code[i] == 0x66
    ensures Dispatch(false, fl, code, s) == Dispatch(false, if k == 0 then fl else fl.(operand := true), code, s + k)
    ensures PastPrefixes(code, s) == PastPrefixes(code, s + k)
    decreases k
  {
    if k > 0 {
      OperandPrefixes(fl.(operand := true), code, s + 1, k - 1);
      OperandEntry();
    }
  }

  lemma OperandEntry()
    ensures CopyTable(false, 0x66) == Op66
  {
  }

  lemma NopLength(segment: Byte, code: seq<Byte>, at: nat, k: nat, n: nat)
    requires PaddingBytes(code, at, k, n)
    requires Dispatch(false, Start(segment), code, at)
      == Dispatch(false, if k == 0 then Start(segment) else Start(segment).(operand := true), code, at + k)
    requires PastPrefixes(code, at) == PastPrefixes(code, at + k)
    ensures Nop(code, at) && Length(segment, code, at) == Some(n)
  {
    hide CopyTable, CopyTable0F, Charge, Length;
    NopEntries();
    var fl := if k == 0 then Start(segment) else Start(segment).(operand := true);
    if n - k > 1 {
      assert Dispatch(false, fl, code, at + k) == HandleNext(false, TwoByte, 0x1F, fl, code, at + k);
      assert HandleNext(false, TwoByte, 0x1F, fl, code, at + k) == Handle(false, Bytes(Mod(2)), fl, code, at + k + 1);
      NopCharge(fl, code, at + k + 1, n - k - 1);
      LengthOfForm(segment, code, at, Mod(2), fl, at + k + 1, n - k - 1);
    } else {
      assert Dispatch(false, fl, code, at + k) == Handle(false, CopyTable(false, code[at + k]), fl, code, at + k);
      OneByteCharge(fl, code, at + k);
      LengthOfForm(segment, code, at, if code[at + k] == 0x90 then Copy(1) else Dyn(1, 1), fl, at + k, 1);
    }
  }

  lemma LengthOfForm(segment: Byte, code: seq<Byte>, at: nat, e: FixedEntry, fl: Overrides, opcode: nat, n: nat)
    requires Dispatch(false, Start(segment), code, at) == Some(Route(opcode, Fixed(e), fl, false))
    requires at <= opcode < |code| && e.relOffset == 0 && Charge(false, e, fl, code, opcode) == Some(n)
    ensures Length(segment, code, at) == Some(opcode - at + n)
  {
    hide Dispatch, Charge;
  }

  lemma OneByteCharge(fl: Overrides, code: seq<Byte>, at: nat)
    requires at < |code|
    ensures Charge(false, Copy(1), fl, code, at) == Charge(false, Dyn(1, 1), fl, code, at) == Some(1)
  {
  }

  lemma NopCharge(fl: Overrides, code: seq<Byte>, at: nat, n: nat)
    requires at + n <= |code| && n >= 2
    requires (n, code[at + 1]) in {(2, 0x00), (3, 0x40), (4, 0x44), (6, 0x80), (7, 0x84)}
    ensures Charge(false, Mod(2), fl, code, at) == Some(n)
  {
    hide ModRm;
    NopEntries();
  }

  lemma NopEntries()
    ensures CopyTable(false, 0x90) == Bytes(Copy(1)) && CopyTable(false, 0xCC) == Bytes(Dyn(1, 1))
    ensures CopyTable(false, 0x0F) == TwoByte && CopyTable0F(false, 0x1F) == Bytes(Mod(2))
    ensures ModRm(0x00) == ModRmRow(0, false, false) && ModRm(0x40) == ModRmRow(1, false, false)
    ensures ModRm(0x44) == ModRmRow(2, false, false) && ModRm(0x80) == ModRmRow(4, false, false)
    ensures ModRm(0x84) == ModRmRow(5, false, false)
  {
  }

  /** An entry of the table tells where an instruction of the function ends, modulo 8, and where its copy does,
      modulo 32. */
  lemma AlignmentReads(pieces: seq<Piece>, mem: seq<Byte>, k: nat)
    requires HoldsAlignments(pieces, mem) && k < |pieces|
    requires pieces[k].dst + pieces[k].copy.consumed + pieces[k].copy.extra >= 0
    ensures var p, entry := pieces[k], mem[R_ALIGN + k];
      && entry % 8 == (p.src + p.copy.consumed) % 8
      && entry / 8 == (p.dst + p.copy.consumed + p.copy.extra) % 32
  {
    assert mem[R_ALIGN + k] == EntryOf(pieces[k]);
  }

  // ------------------------------------------------------------------ a long copy

  /** Two short jumps, and a third one behind ten segment prefixes. */
  const LONG_COPY: seq<Byte> := [0x74, 0, 0x74, 0] + Fill(0x3E, 10) + [0x74, 0]

  /** Segment prefixes only set the override. */
  lemma {:induction false} SegmentPrefixes(fl: Overrides, code: seq<Byte>, s: nat, n: nat)
    requires s + n < |code| && forall i :: s <= i < s + n ==> code[i] == 0x3E
    ensures Dispatch(false, fl, code, s) == Dispatch(false, if n == 0 then fl else fl.(segment := 0x3E), code, s + n)
    decreases n
  {
    if n > 0 {
      SegmentPrefixes(fl.(segment := 0x3E), code, s + 1, n - 1);
    }
  }

  /** 16 bytes move, and wherever the trampoline is their copies have 28. */
  lemma LongCopy(rest: seq<Byte>, base: nat, address: nat)
    ensures Movable(0, LONG_COPY + rest, 0) && CopyEnd(0, LONG_COPY + rest, base, address, 0, 0, 0) == (16, 28)
  {
    hide Copied, CopyEnd, EndsFunction, Movable, IsLoop, Length;
    var code := LONG_COPY + rest;
    ShortJump(code, 0, 0, base, address);
    ShortJump(code, 2, 0, base, address + 4);
    ShortJump(code, 4, 10, base, address + 8);
    MovableBack(code, 4, 12);
    MovableBack(code, 2, 2);
    MovableBack(code, 0, 2);
    var _, _, _ := NextEnd(0, code, base, address, 0, 0, 0);
    var _, _, _ := NextEnd(0, code, base, address, 2, 6, 1);
    var _, _, _ := NextEnd(0, code, base, address, 4, 12, 2);
    CopyStops(0, code, base, address, 16, 28, 3);
  }

  lemma MovableBack(code: seq<Byte>, s: nat, n: nat)
    requires Length(0, code, s) == Some(n) && !IsLoop(0, code, s) && 0 < n <= LONGEST && s + n <= |code|
    requires s + n >= JUMP_SIZE || Movable(0, code, s + n)
    ensures Movable(0, code, s) && (s + n >= JUMP_SIZE ==> Movable(0, code, s + n))
  {
    hide Length, IsLoop, EndsFunction;
  }

  /** A short conditional jump behind n segment prefixes. */
  lemma ShortJump(code: seq<Byte>, s: nat, n: nat, base: nat, address: int)
    requires s + n + 2 <= |code| && code[s + n] == 0x74 && forall i :: s <= i < s + n ==> code[i] == 0x3E
    ensures var o := Copied(false, Start(0), code, s, base, address + s - (base + s));
      o.Some? && o.value.consumed == n + 2 && o.value.extra == 4
    ensures Length(0, code, s) == Some(n + 2) && !IsLoop(0, code, s) && !EndsFunction(code, s)
  {
    hide Dispatch, LE, Filler, CopyEnd, Movable;
    JumpRoute(code, s, n);
    JumpCopied(code, s, n, base, address - base);
    JumpCopied(code, s, n, 0, 0);
    assert code[s] == 0x74 || (code[s] == 0x3E && code[s + 1] != 0xFF);
  }

  lemma JumpRoute(code: seq<Byte>, s: nat, n: nat)
    requires s + n < |code| && code[s + n] == 0x74 && forall i :: s <= i < s + n ==> code[i] == 0x3E
    ensures Dispatch(false, Start(0), code, s)
      == Some(Route(s + n, Enlarge, if n == 0 then Start(0) else Start(0x3E), false))
  {
    SegmentPrefixes(Start(0), code, s, n);
    assert CopyTable(false, 0x74) == Jump;
  }

  lemma JumpCopied(code: seq<Byte>, s: nat, n: nat, base: int, delta: int)
    requires s + n + 2 <= |code| && code[s + n] == 0x74
    requires Dispatch(false, Start(0), code, s)
      == Some(Route(s + n, Enlarge, if n == 0 then Start(0) else Start(0x3E), false))
    ensures var o := Copied(false, Start(0), code, s, base, delta);
      o.Some? && o.value.consumed == n + 2 && o.value.extra == 4
  {
    hide Dispatch, LE, SignedByte;
  }
}
