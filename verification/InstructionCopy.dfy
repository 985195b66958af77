/** The copy of one instruction, and what it means: which branches keep their destination. */
module InstructionCopy {
  import opened Arith
  import opened Options
  import opened Bytes
  import opened CopyTables
  import opened CopyRoutes

  datatype BranchTarget = NoTarget | At(address: nat) | AnyTarget | PointerAt(slot: nat)

  /** The number of addresses of a build. */
  function Space(x64: bool): (w: nat)
    ensures w >= DWORDS
  {
    if x64 then QWORDS else DWORDS
  }

  /** The signed value of a word with m values. */
  function Signed(v: nat, m: nat): int { if 2 * v < m then v else v - m }

  function SignedByte(b: Byte): int { Signed(b, 0x100) }

  function SignedWrap(x: int, m: nat): int
    requires m >= 1
  {
    Signed(Wrap(x, m), m)
  }

  ghost predicate FitsByte(x: int) { -0x80 <= x < 0x80 }

  ghost predicate FitsDword(x: int) { -0x8000_0000 <= x < 0x8000_0000 }

  // ------------------------------------------------------------------ what a handler writes

  /** The fixed part of an entry under the override flags. */
  function FixedBytes(x64: bool, e: FixedEntry, fl: Overrides): nat {
    if e.flag == AddressSized then (if fl.address then e.fixedSize16 else e.fixedSize)
    else if x64 && fl.rax then e.fixedSize + (if e.flag == RaxSized then 4 else 0)
    else if fl.operand then e.fixedSize16
    else e.fixedSize
  }

  /** All bytes of a fixed form whose opcode byte stands at `at`; none if some are missing. */
  function Charge(x64: bool, e: FixedEntry, fl: Overrides, code: seq<Byte>, at: nat): (r: Option<nat>)
    ensures r.Some? ==> at + r.value <= |code|
  {
    var extra :- if e.modOffset == 0 then Some(0) else Addressing(code, at + e.modOffset);
    var n := FixedBytes(x64, e, fl) + extra;
    if at + n <= |code| then Some(n) else None
  }

  /** Where the relative operand of a fixed form stands and how long it is. */
  function Relative(x64: bool, e: FixedEntry, fl: Overrides, code: seq<Byte>, at: nat): (r: (nat, nat))
    requires Charge(x64, e, fl, code, at).Some?
    ensures r.0 > 0 ==> r.1 in {1, 2, 4} && r.0 + r.1 <= Charge(x64, e, fl, code, at).value
    ensures r.0 > 0 && e.relOffset == 0 ==> x64
  {
    if e.modOffset == 0 then (e.relOffset, if e.relOffset > 0 then FixedBytes(x64, e, fl) - e.relOffset else 0)
    else if x64 && at + e.modOffset < |code| && ModRm(code[at + e.modOffset]).rip then (e.modOffset + 1, 4)
    else (0, 0)
  }

  /** What a copy writes, how many source bytes it is a copy of, the branch target it reports and by
      how many bytes it says it grew. */
  datatype Outcome = Outcome(consumed: nat, out: seq<Byte>, target: BranchTarget, extra: int)

  /** The relative operand moved by -delta, in the address arithmetic of the build. */
  function Moved(x64: bool, rel: int, delta: int): int { SignedWrap(rel - delta, Space(x64)) }

  /** By how much a relative operand of k bytes would have to grow to hold x. */
  function Growth(x: int, k: nat): int {
    if k == 1 then (if -0x80 <= x <= 0x7F then 0 else 3)
    else if k == 2 then (if -0x8000 <= x <= 0x7FFF then 0 else 2)
    else 0
  }

  /** CopyBytes: a fixed form from source address `from`, copied to an address delta further on. */
  function CopyFixed(x64: bool, e: FixedEntry, fl: Overrides, code: seq<Byte>, at: nat, from: int,
                     delta: int): Option<Outcome>
  {
    var n :- Charge(x64, e, fl, code, at);
    var bytes := code[at..at + n];
    var (off, k) := Relative(x64, e, fl, code, at);
    if off == 0 then Some(Outcome(n, bytes, if e.flag == Dynamic then AnyTarget else NoTarget, 0))
    else
      var rel := Signed(Read(bytes, off, k), Capacity(k));
      var moved := Moved(x64, rel, delta);
      var grow := Growth(moved, k);
      Some(Outcome(n, Blit(bytes, off, LE(Wrap(moved, Capacity(k)), k)),
        if e.flag == Dynamic then AnyTarget
        else if e.relOffset == 0 then NoTarget
        else At(Wrap(from + n + rel, Space(x64))),
        if e.flag == NoEnlarge then -grow else grow))
  }

  /** CopyBytesJump: a short jump becomes a near one. */
  function CopyShort(x64: bool, code: seq<Byte>, at: nat, from: int, delta: int): Option<Outcome> {
    if at + 2 > |code| then None
    else
      var rel := SignedByte(code[at + 1]);
      var target := At(Wrap(from + 2 + rel, Space(x64)));
      if code[at] == 0xEB then Some(Outcome(2, [0xE9] + LE(Wrap(rel - (delta + 3), DWORDS), 4), target, 3))
      else Some(Outcome(2, [0x0F, 0x80 + code[at] % 16] + LE(Wrap(rel - (delta + 4), DWORDS), 4), target, 4))
  }

  /** CopyFF looks through the pointer of an indirect call or jump. */
  function Group5Target(x64: bool, fl: Overrides, code: seq<Byte>, at: nat, from: int, was: BranchTarget): BranchTarget
    requires at + 1 < |code|
  {
    var b := code[at + 1];
    if b == 0x15 || b == 0x25 then
      if (if x64 then fl.segment !in {0x64, 0x65} else fl.segment in {0, 0x2E}) && at + 6 <= |code| then
        PointerAt(if x64 then Wrap(from + 6 + Signed(Read(code, at + 2, 4), DWORDS), QWORDS) else Read(code, at + 2, 4))
      else AnyTarget
    else if b / 16 % 4 in {1, 2} then AnyTarget
    else was
  }

  function CopyLeaf(x64: bool, r: Route, code: seq<Byte>, from: int, delta: int): (o: Option<Outcome>)
    requires r.at < |code|
    ensures o.Some? ==> r.at + o.value.consumed <= |code| && |o.value.out| <= o.value.consumed + 4
  {
    match r.leaf
    case Bad => Some(Outcome(1, [], NoTarget, 0))
    case Enlarge => CopyShort(x64, code, r.at, from, delta)
    case Fixed(e) =>
      var o :- CopyFixed(x64, e, r.flags, code, r.at, from, delta);
      Some(if r.group5 && r.at + 1 < |code| then o.(target := Group5Target(x64, r.flags, code, r.at, from, o.target))
        else o)
  }

  /** The copy of the instruction at position s of `code`, which lies at address `base`, to an address
      delta further on: prefixes and escape bytes as they are, then what the last handler writes. */
  function Copied(x64: bool, fl: Overrides, code: seq<Byte>, s: nat, base: int, delta: int): Option<Outcome> {
    CopyAlong(x64, Dispatch(x64, fl, code, s), code, s, base, delta)
  }

  function CopyAlong(x64: bool, route: Option<Route>, code: seq<Byte>, s: nat, base: int,
                     delta: int): (o: Option<Outcome>)
    requires route.Some? ==> s <= route.value.at < |code|
    ensures o.Some? ==> s + o.value.consumed <= |code| && |o.value.out| <= o.value.consumed + 4
  {
    var r :- route;
    var o :- CopyLeaf(x64, r, code, base + r.at, delta);
    Some(o.(consumed := r.at - s + o.consumed, out := code[s..r.at] + o.out))
  }

  // ------------------------------------------------------------------ reference: direct branches

  /** A direct branch: E8 for a call, E9 for a jump, 80 to 8F for the condition of a jump. */
  datatype Branch = Branch(op: Byte, destination: nat)

  predicate LegacyPrefix(b: Byte) { b in {0x26, 0x2E, 0x36, 0x3E, 0x64, 0x65, 0x67, 0xF0, 0xF2, 0xF3} }

  /** The direct branch at position i of code at address `base`, without an operand-size prefix. */
  function DecodeBranch(x64: bool, base: int, code: seq<Byte>, i: nat): Option<Branch>
    decreases |code| - i
  {
    if i >= |code| then None
    else if LegacyPrefix(code[i]) || (x64 && code[i] / 16 == 4) then DecodeBranch(x64, base, code, i + 1)
    else BranchAt(x64, base, code, i)
  }

  function BranchAt(x64: bool, base: int, code: seq<Byte>, i: nat): Option<Branch>
    requires i < |code|
  {
    var b := code[i];
    if b in {0xE8, 0xE9} && i + 5 <= |code| then Some(Branch(b, Near(x64, base + i + 5, code, i + 1)))
    else if b == 0xEB && i + 2 <= |code| then Some(Branch(0xE9, Short(x64, base + i + 2, code, i + 1)))
    else if 0x70 <= b <= 0x7F && i + 2 <= |code| then Some(Branch(b + 0x10, Short(x64, base + i + 2, code, i + 1)))
    else if b == 0x0F && i + 6 <= |code| && 0x80 <= code[i + 1] <= 0x8F then
      Some(Branch(code[i + 1], Near(x64, base + i + 6, code, i + 2)))
    else None
  }

  function Near(x64: bool, next: int, code: seq<Byte>, at: nat): nat
    requires at + 4 <= |code|
  {
    Wrap(next + Signed(Read(code, at, 4), DWORDS), Space(x64))
  }

  function Short(x64: bool, next: int, code: seq<Byte>, at: nat): nat
    requires at < |code|
  {
    Wrap(next + SignedByte(code[at]), Space(x64))
  }

  /** A near branch that ends at address `next` can reach `destination`. */
  ghost predicate InReach(x64: bool, next: int, destination: int) {
    FitsDword(SignedWrap(destination - next, Space(x64)))
  }

  // ------------------------------------------------------------------ arithmetic of relative operands

  lemma SignedWrapFacts(x: int, m: int)
    requires m >= 2 && m % 2 == 0
    ensures -m <= 2 * SignedWrap(x, m) < m && Wrap(SignedWrap(x, m), m) == Wrap(x, m)
  {
    var v := Wrap(x, m);
    WrapSmall(v, m);
    if 2 * v >= m {
      ModPlus(v - m, m);
    }
  }

  /** Words of m values read as signed numbers: congruent ones less than m apart are equal. */
  lemma CongruentEqual(x: int, y: int, m: int)
    requires m >= 1 && Wrap(x, m) == Wrap(y, m) && -m < x - y < m
    ensures x == y
  {
    var p, q := x / m, y / m;
    assert x == m * p + x % m && y == m * q + y % m;
    if p < q {
      MulGap(m, p, q);
    } else if q < p {
      MulGap(m, q, p);
    }
  }

  lemma CongruentShift(a: int, x: int, y: int, m: nat)
    requires m >= 1 && Wrap(x, m) == Wrap(y, m)
    ensures Wrap(a + x, m) == Wrap(a + y, m)
  {
    WrapAdd(x, a, m);
    WrapAdd(y, a, m);
  }

  lemma ShiftedEqual(x: int, delta: int, m: nat)
    requires m >= 1
    ensures Wrap(x + delta, m) == Wrap(x, m) <==> Wrap(delta, m) == 0
  {
    hide Wrap;
    var r := Wrap(delta, m);
    WrapAdd(delta, x, m);
    if Wrap(x + r, m) == Wrap(x, m) {
      CongruentEqual(x + r, x, m);
    }
  }

  lemma WrapDivisor(x: int, m: int, c: int)
    requires m >= 1 && c >= 1
    ensures m * c >= 1 && Wrap(Wrap(x, m * c), m) == Wrap(x, m)
  {
    var d := m * c;
    assert d >= m by { MulGap(m, 0, c); }
    var q, r := x / d, x % d;
    assert x == d * q + r;
    assert d * q == m * (c * q);
    ModShift(r, m, c * q);
  }

  /** Adding an operand that was cut to m values and sign-extended reaches what the uncut operand
      reaches exactly when the cut loses nothing. */
  lemma Reach(next: int, r: int, m: int, w: int, c: nat)
    requires m >= 2 && m % 2 == 0 && c >= 1 && w == m * c && w % 2 == 0 && w >= m
    ensures SignedWrap(SignedWrap(r, w), m) == SignedWrap(r, m)
    ensures Wrap(next + SignedWrap(r, m), w) == Wrap(next + r, w) <==> -m <= 2 * SignedWrap(r, w) < m
  {
    hide Wrap, SignedWrap;
    var a, b := SignedWrap(r, m), SignedWrap(r, w);
    SignedWrapFacts(r, m);
    SignedWrapFacts(r, w);
    SignedWrapFacts(b, m);
    WrapDivisor(b, m, c);
    WrapDivisor(r, m, c);
    CongruentEqual(SignedWrap(b, m), a, m);
    CongruentShift(next, b, r, w);
    if Wrap(next + a, w) == Wrap(next + r, w) {
      CongruentEqual(next + a, next + b, w);
    }
    if -m <= 2 * b < m {
      CongruentEqual(a, b, m);
    }
  }

  lemma Reach64(x64: bool, next: int, r: int)
    ensures SignedWrap(SignedWrap(r, Space(x64)), DWORDS) == SignedWrap(r, DWORDS)
    ensures Wrap(next + SignedWrap(r, DWORDS), Space(x64)) == Wrap(next + r, Space(x64)) <==>
      InReach(x64, next, next + r)
    ensures !x64 ==> InReach(x64, next, next + r)
  {
    hide Wrap;
    Reach(next, r, DWORDS, Space(x64), if x64 then DWORDS else 1);
    SignedWrapFacts(r, Space(x64));
  }

  lemma ReachCongruent(x64: bool, next: int, x: int, y: int)
    requires Wrap(x, Space(x64)) == Wrap(y, Space(x64))
    ensures InReach(x64, next, x) <==> InReach(x64, next, y)
  {
    CongruentShift(-next, x, y, Space(x64));
  }

  lemma ReadOfStored(a: seq<Byte>, v: nat, k: nat, b: seq<Byte>)
    ensures Read(a + LE(v, k) + b, |a|, k) == v % Capacity(k)
  {
    var s := a + LE(v, k) + b;
    ReadIsSlice(s, |a|, k);
    assert s[|a|..|a| + k] == LE(v, k);
    WordRoundTrip(v, k);
  }
}
