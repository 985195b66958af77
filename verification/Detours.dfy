/** Hooks on functions in code memory: attaching, detaching, and committing what is pending. */
module Detours {
  import opened Arith
  import opened Options
  import opened Bytes
  import opened InstructionCopy
  import opened BranchCopy
  import opened LockedCopy
  import opened HookCode
  import opened TrampolineLayout

  datatype Status = Success | InvalidParameter | InvalidHandle | NoMemory | InvalidBlockLength

  /** A function pointer of the caller. */
  class Pointer {
    var value: nat

    constructor (value: nat)
      ensures this.value == value
    {
      this.value := value;
    }
  }

  /** A trampoline: its record, and what the fields behind the code say. */
  class Trampoline {
    const address: nat
    const record: array<Byte>
    ghost var saved: seq<Byte>
    ghost var remain: nat
    ghost var detour: nat

    constructor (address: nat, record: array<Byte>)
      requires record.Length == TRAMPOLINE_SIZE
      ensures this.address == address && this.record == record
    {
      this.address, this.record := address, record;
      saved, remain, detour := [], 0, 0;
    }

    ghost function Target(): int
      reads this
    {
      remain - |saved|
    }

    ghost predicate Covers(a: int)
      reads this
    {
      Target() <= a < remain
    }

    ghost predicate Stored()
      reads this, record
    {
      StoredIn(record[..])
    }

    ghost predicate StoredIn(bytes: seq<Byte>)
      reads this
    {
      && |bytes| == TRAMPOLINE_SIZE && bytes[CB_RESTORE] == |saved| <= RESTORE_SIZE
      && bytes[RB_RESTORE..RB_RESTORE + |saved|] == saved
      && Read(bytes, REMAIN, 4) == remain && Read(bytes, DETOUR, 4) == detour
    }
  }

  datatype Operation = Operation(isRemove: bool, pointer: Pointer, trampoline: Trampoline, target: nat)

  /** What the system decides for one pending operation: whether the pages of its two stores can be
      mapped, and the pool memory that padding is taken from, if there is any. */
  datatype Env = Env(mapped: bool, pool: Option<int -> Byte>, poolMapped: bool)

  // ------------------------------------------------------------------ jumps

  /** The bytes of a near jump at address `from`. */
  function JumpTo(from: nat, destination: nat): (r: seq<Byte>)
    ensures |r| == JUMP_SIZE
  {
    [0xE9] + LE(Wrap(destination - (from + JUMP_SIZE), DWORDS), 4)
  }

  /** DetourSkipJmp's way through an import vector; `imports` says which indirect jumps lead to one. */
  function SkipImport(mem: seq<Byte>, imports: map<nat, nat>, p: nat): nat {
    if HookCode.At(mem, p, [0xFF, 0x25]) && p in imports then imports[p] else p
  }

  /** The code behind import vectors and patch jumps. */
  function SkipJmp(mem: seq<Byte>, imports: map<nat, nat>, pointer: nat): nat {
    var p := SkipImport(mem, imports, pointer);
    if p + 2 <= |mem| && mem[p] == 0xEB then
      var q := Short(false, p + 2, mem, p + 1);
      if HookCode.At(mem, q, [0xFF, 0x25]) then SkipImport(mem, imports, q)
      else if q + 5 <= |mem| && mem[q] == 0xE9 then Near(false, q + 5, mem, q + 1)
      else q
    else p
  }

  // ------------------------------------------------------------------ where a pointer leads

  /** An indirect jump that is known to be an import vector. */
  ghost predicate ImportVector(mem: seq<Byte>, imports: map<nat, nat>, p: nat) {
    p + 2 <= |mem| && mem[p] == 0xFF && mem[p + 1] == 0x25 && p in imports
  }

  /** An unconditional direct jump with opcode `op`, EB or E9, that leads from p to q. */
  ghost predicate DirectJump(mem: seq<Byte>, op: Byte, p: nat, q: nat) {
    p < |mem| && mem[p] == op && BranchAt(false, 0, mem, p) == Some(Branch(0xE9, q))
  }

  /** Whoever calls p gets to q by n import vectors and direct jumps. */
  ghost predicate LeadsTo(mem: seq<Byte>, imports: map<nat, nat>, p: nat, q: nat, n: nat)
    decreases n
  {
    if n == 0 then p == q
    else
      || (ImportVector(mem, imports, p) && LeadsTo(mem, imports, imports[p], q, n - 1))
      || exists m :: (DirectJump(mem, 0xEB, p, m) || DirectJump(mem, 0xE9, p, m)) && LeadsTo(mem, imports, m, q, n - 1)
  }

  /** The function behind p: behind an import vector, if p is one, and then behind a patch jump and the import
      vector or the long jump that this leads to. */
  ghost predicate Behind(mem: seq<Byte>, imports: map<nat, nat>, p: nat, target: nat) {
    if ImportVector(mem, imports, p) then BehindPatch(mem, imports, imports[p], target)
    else BehindPatch(mem, imports, p, target)
  }

  ghost predicate BehindPatch(mem: seq<Byte>, imports: map<nat, nat>, p: nat, target: nat) {
    && ((forall q :: !DirectJump(mem, 0xEB, p, q)) ==> target == p)
    && forall q :: DirectJump(mem, 0xEB, p, q) ==>
         && (ImportVector(mem, imports, q) ==> target == imports[q])
         && (forall d :: DirectJump(mem, 0xE9, q, d) ==> target == d)
         && (!ImportVector(mem, imports, q) && (forall d :: !DirectJump(mem, 0xE9, q, d)) ==> target == q)
  }

  /** DetourSkipJmp finds exactly that function, to which the pointer leads by at most three steps. */
  lemma SkipFollows(mem: seq<Byte>, imports: map<nat, nat>, p: nat)
    ensures var target := SkipJmp(mem, imports, p);
      Behind(mem, imports, p, target) && exists n :: 0 <= n <= 3 && LeadsTo(mem, imports, p, target, n)
  {
    hide LeadsTo, Near, Short;
    var target, p' := SkipJmp(mem, imports, p), SkipImport(mem, imports, p);
    assert p' == if ImportVector(mem, imports, p) then imports[p] else p by {
      VectorBytes(mem, p);
    }
    var n := PatchFollows(mem, imports, p', target);
    if ImportVector(mem, imports, p) {
      OneVector(mem, imports, p, target, n);
    }
  }

  lemma VectorBytes(mem: seq<Byte>, p: nat)
    ensures HookCode.At(mem, p, [0xFF, 0x25]) <==> p + 2 <= |mem| && mem[p] == 0xFF && mem[p + 1] == 0x25
  {
  }

  lemma OneVector(mem: seq<Byte>, imports: map<nat, nat>, p: nat, target: nat, n: nat)
    requires ImportVector(mem, imports, p) && LeadsTo(mem, imports, imports[p], target, n)
    ensures LeadsTo(mem, imports, p, target, n + 1)
  {
  }

  lemma OneJump(mem: seq<Byte>, imports: map<nat, nat>, p: nat, m: nat, target: nat, n: nat)
    requires DirectJump(mem, 0xEB, p, m) || DirectJump(mem, 0xE9, p, m)
    requires LeadsTo(mem, imports, m, target, n)
    ensures LeadsTo(mem, imports, p, target, n + 1)
  {
  }

  lemma NoStep(mem: seq<Byte>, imports: map<nat, nat>, p: nat)
    ensures LeadsTo(mem, imports, p, p, 0)
  {
  }

  lemma PatchFollows(mem: seq<Byte>, imports: map<nat, nat>, p: nat, target: nat) returns (n: nat)
    requires target ==
      if p + 2 <= |mem| && mem[p] == 0xEB then
        var q := Short(false, p + 2, mem, p + 1);
        if HookCode.At(mem, q, [0xFF, 0x25]) then SkipImport(mem, imports, q)
        else if q + 5 <= |mem| && mem[q] == 0xE9 then Near(false, q + 5, mem, q + 1)
        else q
      else p
    ensures n <= 2 && BehindPatch(mem, imports, p, target) && LeadsTo(mem, imports, p, target, n)
  {
    hide LeadsTo, Near, Short;
    n := 0;
    NoStep(mem, imports, target);
    if p + 2 <= |mem| && mem[p] == 0xEB {
      var q := Short(false, p + 2, mem, p + 1);
      assert DirectJump(mem, 0xEB, p, q);
      VectorBytes(mem, q);
      if ImportVector(mem, imports, q) {
        OneVector(mem, imports, q, target, 0);
        OneJump(mem, imports, p, q, target, 1);
        n := 2;
      } else if q + 5 <= |mem| && mem[q] == 0xE9 {
        assert DirectJump(mem, 0xE9, q, target);
        OneJump(mem, imports, q, target, target, 0);
        OneJump(mem, imports, p, q, target, 1);
        n := 2;
      } else {
        OneJump(mem, imports, p, q, target, 0);
        n := 1;
      }
    }
  }

  /** A function that is patched to jump over the five bytes in front of it to where a near jump leads: that is
      what a pointer to it leads to. */
  lemma PatchedFunction(mem: seq<Byte>, imports: map<nat, nat>, p: nat, target: nat)
    requires 5 <= p && p + 2 <= |mem| <= DWORDS && target < DWORDS && mem[p] == 0xEB && mem[p + 1] == 0xF9
    requires mem[p - 5..p] == JumpTo(p - 5, target)
    ensures SkipJmp(mem, imports, p) == target
  {
    hide JumpTo;
    JumpDecodes(mem, 0, p - 5, target);
    assert mem[p - 5] == 0xE9 by {
      JumpStart(p - 5, target);
      assert mem[p - 5..p][0] == mem[p - 5];
    }
    WrapSmall(p - 5, DWORDS);
    assert Short(false, p + 2, mem, p + 1) == p - 5;
    VectorBytes(mem, p);
    VectorBytes(mem, p - 5);
  }

  lemma JumpStart(from: nat, destination: nat)
    ensures JumpTo(from, destination)[0] == 0xE9
  {
  }

  /** A jump in code at `base` leads where it should. */
  lemma JumpDecodes(mem: seq<Byte>, base: nat, at: nat, destination: nat)
    requires at + JUMP_SIZE <= |mem| && destination < DWORDS
    requires mem[at..at + JUMP_SIZE] == JumpTo(base + at, destination)
    ensures BranchAt(false, base, mem, at) == Some(Branch(0xE9, destination))
  {
    hide Wrap, Read, LE, InReach;
    var next := base + at + JUMP_SIZE;
    var r := destination - next;
    var jump := JumpTo(base + at, destination);
    StoredOperand(false, [0xE9], r, next);
    Reach64(false, next, r);
    WrapSmall(destination, DWORDS);
    ReadIsSlice(mem, at + 1, 4);
    ReadIsSlice(jump, 1, 4);
    assert mem[at + 1..at + 5] == mem[at..at + JUMP_SIZE][1..5];
    assert mem[at] == mem[at..at + JUMP_SIZE][0];
  }

  // ------------------------------------------------------------------ the engine

  /** Hooks and what is pending, over code memory that starts at address 0. */
  class DetourEngine {
    const mem: array<Byte>
    const imports: map<nat, nat>
    var pending: seq<Operation>          // newest first
    ghost const initial: seq<Byte>
    ghost var original: seq<Byte>        // the code without the hooks
    ghost var hooks: set<Trampoline>     // installed or pending
    ghost var installed: set<Trampoline>
    ghost var spoiled: set<Trampoline>   // filled with a jump that runs into the saved bytes
    ghost var records: set<array<Byte>>
    ghost var undone: seq<Write>         // what each committed operation wrote back

    constructor (mem: array<Byte>, imports: map<nat, nat>)
      requires mem.Length <= DWORDS
      ensures Valid() && this.mem == mem && this.imports == imports && initial == original == mem[..]
      ensures pending == [] && hooks == {} && installed == {} && spoiled == {} && records == {} && undone == []
    {
      this.mem, this.imports, this.initial, this.original := mem, imports, mem[..], mem[..];
      pending, hooks, installed, spoiled, records, undone := [], {}, {}, {}, {}, [];
    }

    /** Where a hook may lie. */
    ghost predicate Sound(t: Trampoline)
      reads t
    {
      JUMP_SIZE <= |t.saved| <= t.remain && |t.saved| <= RESTORE_SIZE && t.remain + 4 <= mem.Length && t.detour < DWORDS
    }

    /** A hook keeps the bytes of its target. */
    ghost predicate Kept(t: Trampoline)
      reads t, this`original
    {
      KeptIn(original, t)
    }

    ghost predicate KeptIn(code: seq<Byte>, t: Trampoline)
      reads t
    {
      0 <= t.Target() && t.remain <= |code| && t.saved == code[t.Target()..t.remain]
    }

    ghost predicate Separate(t: Trampoline, u: Trampoline)
      reads t, u
    {
      t.remain <= u.Target() || u.remain <= t.Target()
    }

    /** Outside the installed hooks the code is as it was. */
    ghost predicate Intact()
      reads this`installed, this`original, mem, installed
    {
      |original| == mem.Length &&
      forall a :: 0 <= a < mem.Length ==> (forall t :: t in installed ==> !t.Covers(a)) ==> mem[a] == original[a]
    }

    ghost predicate PendingSound(op: Operation)
      reads this`hooks, this`installed, hooks
    {
      op.trampoline in hooks && op.target == op.trampoline.Target() && (op.isRemove <==> op.trampoline in installed)
    }

    ghost predicate AttachedOnce()
      reads this`pending
    {
      forall i, j :: 0 <= i < j < |pending| && pending[i].trampoline == pending[j].trampoline ==> pending[i].isRemove
    }

    /** The hooks' records say what the hooks are. */
    ghost predicate Recorded()
      reads this`hooks, this`records, hooks, records
    {
      forall t :: t in hooks ==> t.record in records && t.Stored()
    }

    /** Only a spoiled hook does not keep the bytes of its target, and as long as there was none the
        code without the hooks is the initial one. */
    ghost predicate Faithful()
      reads this`hooks, this`spoiled, this`original, hooks
    {
      (forall t :: t in hooks && t !in spoiled ==> Kept(t)) && (spoiled == {} ==> original == initial)
    }

    /** The code without the hooks is the initial one with everything that was written back. */
    ghost predicate Logged()
      reads this`original, this`undone
    {
      AllWithin(undone, 0, |initial|) && original == StateAfter(initial, undone, |undone|)
    }

    ghost predicate Valid()
      reads this, mem, hooks, installed, records
    {
      Consistent() && (forall op :: op in pending ==> PendingSound(op)) && AttachedOnce()
    }

    /** What also every step of a commit keeps. */
    ghost predicate Consistent()
      reads this, mem, hooks, installed, records
    {
      && installed <= hooks && |original| == mem.Length <= DWORDS && mem !in records
      && (forall t :: t in hooks ==> Sound(t))
      && (forall t, u :: t in hooks && u in hooks && t != u ==> Separate(t, u))
      && Intact() && Recorded() && Faithful() && Logged()
    }

    /** With all hooks detached the code is the initial one exactly if, wherever code was ever restored, the
        last time gave back the initial bytes; so it is if no trampoline's jump ran into its saved bytes. */
    lemma AllDetached()
      requires Valid() && installed == {}
      ensures mem[..] == original && AllWithin(undone, 0, |initial|)
      ensures mem[..] == initial <==> WritesBack(initial, undone)
      ensures spoiled == {} ==> mem[..] == initial
    {
      hide Sound, Separate, Recorded, PendingSound, AttachedOnce, StateAfter, WritesBack;
      UnchangedIffWrittenBack(initial, undone);
    }

    // ---------------------------------------------------------------- attaching

    /** The function that a pointer leads to has its first bytes in reach, can be moved, and lies clear
        of all hooks. */
    ghost predicate Attachable(target: nat, segment: Byte)
      reads this, mem, hooks
    {
      && target + WINDOW <= mem.Length && target + JUMP_SIZE + LONGEST + 4 <= mem.Length
      && Movable(segment, mem[target..target + WINDOW], 0)
      && forall u :: u in hooks ==> u.remain <= target || target + JUMP_SIZE - 1 + LONGEST <= u.Target()
    }

    /** At least five bytes of the function at `target` can be moved to a trampoline at `address`. */
    ghost predicate FillableFrom(target: nat, address: nat, segment: Byte)
      reads this, mem
    {
      && target + WINDOW <= mem.Length && Movable(segment, mem[target..target + WINDOW], 0)
      && Fillable(mem[target..target + WINDOW], target, address, segment)
    }

    /** A trampoline whose record is its own. */
    ghost predicate Unused(t: Trampoline)
      reads this`hooks, this`records
    {
      t !in hooks && t.record.Length == TRAMPOLINE_SIZE && t.record != mem && t.record !in records
    }

    /** Moves the first instructions of the function behind the pointer into the trampoline and makes the hook
        pending. A detour that is the function itself is passed over without an error. The hook keeps
        the bytes of its target unless its jump runs into them. */
    method AttachEx(pointer: Pointer?, detour: nat, t: Trampoline?, enoughMemory: bool, segment: Byte, env: Env)
      returns (status: Status, ghost attached: bool, ghost target: nat, ghost pieces: seq<Piece>, ghost end: nat)
      requires Valid() && (t != null ==> Unused(t))
      requires pointer != null && pointer.value != 0 && detour != 0 ==>
        Attachable(SkipJmp(mem[..], imports, pointer.value), segment)
      requires SkipJmp(mem[..], imports, detour) < DWORDS
      modifies this`pending, this`hooks, this`spoiled, this`records, t, if t == null then {} else {t.record}
      ensures Valid()
      ensures target == (if pointer == null then 0 else SkipJmp(mem[..], imports, pointer.value))
      ensures status ==
        if detour == 0 then InvalidParameter
        else if pointer == null || pointer.value == 0 then InvalidHandle
        else if SkipJmp(mem[..], imports, detour) == target then Success
        else if !enoughMemory || t == null then NoMemory
        else if FillableFrom(target, t.address, segment) then Success
        else InvalidBlockLength
      ensures attached <==> status == Success && target != SkipJmp(mem[..], imports, detour)
      ensures !attached ==>
        pending == old(pending) && hooks == old(hooks) && spoiled == old(spoiled) && records == old(records)
      ensures attached ==>
        && hooks == old(hooks) + {t} && records == old(records) + {t.record}
        && pending == [Operation(false, pointer, t, target)] + old(pending)
        && Behind(mem[..], imports, pointer.value, target) && Behind(mem[..], imports, detour, t.detour)
        && (exists n :: 0 <= n <= 3 && LeadsTo(mem[..], imports, pointer.value, target, n))
        && t.detour == SkipJmp(mem[..], imports, detour) && t.Target() == target <= t.remain <= mem.Length
        && Moves(t, mem[target..target + WINDOW], segment, pieces, end, env.mapped)
        && spoiled == old(spoiled) + (if Overruns(end, env.mapped) then {t} else {})
        && (Kept(t) <==>
          !Overruns(end, env.mapped) || Coincides(mem[target..t.remain], end, JumpTo(t.address + end, t.remain)))
    {
      hide Movable, SkipJmp, Moves, Kept, Coincides, JumpTo, Fillable, Behind, LeadsTo;
      hide Sound, Separate, Intact, PendingSound, AttachedOnce, Recorded, Faithful;
      attached, pieces, end := false, [], 0;
      target := if pointer == null then 0 else SkipJmp(mem[..], imports, pointer.value);
      if detour == 0 {
        return InvalidParameter, false, target, [], 0;
      }
      if pointer == null || pointer.value == 0 {
        return InvalidHandle, false, target, [], 0;
      }
      var pTarget := SkipJmp(mem[..], imports, pointer.value);
      var pDetour := SkipJmp(mem[..], imports, detour);
      if pDetour == pTarget {
        return Success, false, target, [], 0;
      }
      if !enoughMemory || t == null {
        return NoMemory, false, target, [], 0;
      }
      AddressFits(pTarget, segment);
      var filled;
      filled, pieces, end := FillTrampoline(t, mem[pTarget..pTarget + WINDOW], pTarget, pDetour, segment, env);
      if !filled {
        return InvalidBlockLength, false, target, [], 0;
      }
      AddHook(pointer, t, pTarget, segment, pieces, end, env.mapped);
      SkipFollows(mem[..], imports, pointer.value);
      SkipFollows(mem[..], imports, detour);
      return Success, true, target, pieces, end;
    }

    lemma AddressFits(target: nat, segment: Byte)
      requires Valid() && Attachable(target, segment)
      ensures target + JUMP_SIZE + LONGEST <= DWORDS && Movable(segment, mem[target..target + WINDOW], 0)
    {
    }

    method AddHook(pointer: Pointer, t: Trampoline, target: nat, ghost segment: Byte, ghost pieces: seq<Piece>,
                   ghost end: nat, ghost mapped: bool)
      requires Valid() && Attachable(target, segment) && Unused(t) && t.detour < DWORDS && t.Target() == target
      requires Moves(t, mem[target..target + WINDOW], segment, pieces, end, mapped)
      modifies this`pending, this`hooks, this`spoiled, this`records
      ensures Valid() && hooks == old(hooks) + {t} && pending == [Operation(false, pointer, t, target)] + old(pending)
      ensures records == old(records) + {t.record}
      ensures spoiled == old(spoiled) + (if Overruns(end, mapped) then {t} else {})
      ensures t.remain <= mem.Length
      ensures Kept(t) <==>
        !Overruns(end, mapped) || Coincides(mem[target..t.remain], end, JumpTo(t.address + end, t.remain))
    {
      hide Valid, Attachable, Moves, Coincides, JumpTo, Overruns, Sound, Separate, Kept, Trampoline.Stored;
      HookAdded(t, target, segment, pieces, end, mapped);
      Include(t, Overruns(end, mapped));
      Push(Operation(false, pointer, t, target));
    }

    ghost method Include(t: Trampoline, spoils: bool)
      requires Valid() && Unused(t) && Sound(t) && t.Stored() && (!spoils ==> Kept(t))
      requires forall u :: u in hooks ==> Separate(t, u) && Separate(u, t)
      modifies this`hooks, this`spoiled, this`records
      ensures Valid() && hooks == old(hooks) + {t} && records == old(records) + {t.record}
      ensures spoiled == old(spoiled) + (if spoils then {t} else {})
      ensures t !in installed && forall op :: op in pending ==> op.trampoline in old(hooks)
    {
      hide Intact, AttachedOnce, Sound, Separate, Kept, Trampoline.Stored, Trampoline.Target;
      hooks, records := hooks + {t}, records + {t.record};
      spoiled := spoiled + if spoils then {t} else {};
    }

    method Push(op: Operation)
      requires Valid() && PendingSound(op)
      requires op.isRemove || forall o :: o in pending ==> o.trampoline != op.trampoline
      modifies this`pending
      ensures Valid() && pending == [op] + old(pending)
    {
      hide Intact, Sound, Separate, PendingSound, Recorded, Faithful;
      ghost var before := pending;
      pending := [op] + pending;
      forall i, j | 0 <= i < j < |pending| && pending[i].trampoline == pending[j].trampoline
        ensures pending[i].isRemove
      {
        assert pending[j] == before[j - 1];
        assert i > 0 ==> pending[i] == before[i - 1];
      }
    }

    /** A trampoline filled from code that no hook covers fits the others. */
    lemma HookAdded(t: Trampoline, target: nat, segment: Byte, pieces: seq<Piece>, end: nat, mapped: bool)
      requires Valid() && Attachable(target, segment) && t !in hooks && t.detour < DWORDS && t.Target() == target
      requires Moves(t, mem[target..target + WINDOW], segment, pieces, end, mapped)
      ensures Sound(t) && t.Stored() && forall u :: u in hooks ==> Separate(t, u) && Separate(u, t)
      ensures t.remain <= mem.Length
      ensures Kept(t) <==>
        !Overruns(end, mapped) || Coincides(mem[target..t.remain], end, JumpTo(t.address + end, t.remain))
    {
      hide Valid, Movable, Moves, JumpTo, Trampoline.Stored, SavedBytes, Overruns, Coincides;
      var code := mem[target..target + WINDOW];
      var n := |t.saved|;
      MovedBytes(t, code, segment, pieces, end, mapped);
      ClearTarget(t, target, segment);
      assert code[..n] == mem[target..t.remain];
      SavedIffClear(code[..n], end, JumpTo(t.address + end, t.remain), mapped);
    }

    lemma ClearTarget(t: Trampoline, target: nat, segment: Byte)
      requires Valid() && Attachable(target, segment) && t.Target() == target
      requires t.remain <= target + JUMP_SIZE - 1 + LONGEST
      ensures target <= t.remain <= mem.Length == |original| && mem[target..t.remain] == original[target..t.remain]
      ensures t.remain + 4 <= mem.Length && forall u :: u in hooks ==> Separate(t, u) && Separate(u, t)
    {
      hide Movable, Recorded, Faithful, AttachedOnce, PendingSound, Sound;
      forall a | target <= a < t.remain ensures mem[a] == original[a] {
        assert forall u :: u in installed ==> !u.Covers(a);
      }
    }

    // ---------------------------------------------------------------- detaching

    /** Makes the removal of the hook whose trampoline the pointer holds pending. */
    method Detach(pointer: Pointer?, detour: nat, t: Trampoline, enoughMemory: bool) returns (status: Status)
      requires Valid() && t in installed && (pointer != null ==> pointer.value == t.address || pointer.value == 0)
      modifies this`pending
      ensures Valid()
      ensures status ==
        if detour == 0 || pointer == null || pointer.value == 0 then InvalidHandle
        else if !enoughMemory then NoMemory
        else if t.detour == SkipJmp(mem[..], imports, detour) then Success
        else InvalidBlockLength
      ensures status == Success ==> Behind(mem[..], imports, detour, t.detour)
      ensures pending
        == if status == Success then [Operation(true, pointer, t, t.Target())] + old(pending) else old(pending)
    {
      hide SkipJmp, Read, Behind, LeadsTo;
      SkipFollows(mem[..], imports, detour);
      if detour == 0 || pointer == null || pointer.value == 0 {
        return InvalidHandle;
      }
      if !enoughMemory {
        return NoMemory;
      }
      Fields(t);
      var target: nat := t.record[CB_RESTORE];
      if target == 0 || target > CODE_SIZE || Read(t.record[..], DETOUR, 4) != SkipJmp(mem[..], imports, detour) {
        return InvalidBlockLength;
      }
      Push(Operation(true, pointer, t, Read(t.record[..], REMAIN, 4) - target));
      return Success;
    }

    lemma Fields(t: Trampoline)
      requires Consistent() && t in hooks
      ensures Sound(t) && t.Stored() && t.record in records && t.record != mem
    {
      hide Trampoline.Stored, Intact, Faithful, Separate;
    }

    // ---------------------------------------------------------------- committing

    ghost predicate Hooked(t: Trampoline)
      reads t, mem
    {
      HookedIn(mem[..], t)
    }

    ghost predicate HookedIn(code: seq<Byte>, t: Trampoline)
      reads t
    {
      && 0 <= t.Target() && t.Target() + JUMP_SIZE <= |code|
      && code[t.Target()..t.Target() + JUMP_SIZE] == JumpTo(t.Target(), t.detour)
    }

    /** One operation: restores the target and points the pointer to it, or writes the jump and points
        the pointer to the trampoline. */
    method Perform(op: Operation, env: Env)
      requires Consistent() && op.trampoline in hooks && op.target == op.trampoline.Target()
      modifies this`installed, this`original, this`undone, mem, op.pointer
      ensures Consistent() && undone == old(undone) + [WrittenBack(op, env)]
      ensures op.pointer.value == (if op.isRemove then op.target else op.trampoline.address)
      ensures installed == After(old(installed), op, env)
      ensures Sound(op.trampoline) && mem[..]
        == if !op.isRemove then Hooking(old(mem[..]), op.trampoline, env)
           else if env.mapped then Blit(old(mem[..]), op.target, op.trampoline.saved)
           else old(mem[..])
      ensures !op.isRemove && env.mapped ==> Hooked(op.trampoline)
      ensures op.isRemove && env.mapped ==> Kept(op.trampoline)
      ensures forall a :: 0 <= a < mem.Length && !op.trampoline.Covers(a) ==> mem[a] == old(mem[a])
      ensures if op.isRemove && env.mapped
              then forall a :: 0 <= a < mem.Length && !op.trampoline.Covers(a) ==> original[a] == old(original)[a]
              else original == old(original)
    {
      hide JumpTo, Sound, Separate, Trampoline.Covers, Trampoline.Stored, KeptIn, Blit, Intact, Recorded, Faithful;
      hide Logged, AllWithin, StateAfter, HookedIn, Read, LE;
      Parts();
      Fields(op.trampoline);
      Within(op.trampoline);
      ghost var before, was, code := mem[..], installed, original;
      ghost var restored := op.isRemove && env.mapped;
      ChangeCode(op, env);
      op.pointer.value := if op.isRemove then op.target else op.trampoline.address;
      installed := After(installed, op, env);
      Log(WrittenBack(op, env));
      StillIntact(op.trampoline, before, code, was, restored);
      StillFaithful(op.trampoline, code, restored);
    }

    method ChangeCode(op: Operation, env: Env)
      requires Sound(op.trampoline) && op.trampoline.Stored()
      requires op.target == op.trampoline.Target() && mem != op.trampoline.record
      modifies mem
      ensures op.isRemove ==>
        mem[..] == if env.mapped then Blit(old(mem[..]), op.target, op.trampoline.saved) else old(mem[..])
      ensures !op.isRemove ==>
        mem[..] == Hooking(old(mem[..]), op.trampoline, env) && (env.mapped ==> Hooked(op.trampoline))
      ensures forall a :: 0 <= a < mem.Length && !op.trampoline.Covers(a) ==> mem[a] == old(mem[a])
    {
      hide Sound, Trampoline.Stored, Blit, HookedIn;
      if op.isRemove {
        RestoreTarget(op, env);
      } else {
        WriteJump(op, env);
      }
    }

    ghost method Log(w: Write)
      requires Logged() && w.End() <= |original|
      modifies this`original, this`undone
      ensures Logged() && undone == old(undone) + [w]
      ensures original == Blit(old(original), w.at, w.bytes) && (w.bytes == [] ==> original == old(original))
    {
      hide Blit, StateAfter;
      Nothing(original, w.at);
      StateBefore(initial, undone, w, |undone|);
      NextStore(initial, undone + [w], |undone|);
      undone, original := undone + [w], Blit(original, w.at, w.bytes);
    }

    lemma Parts()
      requires Consistent()
      ensures forall a :: 0 <= a < mem.Length ==>
        (forall t :: t in installed ==> !t.Covers(a)) ==> mem[a] == original[a]
      ensures (forall t :: t in hooks && t !in spoiled ==> KeptIn(original, t))
      ensures (spoiled == {} ==> original == initial)
      ensures Logged() && |original| == mem.Length
    {
      hide Sound, Separate, KeptIn, Trampoline.Covers, Trampoline.Stored, Logged;
    }

    lemma Within(t: Trampoline)
      requires Sound(t)
      ensures 0 <= t.Target() && t.Target() + |t.saved| <= mem.Length
    {
    }

    /** Carries out what is pending, newest first. */
    method CommitEx(envs: seq<Env>)
      requires Valid() && |envs| == |pending|
      modifies this, mem, set op | op in pending :: op.pointer
      ensures Valid() && pending == [] && hooks == installed == Installed(old(installed), old(pending), envs)
      ensures spoiled == old(spoiled) && records == old(records)
      ensures Jumping(old(pending), envs, old(hooks))
      ensures forall k :: 0 <= k < |envs| && OnlyUse(old(pending), k) ==> PointerSet(old(pending)[k])
      ensures Restored(old(pending), envs, old(original), old(hooks))
      ensures Written(old(pending), envs, old(undone), old(hooks))
    {
      hide Valid, Progress, Reverted, Appended, Installed, Jumping, Restored, Written;
      ghost var was, code, log := installed, original, undone;
      Begin(envs);
      NothingWritten(envs);
      for i := 0 to |pending|
        invariant hooks == old(hooks) && pending == old(pending) && spoiled == old(spoiled) && records == old(records)
        invariant Progress(i, envs, was, code) && Appended(undone, log, i, envs)
      {
        CommitStep(i, envs, was, code, log);
      }
      AtEnd(envs, was, code);
      AllWritten(log, envs);
      Settle();
    }

    /** Every new hook whose page could be mapped jumps to its detour. */
    ghost predicate Jumping(ops: seq<Operation>, envs: seq<Env>, ts: set<Trampoline>)
      reads mem, ts
    {
      && |envs| == |ops|
      && forall k :: 0 <= k < |ops| ==> ops[k].trampoline in ts && Done(ops[k], envs[k])
    }

    /** A removal gives back the saved bytes and changes the code without the hooks, which was `code`, nowhere
        else; that stays what it was exactly if they were the bytes of the target. */
    ghost predicate Restored(ops: seq<Operation>, envs: seq<Env>, code: seq<Byte>, ts: set<Trampoline>)
      reads this`original, ts
    {
      && |envs| == |ops| && |original| == |code| && (forall k :: 0 <= k < |ops| ==> ops[k].trampoline in ts)
      && (forall k :: 0 <= k < |ops| && Undoes(ops[k], envs[k]) ==> Kept(ops[k].trampoline))
      && (forall a :: 0 <= a < |code| && original[a] != code[a] ==>
        exists k :: 0 <= k < |ops| && Undoes(ops[k], envs[k]) && ops[k].trampoline.Covers(a))
      && (original == code <==>
        forall k :: 0 <= k < |ops| && Undoes(ops[k], envs[k]) ==> KeptIn(code, ops[k].trampoline))
    }

    /** The log, which was `log`, has a further entry for each operation. */
    ghost predicate Written(ops: seq<Operation>, envs: seq<Env>, log: seq<Write>, ts: set<Trampoline>)
      reads this`undone, ts
    {
      && |envs| == |ops| && |undone| == |log| + |ops| && undone[..|log|] == log
      && forall k :: 0 <= k < |ops| ==>
           ops[k].trampoline in ts && undone[|log| + k] == WrittenBack(ops[k], envs[k])
    }

    /** After i operations, over code that without the hooks was `code`. */
    ghost predicate Progress(i: nat, envs: seq<Env>, was: set<Trampoline>, code: seq<Byte>)
      reads *
    {
      && i <= |pending| == |envs| && Consistent() && Steps() && installed == Installed(was, pending[..i], envs[..i])
      && (forall k :: 0 <= k < i ==> Done(pending[k], envs[k]))
      && (forall k :: 0 <= k < i && OnlyUse(pending[..i], k) ==> PointerSet(pending[k]))
      && Reverted(original, i, envs, code)
    }

    /** What i operations wrote back. */
    ghost predicate Appended(now: seq<Write>, log: seq<Write>, i: nat, envs: seq<Env>)
      reads this`pending, this`hooks, hooks
    {
      && i <= |pending| == |envs| && |now| == |log| + i && now[..|log|] == log
      && forall k :: 0 <= k < i ==>
           pending[k].trampoline in hooks && now[|log| + k] == WrittenBack(pending[k], envs[k])
    }

    lemma OneMoreWritten(now: seq<Write>, log: seq<Write>, i: nat, envs: seq<Env>)
      requires Appended(now, log, i, envs) && i < |pending| && pending[i].trampoline in hooks
      ensures Appended(now + [WrittenBack(pending[i], envs[i])], log, i + 1, envs)
    {
      hide WrittenBack;
      assert (now + [WrittenBack(pending[i], envs[i])])[..|log|] == now[..|log|];
    }

    lemma NothingWritten(envs: seq<Env>)
      requires |envs| == |pending|
      ensures Appended(undone, undone, 0, envs)
    {
    }

    lemma AllWritten(log: seq<Write>, envs: seq<Env>)
      requires Appended(undone, log, |pending|, envs)
      ensures Written(pending, envs, log, hooks)
    {
      hide WrittenBack;
    }

    /** What i operations make of `code`, the code without the hooks. */
    ghost predicate Reverted(now: seq<Byte>, i: nat, envs: seq<Env>, code: seq<Byte>)
      reads this`pending, this`hooks, hooks
    {
      && i <= |pending| == |envs| && |now| == |code| == mem.Length
      && (forall k :: 0 <= k < i && Undoes(pending[k], envs[k]) ==>
        pending[k].trampoline in hooks && KeptIn(now, pending[k].trampoline))
      && forall a :: 0 <= a < mem.Length && now[a] != code[a] ==> UndoneAt(i, envs, a)
    }

    ghost predicate UndoneAt(i: nat, envs: seq<Env>, a: int)
      requires i <= |pending| == |envs|
      reads this`pending, this`hooks, hooks
    {
      exists k ::
        0 <= k < i && Undoes(pending[k], envs[k]) && pending[k].trampoline in hooks && pending[k].trampoline.Covers(a)
    }

    lemma RevertedStep(now: seq<Byte>, next: seq<Byte>, i: nat, envs: seq<Env>, code: seq<Byte>)
      requires Reverted(now, i, envs, code) && Steps() && Consistent() && i < |pending| && |next| == mem.Length
      requires if Undoes(pending[i], envs[i])
               then
                 && KeptIn(next, pending[i].trampoline)
                 && forall a :: 0 <= a < mem.Length && !pending[i].trampoline.Covers(a) ==> next[a] == now[a]
               else next == now
      ensures Reverted(next, i + 1, envs, code)
    {
      hide Intact, Recorded, Faithful, UndoneAt;
      forall a | 0 <= a < mem.Length && next[a] != code[a] ensures UndoneAt(i + 1, envs, a) {
        OneMoreUndone(i, envs, a);
      }
      if Undoes(pending[i], envs[i]) {
        forall k | 0 <= k < i && Undoes(pending[k], envs[k]) ensures KeptIn(next, pending[k].trampoline) {
          KeptApart(now, next, pending[k].trampoline, pending[i].trampoline);
        }
      }
    }

    lemma OneMoreUndone(i: nat, envs: seq<Env>, a: int)
      requires i < |pending| == |envs|
      ensures UndoneAt(i + 1, envs, a) <==>
        UndoneAt(i, envs, a)
        || (Undoes(pending[i], envs[i]) && pending[i].trampoline in hooks && pending[i].trampoline.Covers(a))
    {
    }

    /** A change within one hook's range leaves what the others saved. */
    lemma KeptApart(now: seq<Byte>, next: seq<Byte>, u: Trampoline, t: Trampoline)
      requires |now| == |next| && KeptIn(now, u) && KeptIn(next, t) && (u != t ==> Separate(u, t) || Separate(t, u))
      requires forall a :: 0 <= a < |now| && !t.Covers(a) ==> next[a] == now[a]
      ensures KeptIn(next, u)
    {
      if u != t {
        assert next[u.Target()..u.remain] == now[u.Target()..u.remain];
      }
    }

    lemma Begin(envs: seq<Env>)
      requires Valid() && |envs| == |pending|
      ensures Progress(0, envs, installed, original)
    {
      InstalledSteps(installed, pending, envs);
      StepsApart();
    }

    lemma AtEnd(envs: seq<Env>, was: set<Trampoline>, code: seq<Byte>)
      requires Progress(|pending|, envs, was, code)
      ensures Consistent() && installed == Installed(was, pending, envs)
      ensures Jumping(pending, envs, hooks) && Restored(pending, envs, code, hooks)
      ensures forall k :: 0 <= k < |pending| && OnlyUse(pending, k) ==> PointerSet(pending[k])
    {
      hide Consistent, Done, PointerSet, Installed;
      InstalledSteps(was, pending, envs);
      assert pending[..|pending|] == pending;
      RevertedAll(original, envs, code);
    }

    lemma KeptAlike(now: seq<Byte>, code: seq<Byte>, t: Trampoline, a: int)
      requires KeptIn(now, t) && KeptIn(code, t) && t.Covers(a)
      ensures now[a] == code[a]
    {
      assert now[a] == t.saved[a - t.Target()] == code[a];
    }

    /** The code without the hooks is as it was exactly if every removed hook had kept its bytes. */
    lemma RevertedAll(now: seq<Byte>, envs: seq<Env>, code: seq<Byte>)
      requires Reverted(now, |pending|, envs, code)
      ensures forall a :: 0 <= a < mem.Length && now[a] != code[a] ==>
        exists k :: 0 <= k < |pending| && Undoes(pending[k], envs[k]) && pending[k].trampoline.Covers(a)
      ensures now == code <==>
        forall k :: 0 <= k < |pending| && Undoes(pending[k], envs[k]) ==> KeptIn(code, pending[k].trampoline)
    {
      if forall k :: 0 <= k < |pending| && Undoes(pending[k], envs[k]) ==> KeptIn(code, pending[k].trampoline) {
        forall a | 0 <= a < mem.Length ensures now[a] == code[a] {
          if now[a] != code[a] {
            assert UndoneAt(|pending|, envs, a);
            var k :| 0 <= k < |pending| && Undoes(pending[k], envs[k]) && pending[k].trampoline.Covers(a);
            KeptAlike(now, code, pending[k].trampoline, a);
          }
        }
      }
    }

    method CommitStep(i: nat, envs: seq<Env>, ghost was: set<Trampoline>, ghost code: seq<Byte>, ghost log: seq<Write>)
      requires Progress(i, envs, was, code) && Appended(undone, log, i, envs) && i < |pending|
      modifies this`installed, this`original, this`undone, mem, pending[i].pointer
      ensures Progress(i + 1, envs, was, code) && Appended(undone, log, i + 1, envs)
    {
      hide Sound, Separate, DoneIn, Installed, After, Consistent, OnlyUse, Reverted, Kept, Appended;
      hide Hooking, Blit, WrittenBack, HookedIn;
      ghost var before, now := mem[..], original;
      OneMoreWritten(undone, log, i, envs);
      assert forall k :: 0 <= k < i ==> DoneIn(before, pending[k], envs[k]);
      StepSound(i);
      Perform(pending[i], envs[i]);
      AllStayDone(i, envs, before);
      InstalledSteps(was, pending, envs);
      UsesBelow(pending, i);
      KeptNow(pending[i].trampoline);
      RevertedStep(now, original, i, envs, code);
    }

    lemma KeptNow(t: Trampoline)
      requires Consistent()
      ensures Kept(t) == KeptIn(original, t) && |original| == mem.Length
    {
      hide Intact, Recorded, Faithful, Sound, Separate, KeptIn;
    }

    /** The pending operations are on sound hooks, and a new hook is clear of all others. */
    ghost predicate Steps()
      reads this`pending, this`hooks, hooks
    {
      && (forall k :: 0 <= k < |pending| ==>
           && pending[k].trampoline in hooks && pending[k].target == pending[k].trampoline.Target()
           && Sound(pending[k].trampoline))
      && forall k, l :: 0 <= k < l < |pending| && !pending[k].isRemove ==>
        Separate(pending[k].trampoline, pending[l].trampoline)
    }

    lemma StepsApart()
      requires Valid()
      ensures Steps()
    {
      forall k | 0 <= k < |pending| ensures PendingSound(pending[k]) { }
    }

    lemma StepSound(i: nat)
      requires Steps() && i < |pending|
      ensures pending[i].trampoline in hooks && pending[i].target == pending[i].trampoline.Target()
    {
    }

    lemma AllStayDone(i: nat, envs: seq<Env>, before: seq<Byte>)
      requires Steps() && i < |pending| == |envs| && |before| == mem.Length
      requires forall k :: 0 <= k < i ==> DoneIn(before, pending[k], envs[k])
      requires !pending[i].isRemove && envs[i].mapped ==> Hooked(pending[i].trampoline)
      requires forall a :: 0 <= a < mem.Length && !pending[i].trampoline.Covers(a) ==> mem[a] == before[a]
      ensures forall k :: 0 <= k <= i ==> Done(pending[k], envs[k])
    {
      forall k | 0 <= k < i ensures Done(pending[k], envs[k]) {
        StaysDone(pending[k], envs[k], pending[i], before);
      }
    }

    method Settle()
      requires Consistent()
      modifies this`pending, this`hooks
      ensures Valid() && pending == [] && hooks == installed
    {
      pending, hooks := [], installed;
    }

    /** A new hook whose page could be mapped jumps to its detour. */
    ghost predicate Done(op: Operation, env: Env)
      reads op.trampoline, mem
    {
      DoneIn(mem[..], op, env)
    }

    ghost predicate DoneIn(code: seq<Byte>, op: Operation, env: Env)
      reads op.trampoline
    {
      !op.isRemove && env.mapped ==> HookedIn(code, op.trampoline)
    }

    ghost predicate PointerSet(op: Operation)
      reads op.pointer
    {
      op.pointer.value == if op.isRemove then op.target else op.trampoline.address
    }

    lemma StaysDone(op: Operation, env: Env, next: Operation, before: seq<Byte>)
      requires |before| == mem.Length && Sound(op.trampoline)
      requires DoneIn(before, op, env)
      requires !op.isRemove ==> Separate(op.trampoline, next.trampoline)
      requires forall a :: 0 <= a < mem.Length && !next.trampoline.Covers(a) ==> mem[a] == before[a]
      ensures Done(op, env)
    {
      if !op.isRemove && env.mapped {
        var t := op.trampoline.Target();
        assert mem[..][t..t + JUMP_SIZE] == before[t..t + JUMP_SIZE];
      }
    }

    /** The code of a hooked function reads as a jump to the detour. */
    lemma HookedJumps(t: Trampoline)
      requires Hooked(t) && t.detour < DWORDS
      ensures BranchAt(false, 0, mem[..], t.Target()) == Some(Branch(0xE9, t.detour))
    {
      assert mem[..][t.Target()..t.Target() + JUMP_SIZE] == mem[t.Target()..t.Target() + JUMP_SIZE];
      JumpDecodes(mem[..], 0, t.Target(), t.detour);
    }

    /** The code with the hook: the jump, and padding up to the first byte that did not move. */
    ghost function Hooking(code: seq<Byte>, t: Trampoline, env: Env): (r: seq<Byte>)
      requires |code| == mem.Length && Sound(t)
      reads t
      ensures |r| == |code|
    {
      var jumped := if env.mapped then Blit(code, t.Target(), JumpTo(t.Target(), t.detour)) else code;
      Padded(jumped, t.Target() + JUMP_SIZE, t.remain, env)
    }

    method RestoreTarget(op: Operation, env: Env)
      requires Sound(op.trampoline) && op.trampoline.Stored()
      requires op.target == op.trampoline.Target() && mem != op.trampoline.record
      modifies mem
      ensures mem[..] == if env.mapped then Blit(old(mem[..]), op.target, op.trampoline.saved) else old(mem[..])
      ensures forall a :: 0 <= a < mem.Length && !op.trampoline.Covers(a) ==> mem[a] == old(mem[a])
    {
      var record := op.trampoline.record;
      var restore := record[RB_RESTORE..RB_RESTORE + record[CB_RESTORE] as nat];
      assert restore == record[..][RB_RESTORE..RB_RESTORE + record[CB_RESTORE] as nat];
      ghost var before := mem[..];
      ghost var _ := MapLockedCopyMemory(mem, op.target, restore, env.mapped);
      assert forall a :: 0 <= a < mem.Length && !op.trampoline.Covers(a) ==> mem[..][a] == before[a];
    }

    method WriteJump(op: Operation, env: Env)
      requires Sound(op.trampoline) && op.trampoline.Stored()
      requires op.target == op.trampoline.Target() && mem != op.trampoline.record
      modifies mem
      ensures mem[..] == Hooking(old(mem[..]), op.trampoline, env)
      ensures forall a :: 0 <= a < mem.Length && !op.trampoline.Covers(a) ==> mem[a] == old(mem[a])
      ensures env.mapped ==> Hooked(op.trampoline)
    {
      hide JumpTo, Read;
      var record := op.trampoline.record;
      var jump, next := JumpTo(op.target, Read(record[..], DETOUR, 4)), op.target + JUMP_SIZE;
      ghost var before := mem[..];
      ghost var _ := MapLockedCopyMemory(mem, op.target, jump, env.mapped);
      assert forall a :: 0 <= a < mem.Length && !op.trampoline.Covers(a) ==> mem[..][a] == before[a];
      assert env.mapped ==> mem[..][op.target..next] == jump;
      ghost var jumped := mem[..];
      GenBrk(mem, next, Read(record[..], REMAIN, 4), env);
      assert mem[..][op.target..next] == jumped[op.target..next];
    }

    /** A change within one hook's range leaves everything outside the installed hooks as it was. */
    lemma StillIntact(t: Trampoline, before: seq<Byte>, code: seq<Byte>, was: set<Trampoline>, restored: bool)
      requires |before| == mem.Length == |code| && 0 <= t.Target() && t.Target() + |t.saved| <= mem.Length
      requires forall a :: 0 <= a < mem.Length ==> (forall u :: u in was ==> !u.Covers(a)) ==> before[a] == code[a]
      requires forall a :: 0 <= a < mem.Length && !t.Covers(a) ==> mem[a] == before[a]
      requires restored ==> mem[..] == Blit(before, t.Target(), t.saved)
      requires original == if restored then Blit(code, t.Target(), t.saved) else code
      requires if restored then installed == was - {t} else was <= installed && (t in installed || mem[..] == before)
      ensures Intact()
    {
      forall a | 0 <= a < mem.Length && forall u :: u in installed ==> !u.Covers(a) ensures mem[a] == original[a] {
        if t.Covers(a) {
          assert restored ==> mem[..][a] == t.saved[a - t.Target()] == original[a];
        } else {
          assert forall u :: u in was ==> !u.Covers(a);
        }
      }
    }

    lemma StillFaithful(t: Trampoline, code: seq<Byte>, restored: bool)
      requires |code| == mem.Length && 0 <= t.Target() && t.Target() + |t.saved| <= mem.Length && t in hooks
      requires original == if restored then Blit(code, t.Target(), t.saved) else code
      requires (forall u :: u in hooks && u !in spoiled ==> KeptIn(code, u)) && (spoiled == {} ==> code == initial)
      requires forall u :: u in hooks && u != t ==> Separate(u, t)
      ensures Faithful() && (restored ==> Kept(t))
      ensures forall a :: 0 <= a < mem.Length && !t.Covers(a) ==> original[a] == code[a]
    {
      if restored {
        assert original[t.Target()..t.remain] == t.saved;
        forall u | u in hooks && KeptIn(code, u) ensures KeptIn(original, u) {
          KeptApart(code, original, u, t);
        }
        if KeptIn(code, t) {
          assert code[..t.Target()] + code[t.Target()..t.remain] + code[t.remain..] == code;
        }
      }
    }
  }

  /** A removal whose page could be mapped. */
  ghost predicate Undoes(op: Operation, env: Env) { op.isRemove && env.mapped }

  /** The saved bytes that an operation writes back. */
  ghost function WrittenBack(op: Operation, env: Env): Write
    reads op.trampoline
  {
    Write(op.target, if Undoes(op, env) then op.trampoline.saved else [])
  }

  lemma Nothing(code: seq<Byte>, at: nat)
    requires at <= |code|
    ensures Blit(code, at, []) == code
  {
  }

  /** No later operation is on the same pointer. */
  ghost predicate OnlyUse(ops: seq<Operation>, k: nat) {
    k < |ops| && forall l :: k < l < |ops| ==> ops[l].pointer != ops[k].pointer
  }

  lemma UsesBelow(ops: seq<Operation>, i: nat)
    requires i < |ops|
    ensures OnlyUse(ops[..i + 1], i)
    ensures forall k :: 0 <= k < i && OnlyUse(ops[..i + 1], k) ==>
      OnlyUse(ops[..i], k) && ops[i].pointer != ops[k].pointer
  {
    forall k | 0 <= k < i && OnlyUse(ops[..i + 1], k) ensures OnlyUse(ops[..i], k) && ops[i].pointer != ops[k].pointer {
      assert ops[..i + 1][i] == ops[i];
      forall l | k < l < i ensures ops[..i][l].pointer != ops[..i][k].pointer {
        assert ops[..i + 1][l] == ops[..i][l];
      }
    }
  }

  /** The installed hooks after a commit. */
  ghost function Installed(installed: set<Trampoline>, ops: seq<Operation>, envs: seq<Env>): set<Trampoline>
    requires |envs| == |ops|
  {
    if ops == [] then installed
    else After(Installed(installed, ops[..|ops| - 1], envs[..|ops| - 1]), ops[|ops| - 1], envs[|ops| - 1])
  }

  lemma InstalledSteps(was: set<Trampoline>, ops: seq<Operation>, envs: seq<Env>)
    requires |envs| == |ops|
    ensures Installed(was, ops[..0], envs[..0]) == was
    ensures Installed(was, ops[..|ops|], envs[..|ops|]) == Installed(was, ops, envs)
    ensures forall i :: 0 <= i < |ops| ==>
      Installed(was, ops[..i + 1], envs[..i + 1]) == After(Installed(was, ops[..i], envs[..i]), ops[i], envs[i])
  {
    assert ops[..|ops|] == ops && envs[..|ops|] == envs;
    forall i | 0 <= i < |ops|
      ensures Installed(was, ops[..i + 1], envs[..i + 1]) == After(Installed(was, ops[..i], envs[..i]), ops[i], envs[i])
    {
      assert ops[..i + 1][..i] == ops[..i] && envs[..i + 1][..i] == envs[..i];
    }
  }

  /** A hook is installed after a commit if it was attached, or was installed and not detached with
      its page mapped. */
  lemma {:induction false} InstalledMember(was: set<Trampoline>, ops: seq<Operation>, envs: seq<Env>, t: Trampoline)
    requires |envs| == |ops| && forall op :: op in ops ==> (op.isRemove <==> op.trampoline in was)
    ensures t in Installed(was, ops, envs) <==>
      if t in was then forall k :: 0 <= k < |ops| && ops[k].trampoline == t ==> !envs[k].mapped
      else exists k :: 0 <= k < |ops| && ops[k].trampoline == t
  {
    if ops != [] {
      var n := |ops| - 1;
      InstalledMember(was, ops[..n], envs[..n], t);
      assert ops[n] in ops;
    }
  }

  /** The installed hooks after an operation. */
  ghost function After(installed: set<Trampoline>, op: Operation, env: Env): set<Trampoline> {
    if !op.isRemove then installed + {op.trampoline}
    else if env.mapped then installed - {op.trampoline}
    else installed
  }

  // ------------------------------------------------------------------ filling a trampoline

  /** With a jump that is written behind copies of `end` bytes, the saved bytes are written over. */
  ghost predicate Overruns(end: nat, mapped: bool) { mapped && end + JUMP_SIZE > RB_RESTORE }

  /** What the saved bytes are once the jump is written. */
  ghost function SavedBytes(bytes: seq<Byte>, end: nat, jump: seq<Byte>, mapped: bool): (r: seq<Byte>)
    requires |jump| == JUMP_SIZE <= |bytes| && end <= CODE_SIZE + 1
    ensures |r| == |bytes|
  {
    if Overruns(end, mapped) then jump[RB_RESTORE - end..] + bytes[end + JUMP_SIZE - RB_RESTORE..] else bytes
  }

  /** The end of the jump happens to be what was saved in its place. */
  ghost predicate Coincides(bytes: seq<Byte>, end: nat, jump: seq<Byte>) {
    RB_RESTORE - JUMP_SIZE < end < RB_RESTORE && |jump| == JUMP_SIZE <= |bytes|
    && jump[RB_RESTORE - end..] == bytes[..end + JUMP_SIZE - RB_RESTORE]
  }

  /** The saved bytes survive the jump exactly if the jump ends in front of them, or is what it writes
      over. */
  lemma SavedIffClear(bytes: seq<Byte>, end: nat, jump: seq<Byte>, mapped: bool)
    requires |jump| == JUMP_SIZE <= |bytes| && end <= CODE_SIZE + 1
    ensures SavedBytes(bytes, end, jump, mapped) == bytes <==> !Overruns(end, mapped) || Coincides(bytes, end, jump)
  {
    if Overruns(end, mapped) {
      var k := end + JUMP_SIZE - RB_RESTORE;
      assert bytes == bytes[..k] + bytes[k..];
      assert SavedBytes(bytes, end, jump, mapped)[..k] == jump[RB_RESTORE - end..];
    }
  }

  /** The size of the copies, stored behind the 30 bytes of code, is not the byte that a copy of 31
      bytes has there. */
  ghost predicate Clipped(p: Piece, end: nat) {
    p.dst <= CB_CODE < p.dst + |p.copy.out| && p.copy.out[CB_CODE - p.dst] != end
  }

  /** The copying ends, or the padding behind it, where five bytes are free. */
  ghost predicate Fillable(code: seq<Byte>, target: nat, address: nat, segment: Byte)
    requires Movable(segment, code, 0)
  {
    PastPadding(code, CopyEnd(segment, code, target, address, 0, 0, 0).0) >= JUMP_SIZE
  }

  /** The trampoline's code is copies of the target's first instructions and a jump behind them, with
      what the jump and the fields leave of the copies and of the saved bytes. */
  ghost predicate Moves(t: Trampoline, code: seq<Byte>, segment: Byte, pieces: seq<Piece>, end: nat, jump: bool)
    reads t, t.record
  {
    var n, target := |t.saved|, t.Target();
    && JUMP_SIZE <= n <= JUMP_SIZE - 1 + LONGEST && n <= |code| && 0 <= target && end <= CODE_SIZE + 1 && t.Stored()
    && Movable(segment, code, 0)
    && (exists copied: nat ::
          && CopyEnd(segment, code, target, t.address, 0, 0, 0) == (copied, end) && copied <= |code|
          && n == PastPadding(code, copied) && Follows(pieces, segment, code, target, t.address, copied, end)
          && StopsAt(pieces, code, copied))
    && t.saved == SavedBytes(code[..n], end, JumpTo(t.address + end, t.remain), jump)
    && (HoldsCopies(pieces, t.record[..]) <==> forall p :: p in pieces ==> !Clipped(p, end))
    && CopiesBelow(pieces, end) && HoldsAlignments(pieces, t.record[..])
    && (jump ==> t.record[end..end + JUMP_SIZE] == JumpTo(t.address + end, t.remain))
  }

  /** Fills a trampoline from the code at `target`: the copies, the fields, then the jump and the padding
      behind it. */
  method FillTrampoline(t: Trampoline, code: seq<Byte>, target: nat, destination: nat, segment: Byte, env: Env)
    returns (filled: bool, ghost pieces: seq<Piece>, ghost end: nat)
    requires t.record.Length == TRAMPOLINE_SIZE && |code| == WINDOW && Movable(segment, code, 0)
    requires target + JUMP_SIZE + LONGEST <= DWORDS && destination < DWORDS
    modifies t, t.record
    ensures filled <==> Fillable(code, target, t.address, segment)
    ensures filled ==>
      t.detour == destination && t.Target() == target && Moves(t, code, segment, pieces, end, env.mapped)
  {
    hide Movable, Copying, CopyEnd, PastPadding, JumpTo, Read, SavedBytes, FieldsIn, Jumped, Moves;
    Store(t.record, R_ALIGN, Zeros(ALIGNMENTS));
    var cbTarget, cursor;
    ghost var copied;
    cbTarget, cursor, pieces, copied := CopyTarget(code, target, t.record, t.address, segment);
    if cbTarget < JUMP_SIZE {
      return false, [], 0;
    }
    Copied31(pieces, segment, code, target, t.address, copied, cursor, t.record[..]);
    ghost var copies := t.record[..];
    end := cursor;
    FillFields(t.record, cursor, code[..cbTarget], target + cbTarget, destination);
    ghost var fields := t.record[..];
    FieldsRead(copies, fields, cursor, code[..cbTarget], target + cbTarget, destination);
    var prbCode: nat := t.record[CB_CODE];
    var jump := JumpTo(t.address + prbCode, Read(t.record[..], REMAIN, 4));
    WriteTail(t.record, prbCode, jump, env);
    t.saved, t.remain, t.detour := SavedBytes(code[..cbTarget], end, jump, env.mapped), target + cbTarget, destination;
    MovesFilled(t, code, segment, pieces, copied, end, jump, env.mapped, copies, fields);
    filled := true;
  }

  lemma Copied31(pieces: seq<Piece>, segment: Byte, code: seq<Byte>, base: nat, address: nat, s: nat, d: nat,
                 mem: seq<Byte>)
    requires Copying(pieces, segment, code, base, address, s, d, mem)
    ensures d <= CODE_SIZE + 1
  {
  }

  /** The fields behind the code, in the order in which they are stored. */
  method FillFields(record: array<Byte>, end: nat, bytes: seq<Byte>, remain: nat, detour: nat)
    requires record.Length == TRAMPOLINE_SIZE && end < 256 && |bytes| <= RESTORE_SIZE
    modifies record
    ensures FieldsIn(old(record[..]), record[..], end, bytes, remain, detour)
  {
    hide Blit, LE;
    SetByte(record, CB_CODE, end);
    SetByte(record, CB_RESTORE, |bytes|);
    Store(record, RB_RESTORE, bytes);
    Store(record, REMAIN, LE(remain, 4));
    Store(record, DETOUR, LE(detour, 4));
  }

  ghost predicate FieldsIn(before: seq<Byte>, after: seq<Byte>, end: nat, bytes: seq<Byte>, remain: nat, detour: nat) {
    && |before| == TRAMPOLINE_SIZE && end < 256 && |bytes| <= RESTORE_SIZE
    && after == Blit(Blit(Blit(before[CB_CODE := end][CB_RESTORE := |bytes|], RB_RESTORE, bytes),
      REMAIN, LE(remain, 4)), DETOUR, LE(detour, 4))
  }

  /** The fields hold what was stored, and copies and alignment table are untouched. */
  lemma FieldsRead(before: seq<Byte>, after: seq<Byte>, end: nat, bytes: seq<Byte>, remain: nat, detour: nat)
    requires FieldsIn(before, after, end, bytes, remain, detour) && remain < DWORDS && detour < DWORDS
    ensures |after| == |before| == TRAMPOLINE_SIZE && after[CB_CODE] == end && after[CB_RESTORE] == |bytes|
    ensures after[..CODE_SIZE] == before[..CODE_SIZE] && after[R_ALIGN..REMAIN] == before[R_ALIGN..REMAIN]
    ensures after[RB_RESTORE..RB_RESTORE + |bytes|] == bytes
    ensures Read(after, REMAIN, 4) == remain && Read(after, DETOUR, 4) == detour
  {
    hide LE, Read, Blit, FromLE, FieldsIn;
    FieldSlices(before, after, end, bytes, remain, detour);
    CapacityFacts();
    WordRoundTrip(remain, 4);
    WordRoundTrip(detour, 4);
    ReadIsSlice(after, REMAIN, 4);
    ReadIsSlice(after, DETOUR, 4);
  }

  lemma FieldSlices(before: seq<Byte>, after: seq<Byte>, end: nat, bytes: seq<Byte>, remain: nat, detour: nat)
    requires FieldsIn(before, after, end, bytes, remain, detour)
    ensures |after| == |before| == TRAMPOLINE_SIZE && after[CB_CODE] == end && after[CB_RESTORE] == |bytes|
    ensures after[..CODE_SIZE] == before[..CODE_SIZE] && after[R_ALIGN..REMAIN] == before[R_ALIGN..REMAIN]
    ensures after[RB_RESTORE..RB_RESTORE + |bytes|] == bytes
    ensures after[REMAIN..REMAIN + 4] == LE(remain, 4) && after[DETOUR..DETOUR + 4] == LE(detour, 4)
  {
    hide LE, Read;
  }

  /** The jump behind the copies, and the padding behind it. */
  method WriteTail(record: array<Byte>, end: nat, jump: seq<Byte>, env: Env)
    requires record.Length == TRAMPOLINE_SIZE && |jump| == JUMP_SIZE && end <= CODE_SIZE + 1
    modifies record
    ensures Jumped(old(record[..]), record[..], end, jump, env.mapped)
  {
    hide Blit;
    ghost var before := record[..];
    ghost var _ := MapLockedCopyMemory(record, end, jump, env.mapped);
    ghost var jumped := record[..];
    GenBrk(record, end + JUMP_SIZE, CODE_SIZE, env);
    assert forall a :: 0 <= a < record.Length && !(end + JUMP_SIZE <= a < CODE_SIZE) ==> record[..][a] == jumped[a];
  }

  ghost predicate Jumped(before: seq<Byte>, after: seq<Byte>, end: nat, jump: seq<Byte>, mapped: bool) {
    && |before| == |after| == TRAMPOLINE_SIZE && |jump| == JUMP_SIZE && end <= CODE_SIZE + 1
    && forall a :: 0 <= a < |after| && !(end + JUMP_SIZE <= a < CODE_SIZE) ==>
         after[a] == (if mapped then Blit(before, end, jump) else before)[a]
  }

  lemma JumpedAt(before: seq<Byte>, after: seq<Byte>, end: nat, jump: seq<Byte>, mapped: bool, a: nat)
    requires Jumped(before, after, end, jump, mapped) && a < TRAMPOLINE_SIZE && !(end + JUMP_SIZE <= a < CODE_SIZE)
    ensures after[a] == if mapped && end <= a < end + JUMP_SIZE then jump[a - end] else before[a]
  {
  }

  /** What the jump leaves of the record, and what it writes. */
  lemma JumpedRead(before: seq<Byte>, after: seq<Byte>, end: nat, jump: seq<Byte>, mapped: bool, n: nat)
    requires Jumped(before, after, end, jump, mapped) && JUMP_SIZE <= n <= RESTORE_SIZE
    ensures after[CB_RESTORE] == before[CB_RESTORE] && after[R_ALIGN..REMAIN] == before[R_ALIGN..REMAIN]
    ensures after[RB_RESTORE..RB_RESTORE + n] == SavedBytes(before[RB_RESTORE..RB_RESTORE + n], end, jump, mapped)
    ensures Read(after, REMAIN, 4) == Read(before, REMAIN, 4) && Read(after, DETOUR, 4) == Read(before, DETOUR, 4)
    ensures mapped ==> after[end..end + JUMP_SIZE] == jump
    ensures forall a :: 0 <= a < end ==> after[a] == before[a]
  {
    hide Read, Blit, SavedBytes;
    forall a | 0 <= a < TRAMPOLINE_SIZE && !(end + JUMP_SIZE <= a < CODE_SIZE)
      ensures after[a] == if mapped && end <= a < end + JUMP_SIZE then jump[a - end] else before[a]
    {
      JumpedAt(before, after, end, jump, mapped, a);
    }
    SavedJumped(before, after, end, jump, mapped, n);
    ReadIsSlice(before, REMAIN, 4);
    ReadIsSlice(before, DETOUR, 4);
    ReadIsSlice(after, REMAIN, 4);
    ReadIsSlice(after, DETOUR, 4);
    assert after[REMAIN..REMAIN + 4] == before[REMAIN..REMAIN + 4];
    assert after[DETOUR..DETOUR + 4] == before[DETOUR..DETOUR + 4];
  }

  lemma SavedJumped(before: seq<Byte>, after: seq<Byte>, end: nat, jump: seq<Byte>, mapped: bool, n: nat)
    requires |before| == |after| == TRAMPOLINE_SIZE && |jump| == JUMP_SIZE <= n <= RESTORE_SIZE && end <= CODE_SIZE + 1
    requires forall a :: RB_RESTORE <= a < RB_RESTORE + n ==>
      after[a] == if mapped && end <= a < end + JUMP_SIZE then jump[a - end] else before[a]
    ensures after[RB_RESTORE..RB_RESTORE + n] == SavedBytes(before[RB_RESTORE..RB_RESTORE + n], end, jump, mapped)
  {
  }

  /** Exactly the clipped copies are lost. */
  lemma CopiesLeft(pieces: seq<Piece>, copies: seq<Byte>, record: seq<Byte>, end: nat)
    requires |copies| == |record| == TRAMPOLINE_SIZE && end <= CODE_SIZE + 1
    requires HoldsCopies(pieces, copies) && CopiesBelow(pieces, end)
    requires forall a :: 0 <= a < end ==> record[a] == if a == CB_CODE then end else copies[a]
    ensures HoldsCopies(pieces, record) <==> forall p :: p in pieces ==> !Clipped(p, end)
  {
    forall k | 0 <= k < |pieces| ensures HoldsCopy(pieces[k], record) <==> !Clipped(pieces[k], end) {
      CopyLeft(pieces[k], copies, record, end);
    }
  }

  lemma CopyLeft(p: Piece, copies: seq<Byte>, record: seq<Byte>, end: nat)
    requires |copies| == |record| == TRAMPOLINE_SIZE && end <= CODE_SIZE + 1
    requires HoldsCopy(p, copies) && p.dst + |p.copy.out| <= end
    requires forall a :: 0 <= a < end ==> record[a] == if a == CB_CODE then end else copies[a]
    ensures HoldsCopy(p, record) <==> !Clipped(p, end)
  {
    var out := p.copy.out;
    assert forall i :: 0 <= i < |out| ==> out[i] == copies[p.dst..p.dst + |out|][i] == copies[p.dst + i];
    if HoldsCopy(p, record) {
      assert forall i :: 0 <= i < |out| ==> out[i] == record[p.dst..p.dst + |out|][i];
    } else {
      assert exists i :: 0 <= i < |out| && out[i] != record[p.dst + i];
    }
  }

  lemma MovedBytes(t: Trampoline, code: seq<Byte>, segment: Byte, pieces: seq<Piece>, end: nat, jump: bool)
    requires Moves(t, code, segment, pieces, end, jump)
    ensures JUMP_SIZE <= |t.saved| <= JUMP_SIZE - 1 + LONGEST
    ensures |t.saved| <= |code| && t.Stored() && end <= CODE_SIZE + 1
    ensures t.saved == SavedBytes(code[..|t.saved|], end, JumpTo(t.address + end, t.remain), jump)
  {
    hide HoldsCopies, HoldsAlignments, JumpTo, Trampoline.Stored, SavedBytes;
    hide CopyEnd, Follows, PastPadding, CopiesBelow;
  }

  /** A jump that ends in front of the saved bytes leaves them and all copies as they are. Otherwise the
      saved bytes are lost, unless they happen to be what the jump writes. */
  lemma JumpLeavesRoom(t: Trampoline, code: seq<Byte>, segment: Byte, pieces: seq<Piece>, end: nat)
    requires Moves(t, code, segment, pieces, end, true)
    ensures end + JUMP_SIZE <= RB_RESTORE ==> HoldsCopies(pieces, t.record[..]) && t.saved == code[..|t.saved|]
    ensures end + JUMP_SIZE > RB_RESTORE && !Coincides(code[..|t.saved|], end, JumpTo(t.address + end, t.remain)) ==>
      t.record[RB_RESTORE..RB_RESTORE + |t.saved|] != code[..|t.saved|]
  {
    hide JumpTo, HoldsCopies, HoldsAlignments, CopyEnd, Follows, PastPadding, Read, SavedBytes, Coincides;
    SavedIffClear(code[..|t.saved|], end, JumpTo(t.address + end, t.remain), true);
    assert t.record[..][RB_RESTORE..RB_RESTORE + |t.saved|] == t.record[RB_RESTORE..RB_RESTORE + |t.saved|];
  }

  /** A function on which this fails: its 16 bytes have copies of 28, and the jump writes the high byte of
      its distance over the first saved byte. That byte survives exactly if it is the high byte. */
  lemma LongCopySpoils(t: Trampoline, rest: seq<Byte>, pieces: seq<Piece>, end: nat)
    requires Moves(t, LONG_COPY + rest, 0, pieces, end, true)
    ensures end == 28 && Overruns(end, true) && |t.saved| == 16 && (LONG_COPY + rest)[0] == 0x74
    ensures var distance := Wrap(t.remain - (t.address + 28 + JUMP_SIZE), DWORDS);
      && t.record[RB_RESTORE] == distance / 0x100_0000
      && (t.saved == (LONG_COPY + rest)[..16] <==> 0x7400_0000 <= distance < 0x7500_0000)
  {
    hide JumpTo, HoldsCopies, HoldsAlignments, CopyEnd, Follows, Read, CopiesBelow, Movable;
    var code := LONG_COPY + rest;
    LongCopy(rest, t.Target(), t.address);
    HighByte(t.address + 28, t.remain);
    assert t.record[..][RB_RESTORE..RB_RESTORE + |t.saved|][0] == t.record[RB_RESTORE];
    SavedIffClear(code[..16], end, JumpTo(t.address + end, t.remain), true);
    assert code[..16][..1] == [code[0]];
    assert JumpTo(t.address + end, t.remain)[4..] == [JumpTo(t.address + end, t.remain)[4]];
  }

  /** The last byte of a jump. */
  lemma HighByte(from: nat, destination: nat)
    ensures JumpTo(from, destination)[4] == Wrap(destination - (from + JUMP_SIZE), DWORDS) / 0x100_0000
  {
    var x := Wrap(destination - (from + JUMP_SIZE), DWORDS);
    assert LE(x, 4)[3] == LE(x / 256, 3)[2] == LE(x / 256 / 256, 2)[1] == LE(x / 256 / 256 / 256, 1)[0];
  }

  /** Behind its copies a trampoline's code jumps to the first byte that did not move. */
  lemma CodeJumpsOn(t: Trampoline, code: seq<Byte>, segment: Byte, pieces: seq<Piece>, end: nat)
    requires Moves(t, code, segment, pieces, end, true) && t.remain < DWORDS
    ensures BranchAt(false, t.address, t.record[..], end) == Some(Branch(0xE9, t.remain))
  {
    hide JumpTo, BranchAt, HoldsCopies, HoldsAlignments, CopyEnd, Follows, PastPadding, Read, SavedBytes;
    assert t.record[..][end..end + JUMP_SIZE] == t.record[end..end + JUMP_SIZE];
    JumpDecodes(t.record[..], t.address, end, t.remain);
  }

  /** The stores in sequence leave what Moves says. */
  lemma MovesFilled(t: Trampoline, code: seq<Byte>, segment: Byte, pieces: seq<Piece>, copied: nat, end: nat,
                    jump: seq<Byte>, mapped: bool,
                    copies: seq<Byte>, fields: seq<Byte>)
    requires t.record.Length == TRAMPOLINE_SIZE
    requires JUMP_SIZE <= |t.saved| <= JUMP_SIZE - 1 + LONGEST && |t.saved| <= |code| == WINDOW
    requires 0 <= t.Target() && copied <= |code| && end <= CODE_SIZE + 1
    requires Movable(segment, code, 0) && CopyEnd(segment, code, t.Target(), t.address, 0, 0, 0) == (copied, end)
    requires |t.saved| == PastPadding(code, copied)
    requires Copying(pieces, segment, code, t.Target(), t.address, copied, end, copies) && StopsAt(pieces, code, copied)
    requires FieldsIn(copies, fields, end, code[..|t.saved|], t.remain, t.detour)
    requires t.remain < DWORDS && t.detour < DWORDS
    requires jump == JumpTo(t.address + end, t.remain) && Jumped(fields, t.record[..], end, jump, mapped)
    requires t.saved == SavedBytes(code[..|t.saved|], end, jump, mapped)
    ensures Moves(t, code, segment, pieces, end, mapped)
  {
    hide CopyEnd, PastPadding, JumpTo, Read, SavedBytes, FieldsIn, Jumped, HoldsCopies, Clipped, Movable, Follows;
    var n, record := |t.saved|, t.record[..];
    FieldsRead(copies, fields, end, code[..n], t.remain, t.detour);
    JumpedRead(fields, record, end, jump, mapped, n);
    forall a | 0 <= a < end ensures record[a] == if a == CB_CODE then end else copies[a] {
      if a < CODE_SIZE {
        assert fields[..CODE_SIZE][a] == copies[..CODE_SIZE][a];
      }
    }
    CopiesLeft(pieces, copies, record, end);
    forall k | 0 <= k < |pieces| ensures record[R_ALIGN + k] == EntryOf(pieces[k]) {
      assert record[R_ALIGN..REMAIN][k] == fields[R_ALIGN..REMAIN][k] == copies[R_ALIGN..REMAIN][k];
    }
    assert mapped ==> t.record[end..end + JUMP_SIZE] == record[end..end + JUMP_SIZE];
  }

  ghost function Padded(mem: seq<Byte>, from: nat, limit: nat, env: Env): (r: seq<Byte>)
    requires from <= limit ==> limit <= |mem|
    ensures |r| == |mem|
  {
    if from <= limit && env.pool.Some? && env.poolMapped then
      Blit(mem, from, seq(limit - from, i => env.pool.value(i)))
    else mem
  }

  /** Pads up to the limit with whatever the pool memory holds. Behind the limit the count wraps to
      nearly 4 GB, which cannot be mapped. */
  method GenBrk(mem: array<Byte>, from: nat, limit: nat, env: Env)
    requires from <= limit ==> limit + 4 <= mem.Length
    modifies mem
    ensures mem[..] == Padded(old(mem[..]), from, limit, env)
    ensures forall a :: 0 <= a < mem.Length && !(from <= a < limit) ==> mem[a] == old(mem[a])
  {
    ghost var before := mem[..];
    if from <= limit && env.pool.Some? {
      ghost var _ := MapLockedCopyMemory(mem, from, seq(limit - from, i => env.pool.value(i)), env.poolMapped);
    }
    assert forall a :: 0 <= a < mem.Length && !(from <= a < limit) ==> mem[..][a] == before[a];
  }
}
