/** Pointing the code's references to import addresses at the moved table. */
module IATReferenceScan {
  import opened Arith
  import opened Bytes
  import opened PELayout
  import opened InstructionCopy

  /** An indirect call or jump: where it is, and the slot it goes through. */
  datatype IATReference = IATReference(addressVA: nat, targetPointer: nat)

  /** What the scan of the running module has found. */
  datatype Found = Found(references: seq<IATReference>, iatAddressVA: nat, imageBase: nat, wow64: bool)

  const INSTRUCTION_SIZE: nat := 6

  /** What an indirect call or jump at address `at` with displacement `disp` goes through. */
  function Through(wow64: bool, at: int, disp: nat): int {
    if wow64 then disp else at + INSTRUCTION_SIZE + Signed(disp, DWORDS)
  }

  /** RVAToSectionIndex; the number of sections when none holds the RVA. */
  function SectionIndex(sections: seq<SectionHeader>, rva: nat): (i: nat)
    ensures i <= |sections|
    ensures i < |sections| ==> sections[i].virtualAddress <= rva < sections[i].VirtualEnd()
  {
    if sections == [] then 0
    else if sections[0].virtualAddress <= rva < sections[0].VirtualEnd() then 0
    else 1 + SectionIndex(sections[1..], rva)
  }

  /** RVAToRelativeOffset: it takes the address of a section from one list and its size from another, and
      gives 0 when none holds the RVA. */
  function RelativeOffset(sections: seq<SectionHeader>, sizes: nat -> nat, rva: nat, from: nat): nat
    requires from <= |sections|
    decreases |sections| - from
  {
    if from == |sections| then 0
    else if sections[from].virtualAddress <= rva < sections[from].virtualAddress + sizes(from) then
      rva - sections[from].virtualAddress
    else RelativeOffset(sections, sizes, rva, from + 1)
  }

  lemma {:induction false} FirstSection(sections: seq<SectionHeader>, rva: nat, i: nat)
    requires i < |sections| && sections[i].virtualAddress <= rva < sections[i].VirtualEnd()
    ensures SectionIndex(sections, rva) <= i
  {
    if i > 0 {
      FirstSection(sections[1..], rva, i - 1);
    }
  }

  function Min(a: nat, b: nat): nat { if a < b then a else b }

  class IATReferenceScan {
    const references: seq<IATReference>
    const iatAddressVA: nat
    const imageBase: nat                    // of the running module
    const wow64: bool
    const aligned: seq<SectionHeader>       // the section list, aligned and in the order of addresses
    const sections: seq<SectionHeader>      // the mapped section table
    const beyond: nat -> nat                // what is read as a virtual size behind the table
    const file: array<Byte>                 // the mapped file

    constructor (found: Found, aligned: seq<SectionHeader>, sections: seq<SectionHeader>, beyond: nat -> nat,
                 file: array<Byte>)
      ensures references == found.references && iatAddressVA == found.iatAddressVA && imageBase == found.imageBase
      ensures wow64 == found.wow64 && this.aligned == aligned
      ensures this.sections == sections && this.beyond == beyond && this.file == file
    {
      references, iatAddressVA, imageBase := found.references, found.iatAddressVA, found.imageBase;
      wow64 := found.wow64;
      this.aligned, this.sections, this.beyond, this.file := aligned, sections, beyond, file;
    }

    /** Every reference stands in an aligned section that has an entry in the mapped table, and the raw
        data of these is in the file. */
    ghost predicate Valid() {
      && (forall k :: 0 <= k < |references| ==> InSection(references[k]))
      && forall i :: 0 <= i < |sections| ==> sections[i].RawEnd() <= file.Length
    }

    predicate InSection(ref: IATReference) {
      imageBase <= ref.addressVA && SectionIndex(aligned, ref.addressVA - imageBase) < |sections|
    }

    /** The entry of the mapped table under the index that the aligned list gives. */
    function Section(ref: IATReference): SectionHeader
      requires InSection(ref)
    {
      sections[SectionIndex(aligned, ref.addressVA - imageBase)]
    }

    function MappedSize(i: nat): nat { if i < |sections| then sections[i].virtualSize else beyond(i) }

    /** The instruction's offset in its section. */
    function PatchOffset(ref: IATReference): nat
      requires InSection(ref)
    {
      RelativeOffset(aligned, i => MappedSize(i), ref.addressVA - imageBase, 0)
    }

    /** The instruction is wholly in the part of its section that has data. */
    predicate Fits(ref: IATReference)
      requires InSection(ref)
    {
      PatchOffset(ref) + INSTRUCTION_SIZE <= Min(Section(ref).virtualSize, Section(ref).sizeOfRawData)
    }

    /** The file offset of the instruction. */
    function FileOffset(ref: IATReference): nat
      requires InSection(ref)
    {
      Section(ref).pointerToRawData + PatchOffset(ref)
    }

    /** The address of the reference's slot in the moved table. */
    function NewPointer(ref: IATReference, stdImageBase: nat, newIatRva: nat): int {
      ref.targetPointer - iatAddressVA + newIatRva + stdImageBase
    }

    /** The four bytes behind the opcode. */
    function PatchBytes(ref: IATReference, stdImageBase: nat, newIatRva: nat): nat {
      var pointer := NewPointer(ref, stdImageBase, newIatRva);
      Wrap(if wow64 then pointer else pointer - (ref.addressVA - imageBase + stdImageBase) - INSTRUCTION_SIZE, DWORDS)
    }

    /** How many references are patched: those before the first that does not fit. */
    ghost predicate PatchedCount(n: nat) {
      n <= |references| && (forall k :: 0 <= k < n ==> InSection(references[k]) && Fits(references[k]))
      && (n < |references| ==> InSection(references[n]) && !Fits(references[n]))
    }

    /** The two instructions do not overlap in the file. */
    ghost predicate Apart(a: IATReference, b: IATReference)
      requires InSection(a) && InSection(b)
    {
      FileOffset(a) + INSTRUCTION_SIZE <= FileOffset(b) || FileOffset(b) + INSTRUCTION_SIZE <= FileOffset(a)
    }

    /** No later one of the first n references overlaps reference k. */
    ghost predicate LastOf(k: nat, n: nat)
      requires Valid()
    {
      k < n <= |references| && forall j :: k < j < n ==> Apart(references[k], references[j])
    }

    /** Byte a belongs to the displacement of one of the first n references. */
    ghost predicate Patched(n: nat, a: nat) {
      exists k :: 0 <= k < n && k < |references| && InSection(references[k]) &&
        FileOffset(references[k]) + 2 <= a < FileOffset(references[k]) + INSTRUCTION_SIZE
    }

    /** The displacement of a reference is its patch. */
    ghost predicate PatchStored(ref: IATReference, stdImageBase: nat, newIatRva: nat)
      reads file
    {
      && InSection(ref) && FileOffset(ref) + INSTRUCTION_SIZE <= file.Length
      && file[FileOffset(ref) + 2..FileOffset(ref) + INSTRUCTION_SIZE]
        == LE(PatchBytes(ref, stdImageBase, newIatRva), 4)
    }

    /** Patches reference after reference and stops at the first that does not fit. A patch stays if no
        later one overlaps it. */
    method PatchNewIAT(stdImageBase: nat, newIatRva: nat) returns (ghost n: nat)
      requires Valid()
      modifies file
      ensures PatchedCount(n)
      ensures forall k :: 0 <= k < n && LastOf(k, n) ==> PatchStored(references[k], stdImageBase, newIatRva)
      ensures forall a :: 0 <= a < file.Length && !Patched(n, a) ==> file[a] == old(file[a])
    {
      hide LE, Wrap, PatchStored, Patched, FileOffset, RelativeOffset, LastOf;
      n := 0;
      NonePatched();
      for i := 0 to |references|
        invariant n == i && forall k :: 0 <= k < i ==> Fits(references[k])
        invariant forall k :: 0 <= k < i && LastOf(k, i) ==> PatchStored(references[k], stdImageBase, newIatRva)
        invariant forall a :: 0 <= a < file.Length && !Patched(i, a) ==> file[a] == old(file[a])
      {
        var ref := references[i];
        assert InSection(ref);
        var section := Section(ref);
        if Min(section.virtualSize, section.sizeOfRawData) < PatchOffset(ref) + INSTRUCTION_SIZE {
          return;
        }
        OnePatched(i);
        ghost var before := file[..];
        PatchOne(i, stdImageBase, newIatRva);
        forall a | 0 <= a < file.Length && !Patched(i + 1, a) ensures file[a] == old(file[a]) {
          assert !Patched(i, a) && file[a] == before[a];
        }
        n := i + 1;
      }
    }

    /** One store; the patches before it that it does not overlap stay. */
    method PatchOne(i: nat, stdImageBase: nat, newIatRva: nat)
      requires Valid() && i < |references| && Fits(references[i])
      requires forall k :: 0 <= k < i && LastOf(k, i) ==> PatchStored(references[k], stdImageBase, newIatRva)
      modifies file
      ensures forall k :: 0 <= k <= i && LastOf(k, i + 1) ==> PatchStored(references[k], stdImageBase, newIatRva)
      ensures var at := FileOffset(references[i]);
        forall a :: 0 <= a < file.Length && !(at + 2 <= a < at + INSTRUCTION_SIZE) ==> file[a] == old(file[a])
    {
      hide LE, Wrap, PatchBytes, PatchOffset, Section;
      var at := FileOffset(references[i]);
      RawInFile(i);
      ghost var before := file[..];
      Store(file, at + 2, LE(PatchBytes(references[i], stdImageBase, newIatRva), 4));
      forall k | 0 <= k < i && LastOf(k, i + 1) ensures PatchStored(references[k], stdImageBase, newIatRva) {
        var from := FileOffset(references[k]);
        assert LastOf(k, i) && Apart(references[k], references[i]);
        assert file[..][from + 2..from + INSTRUCTION_SIZE] == before[from + 2..from + INSTRUCTION_SIZE];
      }
    }

    lemma RawInFile(i: nat)
      requires Valid() && i < |references| && Fits(references[i])
      ensures FileOffset(references[i]) + INSTRUCTION_SIZE <= file.Length
    {
    }

    lemma NonePatched()
      ensures forall a: nat :: !Patched(0, a)
    {
    }

    lemma OnePatched(i: nat)
      requires Valid() && i < |references|
      ensures forall a: nat :: Patched(i + 1, a) <==>
        (Patched(i, a) || FileOffset(references[i]) + 2 <= a < FileOffset(references[i]) + INSTRUCTION_SIZE)
    {
      forall a: nat
        ensures Patched(i + 1, a) <==>
          (Patched(i, a) || FileOffset(references[i]) + 2 <= a < FileOffset(references[i]) + INSTRUCTION_SIZE)
      {
        if FileOffset(references[i]) + 2 <= a < FileOffset(references[i]) + INSTRUCTION_SIZE {
          assert InSection(references[i]);
        }
      }
    }

    // ---------------------------------------------------------------- which bytes are patched

    /** The two lists name the same sections: the mapped table is in the order of addresses, the addresses
        are aligned, and no section reaches into the next one. */
    ghost predicate SameSections() {
      && |sections| <= |aligned|
      && (forall i :: 0 <= i < |sections| ==>
           aligned[i].virtualAddress == sections[i].virtualAddress && sections[i].virtualSize <= aligned[i].virtualSize)
      && forall i, j :: 0 <= i < j < |aligned| ==> aligned[i].VirtualEnd() <= aligned[j].virtualAddress
    }

    /** Then a reference within the mapped size of its section is patched at its own place in the file, and
        one behind it, in the slack that alignment adds, at the start of the section. */
    lemma PatchedPlace(ref: IATReference)
      requires SameSections() && InSection(ref)
      ensures var rva, s := ref.addressVA - imageBase, Section(ref);
        && s.virtualAddress <= rva
        && FileOffset(ref) == s.pointerToRawData + if rva < s.VirtualEnd() then rva - s.virtualAddress else 0
    {
      var rva := ref.addressVA - imageBase;
      var i := SectionIndex(aligned, rva);
      SkipTo(rva, i, 0);
      if sections[i].VirtualEnd() <= rva {
        NoneBehind(rva, i);
      }
    }

    lemma {:induction false} SkipTo(rva: nat, i: nat, from: nat)
      requires SameSections() && from <= i < |sections| && aligned[i].virtualAddress <= rva
      ensures RelativeOffset(aligned, k => MappedSize(k), rva, from)
        == RelativeOffset(aligned, k => MappedSize(k), rva, i)
      decreases i - from
    {
      if from < i {
        SkipTo(rva, i, from + 1);
      }
    }

    lemma {:induction false} NoneBehind(rva: nat, i: nat)
      requires SameSections() && i < |sections| && sections[i].VirtualEnd() <= rva < aligned[i].VirtualEnd()
      ensures RelativeOffset(aligned, k => MappedSize(k), rva, i) == 0
    {
      NoneFrom(rva, i + 1);
    }

    lemma {:induction false} NoneFrom(rva: nat, from: nat)
      requires from <= |aligned| && forall j :: from <= j < |aligned| ==> rva < aligned[j].virtualAddress
      ensures RelativeOffset(aligned, k => MappedSize(k), rva, from) == 0
      decreases |aligned| - from
    {
      if from < |aligned| {
        NoneFrom(rva, from + 1);
      }
    }

    /** What the instruction at `ref` goes through, loaded at the standard base; `disp` are its last four
        bytes. */
    function Target(ref: IATReference, stdImageBase: nat, disp: nat): int {
      Through(wow64, ref.addressVA - imageBase + stdImageBase, disp)
    }

    /** A patched reference goes through the moved slot, modulo 2^32; through exactly that address if
        and only if it is within reach. */
    lemma PatchedReferenceReads(ref: IATReference, stdImageBase: nat, newIatRva: nat)
      requires !wow64
      ensures var disp := FromLE(LE(PatchBytes(ref, stdImageBase, newIatRva), 4));
        && Wrap(Target(ref, stdImageBase, disp), DWORDS) == Wrap(NewPointer(ref, stdImageBase, newIatRva), DWORDS)
        && (Target(ref, stdImageBase, disp) == NewPointer(ref, stdImageBase, newIatRva)
            <==> FitsDword(NewPointer(ref, stdImageBase, newIatRva) - Target(ref, stdImageBase, 0)))
    {
      hide Wrap;
      var pointer := NewPointer(ref, stdImageBase, newIatRva);
      var next := Target(ref, stdImageBase, 0);
      var r := pointer - next;
      var disp := PatchBytes(ref, stdImageBase, newIatRva);
      assert disp == Wrap(r, DWORDS);
      CapacityFacts();
      WordRoundTrip(disp, 4);
      SignedWrapFacts(r, DWORDS);
      CongruentShift(next, SignedWrap(r, DWORDS), r, DWORDS);
      if FitsDword(r) {
        CongruentEqual(SignedWrap(r, DWORDS), r, DWORDS);
      }
    }

    /** An instruction that in the running module goes through the slot of `ref` and keeps its displacement
        goes through the moved slot exactly if the table has not moved, modulo 2^32; 32-bit code has the
        address itself in it, so that there a new base counts as a move. */
    lemma UnpatchedReads(ref: IATReference, stdImageBase: nat, newIatRva: nat, disp: nat)
      requires Wrap(Through(wow64, ref.addressVA, disp), DWORDS) == Wrap(ref.targetPointer, DWORDS)
      ensures Wrap(Target(ref, stdImageBase, disp), DWORDS) == Wrap(NewPointer(ref, stdImageBase, newIatRva), DWORDS)
        <==> Wrap(newIatRva + (if wow64 then stdImageBase else imageBase), DWORDS) == Wrap(iatAddressVA, DWORDS)
    {
      hide Wrap;
      var was, base := Through(wow64, ref.addressVA, disp), if wow64 then 0 else stdImageBase - imageBase;
      var moved := newIatRva + (if wow64 then stdImageBase else imageBase);
      assert Target(ref, stdImageBase, disp) == was + base;
      assert NewPointer(ref, stdImageBase, newIatRva) == ref.targetPointer + base + (moved - iatAddressVA);
      CongruentShift(base, was, ref.targetPointer, DWORDS);
      if Wrap(moved, DWORDS) == Wrap(iatAddressVA, DWORDS) {
        CongruentShift(ref.targetPointer + base - iatAddressVA, moved, iatAddressVA, DWORDS);
      } else if Wrap(ref.targetPointer + base, DWORDS) == Wrap(NewPointer(ref, stdImageBase, newIatRva), DWORDS) {
        CongruentShift(iatAddressVA - ref.targetPointer - base, ref.targetPointer + base,
          NewPointer(ref, stdImageBase, newIatRva), DWORDS);
      }
    }

    /** In 32-bit code the operand is the address itself. */
    lemma PatchedReference32(ref: IATReference, stdImageBase: nat, newIatRva: nat)
      requires wow64
      ensures FromLE(LE(PatchBytes(ref, stdImageBase, newIatRva), 4))
        == Wrap(NewPointer(ref, stdImageBase, newIatRva), DWORDS)
    {
      hide Wrap;
      CapacityFacts();
      WordRoundTrip(PatchBytes(ref, stdImageBase, newIatRva), 4);
    }
  }
}
