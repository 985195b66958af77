/** What the references in a rebuilt file go through: the patches are made in the mapped file, but the sections
    that are saved were read before. */
module RebuiltReferences {
  import opened Arith
  import opened Bits
  import opened Bytes
  import opened Thunks
  import opened PELayout
  import opened PEParser
  import opened ImportLayout
  import opened InstructionCopy
  import opened IATReferenceScan
  import opened ImportRebuilder

  /** The slot that patching leads to is the one that moving the map gives its thunk. */
  lemma SlotIsMovedThunk(scan: IATReferenceScan, ref: IATReference, stdImageBase: nat, newIatRva: nat, ps: nat)
    requires scan.imageBase <= scan.iatAddressVA && scan.imageBase <= ref.targetPointer
    ensures
      Wrap(scan.NewPointer(ref, stdImageBase, newIatRva), Capacity(ps))
      == Wrap(stdImageBase
              + MoveRva(ps, scan.iatAddressVA - scan.imageBase, newIatRva, ref.targetPointer - scan.imageBase),
        Capacity(ps))
  {
    hide Wrap, Capacity;
    var rva := ref.targetPointer - scan.imageBase;
    var moved := rva + (newIatRva - (scan.iatAddressVA - scan.imageBase));
    WrapAdd(moved, stdImageBase, Capacity(ps));
    assert moved + stdImageBase == scan.NewPointer(ref, stdImageBase, newIatRva);
  }

  /** The last four bytes of an indirect call or jump. */
  function Displacement(image: seq<Byte>, at: nat): nat
    requires at + INSTRUCTION_SIZE <= |image|
  {
    Read(image, at + 2, 4)
  }

  /** The source's bytes of the old section that is section i of the rebuilt file. */
  function Source(r: ImportRebuilder, p: seq<nat>, i: nat): seq<Byte>
    requires r.parser.SourceInBounds() && i < |p| && p[i] < |r.parser.original|
  {
    r.parser.SourceBytes(r.parser.original[p[i]])
  }

  /** The instruction at offset `at` of section i of the rebuilt list is one of the source's, and in the running
      module goes through the slot of the reference. */
  ghost predicate RefersTo(r: ImportRebuilder, p: seq<nat>, i: nat, at: nat, scan: IATReferenceScan, ref: IATReference)
    requires r.parser.SourceInBounds()
    reads r.parser
  {
    && i < |r.parser.sections| && i < |p| && p[i] < |r.parser.original| && at + INSTRUCTION_SIZE <= |Source(r, p, i)|
    && ref.addressVA == scan.imageBase + r.parser.sections[i].header.virtualAddress + at
    && Wrap(Through(scan.wow64, ref.addressVA, Displacement(Source(r, p, i), at)), DWORDS)
       == Wrap(ref.targetPointer, DWORDS)
  }

  /** The displacement that the file loads there. */
  ghost function Loaded(r: ImportRebuilder, p: seq<nat>, file: seq<Byte>, i: nat, at: nat): nat
    requires r.parser.SourceInBounds() && i < |r.parser.sections| && i < |p| && p[i] < |r.parser.original|
    requires at + INSTRUCTION_SIZE <= |Source(r, p, i)|
    reads r.parser
  {
    Displacement(LoadSection(file, r.parser.sections[i].header, |Source(r, p, i)|), at)
  }

  lemma LoadedIsSource(r: ImportRebuilder, ms: ModuleMap, f: Frame, p: seq<nat>, file: seq<Byte>, i: nat, at: nat)
    requires r.Rebuildable(ms) && r.Rebuilt(ms, f, p, file) && i < |r.parser.original|
    requires i < |r.parser.sections| && i < |p| && p[i] < |r.parser.original|
    requires at + INSTRUCTION_SIZE <= |Source(r, p, i)|
    ensures r.parser.SourceInBounds() && Loaded(r, p, file, i, at) == Displacement(Source(r, p, i), at)
  {
    hide LoadSection, Read, SectionOf, DecodeTable;
    assert r.LoadsSource(file, r.parser.sections[i].header, p[i]);
  }

  /** In the rebuilt file the displacement of every such reference is the source's. So the reference goes through
      the moved slot exactly if the table has not moved, modulo 2^32. */
  lemma ReferenceUnpatched(r: ImportRebuilder, ms: ModuleMap, f: Frame, p: seq<nat>, file: seq<Byte>,
                           scan: IATReferenceScan, ref: IATReference, stdImageBase: nat, i: nat, at: nat)
    requires r.Rebuildable(ms) && r.Rebuilt(ms, f, p, file) && i < |r.parser.original|
    requires RefersTo(r, p, i, at, scan, ref)
    ensures
      var disp, newIat := Loaded(r, p, file, i, at), f.va + r.JumpTableSize();
      && disp == Displacement(Source(r, p, i), at)
      && (Wrap(scan.Target(ref, stdImageBase, disp), DWORDS) == Wrap(scan.NewPointer(ref, stdImageBase, newIat), DWORDS)
          <==> Wrap(newIat + (if scan.wow64 then stdImageBase else scan.imageBase), DWORDS)
               == Wrap(scan.iatAddressVA, DWORDS))
  {
    hide ImportRebuilder.Rebuildable, ImportRebuilder.Rebuilt, Displacement, Wrap, Source, Loaded;
    hide ImportRebuilder.JumpTableSize, IATReferenceScan.Target, IATReferenceScan.NewPointer;
    LoadedIsSource(r, ms, f, p, file, i, at);
    scan.UnpatchedReads(ref, stdImageBase, f.va + r.JumpTableSize(), Displacement(Source(r, p, i), at));
  }

  /** With the old table in a section of the file, and in 32-bit code the base of the running module, that is
      never the case. */
  lemma ReferenceLeftBehind(r: ImportRebuilder, ms: ModuleMap, f: Frame, p: seq<nat>, file: seq<Byte>,
                            scan: IATReferenceScan, ref: IATReference, stdImageBase: nat, i: nat, at: nat)
    requires r.Rebuildable(ms) && r.Rebuilt(ms, f, p, file) && i < |r.parser.original|
    requires RefersTo(r, p, i, at, scan, ref) && scan.iatAddressVA == scan.imageBase + r.oldIatRva
    requires exists h :: h in r.parser.original && r.oldIatRva < h.VirtualEnd()
    requires scan.wow64 ==> stdImageBase == scan.imageBase
    ensures
      Wrap(scan.Target(ref, stdImageBase, Loaded(r, p, file, i, at)), DWORDS)
        != Wrap(scan.NewPointer(ref, stdImageBase, f.va + r.JumpTableSize()), DWORDS)
  {
    hide ImportRebuilder.Rebuildable, ImportRebuilder.Rebuilt, RefersTo, Wrap, Loaded, ImportRebuilder.JumpTableSize;
    hide IATReferenceScan.Target, IATReferenceScan.NewPointer;
    ReferenceUnpatched(r, ms, f, p, file, scan, ref, stdImageBase, i, at);
    NewTableBounds(r, ms, f, p, file);
    var newIat := f.va + r.JumpTableSize();
    if Wrap(newIat + scan.imageBase, DWORDS) == Wrap(scan.iatAddressVA, DWORDS) {
      CongruentEqual(newIat + scan.imageBase, scan.iatAddressVA, DWORDS);
    }
  }

  lemma NewTableBounds(r: ImportRebuilder, ms: ModuleMap, f: Frame, p: seq<nat>, file: seq<Byte>)
    requires r.Rebuildable(ms) && r.Rebuilt(ms, f, p, file)
    ensures f.va + r.JumpTableSize() < DWORDS && forall h :: h in r.parser.original ==> h.VirtualEnd() <= f.va
  {
    hide LoadSection, SectionOf, DecodeTable, ImportRebuilder.LoadsSource, SpaceBound;
    hide ImportRebuilder.StartsBelow, RvasFit, MapSizes;
    assert |r.FrameFor(0, OM.Values(ms)).prefix| >= r.JumpTableSize();
  }

  // ------------------------------------------------------------------ a rebuilt file

  const BASE: nat := 0x1_4000_0000

  /** CALL [RIP + 10] at RVA 0x1000; its slot is at RVA 0x1010. */
  const CALL: seq<Byte> := [0xFF, 0x15, 0x0A, 0x00, 0x00, 0x00]

  const IMAGE: seq<Byte> := Zeros(0x200) + CALL + Zeros(0x1FA)

  const TEXT: SectionHeader := SectionHeader(0x1000, 0x1000, 0x200, 0x200)

  const REFERENCE: IATReference := IATReference(BASE + 0x1000, BASE + 0x1010)

  const THUNK: ImportThunk := ImportThunk([107], [65], 0, 0x1010, 0, 0, 0, true, false)

  const MODULES: ModuleMap :=
    [OM.Entry(0x1010, ImportModuleThunk([107], 0x1010, [OM.Entry(0x1010, THUNK)]))]

  /** Rebuilding this file with a moved table leaves the call in the mapped file going through a slot of the new
      section, and the one in the rebuilt file still through the old slot. */
  method RebuiltCall() returns (file: OutputFile, text: SectionHeader, mapped: array<Byte>)
    ensures text.virtualAddress == 0x1000 && LoadSection(file.bytes, text, 0x200)[..INSTRUCTION_SIZE] == CALL
    ensures Through(false, BASE + 0x1000, Displacement(CALL, 0)) == BASE + 0x1010
    ensures mapped.Length == 0x400 && Through(false, BASE + 0x1000, Displacement(mapped[0x200..], 0)) >= BASE + 0x2000
  {
    hide ImportRebuilder.Rebuildable, ImportRebuilder.Rebuilt, ImportRebuilder.Patchable, LoadSection;
    hide PEParser.HeadersFit, IATReferenceScan.Valid, ImportRebuilder.AllPatched, ImportRebuilder.ScanOf;
    hide ImportRebuilder.ImportsRead;
    var parser := new PEParser(IMAGE, true, [TEXT], 0x40, Zeros(264), 240, 0x200, 0x1000);
    var r := new ImportRebuilder(parser, 8, false, 0, true, 0x1010, 16);
    mapped := new Byte[0x400](i requires 0 <= i < 0x400 => IMAGE[i]);
    assert mapped[..] == IMAGE;
    var patch := Patch(Found([REFERENCE], BASE + 0x1010, BASE, false), BASE, mapped, _ => 0);
    file := new OutputFile();
    ghost var f, p, n;
    var scan;
    CallRebuildable(r);
    CallPatchable(r, patch);
    f, p, scan, n := r.RebuildImportTable(MODULES, patch, file, []);
    text := parser.sections[0].header;
    CallLoaded(r, f, p, file.bytes);
    CallPatched(r, patch, scan, n, f.va);
  }

  lemma CallPatched(r: ImportRebuilder, patch: Patch, scan: IATReferenceScan, n: nat, newIat: nat)
    requires r.parser.original == [TEXT] && |r.parser.memory| == 0x400
    requires |r.parser.sections| == 2 && r.parser.sections[0].header.virtualAddress == 0x1000
    requires r.parser.sections[0].header.virtualSize == 0x1000 && 0x2000 <= newIat < 0x8000_0000
    requires patch.found == Found([REFERENCE], BASE + 0x1010, BASE, false)
    requires r.ScanOf(scan, patch) && r.AllPatched(scan, n, BASE, newIat)
    ensures patch.mapped.Length == 0x400
    ensures Through(false, BASE + 0x1000, Displacement(patch.mapped[0x200..], 0)) == BASE + newIat
  {
    hide LE, Read;
    assert scan.aligned[0] == r.parser.sections[0].header;
    assert scan.PatchOffset(REFERENCE) == 0 && scan.Fits(REFERENCE);
    assert scan.PatchStored(scan.references[0], BASE, newIat) by {
      assert n == 1 && scan.LastOf(0, 1);
    }
    var disp := newIat - 0x1006;
    assert scan.PatchBytes(REFERENCE, BASE, newIat) == disp;
    var mem := patch.mapped[0x200..];
    assert mem[2..6] == patch.mapped[0x202..0x206] == LE(disp, 4);
    ReadIsSlice(mem, 2, 4);
    CapacityFacts();
    WordRoundTrip(disp, 4);
  }

  lemma CallLoaded(r: ImportRebuilder, f: Frame, p: seq<nat>, file: seq<Byte>)
    requires r.parser.memory == IMAGE && r.parser.isFileMap && r.parser.original == [TEXT]
    requires r.parser.sectionAlignment == 0x1000 && r.Rebuildable(MODULES) && r.Rebuilt(MODULES, f, p, file)
    ensures |r.parser.sections| == 2 && r.parser.sections[0].header.virtualSize == 0x1000
    ensures 0x2000 <= f.va < 0x8000_0000
    ensures var text := r.parser.sections[0].header;
      text.virtualAddress == 0x1000 && LoadSection(file, text, 0x200)[..INSTRUCTION_SIZE] == CALL
  {
    hide LoadSection, SectionOf, DecodeTable, AlignValue, ImportRebuilder.Rebuildable;
    Powers();
    Rounded(0x1000, 0x1000, 0x1000);
    assert p[0] == 0 && TEXT in r.parser.original;
    assert r.LoadsSource(file, r.parser.sections[0].header, 0);
    CallInImage();
  }

  lemma CallInImage()
    ensures |IMAGE| == 0x400 && IMAGE[0x200..0x400][..INSTRUCTION_SIZE] == CALL
  {
  }

  lemma CallPatchable(r: ImportRebuilder, patch: Patch)
    requires r.parser.original == [TEXT] && r.parser.memory == patch.mapped[..] && r.parser.Valid()
    requires r.parser.sectionAlignment == 0x1000 && r.oldIatRva == 0x1010
    requires patch.found == Found([REFERENCE], BASE + 0x1010, BASE, false)
    ensures r.Patchable(patch)
  {
    hide AlignValue;
    Powers();
    Rounded(0x1000, 0x1000, 0x1000);
    assert r.InAligned(r.parser.original[0], 0x1000);
  }

  lemma Powers()
    ensures IsPow2(0x200) && IsPow2(0x1000)
  {
    assert Pow2(9) == 0x200;
    assert Pow2(12) == 0x1000;
  }

  lemma Rounded(v: nat, a: nat, m: nat)
    requires IsPow2(a) && a <= 0x8000_0000 && v + a <= DWORDS && m % a == 0 && v <= m < v + a
    ensures AlignValue(v, a) == m
  {
    hide AlignValue, IsPow2;
    AlignUp(v, a);
    LeastMultiple(v, a, m);
    Multiples(AlignValue(v, a), m, a);
  }

  lemma SmallTables(r: ImportRebuilder)
    requires r.ps == 8 && !r.jumpTable && r.newIAT && r.iatSize == 16
    ensures r.FrameFor(0, OM.Values(MODULES)).Size() < 0x1000 && RvasFit(8, OM.Values(MODULES))
  {
    hide MapSizes, RvasFit;
    CallSizes();
    CallRvas();
    assert |OM.Values(MODULES)| == 1;
  }

  lemma CallSizes()
    ensures MapSizes(8, OM.Values(MODULES)) == Sizes(0, 16, 6)
  {
    var m := MODULES[0].value;
    assert OM.Values(MODULES) == [m];
    assert MapSizes(8, [m][1..]) == Sizes(0, 0, 0);
    ThunkSizesOfCall();
  }

  lemma ThunkSizesOfCall()
    ensures ThunkSizes(8, 0x1010, OM.Values(MODULES[0].value.thunkMap)) == Sizes(0, 8, 4)
  {
    assert OM.Values(MODULES[0].value.thunkMap) == [THUNK];
    assert ThunkSizes(8, After(8, 0x1010), [THUNK][1..]) == Sizes(0, 0, 0);
  }

  lemma CallRvas()
    ensures RvasFit(8, OM.Values(MODULES))
  {
    hide Capacity;
    CapacityFacts();
    assert OM.Values(MODULES) == [MODULES[0].value];
  }

  lemma CallRebuildable(r: ImportRebuilder)
    requires r.parser.memory == IMAGE && r.parser.isFileMap && r.parser.original == [TEXT]
    requires r.parser.eLfanew == 0x40 && |r.parser.ntHeader| == 264 && r.parser.sizeOfOptionalHeader == 240
    requires r.parser.fileAlignment == 0x200 && r.parser.sectionAlignment == 0x1000
    requires r.ps == 8 && !r.jumpTable && r.newIAT && r.oldIatRva == 0x1010 && r.iatSize == 16
    ensures r.Rebuildable(MODULES) && r.parser.Valid() && r.parser.HeadersFit(2)
  {
    hide AlignValue, MapSizes, RvasFit, IsPow2;
    Powers();
    SmallTables(r);
    Rounded(0x198, 0x200, 0x200);
    Rounded(0x1000, 0x1000, 0x1000);
    Rounded(0x2000, 0x1000, 0x2000);
    assert TEXT in r.parser.original;
    assert r.parser.SourceSizes() == [0x200];
    assert SpaceBound([0x200][1..], 0x200) == 0;
  }
}
