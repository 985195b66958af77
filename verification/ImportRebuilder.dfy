/** Rebuilding an import table: a sizing pass, a new section, and a filling pass with three cursors. */
module ImportRebuilder {
  import opened Arith
  import opened Bits
  import opened Bytes
  import opened Options
  import opened Thunks
  import opened PELayout
  import opened PEArrange
  import opened Permutations
  import opened PEParser
  import opened ImportLayout
  import opened ImportWalk
  import opened ImportRoundTrip
  import opened IATReferenceScan

  const JUMP_ENTRY_SIZE: nat := 6

  // ------------------------------------------------------------------ moving the IAT

  /** ChangeIATBaseAddress on one RVA; arithmetic wraps at the pointer width. */
  function MoveRva(ps: nat, oldIat: nat, newIat: nat, rva: nat): nat {
    Wrap(rva + (newIat - oldIat), Capacity(ps))
  }

  function MoveThunk(ps: nat, oldIat: nat, newIat: nat, t: ImportThunk): ImportThunk {
    t.(rva := MoveRva(ps, oldIat, newIat, t.rva))
  }

  function MoveThunks(ps: nat, oldIat: nat, newIat: nat, ts: OM.Map<ImportThunk>): (r: OM.Map<ImportThunk>)
    ensures |r| == |ts|
  {
    seq(|ts|, i requires 0 <= i < |ts| => OM.Entry(ts[i].key, MoveThunk(ps, oldIat, newIat, ts[i].value)))
  }

  function MoveModule(ps: nat, oldIat: nat, newIat: nat, m: ImportModuleThunk): ImportModuleThunk {
    m.(firstThunk := MoveRva(ps, oldIat, newIat, m.firstThunk), thunkMap := MoveThunks(ps, oldIat, newIat, m.thunkMap))
  }

  function MoveMap(ps: nat, oldIat: nat, newIat: nat, ms: ModuleMap): (r: ModuleMap)
    ensures |r| == |ms|
  {
    seq(|ms|, i requires 0 <= i < |ms| => OM.Entry(ms[i].key, MoveModule(ps, oldIat, newIat, ms[i].value)))
  }

  /** RVAs of the map fit the pointer width, as the DWORD_PTR fields that hold them do. */
  ghost predicate RvasFit(ps: nat, ms: seq<ImportModuleThunk>) {
    forall m :: m in ms ==> ModuleRvasFit(ps, m)
  }

  ghost predicate ModuleRvasFit(ps: nat, m: ImportModuleThunk) {
    m.firstThunk < Capacity(ps) && forall i :: 0 <= i < |m.thunkMap| ==> m.thunkMap[i].value.rva < Capacity(ps)
  }

  lemma MoveAfter(ps: nat, o: nat, n: nat, rva: nat)
    ensures After(ps, MoveRva(ps, o, n, rva)) == MoveRva(ps, o, n, After(ps, rva))
  {
    hide Wrap, Capacity;
    WrapAdd(rva + (n - o), ps, Capacity(ps));
    WrapAdd(rva + ps, n - o, Capacity(ps));
    assert rva + (n - o) + ps == rva + ps + (n - o);
  }

  lemma MoveInjective(ps: nat, o: nat, n: nat, a: nat, b: nat)
    requires a < Capacity(ps) && b < Capacity(ps)
    ensures MoveRva(ps, o, n, a) == MoveRva(ps, o, n, b) <==> a == b
  {
    hide Wrap, Capacity;
    MoveBack(ps, o, n, a);
    MoveBack(ps, o, n, b);
  }

  lemma MoveBack(ps: nat, o: nat, n: nat, a: nat)
    requires a < Capacity(ps)
    ensures MoveRva(ps, n, o, MoveRva(ps, o, n, a)) == a
  {
    hide Wrap, Capacity;
    WrapAdd(a + (n - o), o - n, Capacity(ps));
    assert a + (n - o) + (o - n) == a;
    WrapSmall(a, Capacity(ps));
  }

  lemma AfterFits(ps: nat, rva: nat)
    ensures After(ps, rva) < Capacity(ps)
  {
  }

  lemma {:induction false} MovedThunkSizes(ps: nat, o: nat, n: nat, expected: nat, ts: OM.Map<ImportThunk>, i: nat)
    requires i <= |ts| && expected < Capacity(ps)
    requires forall k :: 0 <= k < |ts| ==> ts[k].value.rva < Capacity(ps)
    ensures ThunkSizes(ps, MoveRva(ps, o, n, expected), OM.Values(MoveThunks(ps, o, n, ts))[i..])
         == ThunkSizes(ps, expected, OM.Values(ts)[i..])
    decreases |ts| - i
  {
    if i < |ts| {
      var a, b := OM.Values(MoveThunks(ps, o, n, ts))[i..], OM.Values(ts)[i..];
      assert a[0] == MoveThunk(ps, o, n, ts[i].value) && b[0] == ts[i].value;
      assert a[1..] == OM.Values(MoveThunks(ps, o, n, ts))[i + 1..] && b[1..] == OM.Values(ts)[i + 1..];
      MoveInjective(ps, o, n, expected, ts[i].value.rva);
      AfterFits(ps, ts[i].value.rva);
      MovedThunkSizes(ps, o, n, After(ps, ts[i].value.rva), ts, i + 1);
      MoveAfter(ps, o, n, ts[i].value.rva);
    }
  }

  lemma MovedModuleSizes(ps: nat, o: nat, n: nat, m: ImportModuleThunk)
    requires ModuleRvasFit(ps, m)
    ensures ModuleSizes(ps, MoveModule(ps, o, n, m)) == ModuleSizes(ps, m)
  {
    MovedThunkSizes(ps, o, n, m.firstThunk, m.thunkMap, 0);
    assert OM.Values(MoveThunks(ps, o, n, m.thunkMap))[0..] == OM.Values(MoveThunks(ps, o, n, m.thunkMap));
    assert OM.Values(m.thunkMap)[0..] == OM.Values(m.thunkMap);
  }

  /** Moving the IAT keeps the gaps: the sizes computed before the move are right after it. */
  lemma {:induction false} MovedMapSizes(ps: nat, o: nat, n: nat, ms: ModuleMap, i: nat)
    requires RvasFit(ps, OM.Values(ms)) && i <= |ms|
    ensures MapSizes(ps, OM.Values(MoveMap(ps, o, n, ms))[i..]) == MapSizes(ps, OM.Values(ms)[i..])
    decreases |ms| - i
  {
    if i < |ms| {
      var a, b := OM.Values(MoveMap(ps, o, n, ms))[i..], OM.Values(ms)[i..];
      assert a[0] == MoveModule(ps, o, n, ms[i].value) && b[0] == ms[i].value;
      assert a[1..] == OM.Values(MoveMap(ps, o, n, ms))[i + 1..] && b[1..] == OM.Values(ms)[i + 1..];
      assert OM.Values(ms)[i] in OM.Values(ms);
      MovedModuleSizes(ps, o, n, ms[i].value);
      MovedMapSizes(ps, o, n, ms, i + 1);
    }
  }

  // ------------------------------------------------------------------ bytes of the last descriptor

  lemma LastNameBytes(f: Frame, tb: Tables, at: nat)
    requires Room(f, tb) && tb.descriptors != []
    requires at == f.DescStart() + DESCRIPTOR_SIZE * (|tb.descriptors| - 1)
    ensures at + DESCRIPTOR_SIZE <= f.Size()
    ensures Render(f, tb)[at + 12..at + 16] == LE(NameRva(f, tb.descriptors[|tb.descriptors| - 1].nameOffset), 4)
  {
    var n := |tb.descriptors| - 1;
    var d := tb.descriptors[n];
    var front := tb.(descriptors := tb.descriptors[..n]);
    assert front.descriptors + [d] == tb.descriptors && tb == front.(descriptors := front.descriptors + [d]);
    RecordWritten(f, front, d);
    var p, s := BeforeDescriptor(f, front), BehindDescriptor(f, front);
    assert |p| == at;
    var r := DescriptorBytes(f, d);
    assert (p + r + s)[at + 12..at + 16] == r[12..16];
    assert r[12..16] == LE(NameRva(f, d.nameOffset), 4);
  }

  lemma HintThenName(mem: seq<Byte>, at: nat, t: ImportThunk)
    requires at + |HintName(t)| <= |mem|
    ensures Blit(Blit(mem, at, LE(t.hint, 2)), at + 2, t.name + [0]) == Blit(mem, at, HintName(t))
  {
  }

  lemma StoreOrdinal(f: Frame, tb: Tables, t: ImportThunk, slotAt: nat)
    requires Room(f, tb) && Span(f.ps, |tb.oft|) + f.ps <= f.oftSize && t.name == []
    requires slotAt == f.OftStart() + Span(f.ps, |tb.oft|)
    ensures slotAt + f.ps <= f.Size() && Room(f, AddImport(tb, t))
    ensures Blit(Render(f, tb), slotAt, LE(Word(f, SlotOf(tb, t)), f.ps)) == Render(f, AddImport(tb, t))
  {
    hide Render;
    StoreSlot(f, tb, SlotOf(tb, t), slotAt);
    assert tb.names + [] == tb.names;
  }

  lemma StoreNamed(f: Frame, tb: Tables, t: ImportThunk, slotAt: nat, nameAt: nat)
    requires Room(f, tb) && Span(f.ps, |tb.oft|) + 2 * f.ps <= f.oftSize && t.name != []
    requires |tb.names| + |HintName(t)| <= f.namesSize
    requires slotAt == f.OftStart() + Span(f.ps, |tb.oft|) && nameAt == f.NamesStart() + |tb.names|
    ensures slotAt + 2 * f.ps <= f.Size() && nameAt + |HintName(t)| <= f.Size()
    ensures Room(f, tb.(names := tb.names + HintName(t))) && Room(f, AddImport(tb, t))
    ensures Blit(Render(f, tb), nameAt, HintName(t)) == Render(f, tb.(names := tb.names + HintName(t)))
    ensures Blit(Render(f, tb.(names := tb.names + HintName(t))), slotAt, LE(NameRva(f, |tb.names|), f.ps))
      == Render(f, AddImport(tb, t))
    ensures Blit(Render(f, AddImport(tb, t)), slotAt + f.ps, LE(0, f.ps)) == Render(f, AddImport(tb, t))
  {
    hide Render;
    StoreNames(f, tb, HintName(t));
    StoreSlot(f, tb.(names := tb.names + HintName(t)), SlotOf(tb, t), slotAt);
    StoreTerminator(f, AddImport(tb, t), slotAt + f.ps);
  }

  // ------------------------------------------------------------------ the rebuilder

  /** What patching needs: the scan's results, the base address in the headers, the mapped file, and what is
      read as a virtual size behind its section table. */
  datatype Patch = Patch(found: Found, stdImageBase: nat, mapped: array<Byte>, beyond: nat -> nat)

  /** The import rebuilder with original-first-thunk support on. */
  class ImportRebuilder {
    const parser: PEParser
    const ps: nat                    // pointer size of the target, and of the tool
    const jumpTable: bool            // build a jump table for direct imports
    const directImports: nat         // number of direct imports found
    const newIAT: bool               // move the IAT into the new section
    const oldIatRva: nat
    const iatSize: nat

    var numberOfImportDescriptors: nat
    var sizeOfImportSection: nat
    var sizeOfApiAndModuleNames: nat
    var sizeOfOFTArray: nat
    var pImportDescriptor: nat       // offset of the current descriptor in the section
    var newIatRva: nat

    constructor (parser: PEParser, ps: nat, jumpTable: bool, directImports: nat, newIAT: bool, oldIatRva: nat,
                 iatSize: nat)
      requires ps == 4 || ps == 8
      ensures this.parser == parser && this.ps == ps && this.jumpTable == jumpTable
      ensures this.directImports == directImports
      ensures this.newIAT == newIAT && this.oldIatRva == oldIatRva && this.iatSize == iatSize
    {
      this.parser, this.ps, this.jumpTable, this.directImports := parser, ps, jumpTable, directImports;
      this.newIAT, this.oldIatRva, this.iatSize := newIAT, oldIatRva, iatSize;
      numberOfImportDescriptors, sizeOfImportSection, sizeOfApiAndModuleNames := 0, 0, 0;
      sizeOfOFTArray, pImportDescriptor, newIatRva := 0, 0, 0;
    }

    function JumpTableSize(): nat { if jumpTable then JUMP_ENTRY_SIZE * directImports else 0 }

    function IatArea(): nat { if newIAT then iatSize else 0 }

    /** What precedes the import tables: with a moved IAT both areas are filled with FF bytes. */
    function Prefix(): seq<Byte> {
      if newIAT then Fill(0xFF, JumpTableSize() + IatArea()) else Zeros(JumpTableSize())
    }

    /** The frame that the sizing pass of a map prescribes for a section at `va`. */
    function FrameFor(va: nat, ms: seq<ImportModuleThunk>): Frame {
      var s := MapSizes(ps, ms);
      Frame(ps, va, Prefix(), s.oft, |ms| + s.gaps + 1, s.names)
    }

    method CalculateImportSize(ms: seq<ImportModuleThunk>)
      modifies this`numberOfImportDescriptors, this`sizeOfImportSection,
        this`sizeOfApiAndModuleNames, this`sizeOfOFTArray
      ensures var f := FrameFor(0, ms);
        && numberOfImportDescriptors == f.descriptors && sizeOfApiAndModuleNames == f.namesSize
        && sizeOfOFTArray == f.oftSize && sizeOfImportSection + |Prefix()| == f.Size()
    {
      sizeOfImportSection, sizeOfApiAndModuleNames, sizeOfOFTArray := 0, 0, 0;
      numberOfImportDescriptors := |ms| + 1;
      ghost var total := MapSizes(ps, ms);
      for i := 0 to |ms|
        invariant sizeOfApiAndModuleNames + MapSizes(ps, ms[i..]).names == total.names
        invariant numberOfImportDescriptors + MapSizes(ps, ms[i..]).gaps == |ms| + 1 + total.gaps
        invariant sizeOfOFTArray + MapSizes(ps, ms[i..]).oft == total.oft
      {
        assert ms[i..][0] == ms[i] && ms[i..][1..] == ms[i + 1..];
        sizeOfApiAndModuleNames := sizeOfApiAndModuleNames + |ms[i].moduleName| + 1;
        SizeThunks(ms[i].firstThunk, OM.Values(ms[i].thunkMap));
        sizeOfOFTArray := sizeOfOFTArray + ps;
      }
      sizeOfImportSection := sizeOfOFTArray + sizeOfApiAndModuleNames + numberOfImportDescriptors * DESCRIPTOR_SIZE;
    }

    /** The inner loop of the sizing pass. */
    method SizeThunks(firstThunk: nat, ts: seq<ImportThunk>)
      modifies this`numberOfImportDescriptors, this`sizeOfApiAndModuleNames, this`sizeOfOFTArray
      ensures var s := ThunkSizes(ps, firstThunk, ts);
        && numberOfImportDescriptors == old(numberOfImportDescriptors) + s.gaps
        && sizeOfApiAndModuleNames == old(sizeOfApiAndModuleNames) + s.names
        && sizeOfOFTArray == old(sizeOfOFTArray) + s.oft
    {
      ghost var total := ThunkSizes(ps, firstThunk, ts);
      var expected := firstThunk;
      for i := 0 to |ts|
        invariant numberOfImportDescriptors + ThunkSizes(ps, expected, ts[i..]).gaps
          == old(numberOfImportDescriptors) + total.gaps
        invariant sizeOfApiAndModuleNames + ThunkSizes(ps, expected, ts[i..]).names
          == old(sizeOfApiAndModuleNames) + total.names
        invariant sizeOfOFTArray + ThunkSizes(ps, expected, ts[i..]).oft == old(sizeOfOFTArray) + total.oft
      {
        assert ts[i..][0] == ts[i] && ts[i..][1..] == ts[i + 1..];
        if expected != ts[i].rva {
          numberOfImportDescriptors := numberOfImportDescriptors + 1;
          sizeOfOFTArray := sizeOfOFTArray + ps + ps;
        }
        if ts[i].name != [] {
          sizeOfApiAndModuleNames := sizeOfApiAndModuleNames + 2;
          sizeOfApiAndModuleNames := sizeOfApiAndModuleNames + |ts[i].name| + 1;
        }
        sizeOfOFTArray := sizeOfOFTArray + ps;
        expected := After(ps, ts[i].rva);
      }
    }

    /** Moves every RVA of the map from the old IAT to the new one. */
    method ChangeIATBaseAddress(ms: ModuleMap, newIatRva: nat) returns (r: ModuleMap)
      ensures r == MoveMap(ps, oldIatRva, newIatRva, ms)
    {
      r := ms;
      for i := 0 to |ms|
        invariant |r| == |ms|
        invariant forall k :: 0 <= k < i ==> r[k] == MoveMap(ps, oldIatRva, newIatRva, ms)[k]
        invariant forall k :: i <= k < |ms| ==> r[k] == ms[k]
      {
        var m := ms[i].value;
        m := m.(firstThunk := MoveRva(ps, oldIatRva, newIatRva, m.firstThunk));
        for j := 0 to |ms[i].value.thunkMap|
          invariant m == ms[i].value.(firstThunk := m.firstThunk, thunkMap := m.thunkMap)
          invariant m.firstThunk == MoveRva(ps, oldIatRva, newIatRva, ms[i].value.firstThunk)
          invariant |m.thunkMap| == |ms[i].value.thunkMap|
          invariant forall k :: 0 <= k < j ==>
            m.thunkMap[k] == MoveThunks(ps, oldIatRva, newIatRva, ms[i].value.thunkMap)[k]
          invariant forall k :: j <= k < |m.thunkMap| ==> m.thunkMap[k] == ms[i].value.thunkMap[k]
        {
          var e := m.thunkMap[j];
          m := m.(thunkMap := m.thunkMap[j := OM.Entry(e.key, MoveThunk(ps, oldIatRva, newIatRva, e.value))]);
        }
        assert m.thunkMap == MoveThunks(ps, oldIatRva, newIatRva, ms[i].value.thunkMap);
        r := r[i := OM.Entry(ms[i].key, m)];
      }
    }

    /** The map as it is written: moved into the new section, if that is wanted. */
    function Written(ms: ModuleMap, va: nat): (r: ModuleMap)
    {
      if newIAT then MoveMap(ps, oldIatRva, va + JumpTableSize(), ms) else ms
    }

    ghost predicate Ready(ms: ModuleMap)
      reads parser
    {
      Sound(ms) && HeadersOf(parser.sections) == parser.original
    }

    /** A module map and a file whose rebuilt form stays within 31-bit RVAs. */
    ghost predicate Sound(ms: ModuleMap) {
      && parser.Valid()
      && (ps == 4 || ps == 8) && RvasFit(ps, OM.Values(ms)) && ms != []
      && FrameFor(0, OM.Values(ms)).Size() + parser.sectionAlignment < 0x4000_0000
      && (forall h :: h in parser.original ==>
           h.RawEnd() + parser.fileAlignment < DWORDS && h.VirtualEnd() + parser.sectionAlignment < 0x4000_0000)
      && exists h :: h in parser.original && 0 < h.VirtualEnd()
    }

    /** The new section lies above 0 and below 2^30 in memory. */
    lemma NewSectionBounds(va: nat)
      requires parser.Valid()
      requires forall h :: h in parser.original ==>
        h.VirtualEnd() <= va && h.VirtualEnd() + parser.sectionAlignment < 0x4000_0000
      requires exists h :: h in parser.original && 0 < h.VirtualEnd()
      requires va == 0 || exists h :: h in parser.original && va == AlignValue(h.VirtualEnd(), parser.sectionAlignment)
      ensures 0 < va < 0x4000_0000
    {
      var h :| h in parser.original && 0 < h.VirtualEnd();
      var k :| k in parser.original && va == AlignValue(k.VirtualEnd(), parser.sectionAlignment);
      AlignUp(k.VirtualEnd(), parser.sectionAlignment);
    }

    /** Sizes the tables and appends a blank section for them. */
    method CreateNewImportSection(ms: ModuleMap) returns (ghost f: Frame)
      requires Ready(ms)
      modifies this, parser
      ensures NewSection(old(parser.sections), f)
      ensures f == FrameFor(f.va, OM.Values(ms)) && parser.sections[|parser.sections| - 1].data[..] == Zeros(f.Size())
      ensures fresh(parser.sections[|parser.sections| - 1].data)
      ensures numberOfImportDescriptors == f.descriptors && sizeOfOFTArray == f.oftSize
    {
      hide Render;
      CalculateImportSize(OM.Values(ms));
      sizeOfImportSection := sizeOfImportSection + IatArea() + JumpTableSize();
      parser.AddNewLastSection(sizeOfImportSection);
      var header := parser.sections[|parser.sections| - 1].header;
      NewSectionBounds(header.virtualAddress);
      f := FrameFor(header.virtualAddress, OM.Values(ms));
      forall i | 0 <= i < |parser.sections| - 1 ensures parser.sections[i].header in parser.original {
        assert parser.sections[..|parser.sections| - 1][i] == parser.sections[i];
        assert HeadersOf(parser.sections[..|parser.sections| - 1])[i] == parser.sections[i].header;
      }
    }

    /** One more section, described by f, behind all others in the file and in memory. */
    ghost predicate NewSection(before: seq<PEFileSection>, f: Frame)
      reads this, parser
    {
      && |parser.sections| == |before| + 1 && parser.sections[..|before|] == before
      && Multiple(f.va, parser.sectionAlignment)
      && Placed(f, parser.sections[|before|].data)
      && forall h :: h in parser.original ==>
           h.RawEnd() <= parser.sections[|before|].header.pointerToRawData && h.VirtualEnd() <= f.va
    }

    /** Adds the import section and fills it. The import directory points at the descriptors less
        the size of the jump table. */
    method BuildNewImportTable(ms: ModuleMap) returns (ghost f: Frame)
      requires Ready(ms)
      modifies this, parser
      ensures NewSection(old(parser.sections), f) && fresh(parser.sections[|parser.sections| - 1].data)
      ensures SectionOf(f, OM.Values(Written(ms, f.va)), parser.sections[|parser.sections| - 1].data[..])
      ensures f == FrameFor(f.va, OM.Values(ms))
      ensures parser.importRva + JumpTableSize() == f.va + f.DescStart()
      ensures parser.importSize == DESCRIPTOR_SIZE * f.descriptors
      ensures newIAT ==> newIatRva == f.va + JumpTableSize()
    {
      hide Render, AddModules, MapSizes, MoveMap, AddModule, ModuleSizes, Zeros, RvasFit, AlignValue, IsPow2, Multiple;
      f := CreateNewImportSection(ms);
      var moved := ms;
      if newIAT {
        newIatRva := parser.sections[|parser.sections| - 1].header.virtualAddress + JumpTableSize();
        moved := ChangeIATBaseAddress(ms, newIatRva);
      }
      SameFrame(ms, f.va);
      var size := FillImportSection(OM.Values(moved), parser.sections[|parser.sections| - 1].data, f);
      ModulesFit(ps, EMPTY, OM.Values(moved));
      parser.importRva := parser.sections[|parser.sections| - 1].header.virtualAddress + sizeOfOFTArray + IatArea();
      parser.importSize := numberOfImportDescriptors * DESCRIPTOR_SIZE;
    }

    /** The sizes taken before the IAT moved fit the moved map. */
    lemma SameFrame(ms: ModuleMap, va: nat)
      requires RvasFit(ps, OM.Values(ms))
      ensures FrameFor(va, OM.Values(Written(ms, va))) == FrameFor(va, OM.Values(ms))
    {
      if newIAT {
        MovedMapSizes(ps, oldIatRva, va + JumpTableSize(), ms, 0);
        assert OM.Values(Written(ms, va))[0..] == OM.Values(Written(ms, va)) && OM.Values(ms)[0..] == OM.Values(ms);
      }
    }

    /** Rounded up, the section starts below the end of all sections. */
    ghost predicate StartsBelow(h: SectionHeader)
      requires parser.sectionAlignment < DWORDS
    {
      exists k :: k in parser.original
        && AlignValue(h.virtualAddress, parser.sectionAlignment) < AlignValue(k.VirtualEnd(), parser.sectionAlignment)
    }

    /** A file whose sections still start below the new one when their addresses are rounded up, and leave
        room for it within 31 bits. */
    ghost predicate Rebuildable(ms: ModuleMap) {
      && Sound(ms) && parser.isFileMap && parser.SourceInBounds() && parser.sectionAlignment >= 1
      && (forall h :: h in parser.original ==> StartsBelow(h))
      && parser.HeadersEnd(|parser.original| + 1) + SpaceBound(parser.SourceSizes(), parser.fileAlignment)
         + FrameFor(0, OM.Values(ms)).Size() + 2 * parser.fileAlignment < 0x8000_0000
    }

    /** Where the references are patched: what the scan found in the running module, the base address in the
        headers, and the mapped file, which still holds what the sections were read from. */
    ghost predicate Patchable(patch: Patch)
      requires parser.Valid()
      reads patch.mapped
    {
      && patch.mapped[..] == parser.memory
      && (newIAT ==>
        && patch.found.iatAddressVA == patch.found.imageBase + oldIatRva
        && forall ref :: ref in patch.found.references ==>
             patch.found.imageBase <= ref.addressVA && InOldSection(ref.addressVA - patch.found.imageBase))
    }

    /** An old section, as it is aligned, holds the RVA. */
    ghost predicate InOldSection(rva: nat)
      requires parser.Valid()
    {
      exists k :: 0 <= k < |parser.original| && InAligned(parser.original[k], rva)
    }

    ghost predicate InAligned(h: SectionHeader, rva: nat)
      requires parser.Valid()
    {
      var start := AlignValue(h.virtualAddress, parser.sectionAlignment);
      start <= rva < start + AlignValue(h.virtualSize, parser.sectionAlignment)
    }

    /** By the section table of `file`, the first sections load the bytes of the source's sections, and the
        last one loads the import tables of the map. */
    ghost predicate Rebuilt(ms: ModuleMap, f: Frame, p: seq<nat>, file: seq<Byte>)
      requires Rebuildable(ms)
      reads this, parser
    {
      var n := |parser.original|;
      && OldsFirst(p) && parser.StartsLike(file) && parser.EndsImage()
      && parser.TableAt() + SECTION_HEADER_SIZE * (n + 1) <= |file|
      && DecodeTable(file, parser.TableAt(), n + 1) == HeadersOf(parser.sections)
      && (forall i :: 0 <= i < n ==> LoadsSource(file, parser.sections[i].header, p[i]))
      && parser.sections[n].header.virtualAddress == f.va < 0x8000_0000
      && (forall h :: h in parser.original ==> h.VirtualEnd() <= f.va)
      && SectionOf(f, OM.Values(Written(ms, f.va)), LoadSection(file, parser.sections[n].header, f.Size()))
    }

    /** The section with header h loads what section i of the source holds. */
    ghost predicate LoadsSource(file: seq<Byte>, h: SectionHeader, i: nat)
      requires parser.SourceInBounds()
    {
      i < |parser.original| &&
      LoadSection(file, h, |parser.SourceBytes(parser.original[i])|) == parser.SourceBytes(parser.original[i])
    }

    /** Rebuilds the file. If the headers, as they are written, end in front of the first raw range, every
        old section loads its old bytes, and the new section loads the import tables of the map, in which a
        loader finds all its imports; the import directory leads there if the jump table is off. With a
        moved IAT the references are patched in the mapped file, up to the first that does not fit. */
    method RebuildImportTable(ms: ModuleMap, patch: Patch, file: OutputFile, overlay: seq<Byte>)
      returns (ghost f: Frame, ghost p: seq<nat>, scan: IATReferenceScan?, ghost n: nat)
      requires Rebuildable(ms) && Patchable(patch)
      modifies this, parser, file, patch.mapped
      ensures |parser.sections| == |parser.original| + 1
      ensures file.bytes == Saved(parser.HeaderBytes(), parser.Raws(), overlay)
      ensures parser.HeadersFit(|parser.sections|) ==> Rebuilt(ms, f, p, file.bytes)
      ensures parser.importRva + JumpTableSize() == f.va + f.DescStart()
      ensures parser.HeadersFit(|parser.sections|) ==>
        ImportsRead(ms, f, LoadSection(file.bytes, parser.sections[|parser.original|].header, f.Size()))
      ensures newIAT ==>
        scan != null && ScanOf(scan, patch) && AllPatched(scan, n, patch.stdImageBase, f.va + JumpTableSize())
      ensures !newIAT ==> patch.mapped[..] == old(patch.mapped[..])
    {
      hide Render, ImportsRead, AddModules, Written, LoadSection;
      hide Rebuilt, FrameFor, Rebuildable, Saved, PEParser.HeaderBytes, Patchable, ScanOf, AllPatched;
      hide PEParser.HeadersFit, SectionOf, AlignValue, IATReferenceScan.Valid;
      PatchFacts(ms, patch);
      f := GatherSections(ms, patch);
      p, scan, n := AlignAndSave(ms, f, patch, file, overlay);
      WalkOfRebuilt(ms, f, p, file.bytes);
    }

    /** The scan sees the mapped file by the aligned sections. */
    ghost predicate ScanOf(scan: IATReferenceScan, patch: Patch)
      reads parser
    {
      && scan.references == patch.found.references && scan.iatAddressVA == patch.found.iatAddressVA
      && scan.imageBase == patch.found.imageBase && scan.wow64 == patch.found.wow64
      && scan.aligned == HeadersOf(parser.sections) && scan.sections == parser.original
      && scan.beyond == patch.beyond && scan.file == patch.mapped
    }

    /** The first n references are patched, the next one cannot be, and nothing else in the mapped file has
        changed. */
    ghost predicate AllPatched(scan: IATReferenceScan, n: nat, stdImageBase: nat, newIat: nat)
      reads scan.file
    {
      && scan.Valid() && scan.PatchedCount(n)
      && (forall k :: 0 <= k < n && scan.LastOf(k, n) ==> scan.PatchStored(scan.references[k], stdImageBase, newIat))
      && scan.file.Length == |parser.memory|
      && forall a :: 0 <= a < scan.file.Length && !scan.Patched(n, a) ==> scan.file[a] == parser.memory[a]
    }

    /** Aligns the gathered sections, fixes the headers, patches the mapped file and writes the new one. */
    method AlignAndSave(ms: ModuleMap, ghost f: Frame, patch: Patch, file: OutputFile, overlay: seq<Byte>)
      returns (ghost p: seq<nat>, scan: IATReferenceScan?, ghost n: nat)
      requires Rebuildable(ms) && Gathered(ms, f, parser.sections) && Patchable(patch)
      requires forall s :: s in parser.sections ==> s.data != patch.mapped
      requires parser.HeadersEnd(|parser.sections|) + Need(parser.sections, parser.fileAlignment) < 0x8000_0000
      requires newIAT ==> newIatRva == f.va + JumpTableSize()
      modifies parser`sections, parser`sizeOfImage, file, patch.mapped
      ensures |parser.sections| == |parser.original| + 1
      ensures file.bytes == Saved(parser.HeaderBytes(), parser.Raws(), overlay)
      ensures parser.HeadersFit(|parser.sections|) ==> Rebuilt(ms, f, p, file.bytes)
      ensures newIAT ==>
        scan != null && ScanOf(scan, patch) && AllPatched(scan, n, patch.stdImageBase, f.va + JumpTableSize())
      ensures !newIAT ==> patch.mapped[..] == old(patch.mapped[..])
    {
      hide Render, SectionOf, SpaceBound, Need, AlignedCopy, Packed, RawOrderKept, SortedBy, SameOrder, InFileOrder;
      hide PEParser.SourceBytes, IsPermutation, Trimmed, Multiple, MapSizes, Written, FrameFor, Saved, Rebuilt, RvasFit;
      hide StartsBelow, Words, AlignValue, PEParser.HeaderBytes, PEParser.HeadersFit, AllPatched, Patchable;
      hide PEParser.EndsImage, HeadersOf, StartsBelow, IATReferenceScan.Valid;
      ghost var before := parser.sections;
      p := AlignGathered(ms, f);
      scan, n := null, 0;
      if newIAT {
        scan, n := PatchFileForNewIATLocation(ms, f, before, p, patch);
      }
      parser.SavePEFileToDisk(file, overlay);
      if parser.HeadersFit(|parser.sections|) {
        SavedRebuild(ms, f, before, p, overlay, file.bytes);
      }
    }

    method PatchFileForNewIATLocation(ghost ms: ModuleMap, ghost f: Frame, ghost before: seq<PEFileSection>,
                                      ghost p: seq<nat>, patch: Patch)
      returns (scan: IATReferenceScan, ghost n: nat)
      requires Rebuildable(ms) && Gathered(ms, f, before) && AlignedFrom(before, p) && Patchable(patch) && newIAT
      modifies patch.mapped
      ensures ScanOf(scan, patch) && AllPatched(scan, n, patch.stdImageBase, newIatRva)
    {
      hide Rebuildable, AlignedFrom, Patchable, HeadersOf;
      hide IATReferenceScan.Valid, IATReferenceScan.PatchedCount, IATReferenceScan.LastOf, IATReferenceScan.PatchStored;
      hide IATReferenceScan.Patched;
      var aligned := HeadersOf(parser.sections);
      scan := new IATReferenceScan(patch.found, aligned, parser.original, patch.beyond, patch.mapped);
      ScanFits(ms, f, before, p, patch, scan);
      PatchFacts(ms, patch);
      n := scan.PatchNewIAT(patch.stdImageBase, newIatRva);
    }

    lemma ScanFits(ms: ModuleMap, f: Frame, before: seq<PEFileSection>, p: seq<nat>, patch: Patch,
                   scan: IATReferenceScan)
      requires Rebuildable(ms) && Gathered(ms, f, before) && AlignedFrom(before, p) && Patchable(patch)
      requires ScanOf(scan, patch) && newIAT
      ensures scan.Valid()
    {
      hide Rebuildable, Gathered, AlignedFrom, Patchable, InOldSection, HeadersOf, OldsFirst;
      hide IATReferenceScan.InSection;
      NewIsLast(ms, f, before, p);
      PatchFacts(ms, patch);
      forall k | 0 <= k < |scan.references| ensures scan.InSection(scan.references[k]) {
        var ref := scan.references[k];
        assert ref in patch.found.references;
        FoundInOld(p, scan, ref);
      }
    }

    lemma PatchFacts(ms: ModuleMap, patch: Patch)
      requires Rebuildable(ms) && Patchable(patch)
      ensures patch.mapped[..] == parser.memory
      ensures forall i :: 0 <= i < |parser.original| ==> parser.original[i].RawEnd() <= patch.mapped.Length
      ensures newIAT ==> forall ref :: ref in patch.found.references ==>
        patch.found.imageBase <= ref.addressVA && InOldSection(ref.addressVA - patch.found.imageBase)
    {
      hide InOldSection, StartsBelow, FrameFor, SpaceBound, RvasFit;
    }

    /** The new section ends up last. */
    lemma NewIsLast(ms: ModuleMap, f: Frame, before: seq<PEFileSection>, p: seq<nat>)
      requires Rebuildable(ms) && Gathered(ms, f, before) && AlignedFrom(before, p)
      ensures parser.Valid() && OldsFirst(p)
    {
      hide Render, SectionOf, SpaceBound, RawOrderKept, Packed, MapSizes, Written, FrameFor, Trimmed, RvasFit;
      hide AlignValue, StartsBelow, Multiple, Words, PEParser.SourceBytes;
      NewSectionAbove(ms, f, before);
      LastStaysLast(before, parser.sections, p, parser.sectionAlignment);
      forall i | 0 <= i < |before| - 1 ensures before[p[i]].header == parser.original[p[i]] {
        assert p[i] != p[|before| - 1];
      }
    }

    /** The aligned list has the old sections, in some order, in front of the new one. */
    ghost predicate OldsFirst(p: seq<nat>)
      requires parser.Valid()
      reads parser
    {
      var n := |parser.original|;
      && |parser.sections| == n + 1 && IsPermutation(p, n + 1) && p[n] == n
      && forall i :: 0 <= i < n ==> IsAligned(parser.original[p[i]], parser.sections[i].header)
    }

    ghost predicate IsAligned(h: SectionHeader, aligned: SectionHeader)
      requires parser.Valid()
    {
      && aligned.virtualAddress == AlignValue(h.virtualAddress, parser.sectionAlignment)
      && aligned.virtualSize == AlignValue(h.virtualSize, parser.sectionAlignment)
    }

    /** A reference in an old section is found in one. */
    lemma FoundInOld(p: seq<nat>, scan: IATReferenceScan, ref: IATReference)
      requires parser.Valid() && OldsFirst(p)
      requires scan.aligned == HeadersOf(parser.sections) && scan.sections == parser.original
      requires scan.imageBase <= ref.addressVA && InOldSection(ref.addressVA - scan.imageBase)
      ensures scan.InSection(ref)
    {
      hide AlignValue;
      var rva := ref.addressVA - scan.imageBase;
      var j :| 0 <= j < |parser.original| && InAligned(parser.original[j], rva);
      HitsEvery(p, |p|, j);
      var i :| 0 <= i < |p| && p[i] == j;
      FirstSection(scan.aligned, rva, i);
    }

    method AlignGathered(ms: ModuleMap, ghost f: Frame) returns (ghost p: seq<nat>)
      requires Rebuildable(ms) && Gathered(ms, f, parser.sections)
      requires parser.HeadersEnd(|parser.sections|) + Need(parser.sections, parser.fileAlignment) < 0x8000_0000
      modifies parser`sections, parser`sizeOfImage
      ensures Gathered(ms, f, old(parser.sections)) && AlignedFrom(old(parser.sections), p) && parser.EndsImage()
    {
      hide Render, SectionOf, SpaceBound, Need, AlignedCopy, Packed, RawOrderKept, SortedBy, SameOrder, InFileOrder;
      hide PEParser.SourceBytes, IsPermutation, Trimmed, Multiple, MapSizes, Written, FrameFor;
      p := parser.AlignAllSectionHeaders();
      parser.FixPEHeader();
    }

    /** What the aligning pass leaves of a section list. */
    ghost predicate AlignedFrom(before: seq<PEFileSection>, p: seq<nat>)
      requires parser.Valid()
      reads parser
    {
      && |parser.sections| == |before| && IsPermutation(p, |before|) && SortedBy(parser.sections, false)
      && (forall i :: 0 <= i < |before| ==> AlignedCopy(before[p[i]], parser.sections[i], parser.sectionAlignment))
      && Packed(parser.sections, parser.FirstRaw(|before|), parser.fileAlignment)
      && (forall i :: 0 <= i < |before| ==> Words(parser.sections[i].header))
      && RawOrderKept(before, parser.sections, p)
    }

    lemma WalkOfRebuilt(ms: ModuleMap, f: Frame, p: seq<nat>, file: seq<Byte>)
      requires Rebuildable(ms) && f.ps == ps
      requires |parser.sections| == |parser.original| + 1
      requires parser.HeadersFit(|parser.sections|) ==> Rebuilt(ms, f, p, file)
      ensures parser.HeadersFit(|parser.sections|) ==>
        ImportsRead(ms, f, LoadSection(file, parser.sections[|parser.original|].header, f.Size()))
    {
      hide Render, LibrariesAt, LoadedLibrariesAt, AddModules, MapLibraries, MapImports, Written, LoadSection;
      hide PEParser.HeadersFit, OldsFirst;
      hide DecodeTable, LoadsSource, StartsBelow, FrameFor, SpaceBound, RvasFit, MapSizes, Sound, HeadersOf;
      if parser.HeadersFit(|parser.sections|) {
        LoaderReadsBack(f, OM.Values(Written(ms, f.va)), AddModules(ps, EMPTY, OM.Values(Written(ms, f.va))));
        RebuiltTableReadsBack(f, OM.Values(Written(ms, f.va)), AddModules(ps, EMPTY, OM.Values(Written(ms, f.va))));
      }
    }

    /** From the first descriptor, a loader reads all imports of the written map in the new section, and
        GetImports its libraries. */
    ghost predicate ImportsRead(ms: ModuleMap, f: Frame, data: seq<Byte>) {
      var written := OM.Values(Written(ms, f.va));
      && (ps == 4 || ps == 8) && LoadedLibrariesAt(f.va, data, ps, f.DescStart()) == Some(MapImports(ps, written))
      && LibrariesAt(f.va, data, ps, f.DescStart()) == Some(MapLibraries(ps, written))
    }

    /** Reads the sections of the mapped file and adds the import section. */
    method GatherSections(ms: ModuleMap, ghost patch: Patch) returns (ghost f: Frame)
      requires Rebuildable(ms) && patch.mapped[..] == parser.memory
      modifies this, parser
      ensures Gathered(ms, f, parser.sections) && f.ps == ps
      ensures forall s :: s in parser.sections ==> fresh(s.data)
      ensures newIAT ==> newIatRva == f.va + JumpTableSize()
      ensures parser.HeadersEnd(|parser.sections|) + Need(parser.sections, parser.fileAlignment) < 0x8000_0000
      ensures parser.importRva + JumpTableSize() == f.va + f.DescStart()
    {
      hide Render, AddModules, Written, Multiple, AlignValue, SectionOf;
      hide MapSizes, RvasFit, IsPow2, StartsBelow, Trimmed, FourZerosKept;
      parser.GetPESections();
      ghost var read := parser.sections;
      parser.ReadSizes(read);
      f := BuildNewImportTable(ms);
      AllGathered(ms, f, read);
      SpaceLeft(ms, f, read);
    }

    lemma AllGathered(ms: ModuleMap, f: Frame, read: seq<PEFileSection>)
      requires Rebuildable(ms) && NewSection(read, f) && |read| == |parser.original|
      requires forall i :: 0 <= i < |read| ==>
        read[i].header == parser.original[i] && Trimmed(read[i].data[..], parser.SourceBytes(parser.original[i]))
      requires SectionOf(f, OM.Values(Written(ms, f.va)), parser.sections[|parser.sections| - 1].data[..])
      ensures Gathered(ms, f, parser.sections)
    {
      hide Render, AddModules, Written, Multiple, SectionOf, Rebuildable, Trimmed, Frame.Size;
      forall i | 0 <= i < |read| ensures parser.sections[i] == read[i] {
        assert parser.sections[..|read|][i] == parser.sections[i];
      }
    }

    lemma SpaceLeft(ms: ModuleMap, f: Frame, read: seq<PEFileSection>)
      requires Rebuildable(ms) && f == FrameFor(f.va, OM.Values(ms)) && |read| == |parser.original|
      requires parser.sections != [] && parser.sections[..|parser.sections| - 1] == read
      requires parser.sections[|read|].data.Length == f.Size()
      requires Need(read, parser.fileAlignment) <= SpaceBound(parser.SourceSizes(), parser.fileAlignment)
      ensures parser.HeadersEnd(|parser.sections|) + Need(parser.sections, parser.fileAlignment) < 0x8000_0000
    {
      hide Sound, Multiple, MapSizes;
      assert parser.sections == read + [parser.sections[|read|]];
      NeedSnoc(read, parser.sections[|read|], parser.fileAlignment);
    }

    /** The list before alignment: the source's sections and the new one. */
    ghost predicate Gathered(ms: ModuleMap, f: Frame, before: seq<PEFileSection>)
      requires Rebuildable(ms)
      reads set s | s in before :: s.data
    {
      var n := |parser.original|;
      && |before| == n + 1
      && (forall i :: 0 <= i < n ==>
           && before[i].header == parser.original[i]
           && Trimmed(before[i].data[..], parser.SourceBytes(parser.original[i])))
      && (forall h :: h in parser.original ==>
           h.RawEnd() <= before[n].header.pointerToRawData && h.VirtualEnd() <= f.va)
      && before[n].header.virtualAddress == f.va && Multiple(f.va, parser.sectionAlignment) && f.va < 0x8000_0000
      && SectionOf(f, OM.Values(Written(ms, f.va)), before[n].data[..])
    }

    /** What each section of the list stands for. */
    ghost function Contents(before: seq<PEFileSection>): (mems: seq<seq<Byte>>)
      requires parser.SourceInBounds() && |before| == |parser.original| + 1
      reads before[|before| - 1].data
      ensures |mems| == |before|
    {
      seq(|parser.original|, i requires 0 <= i < |parser.original| && parser.SourceInBounds() =>
        parser.SourceBytes(parser.original[i])) + [before[|before| - 1].data[..]]
    }

    lemma SavedRebuild(ms: ModuleMap, f: Frame, before: seq<PEFileSection>, p: seq<nat>, overlay: seq<Byte>,
                       file: seq<Byte>)
      requires Rebuildable(ms) && Gathered(ms, f, before)
      requires AlignedFrom(before, p) && parser.HeadersFit(|before|) && parser.EndsImage()
      requires file == Saved(parser.HeaderBytes(), parser.Raws(), overlay)
      ensures Rebuilt(ms, f, p, file)
    {
      hide Render, AddModules, Written, Saved, LoadSection, AlignValue;
      hide SortedBy, RawOrderKept, MapSizes, RvasFit, IsPow2, SpaceBound;
      hide StartsBelow, Words, DecodeTable, TableIn, Arranged;
      hide Tight, Packed, PEParser.HeaderBytes, PEParser.HeadersFit, Trimmed;
      var n, rs := |parser.original|, parser.Raws();
      NewSectionAbove(ms, f, before);
      parser.HeaderOfList(parser.FirstRaw(|before|));
      HeaderKept(parser.HeaderBytes(), rs, overlay);
      parser.FrontKept(file);
      TableKept(parser.HeaderBytes(), parser.TableAt(), parser.sections, file);
      HoldsContents(ms, f, before, p);
      VirtualAlreadyAligned(before[n].header, parser.sectionAlignment);
      LastCoversAll(parser.HeaderBytes(), before, parser.sections,
        p, rs, Contents(before), overlay, parser.sectionAlignment);
      NewIsLast(ms, f, before, p);
      forall i | 0 <= i < n ensures LoadsSource(file, parser.sections[i].header, p[i]) {
        assert p[i] != p[n];
      }
    }

    lemma HoldsContents(ms: ModuleMap, f: Frame, before: seq<PEFileSection>, p: seq<nat>)
      requires Rebuildable(ms) && Gathered(ms, f, before)
      requires |parser.sections| == |before| && IsPermutation(p, |before|)
      requires forall i :: 0 <= i < |before| ==> AlignedCopy(before[p[i]], parser.sections[i], parser.sectionAlignment)
      ensures forall i :: 0 <= i < |before| ==>
        && |parser.Raws()[i].data| == parser.sections[i].data.Length
        && CutFrom(parser.Raws()[i].data, Contents(before)[p[i]])
    {
      hide Render, AddModules, Written, AlignValue, StartsBelow, SectionOf;
      hide Multiple, MapSizes, RvasFit, IsPow2, SpaceBound;
      forall i | 0 <= i < |before| ensures CutFrom(parser.Raws()[i].data, Contents(before)[p[i]]) {
        assert before[p[i]].data == parser.sections[i].data;
      }
    }

    lemma NewSectionAbove(ms: ModuleMap, f: Frame, before: seq<PEFileSection>)
      requires Rebuildable(ms) && Gathered(ms, f, before)
      ensures LastAbove(before, parser.sectionAlignment) && before[|before| - 1].data.Length == f.Size() > 0
    {
      hide AlignValue, Written, Render, AddModules, SpaceBound, MapSizes, RvasFit, IsPow2, StartsBelow;
      var a, n := parser.sectionAlignment, |before| - 1;
      VirtualAlreadyAligned(before[n].header, a);
      forall i | 0 <= i < n
        ensures AlignValue(before[i].header.virtualAddress, a) < AlignValue(before[n].header.virtualAddress, a)
        ensures before[i].data.Length > 0 ==> before[i].header.pointerToRawData < before[n].header.pointerToRawData
      {
        assert parser.original[i] in parser.original;
        assert |before[i].data[..]| == before[i].data.Length;
        StaysBelow(before[i].header, f.va);
      }
    }

    lemma StaysBelow(h: SectionHeader, va: nat)
      requires parser.Valid() && StartsBelow(h) && Multiple(va, parser.sectionAlignment)
      requires forall k :: k in parser.original ==>
        k.VirtualEnd() <= va && k.VirtualEnd() + parser.sectionAlignment <= DWORDS
      ensures AlignValue(h.virtualAddress, parser.sectionAlignment) < va
    {
      hide AlignValue, IsPow2;
      var a := parser.sectionAlignment;
      var k :| k in parser.original && AlignValue(h.virtualAddress, a) < AlignValue(k.VirtualEnd(), a);
      LeastMultiple(k.VirtualEnd(), a, va);
    }

    // ---------------------------------------------------------------- the filling pass

    /** `data` is the buffer of the parser's last section, which the frame f describes and which
        lies behind all other sections in the file. */
    ghost predicate Placed(f: Frame, data: array<Byte>)
      reads parser
    {
      && f.Valid() && f.ps == ps
      && parser.sections != []
      && var last := parser.sections[|parser.sections| - 1];
         && last.data == data && data.Length == f.Size() == last.header.sizeOfRawData
         && f.va == last.header.virtualAddress
         && forall i :: 0 <= i < |parser.sections| - 1 ==>
              parser.sections[i].header.RawEnd() <= last.header.pointerToRawData
    }

    /** The RVA of an offset into the import section, by way of its file offset. */
    method RvaInSection(ghost f: Frame, data: array<Byte>, offset: nat) returns (rva: nat)
      requires Placed(f, data) && offset < f.Size()
      ensures rva == f.va + offset
    {
      var last := parser.sections[|parser.sections| - 1];
      rva := parser.FileOffsetToRva(last.header.pointerToRawData + offset);
      RvaInLast(HeadersOf(parser.sections), last.header.pointerToRawData + offset);
    }

    method AddImportDescriptor(m: ImportModuleThunk, data: array<Byte>, sectionOffset: nat, oftOffset: nat,
                               ghost f: Frame, ghost tb: Tables) returns (len: nat)
      requires Placed(f, data) && Room(f, tb) && data[..] == Render(f, tb)
      requires |tb.descriptors| + 1 < f.descriptors && |tb.names| + |m.moduleName| + 1 <= f.namesSize
      requires pImportDescriptor == f.DescStart() + DESCRIPTOR_SIZE * |tb.descriptors|
      requires sectionOffset == f.NamesStart() + |tb.names| && oftOffset == f.OftStart() + Span(ps, |tb.oft|)
      modifies data
      ensures len == |m.moduleName| + 1
      ensures Room(f, AddDescriptor(tb, m)) && data[..] == Render(f, AddDescriptor(tb, m))
    {
      hide Render, Blit, LE;
      len := |m.moduleName| + 1;
      StoreNames(f, tb, m.moduleName + [0]);
      Store(data, sectionOffset, m.moduleName + [0]);
      ghost var named := tb.(names := tb.names + (m.moduleName + [0]));
      ghost var d := Descriptor(|tb.oft|, |tb.names|, m.firstThunk);
      StoreDescriptor(f, named, d, pImportDescriptor);
      var nameRva := RvaInSection(f, data, sectionOffset);
      var oftRva := RvaInSection(f, data, oftOffset);
      WriteFields(data, pImportDescriptor, oftRva, LE(nameRva, 4), m.firstThunk);
      assert tb.names + (m.moduleName + [0]) == tb.names + m.moduleName + [0];
    }

    /** A descriptor for the same module at an RVA gap; its name is copied from the one before. */
    method AddSpecialImportDescriptor(rva: nat, data: array<Byte>, oftOffset: nat, ghost f: Frame, ghost tb: Tables)
      requires Placed(f, data) && Room(f, tb) && data[..] == Render(f, tb) && tb.descriptors != []
      requires |tb.descriptors| + 1 < f.descriptors && Span(ps, |tb.oft|) + ps <= f.oftSize
      requires pImportDescriptor == f.DescStart() + DESCRIPTOR_SIZE * (|tb.descriptors| - 1)
      requires oftOffset == f.OftStart() + Span(ps, |tb.oft|) + ps
      modifies data, this`pImportDescriptor
      ensures pImportDescriptor == old(pImportDescriptor) + DESCRIPTOR_SIZE
      ensures Room(f, AddGap(tb, rva)) && data[..] == Render(f, AddGap(tb, rva))
    {
      hide Render, Blit, LE;
      LastNameBytes(f, tb, pImportDescriptor);
      var previous := pImportDescriptor;
      pImportDescriptor := pImportDescriptor + DESCRIPTOR_SIZE;
      StoreTerminator(f, tb, oftOffset - ps);
      ghost var last := tb.descriptors[|tb.descriptors| - 1];
      StoreDescriptor(f, EndModule(tb), Descriptor(|tb.oft| + 1, last.nameOffset, rva), pImportDescriptor);
      var name := data[previous + 12..previous + 16];
      var oftRva := RvaInSection(f, data, oftOffset);
      WriteFields(data, pImportDescriptor, oftRva, name, rva);
    }

    /** The three field stores of a descriptor. */
    method WriteFields(data: array<Byte>, at: nat, oftRva: nat, name: seq<Byte>, firstThunk: nat)
      requires at + DESCRIPTOR_SIZE <= data.Length && |name| == 4
      modifies data
      ensures data[..] == Blit(Blit(Blit(old(data[..]), at + 16, LE(firstThunk, 4)), at + 12, name), at, LE(oftRva, 4))
    {
      Store(data, at + 16, LE(firstThunk, 4));
      Store(data, at + 12, name);
      Store(data, at, LE(oftRva, 4));
    }

    /** Writes one thunk and, for a named import, its hint, its name and a terminating thunk. */
    method AddImportToImportTable(t: ImportThunk, data: array<Byte>, thunkAt: nat, sectionOffset: nat, ghost f: Frame,
                                  ghost tb: Tables)
      returns (len: nat)
      requires Placed(f, data) && Room(f, tb) && data[..] == Render(f, tb)
      requires Span(ps, |tb.oft|) + 2 * ps <= f.oftSize && |tb.names| + |NamesOf(t)| <= f.namesSize
      requires thunkAt == f.OftStart() + Span(ps, |tb.oft|) && sectionOffset == f.NamesStart() + |tb.names|
      modifies data
      ensures len == |NamesOf(t)|
      ensures Room(f, AddImport(tb, t)) && data[..] == Render(f, AddImport(tb, t))
    {
      hide Render, Blit, LE;
      if t.name == [] {
        len := 0;
        StoreOrdinal(f, tb, t, thunkAt);
        Store(data, thunkAt, LE(t.ordinal % 0x1_0000 + Flag(ps), ps));
      } else {
        StoreNamed(f, tb, t, thunkAt, sectionOffset);
        HintThenName(data[..], sectionOffset, t);
        Store(data, sectionOffset, LE(t.hint, 2));
        Store(data, sectionOffset + 2, t.name + [0]);
        var rva := RvaInSection(f, data, sectionOffset);
        Store(data, thunkAt, LE(rva, ps));
        Store(data, thunkAt + ps, LE(0, ps));
        len := |t.name| + 1 + 2;
      }
    }

    /** Fills the blank section: descriptors, original thunks and names of every module in order. The
        returned offset is the end of the section. */
    method FillImportSection(ms: seq<ImportModuleThunk>, data: array<Byte>, ghost f: Frame) returns (offset: nat)
      requires Placed(f, data) && f == FrameFor(f.va, ms) && data[..] == Zeros(f.Size())
      requires numberOfImportDescriptors == f.descriptors && sizeOfOFTArray == f.oftSize
      modifies data, this`pImportDescriptor
      ensures offset == f.Size()
      ensures Room(f, AddModules(ps, EMPTY, ms)) && data[..] == Render(f, AddModules(ps, EMPTY, ms))
    {
      hide Render, Blit, AddModules, MapSizes;
      offset := JumpTableSize();
      var oftOffset := JumpTableSize();
      if newIAT {
        offset := offset + iatSize;
        oftOffset := oftOffset + iatSize;
        Store(data, 0, Fill(0xFF, offset));
      }
      BlankTables(f, data[..]);
      offset := offset + sizeOfOFTArray;
      pImportDescriptor := offset;
      offset := offset + numberOfImportDescriptors * DESCRIPTOR_SIZE;
      offset := FillModules(ms, data, offset, oftOffset, f);
    }

    /** The loop of the filling pass. */
    method FillModules(ms: seq<ImportModuleThunk>, data: array<Byte>, start: nat, oftStart: nat, ghost f: Frame)
      returns (offset: nat)
      requires Placed(f, data) && f == FrameFor(f.va, ms) && Room(f, EMPTY) && data[..] == Render(f, EMPTY)
      requires start == f.NamesStart() && oftStart == f.OftStart() && pImportDescriptor == f.DescStart()
      modifies data, this`pImportDescriptor
      ensures offset == f.Size()
      ensures Room(f, AddModules(ps, EMPTY, ms)) && data[..] == Render(f, AddModules(ps, EMPTY, ms))
    {
      assert Span(ps, 0) == 0;
      hide Render, AddModule, ModuleSizes, Span;
      offset := start;
      var oftOffset := oftStart;
      ghost var tb := EMPTY;
      assert ms[0..] == ms;
      for i := 0 to |ms|
        invariant Room(f, tb) && data[..] == Render(f, tb)
        invariant Ahead(f, tb, MapSizes(ps, ms[i..]), |ms| - i)
        invariant AddModules(ps, tb, ms[i..]) == AddModules(ps, EMPTY, ms)
        invariant offset == f.NamesStart() + |tb.names| && oftOffset == f.OftStart() + Span(ps, |tb.oft|)
        invariant pImportDescriptor == f.DescStart() + DESCRIPTOR_SIZE * |tb.descriptors|
      {
        assert ms[i..][0] == ms[i] && ms[i..][1..] == ms[i + 1..];
        ghost var rest := MapSizes(ps, ms[i + 1..]);
        assert Ahead(f, tb, ModuleSizes(ps, ms[i]).Plus(rest), |ms| - i);
        offset, oftOffset := FillModule(ms[i], data, offset, oftOffset, f, tb, rest, |ms| - i - 1);
        tb := AddModule(ps, tb, ms[i]);
      }
    }

    /** One module: its descriptor, its thunks, the null slot behind them. */
    method FillModule(m: ImportModuleThunk, data: array<Byte>, start: nat, oftStart: nat,
                      ghost f: Frame, ghost tb: Tables, ghost rest: Sizes, ghost modules: nat)
      returns (offset: nat, oftOffset: nat)
      requires Placed(f, data) && Room(f, tb) && data[..] == Render(f, tb)
      requires Ahead(f, tb, ModuleSizes(ps, m).Plus(rest), modules + 1)
      requires start == f.NamesStart() + |tb.names| && oftStart == f.OftStart() + Span(ps, |tb.oft|)
      requires pImportDescriptor == f.DescStart() + DESCRIPTOR_SIZE * |tb.descriptors|
      modifies data, this`pImportDescriptor
      ensures var r := AddModule(ps, tb, m);
        && Room(f, r) && data[..] == Render(f, r) && Ahead(f, r, rest, modules)
        && offset == f.NamesStart() + |r.names| && oftOffset == f.OftStart() + Span(ps, |r.oft|)
        && pImportDescriptor == f.DescStart() + DESCRIPTOR_SIZE * |r.descriptors|
    {
      hide Render, AddThunks, ThunkSizes;
      var len := AddImportDescriptor(m, data, start, oftStart, f, tb);
      offset, oftOffset := start + len, oftStart;
      ghost var last := Sizes(0, ps, 0).Plus(rest);
      offset, oftOffset := FillThunks(m.firstThunk, OM.Values(m.thunkMap),
        data, offset, oftOffset, f, AddDescriptor(tb, m), last, modules);
      ghost var tb1 := AddThunks(ps, AddDescriptor(tb, m), m.firstThunk, OM.Values(m.thunkMap));
      StoreTerminator(f, tb1, oftOffset);
      oftOffset := oftOffset + ps;
      pImportDescriptor := pImportDescriptor + DESCRIPTOR_SIZE;
    }

    /** The inner loop of the filling pass. */
    method FillThunks(firstThunk: nat, ts: seq<ImportThunk>, data: array<Byte>, start: nat, oftStart: nat,
                      ghost f: Frame, ghost tb: Tables, ghost rest: Sizes, ghost modules: nat)
      returns (offset: nat, oftOffset: nat)
      requires Placed(f, data) && tb.descriptors != [] && Room(f, tb) && data[..] == Render(f, tb)
      requires Ahead(f, tb, ThunkSizes(ps, firstThunk, ts).Plus(rest), modules) && ps <= rest.oft
      requires start == f.NamesStart() + |tb.names| && oftStart == f.OftStart() + Span(ps, |tb.oft|)
      requires pImportDescriptor == f.DescStart() + DESCRIPTOR_SIZE * (|tb.descriptors| - 1)
      modifies data, this`pImportDescriptor
      ensures var r := AddThunks(ps, tb, firstThunk, ts);
        && Room(f, r) && data[..] == Render(f, r) && Ahead(f, r, rest, modules)
        && offset == f.NamesStart() + |r.names| && oftOffset == f.OftStart() + Span(ps, |r.oft|)
        && pImportDescriptor == f.DescStart() + DESCRIPTOR_SIZE * (|r.descriptors| - 1)
    {
      hide Render, AddThunk, ThunkSize, Span;
      offset, oftOffset := start, oftStart;
      var expected := firstThunk;
      ghost var tb1 := tb;
      for i := 0 to |ts|
        invariant tb1.descriptors != [] && Room(f, tb1) && data[..] == Render(f, tb1)
        invariant Ahead(f, tb1, ThunkSizes(ps, expected, ts[i..]).Plus(rest), modules)
        invariant AddThunks(ps, tb1, expected, ts[i..]) == AddThunks(ps, tb, firstThunk, ts)
        invariant offset == f.NamesStart() + |tb1.names| && oftOffset == f.OftStart() + Span(ps, |tb1.oft|)
        invariant pImportDescriptor == f.DescStart() + DESCRIPTOR_SIZE * (|tb1.descriptors| - 1)
      {
        assert ts[i..][0] == ts[i] && ts[i..][1..] == ts[i + 1..];
        ghost var behind := ThunkSizes(ps, After(ps, ts[i].rva), ts[i + 1..]).Plus(rest);
        assert Ahead(f, tb1, ThunkSize(ps, expected, ts[i]).Plus(behind), modules);
        offset, oftOffset := FillThunk(ts[i], expected, data, offset, oftOffset, f, tb1, behind, modules);
        tb1 := AddThunk(ps, tb1, expected, ts[i]);
        expected := After(ps, ts[i].rva);
      }
    }

    /** One thunk: a new descriptor and a skipped slot if there is a gap, then slot and name. */
    method FillThunk(t: ImportThunk, expected: nat, data: array<Byte>, start: nat, oftStart: nat,
                     ghost f: Frame, ghost tb: Tables, ghost rest: Sizes, ghost modules: nat)
      returns (offset: nat, oftOffset: nat)
      requires Placed(f, data) && tb.descriptors != [] && Room(f, tb) && data[..] == Render(f, tb)
      requires Ahead(f, tb, ThunkSize(ps, expected, t).Plus(rest), modules) && ps <= rest.oft
      requires start == f.NamesStart() + |tb.names| && oftStart == f.OftStart() + Span(ps, |tb.oft|)
      requires pImportDescriptor == f.DescStart() + DESCRIPTOR_SIZE * (|tb.descriptors| - 1)
      modifies data, this`pImportDescriptor
      ensures var r := AddThunk(ps, tb, expected, t);
        && Room(f, r) && data[..] == Render(f, r) && Ahead(f, r, rest, modules)
        && offset == f.NamesStart() + |r.names| && oftOffset == f.OftStart() + Span(ps, |r.oft|)
        && pImportDescriptor == f.DescStart() + DESCRIPTOR_SIZE * (|r.descriptors| - 1)
    {
      hide Render;
      var thunkAt := oftStart;
      oftOffset := oftStart + ps;
      ghost var tb1 := tb;
      if expected != t.rva {
        AddSpecialImportDescriptor(t.rva, data, oftOffset, f, tb);
        thunkAt := oftOffset;
        oftOffset := oftOffset + ps;
        tb1 := AddGap(tb, t.rva);
      }
      var len := AddImportToImportTable(t, data, thunkAt, start, f, tb1);
      offset := start + len;
    }

    lemma BlankTables(f: Frame, mem: seq<Byte>)
      requires f.prefix == Prefix() && 1 <= f.descriptors
      requires mem == (if newIAT then Blit(Zeros(f.Size()), 0, Prefix()) else Zeros(f.Size()))
      ensures Room(f, EMPTY) && mem == Render(f, EMPTY)
    {
    }
  }

  /** `mem` is the complete import section of the modules `ms`. */
  ghost predicate SectionOf(f: Frame, ms: seq<ImportModuleThunk>, mem: seq<Byte>) {
    Complete(f, AddModules(f.ps, EMPTY, ms)) && mem == Render(f, AddModules(f.ps, EMPTY, ms))
  }

  /** What the sizing pass still reserves suffices for what is still to be written. */
  ghost predicate Ahead(f: Frame, tb: Tables, s: Sizes, modules: nat) {
    && Span(f.ps, |tb.oft|) + s.oft <= f.oftSize
    && |tb.descriptors| + s.gaps + modules + 1 == f.descriptors
    && |tb.names| + s.names == f.namesSize
  }
}
