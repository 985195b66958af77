/** The bytes of a rebuilt import section, walked as a loader would, give the module map back. */
module ImportRoundTrip {
  import opened Arith
  import opened Bytes
  import opened Thunks
  import opened Options
  import opened ImportLayout
  import opened ImportWalk

  // ------------------------------------------------------------------ locating the tables

  lemma SliceMiddle(a: seq<Byte>, m: seq<Byte>, c: seq<Byte>, at: nat, n: nat)
    requires at + n <= |m|
    ensures (a + m + c)[|a| + at..|a| + at + n] == m[at..at + n]
  {
  }

  lemma PrefixSlice(a: seq<Byte>, w: seq<Byte>, i: nat, j: nat)
    requires i <= j <= |a|
    ensures (a + w)[i..j] == a[i..j]
  {
  }

  lemma {:induction false} SlotBytesAt(f: Frame, oft: seq<Slot>, j: nat)
    requires j < |oft|
    ensures Span(f.ps, j) + f.ps <= |SlotBytes(f, oft)|
    ensures SlotBytes(f, oft)[Span(f.ps, j)..Span(f.ps, j) + f.ps] == LE(Word(f, oft[j]), f.ps)
    decreases |oft|
  {
    var front := oft[..|oft| - 1];
    var a, w := SlotBytes(f, front), LE(Word(f, oft[|front|]), f.ps);
    assert SlotBytes(f, oft) == a + w && |a| == Span(f.ps, |front|) && |w| == f.ps;
    if j < |front| {
      SlotBytesAt(f, front, j);
      PrefixSlice(a, w, Span(f.ps, j), Span(f.ps, j) + f.ps);
    } else {
      assert (a + w)[|a|..|a| + |w|] == w;
    }
  }

  lemma {:induction false} DescriptorsBytesAt(f: Frame, ds: seq<Descriptor>, k: nat)
    requires k < |ds|
    ensures DescriptorsBytes(f, ds)[DESCRIPTOR_SIZE * k..DESCRIPTOR_SIZE * (k + 1)] == DescriptorBytes(f, ds[k])
    decreases |ds|
  {
    var front := ds[..|ds| - 1];
    if k < |front| {
      DescriptorsBytesAt(f, front, k);
      assert DescriptorsBytes(f, ds)[DESCRIPTOR_SIZE * k..DESCRIPTOR_SIZE * (k + 1)]
          == DescriptorsBytes(f, front)[DESCRIPTOR_SIZE * k..DESCRIPTOR_SIZE * (k + 1)];
    }
  }

  function OftBytes(f: Frame, tb: Tables): (r: seq<Byte>)
    requires Room(f, tb)
    ensures |r| == f.oftSize
  {
    Pad(SlotBytes(f, tb.oft), f.oftSize)
  }

  function DescBytes(f: Frame, tb: Tables): (r: seq<Byte>)
    requires Room(f, tb)
    ensures |r| == DESCRIPTOR_SIZE * f.descriptors
  {
    Pad(DescriptorsBytes(f, tb.descriptors), DESCRIPTOR_SIZE * f.descriptors)
  }

  /** The tables fill the frame exactly: one spare descriptor, no spare name byte. */
  ghost predicate Complete(f: Frame, tb: Tables) {
    && f.Valid() && Room(f, tb)
    && f.descriptors == |tb.descriptors| + 1
    && f.namesSize == |tb.names|
  }

  lemma SlotSlice(f: Frame, tb: Tables, j: nat, at: nat)
    requires Complete(f, tb) && j < |tb.oft| && at == f.OftStart() + Span(f.ps, j)
    ensures at + f.ps <= f.Size()
    ensures Render(f, tb)[at..at + f.ps] == LE(Word(f, tb.oft[j]), f.ps)
  {
    hide LE, Word, DescriptorsBytes, SlotBytes, Span;
    SlotBytesAt(f, tb.oft, j);
    var slots, oft := SlotBytes(f, tb.oft), OftBytes(f, tb);
    assert oft[Span(f.ps, j)..Span(f.ps, j) + f.ps] == slots[Span(f.ps, j)..Span(f.ps, j) + f.ps];
    var rest := DescBytes(f, tb) + Pad(tb.names, f.namesSize);
    assert Render(f, tb) == f.prefix + oft + rest;
    SliceMiddle(f.prefix, oft, rest, Span(f.ps, j), f.ps);
  }

  lemma ReadSlot(f: Frame, tb: Tables, j: nat)
    requires Complete(f, tb) && j < |tb.oft|
    ensures f.OftStart() + Span(f.ps, j) + f.ps <= f.Size()
    ensures Read(Render(f, tb), f.OftStart() + Span(f.ps, j), f.ps) == Word(f, tb.oft[j]) % Capacity(f.ps)
  {
    hide Render, Read, LE, FromLE, Capacity;
    SlotSlice(f, tb, j, f.OftStart() + Span(f.ps, j));
    ReadIsSlice(Render(f, tb), f.OftStart() + Span(f.ps, j), f.ps);
    WordRoundTrip(Word(f, tb.oft[j]), f.ps);
  }

  function Record(f: Frame, tb: Tables, k: nat): (r: seq<Byte>)
    ensures |r| == DESCRIPTOR_SIZE
  {
    if k < |tb.descriptors| then DescriptorBytes(f, tb.descriptors[k]) else Zeros(DESCRIPTOR_SIZE)
  }

  lemma DescriptorSlice(f: Frame, tb: Tables, k: nat, at: nat)
    requires Complete(f, tb) && k <= |tb.descriptors| && at == f.DescStart() + DESCRIPTOR_SIZE * k
    ensures at + DESCRIPTOR_SIZE <= f.Size()
    ensures Render(f, tb)[at..at + DESCRIPTOR_SIZE] == Record(f, tb, k)
  {
    var ds, desc := DescriptorsBytes(f, tb.descriptors), DescBytes(f, tb);
    if k < |tb.descriptors| {
      DescriptorsBytesAt(f, tb.descriptors, k);
      assert desc[DESCRIPTOR_SIZE * k..DESCRIPTOR_SIZE * (k + 1)] == ds[DESCRIPTOR_SIZE * k..DESCRIPTOR_SIZE * (k + 1)];
    } else {
      assert desc[DESCRIPTOR_SIZE * k..DESCRIPTOR_SIZE * (k + 1)] == Zeros(DESCRIPTOR_SIZE);
    }
    var a, c := f.prefix + OftBytes(f, tb), Pad(tb.names, f.namesSize);
    assert Render(f, tb) == a + desc + c;
    SliceMiddle(a, desc, c, DESCRIPTOR_SIZE * k, DESCRIPTOR_SIZE);
  }

  lemma SubSlice(data: seq<Byte>, at: nat, n: nat, r: seq<Byte>, o: nat, len: nat)
    requires at + n <= |data| && data[at..at + n] == r && o + len <= n
    ensures Read(data, at + o, len) == FromLE(r[o..o + len])
  {
    var x, y := data[at + o..at + o + len], r[o..o + len];
    forall i | 0 <= i < len ensures x[i] == y[i] {
      assert r[o + i] == data[at + (o + i)];
    }
    assert x == y;
    ReadIsSlice(data, at + o, len);
  }

  lemma {:induction false} FromZeros(n: nat)
    ensures FromLE(Zeros(n)) == 0
  {
    if n > 0 {
      assert Zeros(n)[1..] == Zeros(n - 1);
      FromZeros(n - 1);
    }
  }

  lemma RecordFields(f: Frame, d: Descriptor)
    ensures FromLE(DescriptorBytes(f, d)[0..4]) == OftRva(f, d.slot) % 0x1_0000_0000
    ensures FromLE(DescriptorBytes(f, d)[12..16]) == NameRva(f, d.nameOffset) % 0x1_0000_0000
    ensures FromLE(DescriptorBytes(f, d)[16..20]) == d.firstThunk % 0x1_0000_0000
  {
    var r := DescriptorBytes(f, d);
    CapacityFacts();
    assert r[0..4] == LE(OftRva(f, d.slot), 4);
    assert r[12..16] == LE(NameRva(f, d.nameOffset), 4);
    assert r[16..20] == LE(d.firstThunk, 4);
    WordRoundTrip(OftRva(f, d.slot), 4);
    WordRoundTrip(NameRva(f, d.nameOffset), 4);
    WordRoundTrip(d.firstThunk, 4);
  }

  lemma ReadDescriptor(f: Frame, tb: Tables, k: nat, at: nat)
    requires Complete(f, tb) && k <= |tb.descriptors| && at == f.DescStart() + DESCRIPTOR_SIZE * k
    ensures at + DESCRIPTOR_SIZE <= f.Size()
    ensures Read(Render(f, tb), at, 4)
      == if k == |tb.descriptors| then 0 else OftRva(f, tb.descriptors[k].slot) % 0x1_0000_0000
    ensures k < |tb.descriptors| ==>
      Read(Render(f, tb), at + 12, 4) == NameRva(f, tb.descriptors[k].nameOffset) % 0x1_0000_0000
    ensures Read(Render(f, tb), at + 16, 4)
      == if k == |tb.descriptors| then 0 else tb.descriptors[k].firstThunk % 0x1_0000_0000
  {
    hide Render, Read;
    DescriptorSlice(f, tb, k, at);
    var data, r := Render(f, tb), Record(f, tb, k);
    SubSlice(data, at, DESCRIPTOR_SIZE, r, 0, 4);
    SubSlice(data, at, DESCRIPTOR_SIZE, r, 12, 4);
    SubSlice(data, at, DESCRIPTOR_SIZE, r, 16, 4);
    if k < |tb.descriptors| {
      RecordFields(f, tb.descriptors[k]);
    } else {
      assert r[0..4] == Zeros(4) && r[16..20] == Zeros(4);
      FromZeros(4);
    }
  }

  lemma {:induction false} CStringShift(p: seq<Byte>, names: seq<Byte>, k: nat)
    ensures CStringAt(p + names, |p| + k) == CStringAt(names, k)
    decreases |names| - k
  {
    if k < |names| {
      assert (p + names)[|p| + k] == names[k];
      if names[k] != 0 {
        CStringShift(p, names, k + 1);
      }
    }
  }

  lemma NamesShift(f: Frame, tb: Tables, k: nat)
    requires Complete(f, tb)
    ensures CStringAt(Render(f, tb), f.NamesStart() + k) == CStringAt(tb.names, k)
    ensures SymbolAt(Render(f, tb), f.NamesStart() + k) == SymbolAt(tb.names, k)
  {
    var p := f.prefix + OftBytes(f, tb) + DescBytes(f, tb);
    assert Pad(tb.names, f.namesSize) == tb.names;
    assert Render(f, tb) == p + tb.names;
    CStringShift(p, tb.names, k);
    CStringShift(p, tb.names, k + 2);
    if k + 2 <= |tb.names| {
      assert (p + tb.names)[|p| + k..|p| + k + 2] == tb.names[k..k + 2];
    }
  }

  lemma NamedSlotBound(f: Frame, tb: Tables, k: nat)
    requires Complete(f, tb) && SymbolAt(tb.names, k).Some?
    ensures f.va <= NameRva(f, k) < 0x8000_0000
  {
  }

  lemma SlotRvaBound(f: Frame, tb: Tables, slot: nat)
    requires Complete(f, tb) && slot <= |tb.oft|
    ensures f.va <= OftRva(f, slot) < 0x8000_0000
  {
    SpanPlus(f.ps, slot, |tb.oft| - slot);
  }

  lemma NameRvaBound(f: Frame, tb: Tables, k: nat)
    requires Complete(f, tb) && CStringAt(tb.names, k).Some?
    ensures f.va <= NameRva(f, k) < 0x8000_0000
  {
  }

  // ------------------------------------------------------------------ what the walk may rely on

  /** The slot at `at` leads to the import that slot s of the tables stands for. */
  ghost predicate SlotReads(va: nat, ps: nat, data: seq<Byte>, names: seq<Byte>, s: Slot, at: nat)
    requires ps == 4 || ps == 8
  {
    && at + ps <= |data|
    && var w := Read(data, at, ps);
       if s.Null? then w == 0
       else SlotImport(names, s).Some? ==> w != 0 && ImportAt(va, data, ps, w) == SlotImport(names, s)
  }

  /** The descriptor at `at` leads to d's name and, at OFT offset `thunks`, to its slots. */
  ghost predicate DescriptorReads(va: nat, data: seq<Byte>, names: seq<Byte>, d: Descriptor, at: nat, thunks: nat)
  {
    && at + DESCRIPTOR_SIZE <= |data| && 0 < va
    && Read(data, at, 4) == va + thunks && Read(data, at + 16, 4) == d.firstThunk % 0x1_0000_0000
    && va <= Read(data, at + 12, 4)
    && CStringAt(data, Read(data, at + 12, 4) - va) == CStringAt(names, d.nameOffset)
  }

  /** Bytes that read like the tables tb, the slots starting at `oft` and the descriptors at `desc`. */
  ghost predicate Readable(va: nat, ps: nat, data: seq<Byte>, tb: Tables, oft: nat, desc: nat)
    requires ps == 4 || ps == 8
  {
    && (forall j :: 0 <= j < |tb.oft| ==> SlotReads(va, ps, data, tb.names, tb.oft[j], oft + Span(ps, j)))
    && (forall k :: 0 <= k < |tb.descriptors| ==>
         (CStringAt(tb.names, tb.descriptors[k].nameOffset).Some? && tb.descriptors[k].slot <= |tb.oft| ==>
          DescriptorReads(va, data, tb.names, tb.descriptors[k],
            desc + DESCRIPTOR_SIZE * k, oft + Span(ps, tb.descriptors[k].slot))))
    && var end := desc + DESCRIPTOR_SIZE * |tb.descriptors|;
       end + DESCRIPTOR_SIZE <= |data| && Read(data, end, 4) == Read(data, end + 16, 4) == 0
  }

  lemma RenderedSlotReads(f: Frame, tb: Tables, j: nat)
    requires Complete(f, tb) && j < |tb.oft|
    ensures SlotReads(f.va, f.ps, Render(f, tb), tb.names, tb.oft[j], f.OftStart() + Span(f.ps, j))
  {
    hide Render, SymbolAt, Read;
    var s, w := tb.oft[j], Word(f, tb.oft[j]);
    ReadSlot(f, tb, j);
    CapacityFacts();
    if s.Named? {
      if SymbolAt(tb.names, s.nameOffset).Some? {
        NamedSlotBound(f, tb, s.nameOffset);
        NamesShift(f, tb, s.nameOffset);
        SmallMod(w, Capacity(f.ps));
      }
    } else {
      assert w < Capacity(f.ps);
      SmallMod(w, Capacity(f.ps));
    }
  }

  lemma RenderedDescriptorReads(f: Frame, tb: Tables, k: nat)
    requires Complete(f, tb) && k < |tb.descriptors|
    requires CStringAt(tb.names, tb.descriptors[k].nameOffset).Some? && tb.descriptors[k].slot <= |tb.oft|
    ensures DescriptorReads(f.va, Render(f, tb), tb.names, tb.descriptors[k],
                            f.DescStart() + DESCRIPTOR_SIZE * k, f.OftStart() + Span(f.ps, tb.descriptors[k].slot))
  {
    hide Render, CStringAt, Read;
    var d := tb.descriptors[k];
    SlotRvaBound(f, tb, d.slot);
    NameRvaBound(f, tb, d.nameOffset);
    ReadDescriptor(f, tb, k, f.DescStart() + DESCRIPTOR_SIZE * k);
    SmallMod(OftRva(f, d.slot), 0x1_0000_0000);
    SmallMod(NameRva(f, d.nameOffset), 0x1_0000_0000);
    NamesShift(f, tb, d.nameOffset);
  }

  lemma RenderedReadable(f: Frame, tb: Tables)
    requires Complete(f, tb)
    ensures Readable(f.va, f.ps, Render(f, tb), tb, f.OftStart(), f.DescStart())
  {
    hide Render, SlotReads, DescriptorReads, Read, CStringAt;
    forall j | 0 <= j < |tb.oft|
      ensures SlotReads(f.va, f.ps, Render(f, tb), tb.names, tb.oft[j], f.OftStart() + Span(f.ps, j))
    {
      RenderedSlotReads(f, tb, j);
    }
    forall k | 0 <= k < |tb.descriptors| && CStringAt(tb.names, tb.descriptors[k].nameOffset).Some?
         && tb.descriptors[k].slot <= |tb.oft|
      ensures DescriptorReads(f.va, Render(f, tb), tb.names, tb.descriptors[k],
                              f.DescStart() + DESCRIPTOR_SIZE * k, f.OftStart() + Span(f.ps, tb.descriptors[k].slot))
    {
      RenderedDescriptorReads(f, tb, k);
    }
    ReadDescriptor(f, tb, |tb.descriptors|, f.DescStart() + DESCRIPTOR_SIZE * |tb.descriptors|);
  }

  // ------------------------------------------------------------------ the walk

  lemma ImportsStep(va: nat, ps: nat, data: seq<Byte>, names: seq<Byte>, s: Slot, at: nat, rest: seq<Import>)
    requires (ps == 4 || ps == 8) && SlotReads(va, ps, data, names, s, at) && !s.Null?
    requires SlotImport(names, s).Some? && ImportsAt(va, data, ps, at + ps) == Some(rest)
    ensures ImportsAt(va, data, ps, at) == Some([SlotImport(names, s).value] + rest)
  {
    hide ImportAt, SlotImport, Read;
  }

  lemma ImportsEnd(va: nat, ps: nat, data: seq<Byte>, names: seq<Byte>, s: Slot, at: nat)
    requires (ps == 4 || ps == 8) && SlotReads(va, ps, data, names, s, at) && s.Null?
    ensures ImportsAt(va, data, ps, at) == Some([])
  {
  }

  lemma {:induction false} WalkImports(va: nat, ps: nat, data: seq<Byte>, tb: Tables, oft: nat, desc: nat, j: nat)
    requires (ps == 4 || ps == 8) && Readable(va, ps, data, tb, oft, desc)
    requires Closed(tb.oft, j) && Imports(tb.names, tb.oft, j).Some?
    ensures ImportsAt(va, data, ps, oft + Span(ps, j)) == Imports(tb.names, tb.oft, j)
    decreases |tb.oft| - j
  {
    hide SlotReads, ImportsAt, SlotImport;
    var i :| j <= i < |tb.oft| && tb.oft[i].Null?;
    var at := oft + Span(ps, j);
    assert SlotReads(va, ps, data, tb.names, tb.oft[j], at);
    if tb.oft[j].Null? {
      ImportsEnd(va, ps, data, tb.names, tb.oft[j], at);
    } else {
      assert j + 1 <= i;
      WalkImports(va, ps, data, tb, oft, desc, j + 1);
      assert at + ps == oft + Span(ps, j + 1);
      ImportsStep(va, ps, data, tb.names, tb.oft[j], at, Imports(tb.names, tb.oft, j + 1).value);
    }
  }

  lemma LibrariesStep(va: nat, data: seq<Byte>, ps: nat, at: nat, lib: LoadedLibrary, rest: seq<LoadedLibrary>)
    requires (ps == 4 || ps == 8) && at + DESCRIPTOR_SIZE <= |data|
    requires !EndsTable(data, at) && LoadedAt(va, data, ps, at) == Some(lib)
    requires LoadedLibrariesAt(va, data, ps, at + DESCRIPTOR_SIZE) == Some(rest)
    ensures LoadedLibrariesAt(va, data, ps, at) == Some([lib] + rest)
  {
  }

  lemma LibraryFromFields(va: nat, ps: nat, data: seq<Byte>, tb: Tables, d: Descriptor, at: nat, thunks: nat,
                          lib: LoadedLibrary)
    requires (ps == 4 || ps == 8) && DescriptorReads(va, data, tb.names, d, at, thunks)
    requires LibraryOf(tb, d) == Some(lib) && ImportsAt(va, data, ps, thunks) == Imports(tb.names, tb.oft, d.slot)
    ensures !EndsTable(data, at) && LoadedAt(va, data, ps, at) == Some(lib)
  {
  }

  lemma DescriptorWalk(va: nat, ps: nat, data: seq<Byte>, tb: Tables, oft: nat, desc: nat, k: nat, lib: LoadedLibrary)
    requires (ps == 4 || ps == 8) && Readable(va, ps, data, tb, oft, desc) && k < |tb.descriptors|
    requires LibraryOf(tb, tb.descriptors[k]) == Some(lib) && Closed(tb.oft, tb.descriptors[k].slot)
    ensures desc + DESCRIPTOR_SIZE * k + DESCRIPTOR_SIZE <= |data|
    ensures !EndsTable(data, desc + DESCRIPTOR_SIZE * k)
    ensures LoadedAt(va, data, ps, desc + DESCRIPTOR_SIZE * k) == Some(lib)
  {
    hide DescriptorReads, SlotReads, LoadedAt, EndsTable, CStringAt, ImportsAt, Imports;
    var d := tb.descriptors[k];
    assert DescriptorReads(va, data, tb.names, d, desc + DESCRIPTOR_SIZE * k, oft + Span(ps, d.slot));
    WalkImports(va, ps, data, tb, oft, desc, d.slot);
    LibraryFromFields(va, ps, data, tb, d, desc + DESCRIPTOR_SIZE * k, oft + Span(ps, d.slot), lib);
  }

  lemma TableEnd(va: nat, ps: nat, data: seq<Byte>, at: nat)
    requires (ps == 4 || ps == 8) && at + DESCRIPTOR_SIZE <= |data| && Read(data, at, 4) == Read(data, at + 16, 4) == 0
    ensures LoadedLibrariesAt(va, data, ps, at) == Some([])
  {
  }

  lemma {:induction false} WalkLibraries(va: nat, ps: nat, data: seq<Byte>, tb: Tables, oft: nat, desc: nat,
                                         libs: seq<LoadedLibrary>, k: nat)
    requires (ps == 4 || ps == 8) && Readable(va, ps, data, tb, oft, desc) && Holds(tb, libs) && k <= |libs|
    ensures LoadedLibrariesAt(va, data, ps, desc + DESCRIPTOR_SIZE * k) == Some(libs[k..])
    decreases |libs| - k
  {
    hide DescriptorReads, SlotReads, LoadedAt, EndsTable, CStringAt, Read, LoadedLibrariesAt;
    if k < |libs| {
      HoldsAt(tb, libs, k);
      DescriptorWalk(va, ps, data, tb, oft, desc, k, libs[k]);
      WalkLibraries(va, ps, data, tb, oft, desc, libs, k + 1);
      LibrariesStep(va, data, ps, desc + DESCRIPTOR_SIZE * k, libs[k], libs[k + 1..]);
      assert libs[k..] == [libs[k]] + libs[k + 1..];
    } else {
      assert libs[k..] == [];
      TableEnd(va, ps, data, desc + DESCRIPTOR_SIZE * k);
    }
  }

  /** For every module map: from the first descriptor of the section that the rebuilder lays out, a loader finds
      the map's modules in order, one library per run of adjacent thunks, with the hint and name or the ordinal
      of every thunk of the run; the walk never leaves the section. */
  lemma LoaderReadsBack(f: Frame, ms: seq<ImportModuleThunk>, tb: Tables)
    requires tb == AddModules(f.ps, EMPTY, ms) && Complete(f, tb)
    ensures LoadedLibrariesAt(f.va, Render(f, tb), f.ps, f.DescStart()) == Some(MapImports(f.ps, ms))
  {
    hide Render, LoadedLibrariesAt, Readable, AddModules;
    AddModulesWalk(f.ps, EMPTY, [], ms);
    var libs := MapImports(f.ps, ms);
    assert [] + libs == libs == libs[0..];
    RenderedReadable(f, tb);
    WalkLibraries(f.va, f.ps, Render(f, tb), tb, f.OftStart(), f.DescStart(), libs, 0);
  }

  /** So the walk of GetImports yields the map's modules and symbols, each run up to its first ordinal. */
  lemma RebuiltTableReadsBack(f: Frame, ms: seq<ImportModuleThunk>, tb: Tables)
    requires tb == AddModules(f.ps, EMPTY, ms) && Complete(f, tb)
    ensures LibrariesAt(f.va, Render(f, tb), f.ps, f.DescStart()) == Some(MapLibraries(f.ps, ms))
  {
    hide Render, LibrariesAt, LoadedLibrariesAt, AddModules;
    LoaderReadsBack(f, ms, tb);
    LibrariesAreCut(f.va, Render(f, tb), f.ps, f.DescStart());
    MapIsCut(f.ps, ms);
  }
}
