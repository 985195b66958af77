/** The layout of the rebuilt import section as values: which slots, descriptors and names the
    rebuilder produces for a module map, and the bytes that hold them. */
module ImportLayout {
  import opened Arith
  import opened Bytes
  import opened Thunks

  const DESCRIPTOR_SIZE: nat := 20

  /** Where the section and its tables lie. Offsets are relative to the section's data. */
  datatype Frame = Frame(
    ps: nat,         // pointer size
    va: nat,         // RVA of the section
    prefix: seq<Byte>, // jump table and new IAT, ahead of the import tables
    oftSize: nat,
    descriptors: nat,  // number of descriptors, terminator included
    namesSize: nat)
  {
    ghost predicate Valid() {
      && (ps == 4 || ps == 8)
      && 0 < va
      && va + Size() < 0x8000_0000
    }

    function OftStart(): nat { |prefix| }

    function DescStart(): nat { OftStart() + oftSize }

    function NamesStart(): nat { DescStart() + DESCRIPTOR_SIZE * descriptors }

    function Size(): nat { NamesStart() + namesSize }
  }

  /** One pointer-sized entry of the original-first-thunk array. */
  type Word16 = n: nat | n < 0x1_0000

  datatype Slot = Null | Ordinal(ordinal: Word16) | Named(nameOffset: nat)

  /** An import descriptor: index of its first slot, name offset in the names area, IAT RVA. */
  datatype Descriptor = Descriptor(slot: nat, nameOffset: nat, firstThunk: nat)

  datatype Tables = Tables(oft: seq<Slot>, descriptors: seq<Descriptor>, names: seq<Byte>)

  const EMPTY: Tables := Tables([], [], [])

  // ------------------------------------------------------------------ building the tables

  function Flag(ps: nat): nat {
    if ps == 4 then 0x8000_0000 else 0x8000_0000_0000_0000
  }

  /** RVA arithmetic wraps at the pointer width. */
  function After(ps: nat, rva: nat): nat { Wrap(rva + ps, Capacity(ps)) }

  function HintName(t: ImportThunk): seq<Byte> { LE(t.hint, 2) + t.name + [0] }

  function SlotOf(tb: Tables, t: ImportThunk): Slot {
    if t.name == [] then Ordinal(t.ordinal % 0x1_0000) else Named(|tb.names|)
  }

  function NamesOf(t: ImportThunk): seq<Byte> {
    if t.name == [] then [] else HintName(t)
  }

  function AddDescriptor(tb: Tables, m: ImportModuleThunk): Tables {
    Tables(tb.oft, tb.descriptors + [Descriptor(|tb.oft|, |tb.names|, m.firstThunk)], tb.names + m.moduleName + [0])
  }

  /** A gap closes the open run with a null slot and opens a new descriptor for the same module. */
  function AddGap(tb: Tables, rva: nat): Tables
    requires tb.descriptors != []
  {
    var last := tb.descriptors[|tb.descriptors| - 1];
    Tables(tb.oft + [Null], tb.descriptors + [Descriptor(|tb.oft| + 1, last.nameOffset, rva)], tb.names)
  }

  function AddImport(tb: Tables, t: ImportThunk): Tables {
    Tables(tb.oft + [SlotOf(tb, t)], tb.descriptors, tb.names + NamesOf(t))
  }

  function AddThunk(ps: nat, tb: Tables, expected: nat, t: ImportThunk): (r: Tables)
    requires tb.descriptors != []
    ensures r.descriptors != []
  {
    AddImport(if expected != t.rva then AddGap(tb, t.rva) else tb, t)
  }

  function AddThunks(ps: nat, tb: Tables, expected: nat, ts: seq<ImportThunk>): (r: Tables)
    requires tb.descriptors != []
    ensures r.descriptors != []
    decreases |ts|
  {
    if ts == [] then tb
    else AddThunks(ps, AddThunk(ps, tb, expected, ts[0]), After(ps, ts[0].rva), ts[1..])
  }

  function EndModule(tb: Tables): Tables { tb.(oft := tb.oft + [Null]) }

  function AddModule(ps: nat, tb: Tables, m: ImportModuleThunk): Tables {
    EndModule(AddThunks(ps, AddDescriptor(tb, m), m.firstThunk, OM.Values(m.thunkMap)))
  }

  function AddModules(ps: nat, tb: Tables, ms: seq<ImportModuleThunk>): Tables
    decreases |ms|
  {
    if ms == [] then tb else AddModules(ps, AddModule(ps, tb, ms[0]), ms[1..])
  }

  // ------------------------------------------------------------------ sizing pass

  /** What the sizing pass counts: RVA gaps, bytes of the OFT array, bytes of names. */
  datatype Sizes = Sizes(gaps: nat, oft: nat, names: nat)
  {
    function Plus(o: Sizes): Sizes { Sizes(gaps + o.gaps, oft + o.oft, names + o.names) }
  }

  function ThunkSize(ps: nat, expected: nat, t: ImportThunk): Sizes {
    if expected != t.rva then Sizes(1, ps + ps + ps, |NamesOf(t)|) else Sizes(0, ps, |NamesOf(t)|)
  }

  function ThunkSizes(ps: nat, expected: nat, ts: seq<ImportThunk>): Sizes
    decreases |ts|
  {
    if ts == [] then Sizes(0, 0, 0)
    else ThunkSize(ps, expected, ts[0]).Plus(ThunkSizes(ps, After(ps, ts[0].rva), ts[1..]))
  }

  function ModuleSizes(ps: nat, m: ImportModuleThunk): Sizes {
    Sizes(0, ps, |m.moduleName| + 1).Plus(ThunkSizes(ps, m.firstThunk, OM.Values(m.thunkMap)))
  }

  function MapSizes(ps: nat, ms: seq<ImportModuleThunk>): Sizes {
    if ms == [] then Sizes(0, 0, 0) else ModuleSizes(ps, ms[0]).Plus(MapSizes(ps, ms[1..]))
  }

  /** Bytes taken by n slots. */
  function Span(ps: nat, n: nat): nat {
    if n == 0 then 0 else ps + Span(ps, n - 1)
  }

  lemma {:induction false} SpanPlus(ps: nat, a: nat, b: nat)
    ensures Span(ps, a + b) == Span(ps, a) + Span(ps, b)
    decreases b
  {
    if b > 0 {
      SpanPlus(ps, a, b - 1);
    }
  }

  /** The sizing pass reserves one slot more per gap than the filling pass uses. */
  ghost predicate Fits(ps: nat, tb: Tables, r: Tables, s: Sizes) {
    && Span(ps, |r.oft|) + Span(ps, s.gaps) == Span(ps, |tb.oft|) + s.oft
    && |r.names| == |tb.names| + s.names
  }

  lemma FitsPlus(ps: nat, a: Tables, b: Tables, c: Tables, s: Sizes, t: Sizes)
    requires Fits(ps, a, b, s) && Fits(ps, b, c, t)
    ensures Fits(ps, a, c, s.Plus(t))
  {
    SpanPlus(ps, s.gaps, t.gaps);
  }

  lemma ThunkFits(ps: nat, tb: Tables, expected: nat, t: ImportThunk)
    requires tb.descriptors != []
    ensures var r, s := AddThunk(ps, tb, expected, t), ThunkSize(ps, expected, t);
      Fits(ps, tb, r, s) && |r.descriptors| == |tb.descriptors| + s.gaps
  {
  }

  lemma {:induction false} ThunksFit(ps: nat, tb: Tables, expected: nat, ts: seq<ImportThunk>)
    requires tb.descriptors != []
    ensures var r, s := AddThunks(ps, tb, expected, ts), ThunkSizes(ps, expected, ts);
      Fits(ps, tb, r, s) && |r.descriptors| == |tb.descriptors| + s.gaps
    decreases |ts|
  {
    if ts != [] {
      var tb1 := AddThunk(ps, tb, expected, ts[0]);
      var rest := After(ps, ts[0].rva);
      ThunkFits(ps, tb, expected, ts[0]);
      ThunksFit(ps, tb1, rest, ts[1..]);
      FitsPlus(ps, tb, tb1, AddThunks(ps, tb1, rest, ts[1..]),
        ThunkSize(ps, expected, ts[0]), ThunkSizes(ps, rest, ts[1..]));
    }
  }

  lemma ModuleFits(ps: nat, tb: Tables, m: ImportModuleThunk)
    ensures var r, s := AddModule(ps, tb, m), ModuleSizes(ps, m);
      Fits(ps, tb, r, s) && |r.descriptors| == |tb.descriptors| + s.gaps + 1
  {
    var ts := OM.Values(m.thunkMap);
    ThunksFit(ps, AddDescriptor(tb, m), m.firstThunk, ts);
  }

  /** The sizing pass predicts the filling pass: names and descriptors exactly, slots up to one
      spare slot per gap. */
  lemma {:induction false} ModulesFit(ps: nat, tb: Tables, ms: seq<ImportModuleThunk>)
    ensures var r, s := AddModules(ps, tb, ms), MapSizes(ps, ms);
      Fits(ps, tb, r, s) && |r.descriptors| == |tb.descriptors| + s.gaps + |ms|
    decreases |ms|
  {
    if ms != [] {
      var tb1 := AddModule(ps, tb, ms[0]);
      ModuleFits(ps, tb, ms[0]);
      ModulesFit(ps, tb1, ms[1..]);
      FitsPlus(ps, tb, tb1, AddModules(ps, tb1, ms[1..]), ModuleSizes(ps, ms[0]), MapSizes(ps, ms[1..]));
    }
  }

  // ------------------------------------------------------------------ bytes

  function Word(f: Frame, s: Slot): nat {
    match s
    case Null => 0
    case Ordinal(n) => n + Flag(f.ps)
    case Named(k) => NameRva(f, k)
  }

  function SlotBytes(f: Frame, oft: seq<Slot>): (r: seq<Byte>)
    ensures |r| == Span(f.ps, |oft|)
  {
    if oft == [] then [] else SlotBytes(f, oft[..|oft| - 1]) + LE(Word(f, oft[|oft| - 1]), f.ps)
  }

  function DescriptorBytes(f: Frame, d: Descriptor): (r: seq<Byte>)
    ensures |r| == DESCRIPTOR_SIZE
  {
    LE(OftRva(f, d.slot), 4) + Zeros(8) + LE(NameRva(f, d.nameOffset), 4) + LE(d.firstThunk, 4)
  }

  function OftRva(f: Frame, slot: nat): nat { f.va + f.OftStart() + Span(f.ps, slot) }

  function NameRva(f: Frame, k: nat): nat { f.va + f.NamesStart() + k }

  /** The field stores of one descriptor, in the order the rebuilder makes them. */
  function WriteDescriptor(mem: seq<Byte>, at: nat, oft: nat, name: nat, first: nat): (r: seq<Byte>)
    requires at + DESCRIPTOR_SIZE <= |mem|
    ensures |r| == |mem|
  {
    Blit(Blit(Blit(mem, at + 16, LE(first, 4)), at + 12, LE(name, 4)), at, LE(oft, 4))
  }

  function DescriptorsBytes(f: Frame, ds: seq<Descriptor>): (r: seq<Byte>)
    ensures |r| == DESCRIPTOR_SIZE * |ds|
  {
    if ds == [] then [] else DescriptorsBytes(f, ds[..|ds| - 1]) + DescriptorBytes(f, ds[|ds| - 1])
  }

  function Pad(s: seq<Byte>, n: nat): (r: seq<Byte>)
    requires |s| <= n
    ensures |r| == n
  {
    s + Zeros(n - |s|)
  }

  ghost predicate Room(f: Frame, tb: Tables) {
    && Span(f.ps, |tb.oft|) <= f.oftSize
    && |tb.descriptors| <= f.descriptors
    && |tb.names| <= f.namesSize
  }

  /** The section's data once the tables `tb` have been written. */
  function Render(f: Frame, tb: Tables): (r: seq<Byte>)
    requires Room(f, tb)
    ensures |r| == f.Size()
  {
    f.prefix + Pad(SlotBytes(f, tb.oft), f.oftSize)
    + Pad(DescriptorsBytes(f, tb.descriptors), DESCRIPTOR_SIZE * f.descriptors)
    + Pad(tb.names, f.namesSize)
  }

  // ------------------------------------------------------------------ one store at a time

  lemma BlitPad(x: seq<Byte>, n: nat, b: seq<Byte>)
    requires |x| + |b| <= n
    ensures Blit(Pad(x, n), |x|, b) == Pad(x + b, n)
  {
  }

  lemma BlitMiddle(a: seq<Byte>, m: seq<Byte>, c: seq<Byte>, at: nat, b: seq<Byte>)
    requires at + |b| <= |m|
    ensures Blit(a + m + c, |a| + at, b) == a + Blit(m, at, b) + c
  {
    var l, r := Blit(a + m + c, |a| + at, b), a + Blit(m, at, b) + c;
    forall i | 0 <= i < |l| ensures l[i] == r[i] { }
  }

  /** Storing a slot at the OFT cursor appends it to the slot table. */
  lemma StoreSlot(f: Frame, tb: Tables, s: Slot, at: nat)
    requires Room(f, tb) && Span(f.ps, |tb.oft|) + f.ps <= f.oftSize && at == f.OftStart() + Span(f.ps, |tb.oft|)
    ensures at + f.ps <= f.Size()
    ensures Room(f, tb.(oft := tb.oft + [s]))
    ensures Blit(Render(f, tb), at, LE(Word(f, s), f.ps)) == Render(f, tb.(oft := tb.oft + [s]))
  {
    hide Blit, LE, Word, DescriptorsBytes;
    var slots := SlotBytes(f, tb.oft);
    var rest := Pad(DescriptorsBytes(f, tb.descriptors), DESCRIPTOR_SIZE * f.descriptors) + Pad(tb.names, f.namesSize);
    BlitMiddle(f.prefix, Pad(slots, f.oftSize), rest, |slots|, LE(Word(f, s), f.ps));
    BlitPad(slots, f.oftSize, LE(Word(f, s), f.ps));
    assert (tb.oft + [s])[..|tb.oft|] == tb.oft;
    assert Render(f, tb) == f.prefix + Pad(slots, f.oftSize) + rest;
  }

  /** The terminator written behind a named slot falls on bytes that are still zero. */
  lemma StoreTerminator(f: Frame, tb: Tables, at: nat)
    requires Room(f, tb) && Span(f.ps, |tb.oft|) + f.ps <= f.oftSize && at == f.OftStart() + Span(f.ps, |tb.oft|)
    ensures at + f.ps <= f.Size()
    ensures Blit(Render(f, tb), at, LE(0, f.ps)) == Render(f, tb)
    ensures Room(f, EndModule(tb)) && Render(f, EndModule(tb)) == Render(f, tb)
  {
    StoreSlot(f, tb, Null, at);
    var slots := SlotBytes(f, tb.oft);
    assert (tb.oft + [Null])[..|tb.oft|] == tb.oft;
    assert SlotBytes(f, tb.oft + [Null]) == slots + LE(0, f.ps);
    LEZero(f.ps);
    assert Pad(slots + Zeros(f.ps), f.oftSize) == Pad(slots, f.oftSize);
  }

  lemma {:induction false} LEZero(n: nat)
    ensures LE(0, n) == Zeros(n)
  {
    if n > 0 {
      LEZero(n - 1);
      assert Zeros(n) == [0] + Zeros(n - 1);
    }
  }

  /** Filling a zeroed record from its last field to its first leaves the whole record. */
  lemma BlitRecord(p: seq<Byte>, s: seq<Byte>, o: seq<Byte>, nm: seq<Byte>, ft: seq<Byte>)
    requires |o| == |nm| == |ft| == 4
    ensures Blit(Blit(Blit(p + Zeros(20) + s, |p| + 16, ft), |p| + 12, nm), |p|, o) == p + (o + Zeros(8) + nm + ft) + s
  {
    BlitMiddle(p, Zeros(20), s, 16, ft);
    assert Blit(Zeros(20), 16, ft) == Zeros(16) + ft;
    BlitMiddle(p, Zeros(16) + ft, s, 12, nm);
    assert Blit(Zeros(16) + ft, 12, nm) == Zeros(12) + nm + ft;
    BlitMiddle(p, Zeros(12) + nm + ft, s, 0, o);
    assert Blit(Zeros(12) + nm + ft, 0, o) == o + Zeros(8) + nm + ft;
  }

  function BeforeDescriptor(f: Frame, tb: Tables): seq<Byte>
    requires Room(f, tb)
  {
    f.prefix + Pad(SlotBytes(f, tb.oft), f.oftSize) + DescriptorsBytes(f, tb.descriptors)
  }

  function BehindDescriptor(f: Frame, tb: Tables): seq<Byte>
    requires Room(f, tb) && |tb.descriptors| < f.descriptors
  {
    Zeros(DESCRIPTOR_SIZE * (f.descriptors - |tb.descriptors| - 1)) + Pad(tb.names, f.namesSize)
  }

  lemma NextRecord(f: Frame, tb: Tables)
    requires Room(f, tb) && |tb.descriptors| < f.descriptors
    ensures Render(f, tb) == BeforeDescriptor(f, tb) + Zeros(DESCRIPTOR_SIZE) + BehindDescriptor(f, tb)
  {
    var ds, n := DescriptorsBytes(f, tb.descriptors), DESCRIPTOR_SIZE * f.descriptors;
    assert Pad(ds, n) == ds + Zeros(DESCRIPTOR_SIZE) + Zeros(DESCRIPTOR_SIZE * (f.descriptors - |tb.descriptors| - 1));
  }

  lemma RecordWritten(f: Frame, tb: Tables, d: Descriptor)
    requires Room(f, tb) && |tb.descriptors| < f.descriptors
    ensures Room(f, tb.(descriptors := tb.descriptors + [d]))
    ensures Render(f, tb.(descriptors := tb.descriptors + [d]))
         == BeforeDescriptor(f, tb) + DescriptorBytes(f, d) + BehindDescriptor(f, tb)
  {
    var ds, n := DescriptorsBytes(f, tb.descriptors), DESCRIPTOR_SIZE * f.descriptors;
    assert (tb.descriptors + [d])[..|tb.descriptors|] == tb.descriptors;
    assert Pad(ds + DescriptorBytes(f, d), n)
        == ds + DescriptorBytes(f, d) + Zeros(DESCRIPTOR_SIZE * (f.descriptors - |tb.descriptors| - 1));
  }

  /** The three field stores of a descriptor append it to the descriptor table. */
  lemma StoreDescriptor(f: Frame, tb: Tables, d: Descriptor, at: nat)
    requires Room(f, tb) && |tb.descriptors| < f.descriptors
    requires at == f.DescStart() + DESCRIPTOR_SIZE * |tb.descriptors|
    ensures at + DESCRIPTOR_SIZE <= f.Size()
    ensures Room(f, tb.(descriptors := tb.descriptors + [d]))
    ensures WriteDescriptor(Render(f, tb), at, OftRva(f, d.slot), NameRva(f, d.nameOffset), d.firstThunk)
         == Render(f, tb.(descriptors := tb.descriptors + [d]))
  {
    var p, s := BeforeDescriptor(f, tb), BehindDescriptor(f, tb);
    var o, nm, ft := LE(OftRva(f, d.slot), 4), LE(NameRva(f, d.nameOffset), 4), LE(d.firstThunk, 4);
    RecordWritten(f, tb, d);
    assert DescriptorBytes(f, d) == o + Zeros(8) + nm + ft;
    NextRecord(f, tb);
    assert |p| == at;
    BlitRecord(p, s, o, nm, ft);
  }

  /** Copying bytes to the name cursor appends them to the names area. */
  lemma StoreNames(f: Frame, tb: Tables, b: seq<Byte>)
    requires Room(f, tb) && |tb.names| + |b| <= f.namesSize
    ensures Room(f, tb.(names := tb.names + b))
    ensures Blit(Render(f, tb), f.NamesStart() + |tb.names|, b) == Render(f, tb.(names := tb.names + b))
  {
    var a := f.prefix + Pad(SlotBytes(f, tb.oft), f.oftSize)
             + Pad(DescriptorsBytes(f, tb.descriptors), DESCRIPTOR_SIZE * f.descriptors);
    BlitMiddle(a, Pad(tb.names, f.namesSize), [], |tb.names|, b);
    BlitPad(tb.names, f.namesSize, b);
    assert Render(f, tb) == a + Pad(tb.names, f.namesSize) + [];
  }
}
