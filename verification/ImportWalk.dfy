/** Reading an import table back, as PEParser::GetImports does, and what it finds in a section
    laid out by the rebuilder. */
module ImportWalk {
  import opened Bytes
  import opened Thunks
  import opened ImportLayout
  import opened Options

  datatype ImportedSymbol = ImportedSymbol(hint: nat, name: seq<Byte>)

  datatype ImportedLibrary = ImportedLibrary(name: seq<Byte>, iat: nat, symbols: seq<ImportedSymbol>)

  // ------------------------------------------------------------------ the walk over raw bytes

  /** The C string at `at`; None when it is not terminated inside the section. */
  function CStringAt(data: seq<Byte>, at: nat): Option<seq<Byte>>
    decreases |data| - at
  {
    if at >= |data| then None
    else if data[at] == 0 then Some([])
    else
      var s :- CStringAt(data, at + 1);
      Some([data[at]] + s)
  }

  /** Hint and name of an import-by-name record. */
  function SymbolAt(data: seq<Byte>, at: nat): Option<ImportedSymbol> {
    if at + 2 > |data| then None
    else
      var s :- CStringAt(data, at + 2);
      Some(ImportedSymbol(Read(data, at, 2), s))
  }

  /** The name RVA a thunk holds; 0 for an ordinal. */
  function NameRvaOf(ps: nat, w: nat): nat { if w >= Flag(ps) then 0 else w % 0x8000_0000 }

  /** The symbols of one thunk array. The walk ends at a zero entry and at an ordinal; None means
      that it left the section. */
  function SymbolsAt(va: nat, data: seq<Byte>, ps: nat, at: nat): Option<seq<ImportedSymbol>>
    requires ps == 4 || ps == 8
    decreases |data| - at
  {
    if at + ps > |data| then None
    else
      var nameRva := NameRvaOf(ps, Read(data, at, ps));
      if nameRva == 0 then Some([])
      else if nameRva < va then None
      else
        var s :- SymbolAt(data, nameRva - va);
        var rest :- SymbolsAt(va, data, ps, at + ps);
        Some([s] + rest)
  }

  /** The RVA array of a descriptor: its own thunk array, or the IAT when it has none. */
  function ThunksRva(data: seq<Byte>, at: nat): nat
    requires at + DESCRIPTOR_SIZE <= |data|
  {
    if Read(data, at, 4) == 0 then Read(data, at + 16, 4) else Read(data, at, 4)
  }

  predicate EndsTable(data: seq<Byte>, at: nat)
    requires at + DESCRIPTOR_SIZE <= |data|
  {
    ThunksRva(data, at) == 0
  }

  function LibraryAt(va: nat, data: seq<Byte>, ps: nat, at: nat): Option<ImportedLibrary>
    requires ps == 4 || ps == 8
    requires at + DESCRIPTOR_SIZE <= |data|
  {
    var name := Read(data, at + 12, 4);
    if ThunksRva(data, at) < va || name < va then None
    else
      var libName :- CStringAt(data, name - va);
      var symbols :- SymbolsAt(va, data, ps, ThunksRva(data, at) - va);
      Some(ImportedLibrary(libName, Read(data, at + 16, 4), symbols))
  }

  /** One library per descriptor, up to a descriptor without thunk arrays. */
  function LibrariesAt(va: nat, data: seq<Byte>, ps: nat, at: nat): Option<seq<ImportedLibrary>>
    requires ps == 4 || ps == 8
    decreases |data| - at
  {
    if at + DESCRIPTOR_SIZE > |data| then None
    else if EndsTable(data, at) then Some([])
    else
      var lib :- LibraryAt(va, data, ps, at);
      var rest :- LibrariesAt(va, data, ps, at + DESCRIPTOR_SIZE);
      Some([lib] + rest)
  }

  // ------------------------------------------------------------------ what a loader reads

  /** What a slot of a thunk array asks for (PE Format, "Import Lookup Table"). */
  datatype Import = ByOrdinal(ordinal: nat) | ByName(symbol: ImportedSymbol)

  datatype LoadedLibrary = LoadedLibrary(name: seq<Byte>, iat: nat, imports: seq<Import>)

  /** The import of a slot: with the highest bit set an ordinal in the low 16 bits, otherwise the RVA of hint
      and name in the low 31. */
  function ImportAt(va: nat, data: seq<Byte>, ps: nat, w: nat): Option<Import> {
    if w >= (if ps == 4 then 0x8000_0000 else 0x8000_0000_0000_0000) then Some(ByOrdinal(w % 0x1_0000))
    else if w % 0x8000_0000 < va then None
    else
      var s :- SymbolAt(data, w % 0x8000_0000 - va);
      Some(ByName(s))
  }

  /** The imports of one thunk array, up to its null slot. */
  function ImportsAt(va: nat, data: seq<Byte>, ps: nat, at: nat): Option<seq<Import>>
    requires ps == 4 || ps == 8
    decreases |data| - at
  {
    if at + ps > |data| then None
    else if Read(data, at, ps) == 0 then Some([])
    else
      var i :- ImportAt(va, data, ps, Read(data, at, ps));
      var rest :- ImportsAt(va, data, ps, at + ps);
      Some([i] + rest)
  }

  function LoadedAt(va: nat, data: seq<Byte>, ps: nat, at: nat): Option<LoadedLibrary>
    requires (ps == 4 || ps == 8) && at + DESCRIPTOR_SIZE <= |data|
  {
    var name := Read(data, at + 12, 4);
    if ThunksRva(data, at) < va || name < va then None
    else
      var libName :- CStringAt(data, name - va);
      var imports :- ImportsAt(va, data, ps, ThunksRva(data, at) - va);
      Some(LoadedLibrary(libName, Read(data, at + 16, 4), imports))
  }

  function LoadedLibrariesAt(va: nat, data: seq<Byte>, ps: nat, at: nat): Option<seq<LoadedLibrary>>
    requires ps == 4 || ps == 8
    decreases |data| - at
  {
    if at + DESCRIPTOR_SIZE > |data| then None
    else if EndsTable(data, at) then Some([])
    else
      var lib :- LoadedAt(va, data, ps, at);
      var rest :- LoadedLibrariesAt(va, data, ps, at + DESCRIPTOR_SIZE);
      Some([lib] + rest)
  }

  /** The names ahead of the first ordinal. */
  function NamesAhead(imports: seq<Import>): seq<ImportedSymbol> {
    if imports == [] || imports[0].ByOrdinal? then [] else [imports[0].symbol] + NamesAhead(imports[1..])
  }

  function Cut(lib: LoadedLibrary): ImportedLibrary { ImportedLibrary(lib.name, lib.iat, NamesAhead(lib.imports)) }

  function Cuts(libs: seq<LoadedLibrary>): seq<ImportedLibrary> {
    if libs == [] then [] else [Cut(libs[0])] + Cuts(libs[1..])
  }

  lemma {:induction false} SymbolsAreCut(va: nat, data: seq<Byte>, ps: nat, at: nat)
    requires (ps == 4 || ps == 8) && va > 0 && ImportsAt(va, data, ps, at).Some?
    ensures SymbolsAt(va, data, ps, at) == Some(NamesAhead(ImportsAt(va, data, ps, at).value))
    decreases |data| - at
  {
    hide SymbolAt, Read;
    if Read(data, at, ps) != 0 {
      SymbolsAreCut(va, data, ps, at + ps);
    }
  }

  /** Wherever a loader finds its way, the walk of GetImports finds what the loader does, each library up to its
      first ordinal. */
  lemma {:induction false} LibrariesAreCut(va: nat, data: seq<Byte>, ps: nat, at: nat)
    requires (ps == 4 || ps == 8) && va > 0 && LoadedLibrariesAt(va, data, ps, at).Some?
    ensures LibrariesAt(va, data, ps, at) == Some(Cuts(LoadedLibrariesAt(va, data, ps, at).value))
    decreases |data| - at
  {
    hide ImportsAt, SymbolsAt, CStringAt, Read;
    if !EndsTable(data, at) {
      SymbolsAreCut(va, data, ps, ThunksRva(data, at) - va);
      LibrariesAreCut(va, data, ps, at + DESCRIPTOR_SIZE);
    }
  }

  /** A descriptor without original thunks is read through its IAT: as one that has the same name and IAT, and
      the IAT as original thunks. */
  lemma ReadThroughIat(va: nat, data: seq<Byte>, ps: nat, a: nat, b: nat)
    requires (ps == 4 || ps == 8) && a + DESCRIPTOR_SIZE <= |data| && b + DESCRIPTOR_SIZE <= |data|
    requires Read(data, a, 4) == 0 && Read(data, b, 4) == Read(data, b + 16, 4) == Read(data, a + 16, 4)
    requires Read(data, a + 12, 4) == Read(data, b + 12, 4)
    ensures EndsTable(data, a) <==> Read(data, a + 16, 4) == 0
    ensures EndsTable(data, b) == EndsTable(data, a) && LibraryAt(va, data, ps, a) == LibraryAt(va, data, ps, b)
  {
    hide Read, CStringAt, SymbolsAt;
  }

  /** PEParser::GetImports over one mapped section. */
  method GetImports(va: nat, data: seq<Byte>, ps: nat, dirRva: nat, dirSize: nat)
    returns (r: Option<seq<ImportedLibrary>>)
    requires ps == 4 || ps == 8
    ensures r == if dirSize == 0 then Some([]) else if dirRva < va then None else LibrariesAt(va, data, ps, dirRva - va)
  {
    hide LibraryAt, EndsTable;
    if dirSize == 0 {
      return Some([]);
    }
    if dirRva < va {
      return None;
    }
    var at: nat := dirRva - va;
    var libs: seq<ImportedLibrary> := [];
    ghost var goal := LibrariesAt(va, data, ps, at);
    BehindNothing(goal);
    while true
      invariant goal == Behind(libs, LibrariesAt(va, data, ps, at))
      decreases |data| - at
    {
      if at + DESCRIPTOR_SIZE > |data| {
        return None;
      }
      if EndsTable(data, at) {
        assert libs + [] == libs;
        return Some(libs);
      }
      var lib := ReadLibrary(va, data, ps, at);
      if lib == None {
        return None;
      }
      BehindStep(libs, lib.value, LibrariesAt(va, data, ps, at + DESCRIPTOR_SIZE));
      libs := libs + [lib.value];
      at := at + DESCRIPTOR_SIZE;
    }
  }

  /** The library of one descriptor: its name, then its thunks up to a zero entry or an ordinal. */
  method ReadLibrary(va: nat, data: seq<Byte>, ps: nat, at: nat) returns (r: Option<ImportedLibrary>)
    requires (ps == 4 || ps == 8) && at + DESCRIPTOR_SIZE <= |data|
    ensures r == LibraryAt(va, data, ps, at)
  {
    var name, thunks := Read(data, at + 12, 4), ThunksRva(data, at);
    if thunks < va || name < va {
      return None;
    }
    var libName := CStringAt(data, name - va);
    if libName == None {
      return None;
    }
    var symbols := ReadSymbols(va, data, ps, thunks - va);
    if symbols == None {
      return None;
    }
    return Some(ImportedLibrary(libName.value, Read(data, at + 16, 4), symbols.value));
  }

  method ReadSymbols(va: nat, data: seq<Byte>, ps: nat, at: nat) returns (r: Option<seq<ImportedSymbol>>)
    requires ps == 4 || ps == 8
    ensures r == SymbolsAt(va, data, ps, at)
  {
    hide Read, SymbolAt;
    var slot: nat := at;
    var symbols: seq<ImportedSymbol> := [];
    ghost var goal := SymbolsAt(va, data, ps, slot);
    BehindNothing(goal);
    while true
      invariant goal == Behind(symbols, SymbolsAt(va, data, ps, slot))
      decreases |data| - slot
    {
      if slot + ps > |data| {
        return None;
      }
      var nameRva := NameRvaOf(ps, Read(data, slot, ps));
      if nameRva == 0 {
        assert symbols + [] == symbols;
        return Some(symbols);
      }
      if nameRva < va {
        return None;
      }
      var symbol := SymbolAt(data, nameRva - va);
      if symbol == None {
        return None;
      }
      BehindStep(symbols, symbol.value, SymbolsAt(va, data, ps, slot + ps));
      symbols := symbols + [symbol.value];
      slot := slot + ps;
    }
  }

  function Behind<T>(done: seq<T>, rest: Option<seq<T>>): Option<seq<T>> {
    var r :- rest;
    Some(done + r)
  }

  lemma BehindNothing<T>(x: Option<seq<T>>)
    ensures Behind([], x) == x
  {
    if x.Some? {
      assert [] + x.value == x.value;
    }
  }

  lemma BehindStep<T>(done: seq<T>, x: T, rest: Option<seq<T>>)
    ensures Behind(done + [x], rest) == Behind(done, if rest == None then None else Some([x] + rest.value))
  {
    if rest.Some? {
      assert done + [x] + rest.value == done + ([x] + rest.value);
    }
  }

  // ------------------------------------------------------------------ what a module map imports

  /** Length of the run of thunks that lie back to back from RVA `expected` on. */
  function RunLength(ps: nat, expected: nat, ts: seq<ImportThunk>): (n: nat)
    ensures n <= |ts|
    decreases |ts|
  {
    if ts == [] || ts[0].rva != expected then 0 else 1 + RunLength(ps, After(ps, expected), ts[1..])
  }

  /** Every thunk of a run is in the slot behind the one before it, the first in slot `first`, and the thunk
      behind the run is not; so a loader fills each thunk's own slot. */
  lemma {:induction false} RunIsMaximal(ps: nat, first: nat, ts: seq<ImportThunk>, i: nat)
    requires i <= RunLength(ps, first, ts) && i < |ts|
    ensures i < RunLength(ps, first, ts) <==> ts[i].rva == if i == 0 then first else After(ps, ts[i - 1].rva)
    decreases |ts|
  {
    if i > 0 {
      RunIsMaximal(ps, After(ps, first), ts[1..], i - 1);
    }
  }

  /** The symbols a loader-style walk sees in a run: all names ahead of the first ordinal. */
  function NamedPrefix(ts: seq<ImportThunk>): seq<ImportedSymbol> {
    if ts == [] || ts[0].name == [] then []
    else [ImportedSymbol(ts[0].hint % 0x1_0000, ts[0].name)] + NamedPrefix(ts[1..])
  }

  /** One library per maximal run of adjacent thunks; the first starts at `first` even when empty. */
  function RunLibraries(ps: nat, name: seq<Byte>, first: nat, ts: seq<ImportThunk>): seq<ImportedLibrary>
    decreases |ts|, if ts != [] && ts[0].rva != first then 1 else 0
  {
    var n := RunLength(ps, first, ts);
    var lib := ImportedLibrary(name, first % 0x1_0000_0000, NamedPrefix(ts[..n]));
    if n == |ts| then [lib] else [lib] + RunLibraries(ps, name, ts[n].rva, ts[n..])
  }

  function MapLibraries(ps: nat, ms: seq<ImportModuleThunk>): seq<ImportedLibrary> {
    if ms == [] then []
    else RunLibraries(ps, ms[0].moduleName, ms[0].firstThunk, OM.Values(ms[0].thunkMap)) + MapLibraries(ps, ms[1..])
  }

  function ImportOf(t: ImportThunk): Import {
    if t.name == [] then ByOrdinal(t.ordinal % 0x1_0000) else ByName(ImportedSymbol(t.hint % 0x1_0000, t.name))
  }

  function ImportsOf(ts: seq<ImportThunk>): (r: seq<Import>)
    ensures |r| == |ts| && forall i :: 0 <= i < |r| ==> r[i] == ImportOf(ts[i])
  {
    seq(|ts|, i requires 0 <= i < |ts| => ImportOf(ts[i]))
  }

  /** What a loader finds for a module: one library per maximal run, with every thunk of the run. */
  function LoadedRuns(ps: nat, name: seq<Byte>, first: nat, ts: seq<ImportThunk>): seq<LoadedLibrary>
    decreases |ts|, if ts != [] && ts[0].rva != first then 1 else 0
  {
    var n := RunLength(ps, first, ts);
    var lib := LoadedLibrary(name, first % 0x1_0000_0000, ImportsOf(ts[..n]));
    if n == |ts| then [lib] else [lib] + LoadedRuns(ps, name, ts[n].rva, ts[n..])
  }

  function MapImports(ps: nat, ms: seq<ImportModuleThunk>): seq<LoadedLibrary> {
    if ms == [] then []
    else LoadedRuns(ps, ms[0].moduleName, ms[0].firstThunk, OM.Values(ms[0].thunkMap)) + MapImports(ps, ms[1..])
  }

  lemma {:induction false} PrefixIsCut(ts: seq<ImportThunk>)
    ensures NamesAhead(ImportsOf(ts)) == NamedPrefix(ts)
  {
    if ts != [] {
      assert ImportsOf(ts)[1..] == ImportsOf(ts[1..]);
      PrefixIsCut(ts[1..]);
    }
  }

  lemma {:induction false} RunsAreCut(ps: nat, name: seq<Byte>, first: nat, ts: seq<ImportThunk>)
    ensures Cuts(LoadedRuns(ps, name, first, ts)) == RunLibraries(ps, name, first, ts)
    decreases |ts|, if ts != [] && ts[0].rva != first then 1 else 0
  {
    var n := RunLength(ps, first, ts);
    PrefixIsCut(ts[..n]);
    if n < |ts| {
      RunsAreCut(ps, name, ts[n].rva, ts[n..]);
    }
  }

  lemma {:induction false} CutsJoin(a: seq<LoadedLibrary>, b: seq<LoadedLibrary>)
    ensures Cuts(a + b) == Cuts(a) + Cuts(b)
  {
    if a == [] {
      assert [] + b == b;
    } else {
      assert (a + b)[1..] == a[1..] + b;
      CutsJoin(a[1..], b);
    }
  }

  lemma {:induction false} MapIsCut(ps: nat, ms: seq<ImportModuleThunk>)
    ensures Cuts(MapImports(ps, ms)) == MapLibraries(ps, ms)
  {
    if ms != [] {
      var ts := OM.Values(ms[0].thunkMap);
      RunsAreCut(ps, ms[0].moduleName, ms[0].firstThunk, ts);
      CutsJoin(LoadedRuns(ps, ms[0].moduleName, ms[0].firstThunk, ts), MapImports(ps, ms[1..]));
      MapIsCut(ps, ms[1..]);
    }
  }

  /** With named imports only, nothing is cut short: the walk yields every thunk's symbol. */
  lemma {:induction false} NamedPrefixComplete(ts: seq<ImportThunk>)
    ensures |NamedPrefix(ts)| == |ts| <==> forall t :: t in ts ==> t.name != []
    ensures |NamedPrefix(ts)| <= |ts|
    ensures forall i :: 0 <= i < |NamedPrefix(ts)| ==>
      NamedPrefix(ts)[i] == ImportedSymbol(ts[i].hint % 0x1_0000, ts[i].name)
  {
    if ts != [] && ts[0].name != [] {
      NamedPrefixComplete(ts[1..]);
      assert forall t :: t in ts <==> t == ts[0] || t in ts[1..];
    } else if ts != [] {
      assert ts[0] in ts;
    }
  }

  // ------------------------------------------------------------------ the walk over tables

  function SlotImport(names: seq<Byte>, s: Slot): Option<Import>
    requires !s.Null?
  {
    if s.Ordinal? then Some(ByOrdinal(s.ordinal))
    else
      var symbol :- SymbolAt(names, s.nameOffset);
      Some(ByName(symbol))
  }

  function Imports(names: seq<Byte>, oft: seq<Slot>, j: nat): Option<seq<Import>>
    decreases |oft| - j
  {
    if j >= |oft| || oft[j].Null? then Some([])
    else
      var i :- SlotImport(names, oft[j]);
      var rest :- Imports(names, oft, j + 1);
      Some([i] + rest)
  }

  function LibraryOf(tb: Tables, d: Descriptor): Option<LoadedLibrary> {
    var name :- CStringAt(tb.names, d.nameOffset);
    var imports :- Imports(tb.names, tb.oft, d.slot);
    Some(LoadedLibrary(name, d.firstThunk % 0x1_0000_0000, imports))
  }

  /** Descriptor by descriptor, the tables hold the libraries `libs`. */
  ghost predicate Describes(tb: Tables, libs: seq<LoadedLibrary>) {
    && |libs| == |tb.descriptors|
    && forall k :: 0 <= k < |libs| ==> LibraryOf(tb, tb.descriptors[k]) == Some(libs[k])
  }

  /** The run that starts at slot j has met its end. */
  ghost predicate Closed(oft: seq<Slot>, j: nat) {
    exists i :: j <= i < |oft| && oft[i].Null?
  }

  ghost predicate Open(oft: seq<Slot>, j: nat) {
    j <= |oft| && forall i :: j <= i < |oft| ==> !oft[i].Null?
  }

  ghost predicate AllClosed(tb: Tables, n: nat)
    requires n <= |tb.descriptors|
  {
    forall k :: 0 <= k < n ==> Closed(tb.oft, tb.descriptors[k].slot)
  }

  /** Complete tables: every run has met its end. */
  ghost predicate Holds(tb: Tables, libs: seq<LoadedLibrary>) {
    Describes(tb, libs) && AllClosed(tb, |libs|)
  }

  lemma HoldsAt(tb: Tables, libs: seq<LoadedLibrary>, k: nat)
    requires Holds(tb, libs) && k < |libs|
    ensures |libs| == |tb.descriptors| && LibraryOf(tb, tb.descriptors[k]) == Some(libs[k])
    ensures Closed(tb.oft, tb.descriptors[k].slot)
  {
  }

  lemma {:induction false} CStringStable(a: seq<Byte>, x: seq<Byte>, at: nat)
    requires CStringAt(a, at).Some?
    ensures CStringAt(a + x, at) == CStringAt(a, at)
    decreases |a| - at
  {
    if a[at] != 0 {
      CStringStable(a, x, at + 1);
    }
  }

  lemma SymbolStable(a: seq<Byte>, x: seq<Byte>, at: nat)
    requires SymbolAt(a, at).Some?
    ensures SymbolAt(a + x, at) == SymbolAt(a, at)
  {
    CStringStable(a, x, at + 2);
    assert (a + x)[at..at + 2] == a[at..at + 2];
  }

  lemma SlotStable(names: seq<Byte>, x: seq<Byte>, s: Slot)
    requires !s.Null? && SlotImport(names, s).Some?
    ensures SlotImport(names + x, s) == SlotImport(names, s)
  {
    if s.Named? {
      SymbolStable(names, x, s.nameOffset);
    }
  }

  /** Growing the tables does not change what a closed run holds. */
  lemma {:induction false} ClosedRunStable(names: seq<Byte>, x: seq<Byte>, oft: seq<Slot>, y: seq<Slot>, j: nat)
    requires Closed(oft, j) && Imports(names, oft, j).Some?
    ensures Closed(oft + y, j) && Imports(names + x, oft + y, j) == Imports(names, oft, j)
    decreases |oft| - j
  {
    hide SlotImport;
    var i :| j <= i < |oft| && oft[i].Null?;
    assert (oft + y)[i].Null?;
    if !oft[j].Null? {
      assert j + 1 <= i;
      SlotStable(names, x, oft[j]);
      ClosedRunStable(names, x, oft, y, j + 1);
    }
  }

  function NewImports(names: seq<Byte>, s: Slot): seq<Import>
    requires !s.Null? ==> SlotImport(names, s).Some?
  {
    if s.Null? then [] else [SlotImport(names, s).value]
  }

  /** A slot put behind an open run extends it by that slot's import, if it has one. */
  lemma {:induction false} OpenRunGrows(names: seq<Byte>, x: seq<Byte>, oft: seq<Slot>, s: Slot, j: nat)
    requires Open(oft, j) && Imports(names, oft, j).Some?
    requires !s.Null? ==> SlotImport(names + x, s).Some?
    ensures Imports(names + x, oft + [s], j) == Some(Imports(names, oft, j).value + NewImports(names + x, s))
    decreases |oft| - j
  {
    hide SlotImport;
    if j < |oft| {
      SlotStable(names, x, oft[j]);
      OpenRunGrows(names, x, oft, s, j + 1);
      var head := SlotImport(names, oft[j]).value;
      var tail, more := Imports(names, oft, j + 1).value, NewImports(names + x, s);
      assert (oft + [s])[j] == oft[j];
      assert [head] + (tail + more) == ([head] + tail) + more;
    } else {
      var more := NewImports(names + x, s);
      assert (oft + [s])[j] == s && Imports(names + x, oft + [s], j + 1) == Some([]);
      assert Imports(names + x, oft + [s], j) == Some(more) by {
        assert more + [] == more;
      }
      assert [] + more == more;
    }
  }

  lemma {:induction false} TerminatedString(a: seq<Byte>, s: CString, b: seq<Byte>)
    ensures CStringAt(a + s + [0] + b, |a|) == Some(s)
    decreases |s|
  {
    var d := a + s + [0] + b;
    assert d[|a|] == if s == [] then 0 else s[0];
    if s != [] {
      assert d == (a + [s[0]]) + s[1..] + [0] + b;
      TerminatedString(a + [s[0]], s[1..], b);
      assert [s[0]] + s[1..] == s;
    }
  }

  /** The record appended for a named import reads back as its hint and name. */
  lemma NewSymbol(names: seq<Byte>, t: ImportThunk)
    ensures SymbolAt(names + HintName(t), |names|) == Some(ImportedSymbol(t.hint % 0x1_0000, t.name))
  {
    var d := names + HintName(t);
    assert d == (names + LE(t.hint, 2)) + t.name + [0] + [];
    TerminatedString(names + LE(t.hint, 2), t.name, []);
    assert d[|names|..|names| + 2] == LE(t.hint, 2);
    WordRoundTrip(t.hint, 2);
    CapacityFacts();
  }

  // ------------------------------------------------------------------ building, seen by the walk

  function Seen(lib: LoadedLibrary, imports: seq<Import>): LoadedLibrary { lib.(imports := lib.imports + imports) }

  /** The libraries that result when `ts` is added behind an open library. */
  function Extend(ps: nat, lib: LoadedLibrary, expected: nat, ts: seq<ImportThunk>): seq<LoadedLibrary>
    decreases |ts|, if ts != [] && ts[0].rva != expected then 1 else 0
  {
    if ts == [] then [lib]
    else if ts[0].rva != expected then
      [lib] + Extend(ps, LoadedLibrary(lib.name, ts[0].rva % 0x1_0000_0000, []), ts[0].rva, ts)
    else Extend(ps, Seen(lib, [ImportOf(ts[0])]), After(ps, expected), ts[1..])
  }

  /** What is left to do for a run of which `lib` holds the beginning. */
  function RestOfRun(ps: nat, lib: LoadedLibrary, expected: nat, ts: seq<ImportThunk>): seq<LoadedLibrary> {
    var n := RunLength(ps, expected, ts);
    [Seen(lib, ImportsOf(ts[..n]))] + if n == |ts| then [] else LoadedRuns(ps, lib.name, ts[n].rva, ts[n..])
  }

  lemma RestAtGap(ps: nat, lib: LoadedLibrary, expected: nat, ts: seq<ImportThunk>)
    requires ts != [] && ts[0].rva != expected
    ensures RestOfRun(ps, lib, expected, ts)
         == [lib] + RestOfRun(ps, LoadedLibrary(lib.name, ts[0].rva % 0x1_0000_0000, []), ts[0].rva, ts)
  {
    assert ts[..0] == [] && ts[0..] == ts && Seen(lib, []) == lib;
    var m := RunLength(ps, ts[0].rva, ts);
    assert [] + ImportsOf(ts[..m]) == ImportsOf(ts[..m]);
  }

  lemma FirstImport(ts: seq<ImportThunk>)
    requires ts != []
    ensures ImportsOf(ts) == [ImportOf(ts[0])] + ImportsOf(ts[1..])
  {
  }

  lemma RestInRun(ps: nat, lib: LoadedLibrary, ts: seq<ImportThunk>)
    requires ts != []
    ensures RestOfRun(ps, lib, ts[0].rva, ts)
         == RestOfRun(ps, Seen(lib, [ImportOf(ts[0])]), After(ps, ts[0].rva), ts[1..])
  {
    hide ImportsOf, ImportOf, LoadedRuns;
    var n := RunLength(ps, ts[0].rva, ts);
    assert ts[..n][1..] == ts[1..][..n - 1] && ts[1..][n - 1..] == ts[n..];
    var tail := ImportsOf(ts[1..][..n - 1]);
    FirstImport(ts[..n]);
    assert Seen(Seen(lib, [ImportOf(ts[0])]), tail) == Seen(lib, [ImportOf(ts[0])] + tail);
  }

  lemma {:induction false} ExtendIsRuns(ps: nat, lib: LoadedLibrary, expected: nat, ts: seq<ImportThunk>)
    ensures Extend(ps, lib, expected, ts) == RestOfRun(ps, lib, expected, ts)
    decreases |ts|, if ts != [] && ts[0].rva != expected then 1 else 0
  {
    if ts == [] {
      assert Seen(lib, []) == lib && ts[..0] == [];
    } else if ts[0].rva != expected {
      ExtendIsRuns(ps, LoadedLibrary(lib.name, ts[0].rva % 0x1_0000_0000, []), ts[0].rva, ts);
      RestAtGap(ps, lib, expected, ts);
    } else {
      ExtendIsRuns(ps, Seen(lib, [ImportOf(ts[0])]), After(ps, expected), ts[1..]);
      RestInRun(ps, lib, ts);
    }
  }

  /** Mid-module state: all libraries but the last are complete. */
  ghost predicate Building(tb: Tables, libs: seq<LoadedLibrary>) {
    && tb.descriptors != [] && Describes(tb, libs) && AllClosed(tb, |tb.descriptors| - 1)
    && Open(tb.oft, tb.descriptors[|tb.descriptors| - 1].slot)
  }

  lemma OtherLibrariesStable(tb: Tables, libs: seq<LoadedLibrary>, x: seq<Byte>, y: seq<Slot>, n: nat)
    requires Describes(tb, libs) && n <= |libs| && AllClosed(tb, n)
    ensures forall k :: 0 <= k < n ==>
      Closed(tb.oft + y, tb.descriptors[k].slot) &&
      LibraryOf(Tables(tb.oft + y, tb.descriptors, tb.names + x), tb.descriptors[k]) == Some(libs[k])
  {
    forall k | 0 <= k < n
      ensures Closed(tb.oft + y, tb.descriptors[k].slot) &&
              LibraryOf(Tables(tb.oft + y, tb.descriptors, tb.names + x), tb.descriptors[k]) == Some(libs[k])
    {
      CStringStable(tb.names, x, tb.descriptors[k].nameOffset);
      ClosedRunStable(tb.names, x, tb.oft, y, tb.descriptors[k].slot);
    }
  }

  /** A null slot completes the module's last library. */
  lemma EndModuleWalk(tb: Tables, libs: seq<LoadedLibrary>)
    requires Building(tb, libs)
    ensures Holds(EndModule(tb), libs)
  {
    var n := |libs| - 1;
    var d := tb.descriptors[n];
    assert tb.names + [] == tb.names;
    OtherLibrariesStable(tb, libs, [], [Null], n);
    OpenRunGrows(tb.names, [], tb.oft, Null, d.slot);
    var s := libs[n].imports;
    assert s + [] == s;
    assert (tb.oft + [Null])[|tb.oft|].Null?;
  }

  lemma AddGapWalk(tb: Tables, libs: seq<LoadedLibrary>, rva: nat)
    requires Building(tb, libs)
    ensures Building(AddGap(tb, rva), libs + [LoadedLibrary(libs[|libs| - 1].name, rva % 0x1_0000_0000, [])])
  {
    EndModuleWalk(tb, libs);
    var r := AddGap(tb, rva);
    forall k | 0 <= k < |libs|
      ensures LibraryOf(r, r.descriptors[k]) == Some(libs[k]) && Closed(r.oft, r.descriptors[k].slot)
    {
      assert LibraryOf(EndModule(tb), tb.descriptors[k]) == Some(libs[k]);
    }
    assert LibraryOf(tb, tb.descriptors[|libs| - 1]) == Some(libs[|libs| - 1]);
  }

  function SeenLast(libs: seq<LoadedLibrary>, imports: seq<Import>): (r: seq<LoadedLibrary>)
    requires libs != []
    ensures |r| == |libs|
  {
    libs[..|libs| - 1] + [Seen(libs[|libs| - 1], imports)]
  }

  lemma LastLibraryGrows(tb: Tables, d: Descriptor, lib: LoadedLibrary, t: ImportThunk)
    requires LibraryOf(tb, d) == Some(lib) && Open(tb.oft, d.slot)
    ensures var r := AddImport(tb, t); LibraryOf(r, d) == Some(Seen(lib, [ImportOf(t)])) && Open(r.oft, d.slot)
  {
    var s, x := SlotOf(tb, t), NamesOf(t);
    CStringStable(tb.names, x, d.nameOffset);
    if s.Named? {
      NewSymbol(tb.names, t);
    }
    OpenRunGrows(tb.names, x, tb.oft, s, d.slot);
  }

  lemma AddImportWalk(tb: Tables, libs: seq<LoadedLibrary>, t: ImportThunk)
    requires Building(tb, libs)
    ensures Building(AddImport(tb, t), SeenLast(libs, [ImportOf(t)]))
  {
    var n := |libs| - 1;
    OtherLibrariesStable(tb, libs, NamesOf(t), [SlotOf(tb, t)], n);
    assert LibraryOf(tb, tb.descriptors[n]) == Some(libs[n]);
    LastLibraryGrows(tb, tb.descriptors[n], libs[n], t);
  }

  /** `libs` with `ts` added behind its last library. */
  function Extended(ps: nat, libs: seq<LoadedLibrary>, expected: nat, ts: seq<ImportThunk>): seq<LoadedLibrary>
    requires libs != []
  {
    libs[..|libs| - 1] + Extend(ps, libs[|libs| - 1], expected, ts)
  }

  lemma ExtendedAtGap(ps: nat, libs: seq<LoadedLibrary>, expected: nat, ts: seq<ImportThunk>)
    requires libs != [] && ts != [] && ts[0].rva != expected
    ensures Extended(ps, libs, expected, ts)
         == Extended(ps, libs + [LoadedLibrary(libs[|libs| - 1].name, ts[0].rva % 0x1_0000_0000, [])], ts[0].rva, ts)
  {
    var front, last := libs[..|libs| - 1], libs[|libs| - 1];
    var newLib := LoadedLibrary(last.name, ts[0].rva % 0x1_0000_0000, []);
    assert (libs + [newLib])[..|libs|] == libs == front + [last];
    var more := Extend(ps, newLib, ts[0].rva, ts);
    assert front + [last] + more == front + ([last] + more);
  }

  lemma AddThunksAtGap(ps: nat, tb: Tables, expected: nat, ts: seq<ImportThunk>)
    requires tb.descriptors != [] && ts != [] && ts[0].rva != expected
    ensures AddThunks(ps, tb, expected, ts) == AddThunks(ps, AddGap(tb, ts[0].rva), ts[0].rva, ts)
  {
  }

  lemma {:induction false} AddThunksWalk(ps: nat, tb: Tables, libs: seq<LoadedLibrary>, expected: nat,
                                         ts: seq<ImportThunk>)
    requires Building(tb, libs)
    ensures Holds(EndModule(AddThunks(ps, tb, expected, ts)), Extended(ps, libs, expected, ts))
    decreases |ts|, if ts != [] && ts[0].rva != expected then 1 else 0
  {
    if ts == [] {
      EndModuleWalk(tb, libs);
      assert libs[..|libs| - 1] + [libs[|libs| - 1]] == libs;
    } else if ts[0].rva != expected {
      AddGapWalk(tb, libs, ts[0].rva);
      var newLib := LoadedLibrary(libs[|libs| - 1].name, ts[0].rva % 0x1_0000_0000, []);
      AddThunksWalk(ps, AddGap(tb, ts[0].rva), libs + [newLib], ts[0].rva, ts);
      ExtendedAtGap(ps, libs, expected, ts);
      AddThunksAtGap(ps, tb, expected, ts);
    } else {
      AddImportWalk(tb, libs, ts[0]);
      var libs' := SeenLast(libs, [ImportOf(ts[0])]);
      AddThunksWalk(ps, AddImport(tb, ts[0]), libs', After(ps, ts[0].rva), ts[1..]);
      assert libs'[..|libs'| - 1] == libs[..|libs| - 1];
    }
  }

  function ModuleLibraries(ps: nat, m: ImportModuleThunk): seq<LoadedLibrary> {
    LoadedRuns(ps, m.moduleName, m.firstThunk, OM.Values(m.thunkMap))
  }

  lemma AddDescriptorWalk(tb: Tables, libs: seq<LoadedLibrary>, m: ImportModuleThunk)
    requires Holds(tb, libs)
    ensures Building(AddDescriptor(tb, m),
      libs + [LoadedLibrary(m.moduleName, m.firstThunk % 0x1_0000_0000, [])])
  {
    var x := m.moduleName + [0];
    var tb1 := AddDescriptor(tb, m);
    assert tb.names + m.moduleName + [0] == tb.names + x;
    assert tb.oft + [] == tb.oft;
    OtherLibrariesStable(tb, libs, x, [], |libs|);
    assert tb1.names == tb.names + m.moduleName + [0] + [];
    TerminatedString(tb.names, m.moduleName, []);
    forall k | 0 <= k < |libs|
      ensures LibraryOf(tb1, tb1.descriptors[k]) == Some(libs[k]) && Closed(tb1.oft, tb1.descriptors[k].slot)
    {
      assert LibraryOf(Tables(tb.oft + [], tb.descriptors, tb.names + x), tb.descriptors[k]) == Some(libs[k]);
    }
  }

  lemma AddModuleWalk(ps: nat, tb: Tables, libs: seq<LoadedLibrary>, m: ImportModuleThunk)
    requires Holds(tb, libs)
    ensures Holds(AddModule(ps, tb, m), libs + ModuleLibraries(ps, m))
  {
    var newLib := LoadedLibrary(m.moduleName, m.firstThunk % 0x1_0000_0000, []);
    var ts := OM.Values(m.thunkMap);
    AddDescriptorWalk(tb, libs, m);
    AddThunksWalk(ps, AddDescriptor(tb, m), libs + [newLib], m.firstThunk, ts);
    ExtendIsRuns(ps, newLib, m.firstThunk, ts);
    var n := RunLength(ps, m.firstThunk, ts);
    assert [] + ImportsOf(ts[..n]) == ImportsOf(ts[..n]);
    assert (libs + [newLib])[..|libs|] == libs;
  }

  lemma MapStep(ps: nat, libs: seq<LoadedLibrary>, ms: seq<ImportModuleThunk>)
    requires ms != []
    ensures libs + ModuleLibraries(ps, ms[0]) + MapImports(ps, ms[1..]) == libs + MapImports(ps, ms)
  {
  }

  /** The tables built for a module map hold, in order, one library per run of adjacent thunks. */
  lemma {:induction false} AddModulesWalk(ps: nat, tb: Tables, libs: seq<LoadedLibrary>, ms: seq<ImportModuleThunk>)
    requires Holds(tb, libs)
    ensures Holds(AddModules(ps, tb, ms), libs + MapImports(ps, ms))
    decreases |ms|
  {
    if ms == [] {
      assert libs + [] == libs;
    } else {
      var tb1 := AddModule(ps, tb, ms[0]);
      AddModuleWalk(ps, tb, libs, ms[0]);
      AddModulesWalk(ps, tb1, libs + ModuleLibraries(ps, ms[0]), ms[1..]);
      MapStep(ps, libs, ms);
      assert AddModules(ps, tb, ms) == AddModules(ps, tb1, ms[1..]);
    }
  }
}
