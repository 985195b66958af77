/** Re-canonicalising an import map after edits. */
module ImportsHandling {
  import opened Bytes
  import opened Thunks
  import OM = OrderedMap
  import opened ModuleMaps

  // ------------------------------------------------------------------ names

  /** Lower case for the letters A to Z, as _wcsicmp compares. */
  function Lower(b: Byte): Byte { if 65 <= b <= 90 then b + 32 else b }

  function Fold(name: seq<Byte>): seq<Byte> { seq(|name|, i requires 0 <= i < |name| => Lower(name[i])) }

  predicate SameName(a: seq<Byte>, b: seq<Byte>) { Fold(a) == Fold(b) }

  /** Names are the same exactly if they differ at most in the case of letters A to Z. */
  lemma SameNameExactly(a: seq<Byte>, b: seq<Byte>)
    ensures SameName(a, b) <==> |a| == |b| && forall i :: 0 <= i < |a| ==> SameLetter(a[i], b[i])
  {
    if SameName(a, b) {
      assert |Fold(a)| == |Fold(b)|;
      forall i | 0 <= i < |a| ensures SameLetter(a[i], b[i]) {
        assert Fold(a)[i] == Fold(b)[i];
      }
    }
  }

  ghost predicate SameLetter(x: Byte, y: Byte) {
    x == y || (65 <= x <= 90 && y == x + 32) || (65 <= y <= 90 && x == y + 32)
  }

  /** The thunk's API has been found. */
  predicate Resolved(t: ImportThunk) { t.moduleName != [] && !Questionable(t.moduleName) }

  function GroupName(t: ImportThunk): CString { if Resolved(t) then t.moduleName else UNKNOWN }

  /** What an unresolved thunk is reset to; its hint is whatever the stack held. */
  function Reset(t: ImportThunk, hint: nat): ImportThunk {
    ImportThunk(UNKNOWN, UNKNOWN, t.va, t.rva, 0, t.apiAddress, hint, false, true)
  }

  function Normal(t: ImportThunk, stack: nat -> nat): ImportThunk { if Resolved(t) then t else Reset(t, stack(t.rva)) }

  lemma ResolvedDiffers(t: ImportThunk, name: CString)
    requires Resolved(t) && (name == [] || Questionable(name))
    ensures !SameName(t.moduleName, name)
  {
    if name != [] && |t.moduleName| == |name| {
      assert Fold(t.moduleName)[0] == Lower(t.moduleName[0]) && Fold(name)[0] == 63;
    }
  }

  // ------------------------------------------------------------------ canonical maps

  /** Every group is a maximal run of thunks of one module: named as its first thunk's module, with no
      other module's thunks in it, and with a different module before it. Unresolved thunks count as
      one module, the question mark. */
  ghost predicate Canonical(m: ModuleMap) {
    && WellFormed(m)
    && (forall i :: 0 <= i < |m| ==> OwnGroup(m[i]))
    && forall i :: 0 < i < |m| ==> !SameName(m[i - 1].value.moduleName, m[i].value.moduleName)
  }

  ghost predicate OwnGroup(e: OM.Entry<ImportModuleThunk>) {
    && e.value.thunkMap != [] && e.value.moduleName == GroupName(e.value.thunkMap[0].value)
    && forall j :: 0 <= j < |e.value.thunkMap| ==> SameName(GroupName(e.value.thunkMap[j].value), e.value.moduleName)
  }

  // ------------------------------------------------------------------ the pass as a function of the flat list

  /** One thunk, after one whose module name was `prev`. */
  function Step(m: ModuleMap, prev: CString, t: ImportThunk, stack: nat -> nat): (r: ModuleMap)
    ensures m != [] || !Resolved(t) || prev == [] ==> r != []
  {
    if !Resolved(t) then
      if m == [] || !Questionable(LastName(m)) then Open(m, UNKNOWN, Normal(t, stack)) else Join(m, Normal(t, stack))
    else if !SameName(t.moduleName, prev) || m == [] then Open(m, t.moduleName, t)
    else Join(m, t)
  }

  function PrevName(ts: ThunkMap): CString { if ts == [] then [] else ts[|ts| - 1].value.moduleName }

  function Build(ts: ThunkMap, stack: nat -> nat): ModuleMap {
    if ts == [] then []
    else
      var n := |ts| - 1;
      Step(Build(ts[..n], stack), PrevName(ts[..n]), ts[n].value, stack)
  }

  function Normalised(ts: ThunkMap, stack: nat -> nat): (r: ThunkMap)
    ensures |r| == |ts|
  {
    seq(|ts|, i requires 0 <= i < |ts| => OM.Entry(ts[i].key, Normal(ts[i].value, stack)))
  }

  /** Thunks in ascending order, each stored under its own RVA. */
  ghost predicate InOrder(ts: ThunkMap) {
    OM.Sorted(ts) && forall i :: 0 <= i < |ts| ==> ts[i].key == ts[i].value.rva
  }

  /** The pass yields a canonical map of the same thunks, the unresolved ones reset. */
  lemma {:induction false} BuildCanonical(ts: ThunkMap, stack: nat -> nat)
    requires InOrder(ts)
    ensures var m := Build(ts, stack);
      && Canonical(m) && Flatten(m) == Normalised(ts, stack) && (m == [] <==> ts == [])
      && (ts != [] ==> SameName(LastName(m), GroupName(ts[|ts| - 1].value)) && AllBelow(m, ts[|ts| - 1].key + 1))
    decreases |ts|
  {
    hide Step, Canonical, AllBelow, SameName, Flatten, Normalised, Normal, InOrder, GroupName, OneThunk;
    if ts != [] {
      var n := |ts| - 1;
      var t, front := ts[n].value, Build(ts[..n], stack);
      InOrderFront(ts);
      NormalisedSnoc(ts, stack);
      BuildCanonical(ts[..n], stack);
      if n > 0 {
        Loosen(front, ts[n - 1].key + 1, t.rva);
        assert PrevName(ts[..n]) == ts[n - 1].value.moduleName;
      } else {
        NoneBelow(t.rva);
      }
      CanonicalStep(front, if n == 0 then t else ts[n - 1].value, PrevName(ts[..n]), t, stack);
    } else {
      NothingBuilt(stack);
    }
  }

  lemma NothingBuilt(stack: nat -> nat)
    ensures Build([], stack) == [] && Canonical([]) && Flatten([]) == [] == Normalised([], stack)
  {
  }

  lemma InOrderFront(ts: ThunkMap)
    requires InOrder(ts) && ts != []
    ensures var n := |ts| - 1;
      InOrder(ts[..n]) && ts[n].key == ts[n].value.rva && (n > 0 ==> ts[n - 1].key + 1 <= ts[n].key)
  {
  }

  lemma NormalisedSnoc(ts: ThunkMap, stack: nat -> nat)
    requires ts != [] && InOrder(ts)
    ensures var n := |ts| - 1;
      Normalised(ts, stack) == Normalised(ts[..n], stack) + OneThunk(Normal(ts[n].value, stack))
  {
  }

  lemma NoneBelow(bound: nat)
    ensures AllBelow([], bound)
  {
  }

  lemma Loosen(m: ModuleMap, a: nat, b: nat)
    requires AllBelow(m, a) && a <= b
    ensures AllBelow(m, b)
  {
    forall i | 0 <= i < |m| ensures Below(m[i], b) {
      assert Below(m[i], a);
    }
  }

  lemma CanonicalStep(m: ModuleMap, last: ImportThunk, prev: CString, t: ImportThunk, stack: nat -> nat)
    requires Canonical(m) && AllBelow(m, t.rva)
    requires if m == [] then prev == [] else prev == last.moduleName && SameName(LastName(m), GroupName(last))
    ensures var r := Step(m, prev, t, stack);
      && Canonical(r) && Flatten(r) == Flatten(m) + OneThunk(Normal(t, stack))
      && r != [] && SameName(LastName(r), GroupName(t)) && AllBelow(r, t.rva + 1)
  {
    var u := Normal(t, stack);
    assert GroupName(u) == GroupName(t);
    StepByName(m, last, prev, t, stack);
    if m == [] || !SameName(LastName(m), GroupName(t)) {
      OpenFits(m, GroupName(t), u);
      OpenCanonical(m, u);
    } else {
      JoinFits(m, u);
      JoinCanonical(m, u);
    }
  }

  /** The step opens a group exactly when the last group is of another module. */
  lemma StepByName(m: ModuleMap, last: ImportThunk, prev: CString, t: ImportThunk, stack: nat -> nat)
    requires if m == [] then prev == [] else prev == last.moduleName && SameName(LastName(m), GroupName(last))
    ensures Step(m, prev, t, stack) ==
      if m == [] || !SameName(LastName(m), GroupName(t)) then Open(m, GroupName(t), Normal(t, stack))
      else Join(m, Normal(t, stack))
  {
    if m != [] {
      OnlyUnknown(LastName(m));
      OnlyUnknown(GroupName(last));
      if Resolved(t) && !Resolved(last) {
        ResolvedDiffers(t, last.moduleName);
        ResolvedDiffers(t, UNKNOWN);
      } else if !Resolved(t) && Resolved(last) {
        ResolvedDiffers(last, UNKNOWN);
        assert !Questionable(LastName(m)) by { FirstLetter(LastName(m), last.moduleName); }
      } else if !Resolved(t) {
        FirstLetter(UNKNOWN, LastName(m));
      }
    }
  }

  lemma OnlyUnknown(name: CString)
    ensures SameName(name, UNKNOWN) <==> name == UNKNOWN
  {
    if SameName(name, UNKNOWN) {
      assert |Fold(name)| == |name| == 1;
      assert Fold(name)[0] == Fold(UNKNOWN)[0] == 63;
      assert name == UNKNOWN;
    }
  }

  lemma FirstLetter(a: CString, b: CString)
    requires SameName(a, b)
    ensures Questionable(a) <==> Questionable(b)
  {
    assert |Fold(a)| == |a| && |Fold(b)| == |b|;
    if a != [] {
      assert Fold(a)[0] == Lower(a[0]) && Fold(b)[0] == Lower(b[0]);
    }
  }

  lemma OpenCanonical(m: ModuleMap, u: ImportThunk)
    requires Canonical(m) && AllBelow(m, u.rva) && WellFormed(Open(m, GroupName(u), u))
    requires m == [] || !SameName(LastName(m), GroupName(u))
    ensures Canonical(Open(m, GroupName(u), u))
  {
    var r := Open(m, GroupName(u), u);
    assert OwnGroup(r[|m|]);
    forall i | 0 < i < |r| ensures !SameName(r[i - 1].value.moduleName, r[i].value.moduleName) {
      assert r[i - 1] == m[i - 1];
    }
  }

  lemma JoinCanonical(m: ModuleMap, u: ImportThunk)
    requires Canonical(m) && m != [] && WellFormed(Join(m, u)) && SameName(LastName(m), GroupName(u))
    ensures Canonical(Join(m, u))
  {
    var r, n := Join(m, u), |m| - 1;
    assert OwnGroup(m[n]);
    assert OwnGroup(r[n]);
    forall i | 0 < i < |r| ensures !SameName(r[i - 1].value.moduleName, r[i].value.moduleName) {
      assert r[i - 1].value.moduleName == m[i - 1].value.moduleName && r[i].value.moduleName == m[i].value.moduleName;
    }
  }

  /** The pass does not see which reset an unresolved thunk has already had. */
  lemma {:induction false} BuildAgain(ts: ThunkMap, first: nat -> nat, second: nat -> nat)
    ensures Build(Normalised(ts, first), second) == Build(ts, second)
    decreases |ts|
  {
    hide Step, Normal;
    if ts != [] {
      var n := |ts| - 1;
      var again := Normalised(ts, first);
      BuildAgain(ts[..n], first, second);
      assert again[..n] == Normalised(ts[..n], first);
      StepAgain(Build(ts[..n], second), if n == 0 then ts[n].value else ts[n - 1].value,
                n == 0, ts[n].value, first, second);
    }
  }

  lemma StepAgain(m: ModuleMap, last: ImportThunk, none: bool, t: ImportThunk, first: nat -> nat, second: nat -> nat)
    ensures Step(m, if none then [] else Normal(last, first).moduleName, Normal(t, first), second)
         == Step(m, if none then [] else last.moduleName, t, second)
  {
    if Resolved(t) && !none && !Resolved(last) {
      ResolvedDiffers(t, last.moduleName);
      ResolvedDiffers(t, UNKNOWN);
    }
  }

  // ------------------------------------------------------------------ fixed points

  /** Unresolved thunks are already reset. */
  ghost predicate Settled(ts: ThunkMap, stack: nat -> nat) {
    forall i :: 0 <= i < |ts| ==> Normal(ts[i].value, stack) == ts[i].value
  }

  /** A canonical map is what the pass makes of its thunks. */
  lemma {:induction false} RebuildCanonical(m: ModuleMap, stack: nat -> nat)
    requires Canonical(m) && Settled(Flatten(m), stack)
    ensures Build(Flatten(m), stack) == m
    decreases |m|
  {
    if m != [] {
      var n := |m| - 1;
      CanonicalFront(m);
      SettledParts(Flatten(m[..n]), m[n].value.thunkMap, stack);
      hide Canonical, Settled, Build, RunOf;
      RebuildCanonical(m[..n], stack);
      RebuildLast(m[..n], m[n], stack);
      assert m == m[..n] + [m[n]];
    }
  }

  lemma RebuildLast(front: ModuleMap, e: OM.Entry<ImportModuleThunk>, stack: nat -> nat)
    requires Canonical(front) && Build(Flatten(front), stack) == front
    requires RunOf(e.value.moduleName, e.key, e.value.thunkMap)
    requires e.key == e.value.firstThunk && Settled(e.value.thunkMap, stack)
    requires front != [] ==> !SameName(LastName(front), e.value.moduleName)
    ensures Build(Flatten(front) + e.value.thunkMap, stack) == front + [e]
  {
    hide Canonical, Settled, SameName, GroupName, Build;
    var g := e.value.thunkMap;
    LastOfCanonical(front);
    RunNotEmpty(e.value.moduleName, e.key, g);
    RebuildGroup(front, Flatten(front), e.value.moduleName, e.key, g, |g|, stack);
    assert g[..|g|] == g;
    assert NewGroup(e.value.moduleName, e.key, g) == e;
  }

  lemma RunNotEmpty(name: CString, first: nat, g: ThunkMap)
    requires RunOf(name, first, g)
    ensures |g| >= 1
  {
  }

  lemma SettledParts(f: ThunkMap, g: ThunkMap, stack: nat -> nat)
    requires Settled(f + g, stack)
    ensures Settled(f, stack) && Settled(g, stack)
  {
    assert forall i :: 0 <= i < |f| ==> (f + g)[i] == f[i];
    assert forall i :: 0 <= i < |g| ==> (f + g)[|f| + i] == g[i];
  }

  lemma CanonicalFront(m: ModuleMap)
    requires Canonical(m) && m != []
    ensures var n := |m| - 1;
      && Canonical(m[..n]) && RunOf(m[n].value.moduleName, m[n].key, m[n].value.thunkMap)
      && m[n].key == m[n].value.firstThunk
      && (n > 0 ==> !SameName(LastName(m[..n]), m[n].value.moduleName))
  {
    var n := |m| - 1;
    assert Group(m[n]) && OwnGroup(m[n]);
    assert n > 0 ==> m[..n][n - 1] == m[n - 1];
  }

  /** A run of thunks of one module, named as the first one's. */
  ghost predicate RunOf(name: CString, first: nat, g: ThunkMap) {
    && g != [] && name == GroupName(g[0].value) && first == g[0].value.rva
    && forall j :: 0 <= j < |g| ==> g[j].key == g[j].value.rva && SameName(GroupName(g[j].value), name)
  }

  lemma {:induction false} RebuildGroup(front: ModuleMap, f: ThunkMap, name: CString, first: nat, g: ThunkMap, j: nat,
                                        stack: nat -> nat)
    requires Build(f, stack) == front && (front == [] <==> f == [])
    requires RunOf(name, first, g) && Settled(g, stack) && 1 <= j <= |g|
    requires front != [] ==> SameName(LastName(front), GroupName(f[|f| - 1].value)) && !SameName(LastName(front), name)
    ensures Build(f + g[..j], stack) == front + [NewGroup(name, first, g[..j])]
    decreases j
  {
    hide Build, Step, SameName, GroupName, Normal;
    var t := g[j - 1].value;
    if j == 1 {
      assert f + g[..1] == f + [g[0]] && g[..1] == OneThunk(t);
      BuildSnoc(f, g[0], stack);
      StepByName(front, if f == [] then t else f[|f| - 1].value, PrevName(f), t, stack);
    } else {
      assert f + g[..j] == f + g[..j - 1] + [g[j - 1]] && f + g[..j - 1] == f + g[..j - 2] + [g[j - 2]];
      RebuildGroup(front, f, name, first, g, j - 1, stack);
      BuildSnoc(f + g[..j - 1], g[j - 1], stack);
      BuildSnoc(f + g[..j - 2], g[j - 2], stack);
      JoinsRun(front, name, first, g, j, stack);
    }
  }

  lemma JoinsRun(front: ModuleMap, name: CString, first: nat, g: ThunkMap, j: nat, stack: nat -> nat)
    requires RunOf(name, first, g) && Settled(g, stack) && 2 <= j <= |g|
    ensures Step(front + [NewGroup(name, first, g[..j - 1])], g[j - 2].value.moduleName, g[j - 1].value, stack)
         == front + [NewGroup(name, first, g[..j])]
  {
    hide Step, Fold, GroupName;
    var before, t := front + [NewGroup(name, first, g[..j - 1])], g[j - 1].value;
    StepByName(before, g[j - 2].value, g[j - 2].value.moduleName, t, stack);
    assert g[..j - 1] + OneThunk(t) == g[..j];
    assert before[..|front|] == front;
  }

  lemma LastOfCanonical(m: ModuleMap)
    requires Canonical(m)
    ensures m == [] <==> Flatten(m) == []
    ensures m != [] ==> SameName(LastName(m), GroupName(Flatten(m)[|Flatten(m)| - 1].value))
  {
    if m != [] {
      var g := m[|m| - 1].value.thunkMap;
      assert OwnGroup(m[|m| - 1]);
      assert Flatten(m)[|Flatten(m)| - 1] == g[|g| - 1];
    }
  }

  /** The maps the pass leaves alone are the canonical ones with reset unresolved thunks. */
  lemma FixedExactlyCanonical(m: ModuleMap, stack: nat -> nat)
    requires InOrder(Flatten(m))
    ensures Build(Flatten(m), stack) == m <==> Canonical(m) && Settled(Flatten(m), stack)
  {
    if Canonical(m) && Settled(Flatten(m), stack) {
      RebuildCanonical(m, stack);
    }
    BuildCanonical(Flatten(m), stack);
  }

  // ------------------------------------------------------------------ the class

  class ImportsHandling {
    var moduleMap: ModuleMap
    var moduleMapNew: ModuleMap

    constructor (moduleMap: ModuleMap)
      ensures this.moduleMap == moduleMap && moduleMapNew == []
    {
      this.moduleMap, moduleMapNew := moduleMap, [];
    }

    method AddModuleToModuleList(moduleName: CString, firstThunk: nat)
      modifies this`moduleMapNew
      ensures moduleMapNew == PutGroup(old(moduleMapNew), moduleName, firstThunk, true)
    {
      moduleMapNew := OM.Set(moduleMapNew, firstThunk, ImportModuleThunk(moduleName, firstThunk, []));
    }

    /** Stores a thunk in the i-th group. */
    method AddThunk(i: nat, t: ImportThunk)
      requires i < |moduleMapNew|
      modifies this`moduleMapNew
      ensures moduleMapNew == PutThunk(old(moduleMapNew), i, t, true)
    {
      var group := moduleMapNew[i].value;
      group := group.(thunkMap := OM.Set(group.thunkMap, t.rva, t));
      moduleMapNew := moduleMapNew[i := OM.Entry(moduleMapNew[i].key, group)];
    }

    method AddNotFoundApiToModuleList(t: ImportThunk, hint: nat)
      modifies this`moduleMapNew
      ensures moduleMapNew == PutUnknown(old(moduleMapNew), Reset(t, hint), true)
    {
      var next := OM.UpperBound(moduleMapNew, t.rva);
      if next == 0 || (next == |moduleMapNew| && !Questionable(moduleMapNew[next - 1].value.moduleName)) {
        OM.Stored(moduleMapNew, t.rva, ImportModuleThunk(UNKNOWN, t.rva, []), true);
        AddModuleToModuleList(UNKNOWN, t.rva);
        next := OM.UpperBound(moduleMapNew, t.rva);
      }
      AddThunk(next - 1, Reset(t, hint));
    }

    method AddFunctionToModuleList(t: ImportThunk) returns (added: bool)
      modifies this`moduleMapNew
      ensures added <==> OM.UpperBound(old(moduleMapNew), t.rva) > 0
      ensures moduleMapNew == PutKnown(old(moduleMapNew), t, true)
    {
      var next := OM.UpperBound(moduleMapNew, t.rva);
      if next == 0 {
        return false;
      }
      AddThunk(next - 1, t);
      return true;
    }

    /** One round of the inner loop, behind all groups made so far. */
    method ScanThunk(t: ImportThunk, prevModuleName: CString, stack: nat -> nat)
      requires AllBelow(moduleMapNew, t.rva) && (moduleMapNew == [] ==> prevModuleName == [])
      modifies this`moduleMapNew
      ensures moduleMapNew == Step(old(moduleMapNew), prevModuleName, t, stack)
    {
      ghost var m := moduleMapNew;
      if !Resolved(t) {
        AddNotFoundApiToModuleList(t, stack(t.rva));
        PutUnknownFits(m, Reset(t, stack(t.rva)), true);
      } else {
        if !SameName(t.moduleName, prevModuleName) {
          AddModuleToModuleList(t.moduleName, t.rva);
          PutGroupOpens(m, t.moduleName, t, true);
        } else {
          NotBoth(t, prevModuleName);
          PutKnownJoins(m, t, true);
        }
        var _ := AddFunctionToModuleList(t);
      }
    }

    /** Makes the map canonical: the same thunks, each known one in a group of its own module. */
    method ScanAndFixModuleList(stack: nat -> nat)
      requires moduleMapNew == [] && InOrder(Flatten(moduleMap))
      requires forall i :: 0 <= i < |moduleMap| ==> moduleMap[i].value.thunkMap != []
      modifies this
      ensures moduleMap == Build(Flatten(old(moduleMap)), stack) && moduleMapNew == []
      ensures Canonical(moduleMap) && Flatten(moduleMap) == Normalised(Flatten(old(moduleMap)), stack)
    {
      hide Step, Canonical, Normalised, Build, PrevName, Flatten, InOrder, AllBelow;
      ghost var all := Flatten(moduleMap);
      BuildCanonical(all, stack);
      EmptyPrev();
      var prevModuleName: CString := [];
      for i := 0 to |moduleMap|
        invariant moduleMap == old(moduleMap)
        invariant moduleMapNew == Build(Flatten(moduleMap[..i]), stack)
        invariant prevModuleName == PrevName(Flatten(moduleMap[..i]))
      {
        ghost var done := Flatten(moduleMap[..i]);
        ghost var rest := FlatParts(moduleMap, i);
        var thunks := moduleMap[i].value.thunkMap;
        assert done + thunks[..0] == done;
        for j := 0 to |thunks|
          invariant moduleMap == old(moduleMap)
          invariant moduleMapNew == Build(done + thunks[..j], stack) && prevModuleName == PrevName(done + thunks[..j])
        {
          Extend(all, done, thunks, rest, j, stack);
          ScanThunk(thunks[j].value, prevModuleName, stack);
          prevModuleName := thunks[j].value.moduleName;
        }
        assert thunks[..|thunks|] == thunks;
      }
      assert moduleMap[..|moduleMap|] == moduleMap;
      moduleMap, moduleMapNew := moduleMapNew, [];
    }
  }

  lemma NotBoth(t: ImportThunk, prev: CString)
    requires Resolved(t) && SameName(t.moduleName, prev)
    ensures prev != []
  {
    if prev == [] {
      ResolvedDiffers(t, prev);
    }
  }

  /** The flat list around the i-th group. */
  lemma FlatParts(m: ModuleMap, i: nat) returns (rest: ThunkMap)
    requires i < |m|
    ensures Flatten(m) == Flatten(m[..i]) + m[i].value.thunkMap + rest
    ensures Flatten(m[..i + 1]) == Flatten(m[..i]) + m[i].value.thunkMap
  {
    rest := Flatten(m[i + 1..]);
    assert m[..i + 1][..i] == m[..i];
    FlattenAppend(m[..i + 1], m[i + 1..]);
    assert m[..i + 1] + m[i + 1..] == m;
  }

  /** The next thunk of an ordered list lies behind all groups made so far. */
  lemma Extend(all: ThunkMap, done: ThunkMap, thunks: ThunkMap, rest: ThunkMap, j: nat, stack: nat -> nat)
    requires InOrder(all) && all == done + thunks + rest && j < |thunks|
    ensures var ts, t := done + thunks[..j], thunks[j].value;
      && AllBelow(Build(ts, stack), t.rva) && (Build(ts, stack) == [] ==> PrevName(ts) == [])
      && Build(done + thunks[..j + 1], stack) == Step(Build(ts, stack), PrevName(ts), t, stack)
      && PrevName(done + thunks[..j + 1]) == t.moduleName
  {
    hide Build, Step, PrevName, InOrder, AllBelow, Canonical, SameName, Flatten, Normalised;
    var ts, next := done + thunks[..j], done + thunks[..j + 1];
    assert next == ts + [thunks[j]] && all[..|ts|] == ts && all[|ts|] == thunks[j];
    OrderedPart(all, |ts|);
    BuildCanonical(ts, stack);
    BuildSnoc(ts, thunks[j], stack);
    EmptyPrev();
    if ts != [] {
      assert ts[|ts| - 1] == all[|ts| - 1];
      Loosen(Build(ts, stack), ts[|ts| - 1].key + 1, thunks[j].value.rva);
    } else {
      NoneBelow(thunks[j].value.rva);
    }
  }

  lemma OrderedPart(all: ThunkMap, n: nat)
    requires InOrder(all) && n < |all|
    ensures InOrder(all[..n]) && all[n].key == all[n].value.rva && (n > 0 ==> all[n - 1].key + 1 <= all[n].key)
  {
  }

  lemma BuildSnoc(ts: ThunkMap, e: OM.Entry<ImportThunk>, stack: nat -> nat)
    ensures Build(ts + [e], stack) == Step(Build(ts, stack), PrevName(ts), e.value, stack)
    ensures PrevName(ts + [e]) == e.value.moduleName
  {
    hide Step;
    assert (ts + [e])[..|ts|] == ts;
  }

  lemma EmptyPrev()
    ensures PrevName([]) == [] && Flatten([]) == [] && forall stack :: Build([], stack) == []
  {
  }

  /** Running the pass a second time changes nothing but the hints of unresolved thunks. */
  lemma ScanTwice(ts: ThunkMap, first: nat -> nat, second: nat -> nat)
    requires InOrder(ts)
    ensures Build(Flatten(Build(ts, first)), second) == Build(ts, second)
  {
    BuildCanonical(ts, first);
    BuildAgain(ts, first, second);
  }

  /** What the pass keeps of a thunk: all of a resolved one, and the places of an unresolved one, of which
      nothing else is known behind it. */
  ghost predicate Carried(t: ImportThunk, u: ImportThunk) {
    && u.va == t.va && u.rva == t.rva && u.apiAddress == t.apiAddress
    && if t.moduleName != [] && t.moduleName[0] != 63 then u == t
       else u.name == u.moduleName == [63] && u.ordinal == 0 && !u.valid && u.suspect
  }

  /** No thunk is lost, and each is carried over under its own key. */
  lemma PassCarries(ts: ThunkMap, stack: nat -> nat, k: nat)
    requires InOrder(ts) && k < |ts|
    ensures var us := Flatten(Build(ts, stack));
      |us| == |ts| && us[k].key == ts[k].key && Carried(ts[k].value, us[k].value)
  {
    hide Build, Canonical, Flatten;
    BuildCanonical(ts, stack);
  }

  /** Every thunk of the list is in the map of the pass, in a group of its own module, or, if it is not
      resolved, reset in an unknown group. */
  lemma InOwnModule(ts: ThunkMap, stack: nat -> nat, k: nat) returns (i: nat, j: nat)
    requires InOrder(ts) && k < |ts|
    ensures var m := Build(ts, stack);
      && i < |m| && j < |m[i].value.thunkMap|
      && m[i].value.thunkMap[j] == OM.Entry(ts[k].key, Normal(ts[k].value, stack))
      && SameName(m[i].value.moduleName, GroupName(ts[k].value))
  {
    hide Build, SameName, InOrder;
    BuildCanonical(ts, stack);
    i, j := InFlatten(Build(ts, stack), k);
    assert OwnGroup(Build(ts, stack)[i]);
    SameBack(GroupName(ts[k].value), Build(ts, stack)[i].value.moduleName);
  }

  lemma SameBack(a: seq<Byte>, b: seq<Byte>)
    ensures SameName(a, b) ==> SameName(b, a)
  {
  }

  /** Where the k-th thunk of a map stands. */
  lemma {:induction false} InFlatten(m: ModuleMap, k: nat) returns (i: nat, j: nat)
    requires k < |Flatten(m)|
    ensures i < |m| && j < |m[i].value.thunkMap| && m[i].value.thunkMap[j] == Flatten(m)[k]
  {
    var n := |m| - 1;
    if k < |Flatten(m[..n])| {
      i, j := InFlatten(m[..n], k);
    } else {
      i, j := n, k - |Flatten(m[..n])|;
    }
  }
}
