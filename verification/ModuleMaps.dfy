/** Two-level import maps that grow in ascending order of RVAs. */
module ModuleMaps {
  import opened Bytes
  import opened Thunks
  import OM = OrderedMap

  const UNKNOWN: CString := [63]    // a question mark

  type ThunkMap = OM.Map<ImportThunk>

  /** All thunks, group by group. */
  function Flatten(m: ModuleMap): ThunkMap {
    if m == [] then [] else Flatten(m[..|m| - 1]) + m[|m| - 1].value.thunkMap
  }

  /** A group has thunks, each stored under its own RVA, and is keyed by the first of them. */
  ghost predicate Group(e: OM.Entry<ImportModuleThunk>) {
    && e.key == e.value.firstThunk && e.value.thunkMap != [] && e.value.thunkMap[0].key == e.key
    && OM.Sorted(e.value.thunkMap)
    && forall j :: 0 <= j < |e.value.thunkMap| ==> e.value.thunkMap[j].key == e.value.thunkMap[j].value.rva
  }

  /** Groups cover disjoint, ascending intervals of RVAs. */
  ghost predicate WellFormed(m: ModuleMap) {
    && (forall i :: 0 <= i < |m| ==> Group(m[i]))
    && forall i, k :: 0 <= i < k < |m| ==> Below(m[i], m[k].key)
  }

  /** All RVAs of the group are below a bound. */
  ghost predicate Below(e: OM.Entry<ImportModuleThunk>, bound: nat) {
    e.key < bound && forall j :: 0 <= j < |e.value.thunkMap| ==> e.value.thunkMap[j].key < bound
  }

  ghost predicate AllBelow(m: ModuleMap, bound: nat) {
    forall i :: 0 <= i < |m| ==> Below(m[i], bound)
  }

  // ------------------------------------------------------------------ adding behind everything

  function NewGroup(name: CString, first: nat, thunks: ThunkMap): OM.Entry<ImportModuleThunk> {
    OM.Entry(first, ImportModuleThunk(name, first, thunks))
  }

  function OneThunk(t: ImportThunk): ThunkMap { [OM.Entry(t.rva, t)] }

  /** The thunk starts a group of that name. */
  function Open(m: ModuleMap, name: CString, t: ImportThunk): ModuleMap { m + [NewGroup(name, t.rva, OneThunk(t))] }

  function WithThunk(e: OM.Entry<ImportModuleThunk>, t: ImportThunk): OM.Entry<ImportModuleThunk> {
    OM.Entry(e.key, e.value.(thunkMap := e.value.thunkMap + OneThunk(t)))
  }

  /** The thunk joins the last group. */
  function Join(m: ModuleMap, t: ImportThunk): ModuleMap
    requires m != []
  {
    m[..|m| - 1] + [WithThunk(m[|m| - 1], t)]
  }

  function LastName(m: ModuleMap): CString
    requires m != []
  {
    m[|m| - 1].value.moduleName
  }

  lemma OpenFits(m: ModuleMap, name: CString, t: ImportThunk)
    requires WellFormed(m) && AllBelow(m, t.rva)
    ensures var r := Open(m, name, t);
      WellFormed(r) && AllBelow(r, t.rva + 1) && Flatten(r) == Flatten(m) + OneThunk(t)
  {
    var r := Open(m, name, t);
    assert r[..|m|] == m;
    assert Group(r[|m|]);
  }

  lemma JoinFits(m: ModuleMap, t: ImportThunk)
    requires WellFormed(m) && AllBelow(m, t.rva) && m != []
    ensures var r := Join(m, t);
      WellFormed(r) && AllBelow(r, t.rva + 1) && Flatten(r) == Flatten(m) + OneThunk(t)
  {
    var r, n := Join(m, t), |m| - 1;
    assert r[..n] == m[..n];
    assert Below(m[n], t.rva);
    assert Group(r[n]);
    forall i, k | 0 <= i < k < |r| ensures Below(r[i], r[k].key) {
      assert Below(m[i], m[k].key);
    }
    forall i | 0 <= i < n ensures Below(r[i], t.rva + 1) {
      assert Below(m[i], t.rva);
    }
  }

  lemma {:induction false} FlattenAppend(a: ModuleMap, b: ModuleMap)
    ensures Flatten(a + b) == Flatten(a) + Flatten(b)
    decreases |b|
  {
    if b == [] {
      assert a + b == a;
    } else {
      assert (a + b)[..|a + b| - 1] == a + b[..|b| - 1];
      FlattenAppend(a, b[..|b| - 1]);
    }
  }

  // ------------------------------------------------------------------ adding by key

  function PutThunk(m: ModuleMap, i: nat, t: ImportThunk, replace: bool): ModuleMap
    requires i < |m|
  {
    m[i := OM.Entry(m[i].key, m[i].value.(thunkMap := OM.Put(m[i].value.thunkMap, t.rva, t, replace)))]
  }

  /** FindModuleThunkByRva, then an insertion: nothing happens in front of all groups. */
  function PutKnown(m: ModuleMap, t: ImportThunk, replace: bool): ModuleMap {
    var next := OM.UpperBound(m, t.rva);
    if next == 0 then m else PutThunk(m, next - 1, t, replace)
  }

  predicate Questionable(name: CString) { name != [] && name[0] == 63 }

  function PutGroup(m: ModuleMap, name: CString, first: nat, replace: bool): ModuleMap {
    OM.Put(m, first, ImportModuleThunk(name, first, []), replace)
  }

  /** An unresolved thunk goes into the group whose interval it is in, but behind the last group into
      a new one unless that is unknown. */
  function PutUnknown(m: ModuleMap, t: ImportThunk, replace: bool): ModuleMap {
    var next := OM.UpperBound(m, t.rva);
    if next == 0 || (next == |m| && !Questionable(m[next - 1].value.moduleName)) then
      OM.Stored(m, t.rva, ImportModuleThunk(UNKNOWN, t.rva, []), replace);
      PutKnown(PutGroup(m, UNKNOWN, t.rva, replace), t, replace)
    else PutThunk(m, next - 1, t, replace)
  }

  /** Behind all groups, a known thunk joins the last group. */
  lemma PutKnownJoins(m: ModuleMap, t: ImportThunk, replace: bool)
    requires m != [] && AllBelow(m, t.rva)
    ensures PutKnown(m, t, replace) == Join(m, t)
  {
    var n := |m| - 1;
    assert forall i :: 0 <= i < |m| ==> Below(m[i], t.rva);
    OM.AppendLargest(m, t.rva, m[n].value);
    OM.AppendLargest(m[n].value.thunkMap, t.rva, t);
    assert PutThunk(m, n, t, replace) == Join(m, t);
  }

  /** Behind all groups, a group and then its first thunk open a new group. */
  lemma PutGroupOpens(m: ModuleMap, name: CString, t: ImportThunk, replace: bool)
    requires AllBelow(m, t.rva)
    ensures PutKnown(PutGroup(m, name, t.rva, replace), t, replace) == Open(m, name, t)
  {
    assert forall i :: 0 <= i < |m| ==> Below(m[i], t.rva);
    OM.AppendLargest(m, t.rva, ImportModuleThunk(name, t.rva, []));
    var r := m + [OM.Entry(t.rva, ImportModuleThunk(name, t.rva, []))];
    assert PutGroup(m, name, t.rva, replace) == r;
    assert OM.UpperBound(r, t.rva) == |r|;
    var none: ThunkMap := [];
    OM.AppendLargest(none, t.rva, t);
    assert OM.Put(none, t.rva, t, replace) == OneThunk(t);
    assert PutThunk(r, |m|, t, replace) == Open(m, name, t);
  }

  /** Behind all groups, an unresolved thunk joins an unknown last group, or opens one. */
  lemma PutUnknownFits(m: ModuleMap, t: ImportThunk, replace: bool)
    requires AllBelow(m, t.rva)
    ensures PutUnknown(m, t, replace)
      == if m == [] || !Questionable(LastName(m)) then Open(m, UNKNOWN, t) else Join(m, t)
  {
    assert forall i :: 0 <= i < |m| ==> Below(m[i], t.rva);
    if m != [] {
      OM.AppendLargest(m, t.rva, m[0].value);
      PutKnownJoins(m, t, replace);
    }
    PutGroupOpens(m, UNKNOWN, t, replace);
  }
}
