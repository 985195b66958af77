/** Reading an import address table into a two-level import map. */
module ApiReader {
  import opened Arith
  import opened Options
  import opened Bytes
  import opened Thunks
  import OM = OrderedMap
  import opened ModuleMaps
  import opened ImportLayout
  import IH = ImportsHandling

  datatype ApiInfo = ApiInfo(va: nat, hint: nat, ordinal: nat, name: CString, moduleId: nat, fileName: CString)

  /** What VirtualQueryEx tells of the run of pages that starts at the queried page. */
  datatype Region = Region(pages: nat, accessible: bool)

  const INVALID_POINTER: nat := QWORDS - 1

  // ------------------------------------------------------------------ slots

  /** A slot of the table that holds an address: its thunk, and its API's module if it has been found. */
  datatype Slot = Slot(thunk: ImportThunk, owner: Option<nat>)

  /** One slot, behind slots of which the last found API was of module `cur`. */
  function ParseStep(m: ModuleMap, cur: Option<nat>, s: Slot): ModuleMap {
    if s.owner.None? then
      if m == [] || !Questionable(LastName(m)) then Open(m, UNKNOWN, s.thunk) else Join(m, s.thunk)
    else if s.owner != cur || m == [] then Open(m, s.thunk.moduleName, s.thunk)
    else Join(m, s.thunk)
  }

  function Owner(slots: seq<Slot>): Option<nat> {
    if slots == [] then None
    else if slots[|slots| - 1].owner.Some? then slots[|slots| - 1].owner
    else Owner(slots[..|slots| - 1])
  }

  function Parse(slots: seq<Slot>): ModuleMap {
    if slots == [] then []
    else var n := |slots| - 1; ParseStep(Parse(slots[..n]), Owner(slots[..n]), slots[n])
  }

  function ThunksOf(slots: seq<Slot>): (r: ThunkMap)
    ensures |r| == |slots|
  {
    seq(|slots|, i requires 0 <= i < |slots| => OM.Entry(slots[i].thunk.rva, slots[i].thunk))
  }

  lemma ThunksJoin(a: seq<Slot>, b: seq<Slot>)
    ensures ThunksOf(a + b) == ThunksOf(a) + ThunksOf(b)
  {
  }

  ghost predicate Ascending(slots: seq<Slot>) {
    forall i, j :: 0 <= i < j < |slots| ==> slots[i].thunk.rva < slots[j].thunk.rva
  }

  /** The map of ascending slots holds every thunk exactly once, in order, under its own RVA, in groups
      that cover disjoint ascending intervals and are keyed by their least RVA. */
  lemma {:induction false} ParsePlaces(slots: seq<Slot>)
    requires Ascending(slots)
    ensures var m := Parse(slots);
      && WellFormed(m) && Flatten(m) == ThunksOf(slots) && (m == [] <==> slots == [])
      && (slots != [] ==> AllBelow(m, slots[|slots| - 1].thunk.rva + 1))
    decreases |slots|
  {
    hide ThunksOf, ParseStep, WellFormed, Flatten, AllBelow;
    if slots == [] {
      NoSlots();
    } else {
      var n := |slots| - 1;
      var m, s := Parse(slots[..n]), slots[n];
      ThunksSnoc(slots);
      ParsePlaces(slots[..n]);
      if n > 0 {
        IH.Loosen(m, slots[n - 1].thunk.rva + 1, s.thunk.rva);
      } else {
        IH.NoneBelow(s.thunk.rva);
      }
      StepPlaces(m, Owner(slots[..n]), s);
    }
  }

  lemma NoSlots()
    ensures WellFormed([]) && Flatten([]) == ThunksOf([])
  {
  }

  lemma ThunksSnoc(slots: seq<Slot>)
    requires slots != []
    ensures var n := |slots| - 1; ThunksOf(slots) == ThunksOf(slots[..n]) + OneThunk(slots[n].thunk)
  {
  }

  lemma StepPlaces(m: ModuleMap, cur: Option<nat>, s: Slot)
    requires WellFormed(m) && AllBelow(m, s.thunk.rva)
    ensures var r := ParseStep(m, cur, s);
      WellFormed(r) && AllBelow(r, s.thunk.rva + 1) && Flatten(r) == Flatten(m) + OneThunk(s.thunk) && r != []
  {
    hide WellFormed, AllBelow, Flatten, Open, Join;
    OpenFits(m, UNKNOWN, s.thunk);
    OpenFits(m, s.thunk.moduleName, s.thunk);
    if m != [] {
      JoinFits(m, s.thunk);
    }
    NotEmpty(m, s.thunk);
  }

  lemma NotEmpty(m: ModuleMap, t: ImportThunk)
    ensures forall name :: Open(m, name, t) != []
    ensures m != [] ==> Join(m, t) != []
  {
  }

  /** In a named group all thunks are found and of its module; all others are unknown groups. */
  ghost predicate WellNamed(m: ModuleMap) {
    forall i :: 0 <= i < |m| ==> NamedFor(m[i])
  }

  ghost predicate NamedFor(e: OM.Entry<ImportModuleThunk>) {
    e.value.moduleName == UNKNOWN ||
    (!Questionable(e.value.moduleName)
     && forall j :: 0 <= j < |e.value.thunkMap| ==>
          e.value.thunkMap[j].value.moduleName == e.value.moduleName && IH.Resolved(e.value.thunkMap[j].value))
  }

  /** Found thunks carry the file name of their module, the others the unknown name. */
  ghost predicate FileNames(slots: seq<Slot>, name: nat -> CString) {
    forall i :: 0 <= i < |slots| ==> FileName(slots[i], name)
  }

  ghost predicate FileName(s: Slot, name: nat -> CString) {
    if s.owner.Some? then s.thunk.moduleName == name(s.owner.value) && IH.Resolved(s.thunk)
    else s.thunk.moduleName == UNKNOWN
  }

  /** An unresolved thunk of a parsed table is in an unknown group, and a found one in a group named for
      its module or in an unknown one. */
  lemma {:induction false} ParseNames(slots: seq<Slot>, name: nat -> CString, i: nat, j: nat)
    requires FileNames(slots, name) && i < |Parse(slots)| && j < |Parse(slots)[i].value.thunkMap|
    ensures NameFits(Parse(slots)[i].value, Parse(slots)[i].value.thunkMap[j].value)
  {
    GroupsNamed(slots, name);
    assert NamedFor(Parse(slots)[i]);
  }

  ghost predicate NameFits(group: ImportModuleThunk, t: ImportThunk) {
    group.moduleName == UNKNOWN || (IH.Resolved(t) && group.moduleName == t.moduleName)
  }

  ghost predicate AllFit(m: ModuleMap) {
    forall i, j :: 0 <= i < |m| && 0 <= j < |m[i].value.thunkMap| ==>
      NameFits(m[i].value, m[i].value.thunkMap[j].value)
  }

  lemma {:induction false} GroupsNamed(slots: seq<Slot>, name: nat -> CString)
    requires FileNames(slots, name)
    ensures WellNamed(Parse(slots)) && LastNamed(Parse(slots), Owner(slots), name)
    ensures slots != [] && slots[|slots| - 1].owner.None? ==> Parse(slots) != [] && LastName(Parse(slots)) == UNKNOWN
    decreases |slots|
  {
    if slots != [] {
      var n := |slots| - 1;
      NoOwner(slots);
      hide ParseStep, WellNamed, NamedFor, LastNamed;
      GroupsNamed(slots[..n], name);
      assert FileName(slots[n], name);
      StepNames(Parse(slots[..n]), Owner(slots[..n]), slots[n], name);
    }
  }

  /** A named last group is of the module found last. */
  ghost predicate LastNamed(m: ModuleMap, cur: Option<nat>, name: nat -> CString) {
    m != [] && LastName(m) != UNKNOWN ==> !Questionable(LastName(m)) && cur.Some? && LastName(m) == name(cur.value)
  }

  lemma {:induction false} StepNames(m: ModuleMap, cur: Option<nat>, s: Slot, name: nat -> CString)
    requires WellNamed(m) && LastNamed(m, cur, name) && FileName(s, name)
    ensures var r := ParseStep(m, cur, s);
      && WellNamed(r) && LastNamed(r, if s.owner.Some? then s.owner else cur, name)
      && r != [] && (s.owner.None? ==> LastName(r) == UNKNOWN)
  {
    OpenNamed(m, UNKNOWN, s.thunk);
    OpenNamed(m, s.thunk.moduleName, s.thunk);
    if m != [] {
      JoinNamed(m, s.thunk);
    }
    hide WellNamed;
  }

  lemma {:induction false} OpenNamed(m: ModuleMap, name: CString, t: ImportThunk)
    requires WellNamed(m)
    ensures name == UNKNOWN || (t.moduleName == name && IH.Resolved(t)) ==> WellNamed(Open(m, name, t))
  {
    if name == UNKNOWN || (t.moduleName == name && IH.Resolved(t)) {
      var r := Open(m, name, t);
      assert NamedFor(r[|m|]);
      forall i | 0 <= i < |m| ensures NamedFor(r[i]) {
        assert r[i] == m[i];
      }
    }
  }

  lemma {:induction false} JoinNamed(m: ModuleMap, t: ImportThunk)
    requires WellNamed(m) && m != []
    ensures LastName(m) == UNKNOWN || (t.moduleName == LastName(m) && IH.Resolved(t)) ==> WellNamed(Join(m, t))
  {
    var r, n := Join(m, t), |m| - 1;
    if LastName(m) == UNKNOWN || (t.moduleName == LastName(m) && IH.Resolved(t)) {
      assert NamedFor(m[n]);
      assert NamedFor(r[n]);
      forall i | 0 <= i < n ensures NamedFor(r[i]) {
        assert r[i] == m[i];
      }
    }
  }

  // ------------------------------------------------------------------ found APIs in unknown groups

  /** A found API right behind an unresolved slot, of the module that was found last. */
  ghost predicate Absorbs(slots: seq<Slot>, i: nat) {
    i + 1 < |slots| && slots[i].owner.None? && slots[i + 1].owner.Some? && Owner(slots[..i + 1]) == slots[i + 1].owner
  }

  /** The found thunk is in a group named for its module. */
  ghost predicate Placed(e: OM.Entry<ImportModuleThunk>, t: ImportThunk) {
    IH.Resolved(t) ==> e.value.moduleName == t.moduleName
  }

  ghost predicate AllPlaced(m: ModuleMap) {
    forall i, j :: 0 <= i < |m| && 0 <= j < |m[i].value.thunkMap| ==> Placed(m[i], m[i].value.thunkMap[j].value)
  }

  /** Every found thunk of a parsed table is in a group named for its module, exactly if there is no such
      slot. */
  lemma {:induction false} PlacedIffNoneAbsorbed(slots: seq<Slot>, name: nat -> CString)
    requires FileNames(slots, name)
    ensures AllPlaced(Parse(slots)) <==> forall i :: 0 <= i < |slots| ==> !Absorbs(slots, i)
    ensures AllPlaced(Parse(slots)) && slots != [] && slots[|slots| - 1].owner.Some? ==>
      Parse(slots) != [] && LastName(Parse(slots)) == slots[|slots| - 1].thunk.moduleName
    decreases |slots|
  {
    hide AllPlaced, Parse, Placed, FileName;
    if slots == [] {
      NothingPlaced();
    } else {
      var n := |slots| - 1;
      var front, m := slots[..n], Parse(slots[..n]);
      PlacedIffNoneAbsorbed(front, name);
      GroupsNamed(front, name);
      AbsorbsInFront(slots);
      assert FileName(slots[n], name) && (n > 0 ==> FileName(slots[n - 1], name));
      NoOwner(front);
      assert !Absorbs(slots, n);
      StepPlacesNamed(slots, m, name);
    }
  }

  lemma NothingPlaced()
    ensures AllPlaced(Parse([]))
  {
  }

  lemma AbsorbsInFront(slots: seq<Slot>)
    requires slots != []
    ensures var n := |slots| - 1; forall i :: 0 <= i < n - 1 ==> (Absorbs(slots[..n], i) <==> Absorbs(slots, i))
  {
    hide Owner;
    var n := |slots| - 1;
    forall i | 0 <= i < n - 1 ensures Absorbs(slots[..n], i) <==> Absorbs(slots, i) {
      assert slots[..n][..i + 1] == slots[..i + 1];
    }
  }

  lemma StepPlacesNamed(slots: seq<Slot>, m: ModuleMap, name: nat -> CString)
    requires slots != [] && m == Parse(slots[..|slots| - 1]) && FileName(slots[|slots| - 1], name)
    requires |slots| > 1 ==> m != [] && FileName(slots[|slots| - 2], name)
    requires |slots| > 1 && slots[|slots| - 2].owner.None? ==> LastName(m) == UNKNOWN
    requires AllPlaced(m) && |slots| > 1 && slots[|slots| - 2].owner.Some? ==>
      LastName(m) == slots[|slots| - 2].thunk.moduleName
    requires |slots| == 1 ==> m == []
    ensures AllPlaced(Parse(slots)) <==> AllPlaced(m) && (|slots| > 1 ==> !Absorbs(slots, |slots| - 2))
    ensures AllPlaced(Parse(slots)) && slots[|slots| - 1].owner.Some? ==>
      Parse(slots) != [] && LastName(Parse(slots)) == slots[|slots| - 1].thunk.moduleName
  {
    hide AllPlaced;
    var n := |slots| - 1;
    var s := slots[n];
    assert n > 0 ==> slots[..n][n - 1] == slots[n - 1];
    OpenPlaced(m, UNKNOWN, s.thunk);
    OpenPlaced(m, s.thunk.moduleName, s.thunk);
    if m != [] {
      JoinPlaced(m, s.thunk);
    }
  }

  lemma OpenPlaced(m: ModuleMap, name: CString, t: ImportThunk)
    ensures AllPlaced(Open(m, name, t)) <==> AllPlaced(m) && (IH.Resolved(t) ==> name == t.moduleName)
  {
    var r := Open(m, name, t);
    assert forall i :: 0 <= i < |m| ==> r[i] == m[i];
    assert r[|m|].value.thunkMap[0].value == t;
    if AllPlaced(r) {
      assert Placed(r[|m|], t);
      forall i, j | 0 <= i < |m| && 0 <= j < |m[i].value.thunkMap| ensures Placed(m[i], m[i].value.thunkMap[j].value) {
        assert Placed(r[i], r[i].value.thunkMap[j].value);
      }
    }
  }

  lemma JoinPlaced(m: ModuleMap, t: ImportThunk)
    requires m != []
    ensures AllPlaced(Join(m, t)) <==> AllPlaced(m) && (IH.Resolved(t) ==> LastName(m) == t.moduleName)
  {
    var r, n := Join(m, t), |m| - 1;
    var k := |m[n].value.thunkMap|;
    assert forall i :: 0 <= i < n ==> r[i] == m[i];
    assert r[n].value.thunkMap[k].value == t && r[n].value.moduleName == LastName(m);
    assert forall j :: 0 <= j < k ==> r[n].value.thunkMap[j] == m[n].value.thunkMap[j];
    if AllPlaced(r) {
      assert Placed(r[n], t);
      forall i, j | 0 <= i < |m| && 0 <= j < |m[i].value.thunkMap| ensures Placed(m[i], m[i].value.thunkMap[j].value) {
        assert Placed(r[i], r[i].value.thunkMap[j].value);
      }
    }
    if AllPlaced(m) && Placed(r[n], t) {
      forall i, j | 0 <= i < |r| && 0 <= j < |r[i].value.thunkMap| ensures Placed(r[i], r[i].value.thunkMap[j].value) {
        if i < n || j < k {
          assert Placed(m[i], m[i].value.thunkMap[j].value);
        }
      }
    }
  }

  lemma ParseSnoc(slots: seq<Slot>, s: Slot)
    ensures Parse(slots + [s]) == ParseStep(Parse(slots), Owner(slots), s)
    ensures Owner(slots + [s]) == if s.owner.Some? then s.owner else Owner(slots)
  {
    assert (slots + [s])[..|slots|] == slots;
  }

  /** The re-canonicalising pass repairs this: behind it every thunk is in a group of its own module. */
  lemma ScanRepairs(slots: seq<Slot>, stack: nat -> nat)
    requires Ascending(slots)
    ensures var m := IH.Build(Flatten(Parse(slots)), stack);
      && IH.Canonical(m) && Flatten(m) == IH.Normalised(ThunksOf(slots), stack)
      && forall k :: 0 <= k < |slots| ==> InOwnModule(m, slots[k].thunk)
  {
    hide IH.Build, IH.Canonical, InOwnModule, Parse, ThunksOf, Ascending;
    hide Flatten, WellFormed, AllBelow, IH.Normalised, IH.InOrder, IH.SameName;
    ParsePlaces(slots);
    ThunksInOrder(slots);
    IH.BuildCanonical(ThunksOf(slots), stack);
    forall k | 0 <= k < |slots| ensures InOwnModule(IH.Build(ThunksOf(slots), stack), slots[k].thunk) {
      ToOwnModule(slots, stack, k);
    }
  }

  ghost predicate InOwnModule(m: ModuleMap, t: ImportThunk) {
    exists i, j :: 0 <= i < |m| && 0 <= j < |m[i].value.thunkMap|
      && m[i].value.thunkMap[j].key == t.rva && IH.SameName(m[i].value.moduleName, IH.GroupName(t))
  }

  lemma ThunksInOrder(slots: seq<Slot>)
    requires Ascending(slots)
    ensures IH.InOrder(ThunksOf(slots))
  {
  }

  lemma ToOwnModule(slots: seq<Slot>, stack: nat -> nat, k: nat)
    requires Ascending(slots) && k < |slots|
    ensures InOwnModule(IH.Build(ThunksOf(slots), stack), slots[k].thunk)
  {
    hide IH.Build, IH.SameName, IH.GroupName, IH.InOrder;
    ThunksInOrder(slots);
    var i, j := IH.InOwnModule(ThunksOf(slots), stack, k);
  }

  // ------------------------------------------------------------------ the address filter

  /** SetMinMaxApiAddress over the addresses of the APIs, in the order they are read. */
  function MinApi(addresses: seq<nat>): nat {
    if addresses == [] then INVALID_POINTER
    else
      var a, m := addresses[|addresses| - 1], MinApi(addresses[..|addresses| - 1]);
      if 0 < a < INVALID_POINTER && a < m then a - 1 else m
  }

  function MaxApi(addresses: seq<nat>): nat {
    if addresses == [] then 0
    else
      var a, m := addresses[|addresses| - 1], MaxApi(addresses[..|addresses| - 1]);
      if 0 < a < INVALID_POINTER && a > m then a + 1 else m
  }

  ghost predicate ValidAddresses(addresses: seq<nat>) {
    forall i :: 0 <= i < |addresses| ==> 0 < addresses[i] < INVALID_POINTER
  }

  /** The bounds are a step outside some address, and no address is beyond them. */
  lemma {:induction false} Bounds(addresses: seq<nat>)
    requires ValidAddresses(addresses)
    ensures forall i :: 0 <= i < |addresses| ==> MinApi(addresses) <= addresses[i] <= MaxApi(addresses)
    ensures addresses != [] ==> exists i :: 0 <= i < |addresses| && MinApi(addresses) + 1 == addresses[i]
    ensures addresses != [] ==> exists i :: 0 <= i < |addresses| && MaxApi(addresses) == addresses[i] + 1
    decreases |addresses|
  {
    if addresses != [] {
      var n := |addresses| - 1;
      var front := addresses[..n];
      Bounds(front);
      if n > 0 {
        var i :| 0 <= i < n && MinApi(front) + 1 == front[i];
        var j :| 0 <= j < n && MaxApi(front) == front[j] + 1;
        assert front[i] == addresses[i] && front[j] == addresses[j];
      }
      assert forall i :: 0 <= i < n ==> front[i] == addresses[i];
      assert addresses[n] == addresses[|addresses| - 1];
    }
  }

  function Least(addresses: seq<nat>): (lo: nat)
    requires addresses != []
    ensures lo in addresses && forall a :: a in addresses ==> lo <= a
  {
    var n := |addresses| - 1;
    assert addresses == addresses[..n] + [addresses[n]];
    if n == 0 || addresses[n] < Least(addresses[..n]) then addresses[n] else Least(addresses[..n])
  }

  /** What was read in front of the first read of a. */
  function InFrontOf(addresses: seq<nat>, a: nat): (r: seq<nat>)
    requires a in addresses
    ensures |r| < |addresses| && r == addresses[..|r|] && addresses[|r|] == a && a !in r
  {
    if addresses[0] == a then [] else [addresses[0]] + InFrontOf(addresses[1..], a)
  }

  /** The length of the run from the least address upwards in which every address is first read behind
      the next one: lo behind lo + 1, lo + 1 behind lo + 2, and so on. */
  function RunDown(addresses: seq<nat>): nat
    decreases |addresses|
  {
    if addresses == [] then 0
    else
      var lo := Least(addresses);
      var front := InFrontOf(addresses, lo);
      if lo + 1 in front then 1 + RunDown(front) else 0
  }

  /** The lower bound lets the least address through exactly if this run is of even length. */
  lemma {:induction false} LeastPasses(addresses: seq<nat>)
    requires ValidAddresses(addresses) && addresses != []
    ensures MinApi(addresses) == if RunDown(addresses) % 2 == 0 then Least(addresses) - 1 else Least(addresses)
    decreases |addresses|
  {
    hide Least, InFrontOf, RunDown, MinApi;
    var lo := Least(addresses);
    var front := InFrontOf(addresses, lo);
    RunStep(addresses);
    FrontAbove(addresses);
    if lo + 1 in front {
      LeastIs(front, lo + 1);
      LeastPasses(front);
    } else {
      Bounds(front);
    }
    NoBound(front);
    ReadNext(addresses, |front|);
    NoLower(addresses, |front| + 1);
  }

  lemma RunStep(addresses: seq<nat>)
    requires addresses != []
    ensures var front := InFrontOf(addresses, Least(addresses));
      RunDown(addresses) == if Least(addresses) + 1 in front then 1 + RunDown(front) else 0
  {
    hide Least, InFrontOf;
  }

  lemma FrontAbove(addresses: seq<nat>)
    requires ValidAddresses(addresses) && addresses != []
    ensures var front := InFrontOf(addresses, Least(addresses));
      ValidAddresses(front) && forall a :: a in front ==> Least(addresses) < a
    ensures forall i :: 0 <= i < |addresses| ==> Least(addresses) <= addresses[i]
  {
    hide Least, InFrontOf;
    var lo := Least(addresses);
    var front := InFrontOf(addresses, lo);
    forall i | 0 <= i < |front| ensures 0 < front[i] < INVALID_POINTER && lo < front[i] {
      assert front[i] == addresses[i] && addresses[i] in addresses && front[i] in front;
    }
    forall i | 0 <= i < |addresses| ensures lo <= addresses[i] {
      assert addresses[i] in addresses;
    }
  }

  lemma LeastIs(addresses: seq<nat>, lo: nat)
    requires lo in addresses && forall a :: a in addresses ==> lo <= a
    ensures Least(addresses) == lo
  {
    hide Least;
  }

  lemma NoBound(addresses: seq<nat>)
    ensures addresses == [] ==> MinApi(addresses) == INVALID_POINTER
  {
  }

  /** One more read. */
  lemma ReadNext(addresses: seq<nat>, k: nat)
    requires ValidAddresses(addresses) && k < |addresses|
    ensures MinApi(addresses[..k + 1])
      == if addresses[k] < MinApi(addresses[..k]) then addresses[k] - 1 else MinApi(addresses[..k])
  {
    assert addresses[..k + 1][..k] == addresses[..k];
  }

  /** Addresses from the bound upwards leave it as it is. */
  lemma {:induction false} NoLower(addresses: seq<nat>, k: nat)
    requires k <= |addresses| && forall i :: k <= i < |addresses| ==> MinApi(addresses[..k]) <= addresses[i]
    ensures MinApi(addresses) == MinApi(addresses[..k])
    decreases |addresses|
  {
    if k < |addresses| {
      var n := |addresses| - 1;
      assert addresses[..n][..k] == addresses[..k];
      NoLower(addresses[..n], k);
    } else {
      assert addresses[..k] == addresses;
    }
  }

  /** Addresses counted from the other end of the address space. */
  function Mirrored(addresses: seq<nat>): (r: seq<nat>)
    requires ValidAddresses(addresses)
    ensures ValidAddresses(r) && |r| == |addresses|
  {
    seq(|addresses|, i requires 0 <= i < |addresses| => INVALID_POINTER - addresses[i])
  }

  /** The upper bound is the lower bound of the mirrored addresses. */
  lemma {:induction false} MaxIsMirrored(addresses: seq<nat>)
    requires ValidAddresses(addresses)
    ensures MaxApi(addresses) == INVALID_POINTER - MinApi(Mirrored(addresses))
  {
    if addresses != [] {
      var n := |addresses| - 1;
      MaxIsMirrored(addresses[..n]);
      assert Mirrored(addresses)[..n] == Mirrored(addresses[..n]);
    }
  }

  /** The filter hides the least address exactly if the run down to it is odd, the greatest exactly if
      the run up to it is, and no other; so all pass exactly if both runs are even. */
  lemma FilterExact(addresses: seq<nat>, i: nat)
    requires ValidAddresses(addresses) && i < |addresses|
    ensures var a, far := addresses[i], Mirrored(addresses);
      && (MinApi(addresses) < a <==> RunDown(addresses) % 2 == 0 || a != Least(addresses))
      && (a < MaxApi(addresses) <==> RunDown(far) % 2 == 0 || INVALID_POINTER - a != Least(far))
  {
    hide RunDown;
    var far := Mirrored(addresses);
    LeastPasses(addresses);
    LeastPasses(far);
    MaxIsMirrored(addresses);
    assert addresses[i] in addresses && far[i] in far;
  }

  lemma AllPassExactly(addresses: seq<nat>)
    requires ValidAddresses(addresses)
    ensures (forall i :: 0 <= i < |addresses| ==> MinApi(addresses) < addresses[i] < MaxApi(addresses))
      <==> RunDown(addresses) % 2 == 0 && RunDown(Mirrored(addresses)) % 2 == 0
  {
    hide RunDown;
    var far := Mirrored(addresses);
    if addresses == [] {
      NoRun();
    } else {
      forall i | 0 <= i < |addresses|
        ensures MinApi(addresses) < addresses[i] <==> RunDown(addresses) % 2 == 0 || addresses[i] != Least(addresses)
        ensures addresses[i] < MaxApi(addresses) <==>
          RunDown(far) % 2 == 0 || INVALID_POINTER - addresses[i] != Least(far)
      {
        FilterExact(addresses, i);
      }
      var i :| 0 <= i < |addresses| && addresses[i] == Least(addresses);
      var j :| 0 <= j < |far| && far[j] == Least(far);
    }
  }

  lemma NoRun()
    ensures RunDown([]) == 0
  {
  }

  // ------------------------------------------------------------------ the reader

  class ApiReader {
    const ps: nat                           // pointer size of the target
    const imageBase: nat
    const apis: map<nat, ApiInfo>           // by address
    const minApi: nat
    const maxApi: nat
    const pageSize: nat
    const query: nat -> Option<Region>      // VirtualQueryEx, by page number; none if it fails
    const stack: nat -> nat                 // hints that are never set
    var moduleThunkMap: ModuleMap

    constructor (ps: nat, imageBase: nat, apis: map<nat, ApiInfo>, minApi: nat, maxApi: nat, pageSize: nat,
                 query: nat -> Option<Region>, stack: nat -> nat)
      ensures this.ps == ps && this.imageBase == imageBase && this.apis == apis
      ensures this.minApi == minApi && this.maxApi == maxApi
      ensures this.pageSize == pageSize && this.query == query && this.stack == stack && moduleThunkMap == []
    {
      this.ps, this.imageBase, this.apis, this.minApi, this.maxApi := ps, imageBase, apis, minApi, maxApi;
      this.pageSize, this.query, this.stack, moduleThunkMap := pageSize, query, stack, [];
    }

    /** Every page of a run has the run's protection. */
    ghost predicate Uniform() {
      forall p: nat, q: nat :: query(p).Some? && p <= q < p + query(p).value.pages ==> InvalidPage(q) == InvalidPage(p)
    }

    predicate InvalidPage(p: nat) { query(p).Some? && !query(p).value.accessible }

    /** IsInvalidMemoryForIAT: the direct query. */
    predicate InvalidMemory(address: nat)
      requires pageSize >= 1
    {
      address == 0 || address == INVALID_POINTER || InvalidPage(address / pageSize)
    }

    /** The API at an address, if the filter lets the address through. */
    function FindApi(address: nat): Option<ApiInfo> {
      if minApi < address < maxApi && address in apis then Some(apis[address]) else None
    }

    function FoundThunk(va: nat, api: ApiInfo): ImportThunk
      requires imageBase <= va
    {
      ImportThunk(api.fileName, api.name, va, va - imageBase, api.ordinal, api.va, api.hint, true, false)
    }

    function LostThunk(va: nat, address: nat): ImportThunk
      requires imageBase <= va
    {
      ImportThunk(UNKNOWN, UNKNOWN, va, va - imageBase, 0, address, stack(va - imageBase), false, true)
    }

    /** The slot at address va that holds `address`, by direct queries. */
    function SlotOf(va: nat, address: nat): seq<Slot>
      requires imageBase <= va && pageSize >= 1
    {
      if InvalidMemory(address) then []
      else
        match FindApi(address)
        case Some(api) => [Slot(FoundThunk(va, api), Some(api.moduleId))]
        case None => [Slot(LostThunk(va, address), None)]
    }

    /** The slots of the first n words of the table. */
    function SlotsOf(iat: nat, data: seq<Byte>, n: nat): seq<Slot>
      requires imageBase <= iat && pageSize >= 1 && Span(ps, n) <= |data|
    {
      if n == 0 then []
      else SlotsOf(iat, data, n - 1) + SlotOf(iat + Span(ps, n - 1), Read(data, Span(ps, n - 1), ps))
    }

    /** The number of whole words. */
    ghost predicate Words(data: seq<Byte>, n: nat) { Span(ps, n) <= |data| < Span(ps, n + 1) }

    lemma {:induction false} SlotsAscend(iat: nat, data: seq<Byte>, n: nat)
      requires imageBase <= iat && pageSize >= 1 && Span(ps, n) <= |data| && ps >= 1
      ensures var r := SlotsOf(iat, data, n);
        Ascending(r) && forall i :: 0 <= i < |r| ==> r[i].thunk.rva < iat - imageBase + Span(ps, n)
    {
      hide InvalidMemory, Read, FindApi;
      if n > 0 {
        SlotsAscend(iat, data, n - 1);
      }
    }

    // ---------------------------------------------------------------- the thunks of a table

    /** An address that can be in a table: its page is accessible, or cannot be queried. */
    ghost predicate Addresses(w: nat)
      requires pageSize >= 1
    {
      w != 0 && w != INVALID_POINTER && (query(w / pageSize).Some? ==> query(w / pageSize).value.accessible)
    }

    /** APIs are kept under their own addresses. */
    ghost predicate ApisKeyed() { forall a :: a in apis ==> apis[a].va == a }

    /** The thunk for the word w at address va: what is known of the API at w, if there is one that the filter
        lets through. */
    ghost predicate Describes(t: ImportThunk, va: nat, w: nat) {
      && t.va == va == imageBase + t.rva && t.apiAddress == w
      && (t.valid <==> minApi < w < maxApi && w in apis) && (t.suspect <==> !t.valid)
      && if t.valid then
           t.name == apis[w].name && t.ordinal == apis[w].ordinal && t.hint == apis[w].hint
           && t.moduleName == apis[w].fileName
         else t.name == t.moduleName == UNKNOWN && t.ordinal == 0
    }

    function WordAt(data: seq<Byte>, k: nat): nat
      requires Span(ps, k) + ps <= |data|
    {
      Read(data, Span(ps, k), ps)
    }

    /** The entry is for word k of the table. */
    ghost predicate IsFor(e: OM.Entry<ImportThunk>, iat: nat, data: seq<Byte>, k: nat)
      requires pageSize >= 1 && Span(ps, k) + ps <= |data|
    {
      && Addresses(WordAt(data, k)) && imageBase + e.key == iat + Span(ps, k) && e.key == e.value.rva
      && Describes(e.value, iat + Span(ps, k), WordAt(data, k))
    }

    /** Exactly the words that can be addresses have an entry, which describes them. */
    ghost predicate DescribesTable(m: ThunkMap, iat: nat, data: seq<Byte>, n: nat)
      requires pageSize >= 1 && Span(ps, n) <= |data|
    {
      && (forall k :: 0 <= k < n ==>
           Span(ps, k) + ps <= |data| && (Addresses(WordAt(data, k)) ==> HasEntry(m, iat, data, k)))
      && forall i :: 0 <= i < |m| ==> HasWord(m[i], iat, data, n)
    }

    ghost predicate HasEntry(m: ThunkMap, iat: nat, data: seq<Byte>, k: nat)
      requires pageSize >= 1 && Span(ps, k) + ps <= |data|
    {
      exists i :: 0 <= i < |m| && IsFor(m[i], iat, data, k)
    }

    ghost predicate HasWord(e: OM.Entry<ImportThunk>, iat: nat, data: seq<Byte>, n: nat)
      requires pageSize >= 1
    {
      exists k :: 0 <= k < n && Span(ps, k) + ps <= |data| && IsFor(e, iat, data, k)
    }

    lemma {:induction false} TableDescribed(iat: nat, data: seq<Byte>, n: nat)
      requires imageBase <= iat && pageSize >= 1 && Span(ps, n) <= |data| && ApisKeyed()
      ensures DescribesTable(ThunksOf(SlotsOf(iat, data, n)), iat, data, n)
    {
      hide DescribesTable, ThunksOf, SlotOf, ApisKeyed, Read;
      if n == 0 {
        NothingDescribed(iat, data);
      } else {
        TableDescribed(iat, data, n - 1);
        OneWord(iat, data, n - 1, SlotsOf(iat, data, n - 1));
      }
    }

    lemma NothingDescribed(iat: nat, data: seq<Byte>)
      requires pageSize >= 1
      ensures DescribesTable(ThunksOf([]), iat, data, 0)
    {
    }

    lemma OneWord(iat: nat, data: seq<Byte>, k: nat, slots: seq<Slot>)
      requires imageBase <= iat && pageSize >= 1 && Span(ps, k) + ps <= |data| && ApisKeyed()
      requires DescribesTable(ThunksOf(slots), iat, data, k)
      ensures DescribesTable(ThunksOf(slots + SlotOf(iat + Span(ps, k), WordAt(data, k))), iat, data, k + 1)
    {
      hide IsFor, Addresses, SlotOf, ApisKeyed, ThunksOf, WordAt;
      var more := SlotOf(iat + Span(ps, k), WordAt(data, k));
      var m, r := ThunksOf(slots), ThunksOf(slots + more);
      SlotFits(iat, data, k);
      ThunksJoin(slots, more);
      forall j | 0 <= j < k && Addresses(WordAt(data, j)) ensures HasEntry(r, iat, data, j) {
        var i :| 0 <= i < |m| && IsFor(m[i], iat, data, j);
        assert r[i] == m[i];
      }
      forall i | 0 <= i < |r| ensures HasWord(r[i], iat, data, k + 1) {
        if i < |m| {
          assert HasWord(m[i], iat, data, k) && r[i] == m[i];
        }
      }
      if Addresses(WordAt(data, k)) {
        assert r[|m|] == ThunksOf(more)[0];
      }
    }

    lemma SlotFits(iat: nat, data: seq<Byte>, k: nat)
      requires imageBase <= iat && pageSize >= 1 && Span(ps, k) + ps <= |data| && ApisKeyed()
      ensures var more := SlotOf(iat + Span(ps, k), WordAt(data, k));
        && |more| == (if Addresses(WordAt(data, k)) then 1 else 0)
        && (more != [] ==> IsFor(ThunksOf(more)[0], iat, data, k))
    {
    }

    /** Every API carries the file name of its module. */
    ghost predicate ApisNamed(name: nat -> CString) {
      forall a :: a in apis ==>
        apis[a].fileName == name(apis[a].moduleId) && apis[a].fileName != [] && !Questionable(apis[a].fileName)
    }

    /** The groups of a parsed table fit their thunks, and whether all found APIs are in their own ones shows
        in its slots. */
    lemma GroupsOfTable(iat: nat, data: seq<Byte>, n: nat, name: nat -> CString)
      requires imageBase <= iat && pageSize >= 1 && Span(ps, n) <= |data| && ApisNamed(name)
      ensures var slots := SlotsOf(iat, data, n);
        AllFit(Parse(slots)) && (AllPlaced(Parse(slots)) <==> forall i :: 0 <= i < |slots| ==> !Absorbs(slots, i))
    {
      hide ApisNamed, Parse, FileNames, NameFits, AllPlaced, Absorbs, SlotsOf;
      var slots := SlotsOf(iat, data, n);
      SlotsNamed(iat, data, n, name);
      PlacedIffNoneAbsorbed(slots, name);
      forall i, j | 0 <= i < |Parse(slots)| && 0 <= j < |Parse(slots)[i].value.thunkMap|
        ensures NameFits(Parse(slots)[i].value, Parse(slots)[i].value.thunkMap[j].value)
      {
        ParseNames(slots, name, i, j);
      }
    }

    lemma {:induction false} SlotsNamed(iat: nat, data: seq<Byte>, n: nat, name: nat -> CString)
      requires imageBase <= iat && pageSize >= 1 && Span(ps, n) <= |data| && ApisNamed(name)
      ensures FileNames(SlotsOf(iat, data, n), name)
    {
      hide InvalidMemory;
      if n > 0 {
        SlotsNamed(iat, data, n - 1, name);
        var s := SlotOf(iat + Span(ps, n - 1), Read(data, Span(ps, n - 1), ps));
        assert s != [] ==> FileName(s[0], name);
      }
    }

    // ---------------------------------------------------------------- caches

    /** What the page cache says is what a direct query says. */
    ghost predicate PagesRight(cache: map<nat, bool>) {
      forall p :: p in cache ==> cache[p] == InvalidPage(p)
    }

    ghost predicate ApisRight(cache: map<nat, Option<ApiInfo>>) {
      forall a :: a in cache ==> cache[a] == Lookup(a)
    }

    function Lookup(a: nat): Option<ApiInfo> { if a in apis then Some(apis[a]) else None }

    /** The query with a cache of whole runs of pages: the answer is the direct one. */
    method IsInvalidAddress(address: nat, cache: map<nat, bool>) returns (r: bool, after: map<nat, bool>)
      requires pageSize >= 1 && Uniform() && PagesRight(cache)
      ensures r == InvalidMemory(address) && PagesRight(after)
    {
      after := cache;
      if address == 0 || address == INVALID_POINTER {
        return true, cache;
      }
      var page: nat := address / pageSize;
      if page in cache {
        return cache[page], cache;
      }
      if query(page).None? {
        return false, cache[page := false];
      }
      var invalid := !query(page).value.accessible;
      for current := page to page + query(page).value.pages
        invariant PagesRight(after)
      {
        if current !in after {
          after := after[current := invalid];
        }
      }
      r := invalid;
    }

    /** The lookup with a cache of earlier results. */
    method GetApiInfo(address: nat, cache: map<nat, Option<ApiInfo>>)
      returns (r: Option<ApiInfo>, after: map<nat, Option<ApiInfo>>)
      requires ApisRight(cache)
      ensures r == Lookup(address) && ApisRight(after)
    {
      if address in cache {
        return cache[address], cache;
      }
      r := Lookup(address);
      after := cache[address := r];
    }

    // ---------------------------------------------------------------- building the map

    method AddFoundApiToModuleList(va: nat, api: ApiInfo, isNewModule: bool)
      requires imageBase <= va && AllBelow(moduleThunkMap, va - imageBase) && (isNewModule || moduleThunkMap != [])
      modifies this
      ensures var t := FoundThunk(va, api);
        moduleThunkMap
          == if isNewModule then Open(old(moduleThunkMap), api.fileName, t) else Join(old(moduleThunkMap), t)
    {
      ghost var m := moduleThunkMap;
      var t := FoundThunk(va, api);
      if isNewModule {
        moduleThunkMap := OM.Insert(moduleThunkMap, t.rva, ImportModuleThunk(api.fileName, t.rva, []));
        PutGroupOpens(m, api.fileName, t, false);
      } else {
        PutKnownJoins(m, t, false);
      }
      AddThunk(t);
    }

    /** Inserts a thunk into the group whose interval it is in. */
    method AddThunk(t: ImportThunk)
      modifies this
      ensures moduleThunkMap == PutKnown(old(moduleThunkMap), t, false)
    {
      var next := OM.UpperBound(moduleThunkMap, t.rva);
      if next > 0 {
        var e := moduleThunkMap[next - 1];
        var group := e.value.(thunkMap := OM.Insert(e.value.thunkMap, t.rva, t));
        moduleThunkMap := moduleThunkMap[next - 1 := OM.Entry(e.key, group)];
      }
    }

    method AddNotFoundApiToModuleList(va: nat, address: nat)
      requires imageBase <= va
      modifies this
      ensures moduleThunkMap == PutUnknown(old(moduleThunkMap), LostThunk(va, address), false)
    {
      var t := LostThunk(va, address);
      var next := OM.UpperBound(moduleThunkMap, t.rva);
      if next == 0 || (next == |moduleThunkMap| && !Questionable(moduleThunkMap[next - 1].value.moduleName)) {
        OM.Stored(moduleThunkMap, t.rva, ImportModuleThunk(UNKNOWN, t.rva, []), false);
        moduleThunkMap := OM.Insert(moduleThunkMap, t.rva, ImportModuleThunk(UNKNOWN, t.rva, []));
      }
      AddThunk(t);
    }

    /** Parses the table: with its two caches it builds the map that direct queries describe, which holds
        a thunk for every word that can be an address, under its own RVA, with what is known of the API there,
        in groups that fit; every found API is in its module's exactly if none stands right behind an unresolved
        slot with its module the last one found. */
    method ParseIAT(iat: nat, data: seq<Byte>, ghost name: nat -> CString) returns (ghost n: nat)
      requires imageBase <= iat && pageSize >= 1 && ps >= 1 && Uniform() && moduleThunkMap == []
      modifies this
      ensures Words(data, n) && moduleThunkMap == Parse(SlotsOf(iat, data, n))
      ensures WellFormed(moduleThunkMap) && Flatten(moduleThunkMap) == ThunksOf(SlotsOf(iat, data, n))
      ensures ApisKeyed() ==> DescribesTable(Flatten(moduleThunkMap), iat, data, n)
      ensures var slots := SlotsOf(iat, data, n);
        ApisNamed(name) ==>
          && AllFit(moduleThunkMap)
          && (AllPlaced(moduleThunkMap) <==> forall i :: 0 <= i < |slots| ==> !Absorbs(slots, i))
    {
      hide AllFit, AllPlaced, Absorbs, ApisNamed, ApisKeyed, DescribesTable;
      hide Uniform, WellFormed, Flatten, ThunksOf, Ascending, PagesRight, ApisRight, Parse, Owner;
      var owner: Option<nat>, offset: nat := None, 0;
      var pages: map<nat, bool>, lookups: map<nat, Option<ApiInfo>> := map[], map[];
      n := 0;
      Nothing();
      while offset + ps <= |data|
        invariant offset == Span(ps, n) <= |data| && PagesRight(pages) && ApisRight(lookups)
        invariant moduleThunkMap == Parse(SlotsOf(iat, data, n)) && owner == Owner(SlotsOf(iat, data, n))
      {
        owner, pages, lookups :=
          ParseWord(iat + offset, Read(data, offset, ps), owner, pages, lookups, SlotsOf(iat, data, n), iat, data, n);
        offset, n := offset + ps, n + 1;
      }
      SlotsAscend(iat, data, n);
      ParsePlaces(SlotsOf(iat, data, n));
      if ApisKeyed() {
        TableDescribed(iat, data, n);
      }
      if ApisNamed(name) {
        GroupsOfTable(iat, data, n, name);
      }
    }

    lemma {:induction false} Nothing()
      ensures PagesRight(map[]) && ApisRight(map[]) && Parse([]) == [] && Owner([]) == None
    {
    }

    /** One word of the table, at address va. */
    method ParseWord(va: nat, address: nat, owner: Option<nat>, pages: map<nat, bool>,
                     lookups: map<nat, Option<ApiInfo>>,
                     ghost slots: seq<Slot>, ghost iat: nat, ghost data: seq<Byte>, ghost n: nat)
      returns (owner': Option<nat>, pages': map<nat, bool>, lookups': map<nat, Option<ApiInfo>>)
      requires imageBase <= iat && pageSize >= 1 && ps >= 1 && Uniform() && PagesRight(pages) && ApisRight(lookups)
      requires Span(ps, n) <= |data| && slots == SlotsOf(iat, data, n) && va == iat + Span(ps, n)
      requires moduleThunkMap == Parse(slots) && owner == Owner(slots)
      modifies this
      ensures moduleThunkMap == Parse(slots + SlotOf(va, address)) && owner' == Owner(slots + SlotOf(va, address))
      ensures PagesRight(pages') && ApisRight(lookups')
    {
      hide Uniform, PagesRight, ApisRight, Parse, Owner, InvalidMemory, SlotsOf, Ascending, AllBelow;
      var invalid;
      invalid, pages' := IsInvalidAddress(address, pages);
      owner', lookups' := owner, lookups;
      if invalid {
        assert SlotOf(va, address) == [] && slots + [] == slots;
        return;
      }
      SlotsAscend(iat, data, n);
      NextSlot(slots, va - imageBase);
      var api := None;
      if minApi < address < maxApi {
        api, lookups' := GetApiInfo(address, lookups);
      }
      AddSlot(va, address, api, owner, slots);
      owner' := if api.Some? then Some(api.value.moduleId) else owner;
    }

    /** A slot whose address is valid. */
    method AddSlot(va: nat, address: nat, api: Option<ApiInfo>, owner: Option<nat>, ghost slots: seq<Slot>)
      requires imageBase <= va && pageSize >= 1 && !InvalidMemory(address) && api == FindApi(address)
      requires moduleThunkMap == Parse(slots) && owner == Owner(slots) && AllBelow(moduleThunkMap, va - imageBase)
      modifies this
      ensures moduleThunkMap == Parse(slots + SlotOf(va, address))
      ensures Owner(slots + SlotOf(va, address)) == if api.Some? then Some(api.value.moduleId) else owner
    {
      ghost var s := SlotOf(va, address)[0];
      ParseSnoc(slots, s);
      NoOwner(slots);
      if api.Some? {
        AddFoundApiToModuleList(va, api.value, owner != Some(api.value.moduleId));
      } else {
        PutUnknownFits(moduleThunkMap, LostThunk(va, address), false);
        AddNotFoundApiToModuleList(va, address);
      }
    }
  }

  /** Before the first group no API has been found. */
  lemma {:induction false} NoOwner(slots: seq<Slot>)
    ensures Parse(slots) == [] <==> slots == []
  {
    if slots != [] {
      var n := |slots| - 1;
      var r := ParseStep(Parse(slots[..n]), Owner(slots[..n]), slots[n]);
      assert r != [];
    }
  }

  lemma {:induction false} NextSlot(slots: seq<Slot>, rva: nat)
    requires Ascending(slots) && forall i :: 0 <= i < |slots| ==> slots[i].thunk.rva < rva
    ensures AllBelow(Parse(slots), rva)
  {
    ParsePlaces(slots);
    if slots != [] {
      IH.Loosen(Parse(slots), slots[|slots| - 1].thunk.rva + 1, rva);
    }
  }
}
