/** The allocator of trampolines: regions of 64 KB, cut into trampolines that a free list links
    through their `remain` fields. */
module Trampolines {
  import opened TrampolineLayout

  const REGION_SIZE: nat := 0x10000
  const HEADER_SIZE: nat := 12
  const PER_REGION: nat := REGION_SIZE / TRAMPOLINE_SIZE - 1

  /** What memset leaves in the field that links free trampolines. */
  const FILLED: nat := 0xCCCC_CCCC

  /** The address of trampoline i of a region. */
  function TrampolineAt(base: nat, i: nat): nat { base + TRAMPOLINE_SIZE * (i + 1) }

  class Region {
    const base: nat
    const remain: array<nat>       // the remain field of each trampoline
    var next: Region?
    var free: nat                  // address of the first free trampoline, 0 for none
    ghost var firstFree: nat       // trampolines from 2 up to this one have been handed out

    /** The free list runs upwards to the last trampoline; the first two are never on it. */
    ghost predicate Valid()
      reads this`free, this`firstFree, remain
    {
      && base > 0 && remain.Length == PER_REGION && 2 <= firstFree <= PER_REGION
      && free == (if firstFree == PER_REGION then 0 else TrampolineAt(base, firstFree))
      && forall i :: firstFree <= i < PER_REGION ==>
           remain[i] == if i == PER_REGION - 1 then 0 else TrampolineAt(base, i + 1)
    }

    predicate Inside(address: nat) { base <= address < base + REGION_SIZE }

    /** The i-th trampoline counts as free for the test below. */
    predicate LooksFree(i: nat)
      requires i < remain.Length
      reads remain
    {
      remain[i] == 0 || Inside(remain[i])
    }

    /** Pool memory that is to become a region: its contents are arbitrary. */
    constructor (base: nat, remain: array<nat>)
      requires base > 0 && remain.Length == PER_REGION
      ensures this.base == base && this.remain == remain
    {
      this.base, this.remain := base, remain;
      next, free, firstFree := null, 0, PER_REGION;
    }

    method IsEmpty() returns (r: bool)
      requires Valid()
      ensures r <==> AllLookFree(this)
    {
      for i := 0 to PER_REGION
        invariant forall k :: 0 <= k < i ==> LooksFree(k)
      {
        if remain[i] != 0 && (remain[i] < base || remain[i] >= base + REGION_SIZE) {
          assert !LooksFree(i);
          return false;
        }
      }
      return true;
    }

    /** Links trampolines 2 and up, from the last to the first. */
    method LinkFree()
      requires base > 0 && remain.Length == PER_REGION
      modifies this`free, this`firstFree, remain
      ensures Valid() && firstFree == 2 && next == old(next)
      ensures remain[0] == old(remain[0]) && remain[1] == old(remain[1])
    {
      var pFree, i := 0, PER_REGION - 1;
      while i > 1
        invariant 1 <= i <= PER_REGION - 1
        invariant pFree == if i == PER_REGION - 1 then 0 else TrampolineAt(base, i + 1)
        invariant forall k :: i < k < PER_REGION ==>
          remain[k] == if k == PER_REGION - 1 then 0 else TrampolineAt(base, k + 1)
        invariant remain[0] == old(remain[0]) && remain[1] == old(remain[1]) && next == old(next)
      {
        remain[i] := pFree;
        pFree := TrampolineAt(base, i);
        i := i - 1;
      }
      free, firstFree := pFree, 2;
    }

    /** Takes the first free trampoline and fills it. */
    method Take() returns (trampoline: nat)
      requires Valid() && free != 0
      modifies this`free, this`firstFree, remain
      ensures Valid() && next == old(next) && firstFree == old(firstFree) + 1
      ensures trampoline == TrampolineAt(base, old(firstFree)) && remain[old(firstFree)] == FILLED
      ensures forall i :: 0 <= i < PER_REGION && i != old(firstFree) ==> remain[i] == old(remain[i])
    {
      trampoline := free;
      var i := (trampoline - base) / TRAMPOLINE_SIZE - 1;
      free := remain[i];
      remain[i] := FILLED;
      firstFree := firstFree + 1;
    }
  }

  /** A trampoline that has been handed out. */
  ghost predicate HandedOut(r: Region, i: nat)
    reads r
  {
    2 <= i < r.firstFree
  }

  /** Two regions do not overlap in memory. */
  ghost predicate Disjoint(a: Region, b: Region) {
    a.base + REGION_SIZE <= b.base || b.base + REGION_SIZE <= a.base
  }

  /** A trampoline lies wholly inside its region, clear of the header and of every other one. */
  lemma TrampolinesApart(r: Region, i: nat, s: Region, j: nat)
    requires i < PER_REGION && j < PER_REGION && (r == s ==> i != j) && (r != s ==> Disjoint(r, s))
    ensures r.base + HEADER_SIZE <= TrampolineAt(r.base, i)
    ensures TrampolineAt(r.base, i) + TRAMPOLINE_SIZE <= r.base + REGION_SIZE
    ensures TrampolineAt(r.base, i) + TRAMPOLINE_SIZE <= TrampolineAt(s.base, j)
         || TrampolineAt(s.base, j) + TRAMPOLINE_SIZE <= TrampolineAt(r.base, i)
  {
  }

  class Allocator {
    var regions: Region?             // all regions
    var region: Region?              // the default one
    ghost var list: seq<Region>
    ghost var repr: set<object>      // the regions and their trampolines

    ghost predicate Valid()
      reads this, repr
    {
      && (forall i :: 0 <= i < |list| ==> LinkedAt(i))
      && regions == NodeAt(0) && (region != null ==> region in list)
      && Apart(list)
    }

    ghost predicate LinkedAt(i: nat)
      reads this, repr
    {
      i < |list| && list[i] in repr && list[i].remain in repr && list[i].Valid() && list[i].next == NodeAt(i + 1)
    }

    lemma RegionAt(i: nat)
      requires Valid() && i < |list|
      ensures list[i] in list && list[i] in repr && list[i].remain in repr
      ensures list[i].Valid() && list[i].next == NodeAt(i + 1)
      ensures (list[i].free == 0 <==> list[i].firstFree == PER_REGION)
    {
      assert LinkedAt(i);
    }

    lemma InList(r: Region)
      requires Valid() && r in list
      ensures r in repr && r.remain in repr && r.Valid()
      ensures forall s :: s in list && s != r ==> s.remain != r.remain
    {
      var i :| 0 <= i < |list| && list[i] == r;
      RegionAt(i);
    }

    lemma Default()
      requires Valid()
      ensures regions == NodeAt(0)
      ensures region != null ==> region in list && region in repr && region.remain in repr && region.Valid()
      ensures region != null ==> forall s :: s in list && s != region ==> s.remain != region.remain
    {
      if region != null {
        var i :| 0 <= i < |list| && list[i] == region;
        RegionAt(i);
      }
    }

    ghost function NodeAt(i: nat): Region?
      reads this
    {
      if i < |list| then list[i] else null
    }

    constructor ()
      ensures Valid() && list == []
    {
      regions, region, list, repr := null, null, [], {};
    }

    /** Hands out a trampoline: of the default region, of the first that has a free one, or of new
        memory, if the pool gives any. */
    method AllocTrampoline(pool: Region?) returns (trampoline: nat, ghost r: Region?)
      requires Valid() && (pool != null ==> Fresh(pool))
      modifies this, repr, pool, if pool == null then {} else {pool.remain}
      ensures Valid() && (r == null <==> trampoline == 0)
      ensures r == null ==> pool == null && list == old(list) && forall s :: s in list ==> s.firstFree == PER_REGION
      ensures r != null ==>
        r in list && r.Valid() && r.firstFree > 2 && trampoline == TrampolineAt(r.base, r.firstFree - 1)
      ensures r != null && r in old(list) ==> r.firstFree == old(r.firstFree) + 1 && list == old(list)
      ensures r != null && r !in old(list) ==> r == pool && r.firstFree == 3 && list == [pool] + old(list)
      ensures r != null ==> forall i :: 0 <= i < r.remain.Length && HandedOut(r, i) && i != r.firstFree - 1 ==>
        r.remain[i] == old(r.remain[i])
      ensures forall s :: s in old(list) && s != r ==>
        s.firstFree == old(s.firstFree) && s.remain[..] == old(s.remain[..])
    {
      hide Valid, Region.Valid;
      Default();
      if region == null && regions != null {
        SetDefault(regions);
      }
      if region == null || region.free == 0 {
        FindFree();
      }
      if region == null && pool != null {
        AddRegion(pool);
      }
      trampoline, r := 0, region;
      Default();
      if region != null {
        trampoline := TakeFrom(region);
      }
    }

    method SetDefault(r: Region?)
      requires Valid() && (r != null ==> r == NodeAt(0) || r in list)
      modifies this`region
      ensures Valid() && region == r
    {
      region := r;
      forall k | 0 <= k < |list| ensures LinkedAt(k) {
        assert old(LinkedAt(k));
      }
    }

    /** Makes the first region with a free trampoline the default one; null if there is none. */
    method FindFree()
      requires Valid()
      modifies this`region
      ensures Valid()
      ensures
        if region == null then forall s :: s in list ==> s.firstFree == PER_REGION
        else region in list && region.free != 0
    {
      hide Valid, Region.Valid;
      Default();
      var r := regions;
      ghost var k := 0;
      while r != null && r.free == 0
        invariant Valid() && k <= |list| && r == NodeAt(k) && forall i :: 0 <= i < k ==> list[i].firstFree == PER_REGION
        decreases |list| - k
      {
        RegionAt(k);
        r, k := r.next, k + 1;
      }
      if r != null {
        RegionAt(k);
      }
      SetDefault(r);
    }

    /** Takes the first free trampoline of a region. */
    method TakeFrom(r: Region) returns (trampoline: nat)
      requires Valid() && r in list && r.free != 0
      modifies r, r.remain
      ensures Valid() && r.firstFree == old(r.firstFree) + 1 && trampoline == TrampolineAt(r.base, old(r.firstFree))
      ensures r.Valid() && r.firstFree > 2 && trampoline != 0
      ensures forall i :: 0 <= i < r.remain.Length && HandedOut(r, i) && i != r.firstFree - 1 ==>
        r.remain[i] == old(r.remain[i])
    {
      InList(r);
      trampoline := r.Take();
      forall k | 0 <= k < |list| ensures LinkedAt(k) {
        assert old(LinkedAt(k));
      }
    }

    /** Puts new memory at the head of the list and links its trampolines. */
    method AddRegion(pool: Region)
      requires Valid() && Fresh(pool)
      modifies this, pool, pool.remain
      ensures Valid() && region == pool && pool.firstFree == 2 && pool.free != 0 && list == [pool] + old(list)
      ensures repr == old(repr) + {pool, pool.remain}
    {
      pool.LinkFree();
      pool.next := regions;
      ghost var was := list;
      region, regions := pool, pool;
      list, repr := [pool] + list, repr + {pool, pool.remain};
      forall i | 0 <= i < |list| ensures LinkedAt(i) {
        if i > 0 {
          assert list[i] == was[i - 1];
          assert old(LinkedAt(i - 1));
        }
      }
    }

    /** The caller sets where the code behind a hook goes on. */
    method SetRemain(r: Region, i: nat, value: nat)
      requires Valid() && r in list && HandedOut(r, i)
      modifies r.remain
      ensures Valid() && i < r.remain.Length && r.remain[i] == value
      ensures forall k :: 0 <= k < r.remain.Length && k != i ==> r.remain[k] == old(r.remain[k])
    {
      InList(r);
      r.remain[i] := value;
      forall k | 0 <= k < |list| ensures LinkedAt(k) {
        assert old(LinkedAt(k));
      }
    }

    /** Releases the regions in which every trampoline looks free. */
    method FreeUnusedRegions()
      requires Valid()
      modifies this, repr
      ensures Valid() && list == Keep(old(list), set r | r in old(list) && old(AllLookFree(r)))
      ensures forall r :: r in old(list) ==> r.firstFree == old(r.firstFree)
    {
      hide Valid, Region.Valid, Region.LooksFree, AllLookFree, Keep, Cut;
      var prev: Region?, r := null, regions;
      ghost var all, i, empties := list, 0, set s | s in list && AllLookFree(s);
      Default();
      assert list[0..] == list;
      while r != null
        invariant Valid() && repr == old(repr) && 0 <= i <= |list| && r == NodeAt(i)
        invariant prev == (if i == 0 then null else list[i - 1])
        invariant forall s :: s in list ==> s in all
        invariant forall s :: s in all ==> s.firstFree == old(s.firstFree) && (AllLookFree(s) <==> s in empties)
        invariant list[..i] + Keep(list[i..], empties) == Keep(all, empties)
        decreases |list| - i
      {
        RegionAt(i);
        if prev != null {
          RegionAt(i - 1);
        }
        prev, i := Visit(prev, r, i, empties);
        r := Next(prev, i);
      }
      assert list[..i] == list && list[i..] == [];
      KeepNothing(empties);
    }

    /** Releases region i if every trampoline looks free, or goes on behind it. */
    method Visit(prev: Region?, r: Region, ghost i: nat, ghost empties: set<Region>)
      returns (prev': Region?, ghost i': nat)
      requires Valid() && i < |list| && r == list[i] && prev == (if i == 0 then null else list[i - 1])
      requires AllLookFree(r) <==> r in empties
      modifies this`regions, this`region, this`list, if prev == null then {} else {prev}
      ensures Valid() && i' <= |list| && prev' == (if i' == 0 then null else list[i' - 1])
      ensures |list| - i' < |old(list)| - i && (forall s :: s in list ==> s in old(list))
      ensures list[..i'] + Keep(list[i'..], empties) == old(list)[..i] + Keep(old(list)[i..], empties)
      ensures prev != null ==> prev.firstFree == old(prev.firstFree)
    {
      hide Valid, Region.Valid, Region.LooksFree, AllLookFree, Keep, Cut;
      RegionAt(i);
      KeepStep(list, i, empties);
      var empty := r.IsEmpty();
      if empty {
        CutMembers(list, i);
        Release(prev, r, i);
        prev', i' := prev, i;
      } else {
        prev', i' := r, i + 1;
      }
    }

    method Next(prev: Region?, ghost i: nat) returns (r: Region?)
      requires Valid() && i <= |list| && prev == (if i == 0 then null else list[i - 1])
      ensures r == NodeAt(i)
    {
      if i > 0 {
        RegionAt(i - 1);
      }
      r := if prev == null then regions else prev.next;
    }

    /** Takes the region behind `prev` off the list. */
    method Release(prev: Region?, r: Region, ghost i: nat)
      requires Valid() && i < |list| && r == list[i] && prev == (if i == 0 then null else list[i - 1])
      modifies this`regions, this`region, this`list, if prev == null then {} else {prev}
      ensures Valid() && list == Cut(old(list), i) && (prev != null ==> prev.firstFree == old(prev.firstFree))
    {
      ghost var was := list;
      RegionAt(i);
      if i > 0 {
        RegionAt(i - 1);
      }
      ApartCut(was, i);
      assert forall j :: 0 <= j < |was| && j != i - 1 ==> was[j] != prev;
      hide Region.Valid, Apart, Disjoint, Cut;
      if prev == null {
        regions := r.next;
      } else {
        prev.next := r.next;
      }
      region := null;
      list := Cut(list, i);
      forall j | 0 <= j < |was| ensures Relinkable(was, i, j) {
        assert old(LinkedAt(j));
      }
      Relinked(was, i);
    }

    /** The list without region i is linked once what precedes i points behind it. */
    lemma Relinked(was: seq<Region>, i: nat)
      requires i < |was| && list == Cut(was, i) && Apart(list) && region == null
      requires forall j :: 0 <= j < |was| ==> Relinkable(was, i, j)
      requires (if i == 0 then regions else was[i - 1].next) == if i + 1 < |was| then was[i + 1] else null
      requires i > 0 ==> regions == was[0]
      ensures Valid()
    {
      hide Region.Valid, Apart;
      forall k | 0 <= k < |list| ensures LinkedAt(k) {
        var j := if k < i then k else k + 1;
        assert list[k] == was[j];
        assert k + 1 < |list| ==> list[k + 1] == was[if k + 1 < i then k + 1 else k + 2];
        assert Relinkable(was, i, j);
      }
    }

    ghost predicate Relinkable(was: seq<Region>, i: nat, j: nat)
      reads this, repr
    {
      && j < |was| && was[j] in repr && was[j].remain in repr && was[j].Valid()
      && (j + 1 == i || was[j].next == if j + 1 < |was| then was[j + 1] else null)
    }

    ghost predicate Fresh(pool: Region)
      reads this
    {
      && pool.base > 0 && pool.remain.Length == PER_REGION && pool !in list
      && forall s :: s in list ==> Disjoint(s, pool) && s.remain != pool.remain
    }
  }

  ghost predicate AllLookFree(r: Region)
    reads r.remain
  {
    forall i :: 0 <= i < r.remain.Length ==> r.LooksFree(i)
  }

  /** The regions that are not released. */
  ghost function Keep(list: seq<Region>, empties: set<Region>): seq<Region> {
    if list == [] then [] else (if list[0] in empties then [] else [list[0]]) + Keep(list[1..], empties)
  }

  ghost function Cut<T>(s: seq<T>, i: nat): (r: seq<T>)
    requires i < |s|
    ensures |r| == |s| - 1
  {
    s[..i] + s[i + 1..]
  }

  lemma CutMembers<T>(s: seq<T>, i: nat)
    requires i < |s|
    ensures forall x :: x in Cut(s, i) ==> x in s
  {
  }

  lemma KeepStep(list: seq<Region>, i: nat, empties: set<Region>)
    requires i < |list|
    ensures Keep(list[i..], empties) == (if list[i] in empties then [] else [list[i]]) + Keep(list[i + 1..], empties)
    ensures Cut(list, i)[..i] == list[..i] && Cut(list, i)[i..] == list[i + 1..]
    ensures list[..i + 1] == list[..i] + [list[i]]
  {
    assert list[i..][1..] == list[i + 1..];
  }

  lemma KeepNothing(empties: set<Region>)
    ensures Keep([], empties) == []
  {
  }

  lemma ApartCut(list: seq<Region>, i: nat)
    requires i < |list| && Apart(list)
    ensures Apart(Cut(list, i))
  {
  }

  lemma {:induction false} KeepMember(list: seq<Region>, empties: set<Region>, r: Region)
    ensures r in Keep(list, empties) <==> r in list && r !in empties
  {
    if list != [] {
      KeepMember(list[1..], empties, r);
    }
  }

  /** As long as the remain fields of handed-out trampolines point outside their region, a region is
      released exactly when none of its trampolines was ever handed out and the two that are never on
      the free list happen to look free. */
  lemma ReleasedOnlyUnused(list: seq<Region>, r: Region)
    requires r in list && r.Valid() && forall i :: 0 <= i < PER_REGION && HandedOut(r, i) ==> !r.LooksFree(i)
    ensures r !in Keep(list, set s | s in list && AllLookFree(s)) <==>
      r.firstFree == 2 && r.LooksFree(0) && r.LooksFree(1)
  {
    KeepMember(list, (set s | s in list && AllLookFree(s)), r);
    if r.firstFree > 2 {
      assert HandedOut(r, 2);
    }
    forall i | r.firstFree <= i < PER_REGION ensures r.LooksFree(i) { }
  }

  ghost predicate Apart(list: seq<Region>) {
    forall i, j :: 0 <= i < j < |list| ==>
      list[i] != list[j] && Disjoint(list[i], list[j]) && list[i].remain != list[j].remain
  }
}
