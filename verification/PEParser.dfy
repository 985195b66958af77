/** The PE parser's section list: reading sections from a mapped module, aligning their headers and
    writing the file. */
module PEParser {
  import opened Arith
  import opened Bits
  import opened Bytes
  import opened PELayout
  import opened PEArrange
  import opened Permutations

  const DOS_HEADER_SIZE: nat := 64
  const SIGNATURE_AND_FILE_HEADER: nat := 24
  const ZERO_CHUNK: nat := 0x1_0000

  datatype PEFileSection = PEFileSection(header: SectionHeader, data: array<Byte>, normalSize: nat)

  /** A file opened for writing. */
  class OutputFile {
    var bytes: seq<Byte>
    var pos: nat

    constructor ()
      ensures bytes == [] && pos == 0
    {
      bytes, pos := [], 0;
    }

    method WriteMemory(at: nat, data: seq<Byte>)
      modifies this
      ensures bytes == Overwrite(old(bytes), at, data) && pos == at + |data|
    {
      bytes := Overwrite(bytes, at, data);
      pos := at + |data|;
    }

    /** Zeros are written in chunks of at most 64 KB. */
    method WriteZeroMemory(at: nat, size: nat)
      modifies this
      ensures bytes == Overwrite(old(bytes), at, Zeros(size))
      ensures pos == if size == 0 then old(pos) else at + size
    {
      hide Overwrite, Zeros;
      NoZeros(bytes, at);
      var offset, left := at, size;
      while left > 0
        invariant 0 <= left <= size && offset + left == at + size
        invariant bytes == Overwrite(old(bytes), at, Zeros(size - left))
        invariant pos == if left == size then old(pos) else offset
      {
        var chunk := if left < ZERO_CHUNK then left else ZERO_CHUNK;
        WriteMemory(offset, Zeros(chunk));
        OverwriteZeros(old(bytes), at, size - left, chunk, offset);
        offset, left := offset + chunk, left - chunk;
      }
    }

    method SetEndOfFile()
      modifies this`bytes
      ensures bytes == if pos <= |old(bytes)| then old(bytes)[..pos] else old(bytes) + Zeros(pos - |old(bytes)|)
    {
      bytes := if pos <= |bytes| then bytes[..pos] else bytes + Zeros(pos - |bytes|);
    }
  }

  lemma NoZeros(f: seq<Byte>, at: nat)
    ensures Overwrite(f, at, Zeros(0)) == f
  {
  }

  lemma OverwriteZeros(f: seq<Byte>, at: nat, n: nat, m: nat, next: nat)
    requires m > 0 && next == at + n
    ensures Overwrite(Overwrite(f, at, Zeros(n)), next, Zeros(m)) == Overwrite(f, at, Zeros(n + m))
  {
    var x, y := Overwrite(Overwrite(f, at, Zeros(n)), at + n, Zeros(m)), Overwrite(f, at, Zeros(n + m));
    forall i | 0 <= i < |x| ensures x[i] == y[i] {
      OverwriteAt(f, at, Zeros(n), i);
      OverwriteAt(Overwrite(f, at, Zeros(n)), at + n, Zeros(m), i);
      OverwriteAt(f, at, Zeros(n + m), i);
    }
  }

  lemma Appended(f: seq<Byte>, b: seq<Byte>)
    ensures Overwrite(f, |f|, b) == f + b
  {
  }

  // ------------------------------------------------------------------ what the passes promise

  /** `data` is `mem` without some of its trailing zeros, and empty only if `mem` is all zeros. */
  ghost predicate Trimmed(data: seq<Byte>, mem: seq<Byte>) {
    CutFrom(data, mem) && (data != [] ==> NotAllZero(data))
  }

  /** Data that is not empty goes to the fourth byte behind the last one that is not zero, or to the end. */
  ghost predicate FourZerosKept(data: seq<Byte>, mem: seq<Byte>) {
    data != [] ==>
      exists k :: 0 <= k < |mem| && mem[k] != 0 && (forall j :: k < j < |mem| ==> mem[j] == 0)
        && |data| == if |mem| < k + 5 then |mem| else k + 5
  }

  ghost predicate CutFrom(data: seq<Byte>, mem: seq<Byte>) {
    data <= mem && forall k :: |data| <= k < |mem| ==> mem[k] == 0
  }

  /** What alignment does to one section; raw pointer and size are assigned elsewhere. */
  ghost predicate AlignedCopy(s: PEFileSection, t: PEFileSection, alignment: nat)
    requires alignment < DWORDS
  {
    && t.data == s.data && t.normalSize == s.normalSize
    && t.header.virtualAddress == AlignValue(s.header.virtualAddress, alignment)
    && t.header.virtualSize == AlignValue(s.header.virtualSize, alignment)
  }

  /** File space that sections of these sizes can take, alignment included. */
  function Need(ss: seq<PEFileSection>, a: nat): nat {
    if ss == [] then 0 else ss[0].data.Length + 2 * a + Need(ss[1..], a)
  }

  lemma {:induction false} NeedUpdate(ss: seq<PEFileSection>, a: nat, i: nat, s: PEFileSection)
    requires i < |ss|
    ensures Need(ss[i := s], a) == Need(ss, a) - ss[i].data.Length + s.data.Length
    decreases |ss|
  {
    var t := ss[i := s];
    if i > 0 {
      NeedUpdate(ss[1..], a, i - 1, s);
      assert t[1..] == ss[1..][i - 1 := s];
    } else {
      assert t[1..] == ss[1..];
    }
  }

  lemma NeedSwap(ss: seq<PEFileSection>, a: nat, i: nat, j: nat)
    requires i < |ss| && j < |ss|
    ensures Need(Swap(ss, i, j), a) == Need(ss, a)
  {
    NeedUpdate(ss, a, i, ss[j]);
    NeedUpdate(ss[i := ss[j]], a, j, ss[i]);
  }

  function SortKey(h: SectionHeader, byRaw: bool): nat {
    if byRaw then h.pointerToRawData else h.virtualAddress
  }

  ghost predicate SortedBy(ss: seq<PEFileSection>, byRaw: bool) {
    forall i, j :: 0 <= i < j < |ss| ==> SortKey(ss[i].header, byRaw) <= SortKey(ss[j].header, byRaw)
  }

  /** The first i sections are in place: sorted, and not above any later one. */
  ghost predicate SortedUpTo(ss: seq<PEFileSection>, byRaw: bool, i: nat) {
    forall x, y :: 0 <= x < i && x < y < |ss| ==> SortKey(ss[x].header, byRaw) <= SortKey(ss[y].header, byRaw)
  }

  ghost predicate Sorting(before: seq<PEFileSection>, ss: seq<PEFileSection>, p: seq<nat>, byRaw: bool, i: nat) {
    && Reorders(before, ss, p)
    && SortedUpTo(ss, byRaw, i)
    && forall a :: Need(ss, a) == Need(before, a)
  }

  /** What std::sort promises: some order with ascending keys, nothing about equal keys. */
  ghost predicate Sorted(before: seq<PEFileSection>, ss: seq<PEFileSection>, p: seq<nat>, byRaw: bool) {
    && Reorders(before, ss, p)
    && SortedBy(ss, byRaw)
    && forall a :: Need(ss, a) == Need(before, a)
  }

  lemma SortStep(before: seq<PEFileSection>, ss: seq<PEFileSection>, p: seq<nat>, byRaw: bool, i: nat, m: nat)
    requires Sorting(before, ss, p, byRaw, i) && i <= m < |ss|
    requires forall y :: i <= y < |ss| ==> SortKey(ss[m].header, byRaw) <= SortKey(ss[y].header, byRaw)
    ensures |p| == |ss| && Sorting(before, Swap(ss, i, m), Swap(p, i, m), byRaw, i + 1)
  {
    SwapReorders(before, ss, p, i, m);
    forall a ensures Need(Swap(ss, i, m), a) == Need(before, a) {
      NeedSwap(ss, a, i, m);
    }
  }

  method IndexOfLeast(ss: seq<PEFileSection>, byRaw: bool, i: nat) returns (m: nat)
    requires i < |ss|
    ensures i <= m < |ss|
    ensures forall y :: i <= y < |ss| ==> SortKey(ss[m].header, byRaw) <= SortKey(ss[y].header, byRaw)
  {
    m := i;
    for j := i + 1 to |ss|
      invariant i <= m < |ss|
      invariant forall y :: i <= y < j ==> SortKey(ss[m].header, byRaw) <= SortKey(ss[y].header, byRaw)
    {
      if SortKey(ss[j].header, byRaw) < SortKey(ss[m].header, byRaw) {
        m := j;
      }
    }
  }

  method SortedCopy(before: seq<PEFileSection>, byRaw: bool) returns (ss: seq<PEFileSection>, ghost p: seq<nat>)
    ensures Sorted(before, ss, p, byRaw)
  {
    ss, p := before, Identity(|before|);
    for i := 0 to |before|
      invariant |ss| == |before|
      invariant Sorting(before, ss, p, byRaw, i)
    {
      var m := IndexOfLeast(ss, byRaw, i);
      SortStep(before, ss, p, byRaw, i, m);
      p := Swap(p, i, m);
      ss := Swap(ss, i, m);
    }
  }

  /** Aligned virtual ranges that do not overlap stay that way when their sizes are rounded up. */
  lemma VirtualStaysDisjoint(h: SectionHeader, k: SectionHeader, a: nat)
    requires IsPow2(a) && a <= 0x8000_0000
    requires h.virtualAddress % a == 0 && k.virtualAddress % a == 0
    requires h.VirtualEnd() + a <= DWORDS && k.virtualAddress < DWORDS
    requires h.VirtualEnd() <= k.virtualAddress
    ensures AlignValue(h.virtualAddress, a) + AlignValue(h.virtualSize, a) <= AlignValue(k.virtualAddress, a)
    ensures AlignValue(h.virtualAddress, a) == h.virtualAddress
  {
    LeastMultiple(h.virtualAddress, a, h.virtualAddress);
    AlignUp(h.virtualAddress, a);
    AlignUp(h.virtualSize, a);
    DifferenceOfMultiples(k.virtualAddress, h.virtualAddress, a);
    LeastMultiple(h.virtualSize, a, k.virtualAddress - h.virtualAddress);
    if k.virtualAddress + a <= DWORDS {
      AlignUp(k.virtualAddress, a);
    } else {
      LastMultiple(k.virtualAddress, a);
    }
  }

  lemma DifferenceOfMultiples(x: nat, y: nat, a: nat)
    requires a >= 1 && x % a == 0 && y % a == 0 && y <= x
    ensures (x - y) % a == 0
  {
    var i, j := x / a, y / a;
    assert x == a * i && y == a * j;
    assert x - y == a * (i - j);
    IntDivModUnique(x - y, a, i - j, 0);
  }

  lemma SumOfMultiples(x: nat, y: nat, a: nat)
    requires a >= 1 && x % a == 0 && y % a == 0
    ensures (x + y) % a == 0
  {
    var i, j := x / a, y / a;
    assert x == a * i && y == a * j;
    assert x + y == a * (i + j);
    DivModUnique(x + y, a, i + j, 0);
  }

  /** A multiple of a below 2^32 leaves room for a whole alignment step. */
  lemma LastMultiple(x: nat, a: nat)
    requires IsPow2(a) && a <= 0x8000_0000 && x % a == 0 && x < DWORDS
    ensures x + a <= DWORDS
  {
    var k: nat :| a == Pow2(k);
    Pow2Facts();
    if 32 <= k {
      Pow2Monotone(32, k);
    }
    Pow2Multiple(k, 32);
    Multiples(x, DWORDS, a);
  }

  lemma {:induction false} Pow2Multiple(k: nat, n: nat)
    requires k <= n
    ensures Pow2(n) % Pow2(k) == 0
    decreases n - k
  {
    if k < n {
      Pow2Multiple(k, n - 1);
      var i := Pow2(n - 1) / Pow2(k);
      assert Pow2(n - 1) == Pow2(k) * i;
      assert Pow2(n) == Pow2(k) * (2 * i);
      DivModUnique(Pow2(n), Pow2(k), 2 * i, 0);
    } else {
      DivModUnique(Pow2(n), Pow2(k), 1, 0);
    }
  }

  // ------------------------------------------------------------------ packed raw ranges

  ghost predicate RawAligned(s: PEFileSection, a: nat)
    requires a >= 1
  {
    && s.header.pointerToRawData % a == 0 && s.header.sizeOfRawData % a == 0
    && s.data.Length <= s.header.sizeOfRawData < s.data.Length + a
    && (s.data.Length == 0 ==> s.header.sizeOfRawData == 0)
  }

  /** The raw range starts where the first one does or where one with data ends. */
  ghost predicate FollowsOn(ss: seq<PEFileSection>, at: nat, first: nat) {
    at == first || exists j :: 0 <= j < |ss| && ss[j].data.Length > 0 && at == ss[j].header.RawEnd()
  }

  /** Packed one behind the other up to `end`, where the next one will start. */
  ghost predicate PackedInOrder(ss: seq<PEFileSection>, first: nat, a: nat, end: nat)
    requires 1 <= a < DWORDS
  {
    && (forall i :: 0 <= i < |ss| ==>
         RawAligned(ss[i], a) && first <= ss[i].header.pointerToRawData && ss[i].header.RawEnd() <= end
         && FollowsOn(ss, ss[i].header.pointerToRawData, first))
    && (forall i, j :: 0 <= i < j < |ss| ==> ss[i].header.RawEnd() <= ss[j].header.pointerToRawData)
    && (ss != [] ==> ss[0].header.pointerToRawData == first)
    && AlignValue(end, a) == (if ss == [] then first else end) && FollowsOn(ss, AlignValue(end, a), first)
  }

  /** Aligned raw ranges from `first` on, no two of them overlapping, and no gap between them. */
  ghost predicate Packed(ss: seq<PEFileSection>, first: nat, a: nat)
    requires a >= 1
  {
    && (forall i :: 0 <= i < |ss| ==>
         RawAligned(ss[i], a) && first <= ss[i].header.pointerToRawData
           && FollowsOn(ss, ss[i].header.pointerToRawData, first))
    && (forall i, j :: 0 <= i < |ss| && 0 <= j < |ss| && i != j ==>
         ss[i].header.RawEnd() <= ss[j].header.pointerToRawData
           || ss[j].header.RawEnd() <= ss[i].header.pointerToRawData)
    && (ss != [] ==> exists i :: 0 <= i < |ss| && ss[i].header.pointerToRawData == first)
  }

  ghost predicate InFileOrder(ss: seq<PEFileSection>) {
    forall i, j :: 0 <= i < j < |ss| ==> ss[i].header.RawEnd() <= ss[j].header.pointerToRawData
  }

  lemma PackNext(ss: seq<PEFileSection>, first: nat, a: nat, end: nat, t: PEFileSection)
    requires 1 <= a < DWORDS && PackedInOrder(ss, first, a, end) && end <= AlignValue(end, a)
    requires RawAligned(t, a) && t.header.pointerToRawData == AlignValue(end, a)
    requires AlignValue(t.header.RawEnd(), a) == t.header.RawEnd()
    ensures PackedInOrder(ss + [t], first, a, t.header.RawEnd())
  {
    hide AlignValue, FollowsOn, RawAligned;
    var r := ss + [t];
    forall at: nat | FollowsOn(ss, at, first) ensures FollowsOn(r, at, first) {
      FollowsMore(ss, t, at, first);
    }
    EndFollows(r, first, a);
  }

  lemma FollowsMore(ss: seq<PEFileSection>, t: PEFileSection, at: nat, first: nat)
    requires FollowsOn(ss, at, first)
    ensures FollowsOn(ss + [t], at, first)
  {
    if at != first {
      var j :| 0 <= j < |ss| && ss[j].data.Length > 0 && at == ss[j].header.RawEnd();
      assert (ss + [t])[j] == ss[j];
    }
  }

  /** The end of the last section is where the next one may follow. */
  lemma EndFollows(ss: seq<PEFileSection>, first: nat, a: nat)
    requires a >= 1 && ss != [] && RawAligned(ss[|ss| - 1], a)
    requires FollowsOn(ss, ss[|ss| - 1].header.pointerToRawData, first)
    ensures FollowsOn(ss, ss[|ss| - 1].header.RawEnd(), first)
    ensures ss[|ss| - 1].header.pointerToRawData <= ss[|ss| - 1].header.RawEnd()
  {
  }

  lemma InOrderIsPacked(ss: seq<PEFileSection>, first: nat, a: nat, end: nat)
    requires 1 <= a < DWORDS && PackedInOrder(ss, first, a, end)
    ensures Packed(ss, first, a)
  {
  }

  lemma ReorderedPacked(ss: seq<PEFileSection>, ts: seq<PEFileSection>, p: seq<nat>, first: nat, a: nat)
    requires a >= 1 && Packed(ss, first, a) && Reorders(ss, ts, p)
    ensures Packed(ts, first, a)
  {
    forall i, j | 0 <= i < |ts| && 0 <= j < |ts| && i != j
      ensures ts[i].header.RawEnd() <= ts[j].header.pointerToRawData
        || ts[j].header.RawEnd() <= ts[i].header.pointerToRawData
    {
      assert p[i] != p[j];
    }
    forall i | 0 <= i < |ts| ensures FollowsOn(ts, ts[i].header.pointerToRawData, first) {
      StillFollowsOn(ss, ts, p, ts[i].header.pointerToRawData, first);
    }
    if ss != [] {
      var k :| 0 <= k < |ss| && ss[k].header.pointerToRawData == first;
      HitsEvery(p, |ss|, k);
    }
  }

  lemma StillFollowsOn(ss: seq<PEFileSection>, ts: seq<PEFileSection>, p: seq<nat>, at: nat, first: nat)
    requires Reorders(ss, ts, p) && FollowsOn(ss, at, first)
    ensures FollowsOn(ts, at, first)
  {
    if at != first {
      var j :| 0 <= j < |ss| && ss[j].data.Length > 0 && at == ss[j].header.RawEnd();
      HitsEvery(p, |ss|, j);
      var k :| 0 <= k < |p| && p[k] == j;
      assert ts[k] == ss[j];
    }
  }

  /** The raw ranges clear headers of a given size exactly if the first one does. */
  lemma ClearIffFirst(ss: seq<PEFileSection>, first: nat, a: nat, header: nat)
    requires a >= 1 && Packed(ss, first, a) && ss != []
    ensures (forall i :: 0 <= i < |ss| ==> header <= ss[i].header.pointerToRawData) <==> header <= first
  {
  }

  /** Raw pointers and (aligned) virtual addresses order the sections alike, without ties. */
  ghost predicate SameOrder(ss: seq<PEFileSection>, a: nat)
    requires a < DWORDS
  {
    forall i, j :: 0 <= i < |ss| && 0 <= j < |ss| && i != j ==>
      (ss[i].header.pointerToRawData <= ss[j].header.pointerToRawData ==>
        AlignValue(ss[i].header.virtualAddress, a) < AlignValue(ss[j].header.virtualAddress, a))
  }

  lemma StrictOrder(ss: seq<PEFileSection>, sorted: seq<PEFileSection>, p: seq<nat>, packed: seq<PEFileSection>, a: nat)
    requires a < DWORDS && SameOrder(ss, a) && Sorted(ss, sorted, p, true)
    requires |packed| == |sorted| && forall i :: 0 <= i < |sorted| ==> AlignedCopy(sorted[i], packed[i], a)
    ensures forall i, j :: 0 <= i < j < |packed| ==> packed[i].header.virtualAddress < packed[j].header.virtualAddress
  {
    forall i, j | 0 <= i < j < |packed| ensures packed[i].header.virtualAddress < packed[j].header.virtualAddress {
      assert p[i] != p[j] && sorted[i] == ss[p[i]] && sorted[j] == ss[p[j]];
      assert SortKey(sorted[i].header, true) <= SortKey(sorted[j].header, true);
    }
  }

  /** A strictly ordered list has only one sorted order. */
  lemma OnlyOrder(ss: seq<PEFileSection>, ts: seq<PEFileSection>, p: seq<nat>)
    requires Sorted(ss, ts, p, false)
    requires forall i, j :: 0 <= i < j < |ss| ==> ss[i].header.virtualAddress < ss[j].header.virtualAddress
    ensures ts == ss
  {
    forall i, j | 0 <= i < j < |p| ensures p[i] < p[j] {
      assert SortKey(ts[i].header, false) <= SortKey(ts[j].header, false);
      assert p[i] != p[j];
    }
    forall i | 0 <= i < |p| ensures p[i] == i {
      IncreasingBelow(p, i);
      IncreasingAbove(p, i);
    }
  }

  /** A section with a smaller raw pointer still lies before one with a greater raw pointer. */
  ghost predicate RawOrderKept(before: seq<PEFileSection>, after: seq<PEFileSection>, p: seq<nat>)
    requires IsPermutation(p, |before|) && |after| == |before|
  {
    forall i, j :: 0 <= i < |after| && 0 <= j < |after| ==>
      (before[p[i]].header.pointerToRawData < before[p[j]].header.pointerToRawData ==>
       after[i].header.RawEnd() <= after[j].header.pointerToRawData)
  }

  lemma KeepsRawOrder(before: seq<PEFileSection>, sorted: seq<PEFileSection>, packed: seq<PEFileSection>,
                      after: seq<PEFileSection>, p1: seq<nat>, p2: seq<nat>, p: seq<nat>)
    requires Sorted(before, sorted, p1, true) && Reorders(packed, after, p2) && |packed| == |sorted|
    requires InFileOrder(packed) && IsPermutation(p, |before|) && forall i :: 0 <= i < |before| ==> p[i] == p1[p2[i]]
    ensures RawOrderKept(before, after, p)
  {
    forall i, j | 0 <= i < |after| && 0 <= j < |after|
      ensures before[p[i]].header.pointerToRawData < before[p[j]].header.pointerToRawData ==>
        after[i].header.RawEnd() <= after[j].header.pointerToRawData
    {
      assert before[p[i]] == sorted[p2[i]] && before[p[j]] == sorted[p2[j]];
      assert p2[i] <= p2[j] || SortKey(sorted[p2[j]].header, true) <= SortKey(sorted[p2[i]].header, true);
    }
  }

  /** Sort, assign, sort again: one permutation from the old list to the new one. */
  lemma AlignedOrder(before: seq<PEFileSection>, sorted: seq<PEFileSection>, packed: seq<PEFileSection>,
                     after: seq<PEFileSection>, p1: seq<nat>, p2: seq<nat>, first: nat, fa: nat, sa: nat)
    returns (p: seq<nat>)
    requires 1 <= fa && sa < DWORDS && Sorted(before, sorted, p1, true) && Sorted(packed, after, p2, false)
    requires |packed| == |sorted| && forall i :: 0 <= i < |packed| ==> AlignedCopy(sorted[i], packed[i], sa)
    requires Packed(packed, first, fa) && InFileOrder(packed)
    ensures IsPermutation(p, |before|) && |after| == |before|
    ensures forall i :: 0 <= i < |after| ==> AlignedCopy(before[p[i]], after[i], sa)
    ensures Packed(after, first, fa)
    ensures SameOrder(before, sa) ==> InFileOrder(after)
    ensures RawOrderKept(before, after, p)
  {
    hide Packed, AlignedCopy, RawOrderKept, SameOrder, InFileOrder, SortedBy;
    p := Compose(p1, p2, |before|);
    ReorderedPacked(packed, after, p2, first, fa);
    KeepsRawOrder(before, sorted, packed, after, p1, p2, p);
    if SameOrder(before, sa) {
      StrictOrder(before, sorted, p1, packed, sa);
      OnlyOrder(packed, after, p2);
    }
  }

  lemma WordsReordered(ss: seq<PEFileSection>, ts: seq<PEFileSection>, p: seq<nat>)
    requires Reorders(ss, ts, p) && forall i :: 0 <= i < |ss| ==> Words(ss[i].header)
    ensures forall i :: 0 <= i < |ts| ==> Words(ts[i].header)
  {
    hide Words;
    forall i | 0 <= i < |ts| ensures Words(ts[i].header) {
      assert ts[i] == ss[p[i]];
    }
  }

  lemma {:induction false} IncreasingBelow(p: seq<nat>, i: nat)
    requires i < |p| && forall i, j :: 0 <= i < j < |p| ==> p[i] < p[j]
    ensures i <= p[i]
  {
    if i > 0 {
      IncreasingBelow(p, i - 1);
    }
  }

  lemma {:induction false} IncreasingAbove(p: seq<nat>, i: nat)
    requires i < |p| && (forall i, j :: 0 <= i < j < |p| ==> p[i] < p[j]) && forall i :: 0 <= i < |p| ==> p[i] < |p|
    ensures p[i] <= i
    decreases |p| - i
  {
    if i + 1 < |p| {
      IncreasingAbove(p, i + 1);
    }
  }

  ghost function RawOf(s: PEFileSection): Raw
    reads s.data
  {
    Raw(s.header.pointerToRawData, s.header.sizeOfRawData, s.data[..])
  }

  ghost function RawsOf(ss: seq<PEFileSection>): (rs: seq<Raw>)
    reads set s | s in ss :: s.data
    ensures |rs| == |ss| && forall i :: 0 <= i < |ss| ==> rs[i] == RawOf(ss[i])
  {
    seq(|ss|, i requires 0 <= i < |ss| reads set s | s in ss :: s.data => RawOf(ss[i]))
  }

  function HeadersOf(ss: seq<PEFileSection>): (hs: seq<SectionHeader>)
    ensures |hs| == |ss| && forall i :: 0 <= i < |ss| ==> hs[i] == ss[i].header
  {
    seq(|ss|, i requires 0 <= i < |ss| => ss[i].header)
  }

  function TableBytes(ss: seq<PEFileSection>): (r: seq<Byte>)
    ensures |r| == SECTION_HEADER_SIZE * |ss|
  {
    EncodeTable(HeadersOf(ss))
  }

  lemma TableSnoc(ss: seq<PEFileSection>, i: nat)
    requires i < |ss|
    ensures TableBytes(ss[..i + 1]) == TableBytes(ss[..i]) + EncodeHeader(ss[i].header)
  {
    assert HeadersOf(ss[..i + 1])[..i] == HeadersOf(ss[..i]);
  }

  // ------------------------------------------------------------------ lookups

  function RvaOfOffset(hs: seq<SectionHeader>, offset: nat): nat {
    if hs == [] then 0
    else if hs[0].pointerToRawData <= offset < hs[0].RawEnd() then
      offset - hs[0].pointerToRawData + hs[0].virtualAddress
    else RvaOfOffset(hs[1..], offset)
  }

  /** In a section behind all others in the file, offsets and RVAs run in parallel. */
  lemma {:induction false} RvaInLast(hs: seq<SectionHeader>, offset: nat)
    requires hs != [] && hs[|hs| - 1].pointerToRawData <= offset < hs[|hs| - 1].RawEnd()
    requires forall i :: 0 <= i < |hs| - 1 ==> hs[i].RawEnd() <= hs[|hs| - 1].pointerToRawData
    ensures RvaOfOffset(hs, offset) == offset - hs[|hs| - 1].pointerToRawData + hs[|hs| - 1].virtualAddress
  {
    if |hs| > 1 {
      RvaInLast(hs[1..], offset);
    }
  }

  // ------------------------------------------------------------------ loading a saved file

  /** The first n bytes of a section as a loader maps it: raw data, then zeros. */
  function LoadSection(f: seq<Byte>, h: SectionHeader, n: nat): (r: seq<Byte>)
    ensures |r| == n
  {
    seq<Byte>(n, k requires 0 <= k < n => LoadedByte(f, h, k))
  }

  function LoadedByte(f: seq<Byte>, h: SectionHeader, k: nat): Byte {
    if k < h.sizeOfRawData then ByteAt(f, h.pointerToRawData + k) else 0
  }

  lemma LoadRestored(f: seq<Byte>, r: Raw, h: SectionHeader, mem: seq<Byte>)
    requires h.pointerToRawData == r.at && h.sizeOfRawData == r.size && |r.data| <= r.size
    requires ReadBack(f, r.at, r.size) == Image(r) && CutFrom(r.data, mem)
    ensures LoadSection(f, h, |mem|) == mem
  {
    var x := LoadSection(f, h, |mem|);
    forall k | 0 <= k < |mem| ensures x[k] == mem[k] {
      if k < r.size {
        assert ReadBack(f, r.at, r.size)[k] == Image(r)[k];
      }
    }
  }

  /** The section table of a file is at `at`, and loading every section by it gives the memory contents
      `mems`. */
  ghost predicate LoadsBack(f: seq<Byte>, at: nat, mems: seq<seq<Byte>>) {
    at + SECTION_HEADER_SIZE * |mems| <= |f| &&
    var hs := DecodeTable(f, at, |mems|);
    forall i :: 0 <= i < |mems| ==> LoadSection(f, hs[i], |mems[i]|) == mems[i]
  }

  /** The raw ranges `rs` of the sections `ss` hold what is left of `mems` after trimming. */
  ghost predicate Holding(ss: seq<PEFileSection>, rs: seq<Raw>, mems: seq<seq<Byte>>) {
    && |ss| == |rs| == |mems|
    && forall i :: 0 <= i < |rs| ==>
         && rs[i].at == ss[i].header.pointerToRawData && rs[i].size == ss[i].header.sizeOfRawData
         && Trimmed(rs[i].data, mems[i])
  }

  /** A saved file whose section table is at `at` loads back exactly when the last write covers every
      section with data. */
  lemma LoadsBackIffCovered(header: seq<Byte>, at: nat, ss: seq<PEFileSection>, rs: seq<Raw>, mems: seq<seq<Byte>>)
    requires Holding(ss, rs, mems) && Arranged(rs, |header|) && TableIn(header, at, ss)
    ensures LoadsBack(Saved(header, rs, []), at, mems) <==> Covered(rs, FinalPos(header, rs, []))
  {
    hide TableIn, Saved, DecodeTable, FinalPos;
    var file := Saved(header, rs, []);
    HeaderKept(header, rs, []);
    TableKept(header, at, ss, file);
    if Covered(rs, FinalPos(header, rs, [])) {
      RestoredWhenCovered(header, rs, []);
      forall i | 0 <= i < |rs| ensures LoadSection(file, ss[i].header, |mems[i]|) == mems[i] {
        LoadRestored(file, rs[i], ss[i].header, mems[i]);
      }
    } else {
      var i, k := LostByte(header, rs, []);
      assert mems[i][k] == rs[i].data[k];
      assert LoadSection(file, ss[i].header, |mems[i]|)[k] == 0;
    }
  }

  /** The headers end with the section table, at `at`. */
  ghost predicate TableIn(header: seq<Byte>, at: nat, ss: seq<PEFileSection>) {
    && at + SECTION_HEADER_SIZE * |ss| == |header| && header[at..] == TableBytes(ss)
    && forall i :: 0 <= i < |ss| ==> Words(ss[i].header)
  }

  /** A file that starts with the headers has the section table in it. */
  lemma TableKept(header: seq<Byte>, at: nat, ss: seq<PEFileSection>, file: seq<Byte>)
    requires TableIn(header, at, ss) && |header| <= |file| && file[..|header|] == header
    ensures at + SECTION_HEADER_SIZE * |ss| <= |file| && DecodeTable(file, at, |ss|) == HeadersOf(ss)
  {
    hide EncodeTable, DecodeTable, Words;
    assert file[at..|header|] == file[..|header|][at..] == TableBytes(ss);
    TableRoundTrip(HeadersOf(ss), file, at);
  }

  lemma RawsInOrder(ss: seq<PEFileSection>, rs: seq<Raw>)
    requires InFileOrder(ss) && |ss| == |rs|
    requires forall i :: 0 <= i < |rs| ==>
      rs[i].at == ss[i].header.pointerToRawData && rs[i].size == ss[i].header.sizeOfRawData
    ensures forall i, j :: 0 <= i < j < |rs| ==> rs[i].End() <= rs[j].at
  {
  }

  ghost predicate VirtualDisjoint(hs: seq<SectionHeader>) {
    forall i, j :: 0 <= i < |hs| && 0 <= j < |hs| && i != j ==>
      hs[i].VirtualEnd() <= hs[j].virtualAddress || hs[j].VirtualEnd() <= hs[i].virtualAddress
  }

  ghost predicate HeadersSameOrder(hs: seq<SectionHeader>) {
    forall i, j :: 0 <= i < |hs| && 0 <= j < |hs| && i != j ==>
      (hs[i].pointerToRawData <= hs[j].pointerToRawData ==> hs[i].virtualAddress < hs[j].virtualAddress)
  }

  lemma VirtualAlreadyAligned(h: SectionHeader, a: nat)
    requires IsPow2(a) && a <= 0x8000_0000 && h.virtualAddress % a == 0 && h.virtualAddress + a <= DWORDS
    ensures AlignValue(h.virtualAddress, a) == h.virtualAddress
  {
    LeastMultiple(h.virtualAddress, a, h.virtualAddress);
    AlignUp(h.virtualAddress, a);
  }

  /** File space that suffices for sections of these sizes. */
  function SpaceBound(sizes: seq<nat>, a: nat): nat {
    if sizes == [] then 0 else sizes[0] + 2 * a + SpaceBound(sizes[1..], a)
  }

  lemma {:induction false} NeedWithin(ss: seq<PEFileSection>, sizes: seq<nat>, a: nat)
    requires |ss| == |sizes| && forall i :: 0 <= i < |ss| ==> ss[i].data.Length <= sizes[i]
    ensures Need(ss, a) <= SpaceBound(sizes, a)
  {
    if ss != [] {
      NeedWithin(ss[1..], sizes[1..], a);
    }
  }

  lemma {:induction false} NeedSnoc(ss: seq<PEFileSection>, s: PEFileSection, a: nat)
    ensures Need(ss + [s], a) == Need(ss, a) + s.data.Length + 2 * a
  {
    if ss != [] {
      NeedSnoc(ss[1..], s, a);
      assert (ss + [s])[1..] == ss[1..] + [s];
    }
  }

  /** The one section whose virtual address exceeds all others stays at the end of the list. */
  lemma LastStaysLast(before: seq<PEFileSection>, after: seq<PEFileSection>, p: seq<nat>, a: nat)
    requires a < DWORDS && before != [] && |after| == |before| && IsPermutation(p, |before|) && SortedBy(after, false)
    requires forall i :: 0 <= i < |after| ==> AlignedCopy(before[p[i]], after[i], a)
    requires forall i :: 0 <= i < |before| - 1 ==>
      AlignValue(before[i].header.virtualAddress, a) < AlignValue(before[|before| - 1].header.virtualAddress, a)
    ensures p[|before| - 1] == |before| - 1
  {
    var n := |before| - 1;
    HitsEvery(p, |before|, n);
    var k :| 0 <= k < |p| && p[k] == n;
    assert k == n || SortKey(after[k].header, false) <= SortKey(after[n].header, false);
  }

  /** The last section of the list lies above all others in memory, and behind all that have data
      in the file. */
  ghost predicate LastAbove(ss: seq<PEFileSection>, a: nat)
    requires a < DWORDS
  {
    && ss != []
    && forall i :: 0 <= i < |ss| - 1 ==>
         && AlignValue(ss[i].header.virtualAddress, a) < AlignValue(ss[|ss| - 1].header.virtualAddress, a)
         && (ss[i].data.Length > 0 ==> ss[i].header.pointerToRawData < ss[|ss| - 1].header.pointerToRawData)
  }

  /** With such a last section, the last write covers everything: the saved file loads back. */
  lemma LastCoversAll(header: seq<Byte>, before: seq<PEFileSection>, after: seq<PEFileSection>, p: seq<nat>,
                      rs: seq<Raw>, mems: seq<seq<Byte>>, overlay: seq<Byte>, a: nat)
    requires a < DWORDS && LastAbove(before, a) && before[|before| - 1].data.Length > 0
    requires |after| == |before| == |rs| == |mems| && IsPermutation(p, |before|) && SortedBy(after, false)
    requires forall i :: 0 <= i < |after| ==> AlignedCopy(before[p[i]], after[i], a)
    requires RawOrderKept(before, after, p) && Arranged(rs, |header|)
    requires forall i :: 0 <= i < |rs| ==>
      rs[i].at == after[i].header.pointerToRawData && rs[i].size == after[i].header.sizeOfRawData
    requires forall i :: 0 <= i < |rs| ==> |rs[i].data| == after[i].data.Length && CutFrom(rs[i].data, mems[p[i]])
    ensures p[|before| - 1] == |before| - 1
    ensures forall i :: 0 <= i < |after| ==>
      LoadSection(Saved(header, rs, overlay), after[i].header, |mems[p[i]]|) == mems[p[i]]
  {
    var n := |before| - 1;
    LastStaysLast(before, after, p, a);
    assert Covered(rs, rs[n].End()) by {
      forall i | 0 <= i < n && rs[i].data != [] ensures rs[i].End() <= rs[n].End() {
        assert p[i] != p[n];
      }
    }
    if overlay == [] {
      CoveredIffLastSafe(header, rs);
    } else {
      CoveredByOverlay(header, rs, overlay);
    }
    RestoredWhenCovered(header, rs, overlay);
    forall i | 0 <= i < |after|
      ensures LoadSection(Saved(header, rs, overlay), after[i].header, |mems[p[i]]|) == mems[p[i]] {
      LoadRestored(Saved(header, rs, overlay), rs[i], after[i].header, mems[p[i]]);
    }
  }

  /** Nothing is cut behind a byte that is not zero. */
  lemma WholeData(data: seq<Byte>, mem: seq<Byte>)
    requires Trimmed(data, mem) && mem != [] && mem[|mem| - 1] != 0
    ensures data == mem
  {
    assert !(|data| < |mem|);
  }

  /** A byte written in front of the end of the headers replaces theirs. */
  lemma OneByteWritten(header: seq<Byte>, file: seq<Byte>)
    requires |header| == 544 && file == Saved(header, [Raw(512, 0x200, [5])], [])
    ensures 544 <= |file| && file[512] == 5
  {
    var w, r := Writer(header, 544, 544), Raw(512, 0x200, [5]);
    assert WriteAll(w, [r]) == WriteSection(w, r);
    OverwriteAt(header, 512, [5], 512);
    OverwriteAt(WriteData(w, r).bytes, 545, Zeros(511), 512);
  }

  // ------------------------------------------------------------------ the parser

  class PEParser {
    const memory: seq<Byte>                // the mapped module or file
    const isFileMap: bool
    const original: seq<SectionHeader>     // its section table
    const eLfanew: nat
    const ntHeader: seq<Byte>              // signature, file header and optional header, as written
    const sizeOfOptionalHeader: nat        // as the file header states it
    const fileAlignment: nat
    const sectionAlignment: nat

    var sections: seq<PEFileSection>
    var sizeOfImage: nat
    var importRva: nat
    var importSize: nat

    ghost predicate Valid() {
      && IsPow2(fileAlignment) && fileAlignment <= 0x8000_0000
      && IsPow2(sectionAlignment) && sectionAlignment <= 0x8000_0000
      && DOS_HEADER_SIZE <= |memory| && eLfanew <= |memory|
    }

    constructor (memory: seq<Byte>, isFileMap: bool, original: seq<SectionHeader>, eLfanew: nat,
                 ntHeader: seq<Byte>, sizeOfOptionalHeader: nat, fileAlignment: nat, sectionAlignment: nat)
      ensures this.memory == memory && this.isFileMap == isFileMap && this.original == original
      ensures this.eLfanew == eLfanew && this.ntHeader == ntHeader && this.sizeOfOptionalHeader == sizeOfOptionalHeader
      ensures this.fileAlignment == fileAlignment && this.sectionAlignment == sectionAlignment
      ensures sections == []
    {
      this.memory, this.isFileMap, this.original, this.eLfanew := memory, isFileMap, original, eLfanew;
      this.ntHeader, this.sizeOfOptionalHeader := ntHeader, sizeOfOptionalHeader;
      this.fileAlignment, this.sectionAlignment := fileAlignment, sectionAlignment;
      sections, sizeOfImage, importRva, importSize := [], 0, 0, 0;
    }

    /** Where the headers end, as the layout pass estimates it: by the optional header's size in the
        mapped file header. */
    function HeadersEnd(count: nat): nat {
      eLfanew + SIGNATURE_AND_FILE_HEADER + sizeOfOptionalHeader + count * SECTION_HEADER_SIZE
    }

    /** Where the layout pass puts the first raw range. */
    function FirstRaw(count: nat): nat
      requires fileAlignment < DWORDS
    {
      AlignValue(HeadersEnd(count), fileAlignment)
    }

    /** Where a loader looks for the section table: behind the headers as they are written. */
    function TableAt(): nat { eLfanew + |ntHeader| }

    /** The headers, as they are written, are where a loader looks for them and end in front of the
        first raw range. */
    ghost predicate HeadersFit(count: nat)
      requires fileAlignment < DWORDS
    {
      DOS_HEADER_SIZE <= eLfanew && TableAt() + count * SECTION_HEADER_SIZE <= FirstRaw(count)
    }

    function SourceOffset(h: SectionHeader): nat {
      if isFileMap then h.pointerToRawData else h.virtualAddress
    }

    function SourceSize(h: SectionHeader): nat {
      if isFileMap then h.sizeOfRawData else h.virtualSize
    }

    function SourceSizes(): seq<nat> {
      seq(|original|, i requires 0 <= i < |original| => SourceSize(original[i]))
    }

    /** A section's bytes in the source; a section at offset 0 has none. */
    function SourceBytes(h: SectionHeader): seq<Byte>
      requires SourceOffset(h) + SourceSize(h) <= |memory|
    {
      if SourceOffset(h) == 0 then [] else memory[SourceOffset(h)..SourceOffset(h) + SourceSize(h)]
    }

    ghost predicate SourceInBounds() {
      forall i :: 0 <= i < |original| ==> SourceOffset(original[i]) + SourceSize(original[i]) <= |memory|
    }

    /** Cuts a section's trailing zeros, keeping up to four of them. */
    method GetPESectionData(offset: nat, readSize: nat) returns (data: array<Byte>)
      requires offset + readSize <= |memory|
      ensures fresh(data)
      ensures var source := if offset == 0 then [] else memory[offset..offset + readSize];
        Trimmed(data[..], source) && FourZerosKept(data[..], source)
    {
      if readSize == 0 || offset == 0 {
        return new Byte[0];
      }
      var lastNonZero := readSize;
      ghost var source := memory[offset..offset + readSize];
      while lastNonZero > 0 && memory[offset + lastNonZero - 1] == 0
        invariant 0 <= lastNonZero <= readSize
        invariant forall k :: lastNonZero <= k < readSize ==> source[k] == 0
      {
        lastNonZero := lastNonZero - 1;
      }
      if lastNonZero == 0 {
        return new Byte[0];
      }
      var size := if readSize < lastNonZero + 4 then readSize else lastNonZero + 4;
      data := new Byte[size](i requires 0 <= i < size => memory[offset + i]);
      assert data[lastNonZero - 1] != 0 && source[lastNonZero - 1] != 0;
      assert data[..] == memory[offset..offset + size] == source[..size];
    }

    method GetPESections()
      requires SourceInBounds()
      modifies this`sections
      ensures |sections| == |original|
      ensures forall i :: 0 <= i < |sections| ==>
        sections[i].header == original[i] && sections[i].normalSize == SourceSize(original[i]) &&
        Trimmed(sections[i].data[..], SourceBytes(original[i]))
          && FourZerosKept(sections[i].data[..], SourceBytes(original[i]))
      ensures forall i :: 0 <= i < |sections| ==> fresh(sections[i].data)
    {
      hide Trimmed, FourZerosKept;
      sections := [];
      for i := 0 to |original|
        invariant |sections| == i && forall k :: 0 <= k < i ==> fresh(sections[k].data)
        invariant forall k :: 0 <= k < i ==>
          sections[k].header == original[k] && sections[k].normalSize == SourceSize(original[k]) &&
          Trimmed(sections[k].data[..], SourceBytes(original[k]))
            && FourZerosKept(sections[k].data[..], SourceBytes(original[k]))
      {
        var h := original[i];
        var data := GetPESectionData(SourceOffset(h), SourceSize(h));
        sections := sections + [PEFileSection(h, data, SourceSize(h))];
      }
    }

    /** std::sort over the section list. */
    method SortSections(byRaw: bool) returns (ghost p: seq<nat>)
      modifies this`sections
      ensures Sorted(old(sections), sections, p, byRaw)
    {
      sections, p := SortedCopy(sections, byRaw);
    }

    /** Rounds virtual ranges up in place and packs the raw ranges behind the headers, in the order
        of the old raw pointers; the list ends up in virtual order. */
    method AlignAllSectionHeaders() returns (ghost p: seq<nat>)
      requires Valid()
      requires HeadersEnd(|sections|) + Need(sections, fileAlignment) < 0x8000_0000
      modifies this`sections
      ensures IsPermutation(p, |old(sections)|) && |sections| == |old(sections)|
      ensures forall i :: 0 <= i < |sections| ==> AlignedCopy(old(sections)[p[i]], sections[i], sectionAlignment)
      ensures Packed(sections, FirstRaw(|sections|), fileAlignment)
      ensures SortedBy(sections, false)
      ensures forall i :: 0 <= i < |sections| ==> Words(sections[i].header)
      ensures SameOrder(old(sections), sectionAlignment) ==> InFileOrder(sections)
      ensures RawOrderKept(old(sections), sections, p)
    {
      hide Packed, RawOrderKept, SameOrder, InFileOrder, SortedBy, AlignedCopy, AlignValue, Words, Need;
      ghost var first := FirstRaw(|sections|);
      ghost var before := sections;
      ghost var p1 := SortSections(true);
      ghost var sorted := sections;
      PackSections();
      ghost var packed := sections;
      ghost var p2 := SortSections(false);
      WordsReordered(packed, sections, p2);
      p := AlignedOrder(before, sorted, packed, sections, p1, p2, first, fileAlignment, sectionAlignment);
    }

    /** The loop between the two sorts. */
    method PackSections()
      requires Valid()
      requires HeadersEnd(|sections|) + Need(sections, fileAlignment) < 0x8000_0000
      modifies this`sections
      ensures |sections| == |old(sections)|
      ensures InFileOrder(sections)
      ensures forall i :: 0 <= i < |sections| ==> AlignedCopy(old(sections)[i], sections[i], sectionAlignment)
      ensures forall i :: 0 <= i < |sections| ==> Words(sections[i].header)
      ensures Packed(sections, FirstRaw(|sections|), fileAlignment)
    {
      hide AlignValue, RawAligned, FollowsOn, AlignedCopy, Words;
      ghost var sorted, first := sections, FirstRaw(|sections|);
      var newFileSize: nat := HeadersEnd(|sections|);
      NothingPacked(first, newFileSize);
      for i := 0 to |sections|
        invariant |sections| == |sorted|
        invariant forall k :: i <= k < |sections| ==> sections[k] == sorted[k]
        invariant forall k :: 0 <= k < i ==>
          AlignedCopy(sorted[k], sections[k], sectionAlignment) && Words(sections[k].header)
        invariant PackedInOrder(sections[..i], first, fileAlignment, newFileSize)
        invariant newFileSize + Need(sorted[i..], fileAlignment) < 0x8000_0000
      {
        assert sorted[i] == sorted[i..][0] && sorted[i..][1..] == sorted[i + 1..];
        var t := PackOne(sections[i], newFileSize);
        PackNext(sections[..i], first, fileAlignment, newFileSize, t);
        ghost var done := sections[..i];
        sections := sections[i := t];
        assert sections[..i + 1] == done + [t];
        newFileSize := t.header.RawEnd();
      }
      assert sections[..|sections|] == sections;
      InOrderIsPacked(sections, first, fileAlignment, newFileSize);
    }

    lemma NothingPacked(first: nat, end: nat)
      requires fileAlignment < DWORDS && first == AlignValue(end, fileAlignment) && 1 <= fileAlignment
      ensures PackedInOrder([], first, fileAlignment, end)
    {
      hide AlignValue;
    }

    /** The four assignments to one section header. */
    method PackOne(s: PEFileSection, newFileSize: nat) returns (t: PEFileSection)
      requires Valid() && newFileSize + s.data.Length + 2 * fileAlignment < 0x8000_0000
      ensures AlignedCopy(s, t, sectionAlignment) && RawAligned(t, fileAlignment) && Words(t.header)
      ensures newFileSize <= t.header.pointerToRawData == AlignValue(newFileSize, fileAlignment)
      ensures AlignValue(t.header.RawEnd(), fileAlignment) == t.header.RawEnd()
      ensures t.header.RawEnd() <= newFileSize + s.data.Length + 2 * fileAlignment
    {
      hide AlignValue, IsPow2;
      var h := s.header;
      AlignUp(newFileSize, fileAlignment);
      AlignUp(s.data.Length, fileAlignment);
      LeastMultiple(0, fileAlignment, 0);
      AlignBound(h.virtualAddress, sectionAlignment);
      AlignBound(h.virtualSize, sectionAlignment);
      t := PEFileSection(SectionHeader(
        AlignValue(h.virtualAddress, sectionAlignment), AlignValue(h.virtualSize, sectionAlignment),
        AlignValue(newFileSize, fileAlignment), AlignValue(s.data.Length, fileAlignment)), s.data, s.normalSize);
      SumOfMultiples(t.header.pointerToRawData, t.header.sizeOfRawData, fileAlignment);
      LeastMultiple(t.header.RawEnd(), fileAlignment, t.header.RawEnd());
      AlignUp(t.header.RawEnd(), fileAlignment);
    }

    /** The end of the last section in memory. */
    method GetSectionHeaderBasedSizeOfImage() returns (r: nat)
      ensures forall i :: 0 <= i < |sections| ==> sections[i].header.VirtualEnd() <= r
      ensures r == 0 || exists i :: 0 <= i < |sections| && sections[i].header.VirtualEnd() == r
    {
      var lastOffset, lastSize := 0, 0;
      for i := 0 to |sections|
        invariant forall k :: 0 <= k < i ==> sections[k].header.VirtualEnd() <= lastOffset + lastSize
        invariant lastOffset + lastSize == 0 || exists k ::
          0 <= k < i && sections[k].header.VirtualEnd() == lastOffset + lastSize
      {
        if sections[i].header.VirtualEnd() > lastOffset + lastSize {
          lastOffset, lastSize := sections[i].header.virtualAddress, sections[i].header.virtualSize;
        }
      }
      r := lastSize + lastOffset;
    }

    method FixPEHeader()
      modifies this`sizeOfImage
      ensures EndsImage()
    {
      sizeOfImage := GetSectionHeaderBasedSizeOfImage();
      if sections != [] {
        assert sections[0].header.VirtualEnd() <= sizeOfImage;
      }
    }

    /** SizeOfImage is the greatest end of a section in memory, or 0 without sections. */
    ghost predicate EndsImage()
      reads this`sections, this`sizeOfImage
    {
      if sections == [] then sizeOfImage == 0
      else
        && (forall i :: 0 <= i < |sections| ==> sections[i].header.VirtualEnd() <= sizeOfImage)
        && exists i :: 0 <= i < |sections| && sections[i].header.VirtualEnd() == sizeOfImage
    }

    ghost function Raws(): (rs: seq<Raw>)
      reads this, set s | s in sections :: s.data
      ensures |rs| == |sections|
    {
      RawsOf(sections)
    }

    /** The DOS header, always whole, and the stub behind it. */
    function Stub(): seq<Byte>
      requires DOS_HEADER_SIZE <= |memory| && eLfanew <= |memory|
    {
      memory[..if DOS_HEADER_SIZE < eLfanew then eLfanew else DOS_HEADER_SIZE]
    }

    /** DOS header and stub, NT headers and section table, as they are written. */
    function HeaderBytes(): seq<Byte>
      requires DOS_HEADER_SIZE <= |memory| && eLfanew <= |memory|
      reads this`sections
    {
      Stub() + ntHeader + TableBytes(sections)
    }

    /** Writes headers and sections in list order, then the overlay of a mapped file. The file ends
        at the last write. */
    method SavePEFileToDisk(file: OutputFile, overlay: seq<Byte>)
      requires Valid() && (!isFileMap ==> overlay == [])
      modifies file
      ensures file.bytes == Saved(HeaderBytes(), Raws(), overlay)
    {
      WriteHeaders(file);
      var fileOffset := WriteSections(file, file.pos);
      if overlay != [] {
        file.WriteMemory(fileOffset, overlay);
      }
      file.SetEndOfFile();
    }

    method WriteHeaders(file: OutputFile)
      requires Valid()
      modifies file
      ensures file.bytes == HeaderBytes() && file.pos == |HeaderBytes()|
    {
      hide Overwrite, TableBytes, EncodeHeader;
      file.bytes, file.pos := [], 0;
      var fileOffset := DOS_HEADER_SIZE;
      Appended([], memory[..DOS_HEADER_SIZE]);
      file.WriteMemory(0, memory[..DOS_HEADER_SIZE]);
      if eLfanew > DOS_HEADER_SIZE {
        Appended(file.bytes, memory[DOS_HEADER_SIZE..eLfanew]);
        file.WriteMemory(fileOffset, memory[DOS_HEADER_SIZE..eLfanew]);
        fileOffset := eLfanew;
      }
      assert file.bytes == Stub();
      Appended(file.bytes, ntHeader);
      file.WriteMemory(fileOffset, ntHeader);
      WriteTable(file, fileOffset + |ntHeader|);
    }

    /** The section table, header by header. */
    method WriteTable(file: OutputFile, start: nat)
      requires file.pos == |file.bytes| == start
      modifies file
      ensures file.bytes == old(file.bytes) + TableBytes(sections) && file.pos == |file.bytes|
    {
      hide Overwrite, EncodeHeader;
      var fileOffset := start;
      for i := 0 to |sections|
        invariant file.bytes == old(file.bytes) + TableBytes(sections[..i])
        invariant fileOffset == file.pos == |file.bytes|
      {
        TableSnoc(sections, i);
        Appended(file.bytes, EncodeHeader(sections[i].header));
        file.WriteMemory(fileOffset, EncodeHeader(sections[i].header));
        fileOffset := fileOffset + SECTION_HEADER_SIZE;
      }
      assert sections[..|sections|] == sections;
    }

    method WriteSections(file: OutputFile, start: nat) returns (fileOffset: nat)
      modifies file
      ensures Writer(file.bytes, fileOffset, file.pos)
        == WriteAll(Writer(old(file.bytes), start, old(file.pos)), Raws())
    {
      ghost var w0, rs := Writer(file.bytes, start, file.pos), Raws();
      fileOffset := start;
      assert rs[0..] == rs;
      for i := 0 to |sections|
        invariant rs == Raws()
        invariant WriteAll(Writer(file.bytes, fileOffset, file.pos), rs[i..]) == WriteAll(w0, rs)
      {
        assert rs[i..][0] == rs[i] && rs[i..][1..] == rs[i + 1..];
        fileOffset := WriteOneSection(file, sections[i], fileOffset);
      }
    }

    method PadFile(file: OutputFile, offset: nat, to: nat) returns (fileOffset: nat)
      modifies file
      ensures Writer(file.bytes, fileOffset, file.pos) == PadTo(Writer(old(file.bytes), offset, old(file.pos)), to)
    {
      fileOffset := offset;
      if to > fileOffset {
        file.WriteZeroMemory(fileOffset, to - fileOffset);
        fileOffset := to;
      }
    }

    /** One round of the section loop: pad up to the section, write it, pad it to its raw size. */
    method WriteOneSection(file: OutputFile, s: PEFileSection, offset: nat) returns (fileOffset: nat)
      modifies file
      ensures Writer(file.bytes, fileOffset, file.pos)
        == WriteSection(Writer(old(file.bytes), offset, old(file.pos)), RawOf(s))
    {
      fileOffset := offset;
      if s.header.pointerToRawData == 0 {
        return;
      }
      fileOffset := PadFile(file, fileOffset, s.header.pointerToRawData);
      if s.data.Length != 0 {
        var end: nat := fileOffset + s.header.sizeOfRawData;
        file.WriteMemory(s.header.pointerToRawData, s.data[..]);
        fileOffset := PadFile(file, fileOffset + s.data.Length, end);
      }
    }

    // ---------------------------------------------------------------- lookups and a new section

    /** The end of the raw data, by the section table as it was mapped. */
    method GetSectionHeaderBasedFileSize() returns (r: nat)
      ensures forall i :: 0 <= i < |original| ==> original[i].RawEnd() <= r
      ensures r == 0 || exists i :: 0 <= i < |original| && original[i].RawEnd() == r
    {
      var lastOffset, lastSize := 0, 0;
      for i := 0 to |original|
        invariant forall k :: 0 <= k < i ==> original[k].RawEnd() <= lastOffset + lastSize
        invariant lastOffset + lastSize == 0 || exists k :: 0 <= k < i && original[k].RawEnd() == lastOffset + lastSize
      {
        if original[i].RawEnd() > lastOffset + lastSize {
          lastOffset, lastSize := original[i].pointerToRawData, original[i].sizeOfRawData;
        }
      }
      r := lastSize + lastOffset;
    }

    /** Appends a zero-filled section behind all others, in the file and in memory. */
    method AddNewLastSection(size: nat)
      requires Valid()
      requires HeadersOf(sections) == original
      requires size + sectionAlignment < DWORDS
      requires forall h :: h in original ==>
        h.RawEnd() + fileAlignment < DWORDS && h.VirtualEnd() + sectionAlignment < DWORDS
      modifies this`sections
      ensures |sections| == |old(sections)| + 1 && sections[..|old(sections)|] == old(sections)
      ensures fresh(sections[|old(sections)|].data) && sections[|old(sections)|].data[..] == Zeros(size)
      ensures var h := sections[|old(sections)|].header;
        && h.sizeOfRawData == size && size <= h.virtualSize
        && h.virtualAddress % sectionAlignment == 0 && h.pointerToRawData % fileAlignment == 0
        && (forall k :: k in original ==> k.RawEnd() <= h.pointerToRawData && k.VirtualEnd() <= h.virtualAddress)
        && (h.pointerToRawData == 0
            || exists k :: k in original && h.pointerToRawData == AlignValue(k.RawEnd(), fileAlignment))
        && (h.virtualAddress == 0
            || exists k :: k in original && h.virtualAddress == AlignValue(k.VirtualEnd(), sectionAlignment))
    {
      var fileEnd := GetSectionHeaderBasedFileSize();
      var imageEnd := GetSectionHeaderBasedSizeOfImage();
      AlignUp(size, sectionAlignment);
      AlignUp(fileEnd, fileAlignment);
      AlignUp(imageEnd, sectionAlignment);
      LeastMultiple(0, fileAlignment, 0);
      LeastMultiple(0, sectionAlignment, 0);
      var data := new Byte[size](_ => 0);
      assert data[..] == Zeros(size);
      forall k | k in original ensures k.VirtualEnd() <= imageEnd && k.RawEnd() <= fileEnd {
        var i :| 0 <= i < |original| && original[i] == k;
        assert HeadersOf(sections)[i] == sections[i].header;
      }
      sections := sections + [PEFileSection(
        SectionHeader(AlignValue(imageEnd, sectionAlignment), AlignValue(size, sectionAlignment),
                      AlignValue(fileEnd, fileAlignment), size), data, size)];
    }

    /** The RVA at which the byte at a file offset is mapped; 0 when no section holds it. */
    method FileOffsetToRva(offset: nat) returns (rva: nat)
      ensures rva == RvaOfOffset(HeadersOf(sections), offset)
    {
      for i := 0 to |sections|
        invariant RvaOfOffset(HeadersOf(sections), offset) == RvaOfOffset(HeadersOf(sections)[i..], offset)
      {
        var h := sections[i].header;
        assert HeadersOf(sections)[i..][0] == h && HeadersOf(sections)[i..][1..] == HeadersOf(sections)[i + 1..];
        if h.pointerToRawData <= offset && h.RawEnd() > offset {
          return offset - h.pointerToRawData + h.virtualAddress;
        }
      }
      return 0;
    }

    // ---------------------------------------------------------------- dumping a module

    /** The sections of a module mapped in memory: behind the headers, aligned, within 32 bits. */
    ghost predicate MappedModule() {
      && !isFileMap && SourceInBounds() && sectionAlignment >= 1
      && forall i :: 0 <= i < |original| ==>
           0 < original[i].virtualAddress && original[i].virtualAddress % sectionAlignment == 0
           && original[i].VirtualEnd() + sectionAlignment <= DWORDS
    }

    /** What the section in slot i of the file was in memory. */
    ghost function InMemory(i: nat): seq<Byte>
      requires MappedModule() && i < |original|
    {
      memory[original[i].virtualAddress..original[i].VirtualEnd()]
    }

    ghost function Memories(p: seq<nat>): (mems: seq<seq<Byte>>)
      requires MappedModule() && IsPermutation(p, |original|)
      ensures |mems| == |p|
    {
      seq(|p|, i requires 0 <= i < |p| => InMemory(p[i]))
    }

    /** Every section of the module is one section of the file, at its own virtual address, in the order
        of addresses; raw ranges are aligned, disjoint and without gaps; SizeOfImage ends with the sections. */
    ghost predicate LaidOut(p: seq<nat>)
      requires Valid() && MappedModule()
      reads this
    {
      && IsPermutation(p, |original|) && |sections| == |original| && SortedBy(sections, false)
      && (forall i :: 0 <= i < |sections| ==>
           sections[i].header.virtualAddress == original[p[i]].virtualAddress &&
           sections[i].header.virtualSize == AlignValue(original[p[i]].virtualSize, sectionAlignment) &&
           Words(sections[i].header))
      && EndsImage()
      && (forall i, j :: 0 <= i < |sections| && 0 <= j < |sections| ==>
           (original[p[i]].pointerToRawData < original[p[j]].pointerToRawData ==>
            sections[i].header.RawEnd() <= sections[j].header.pointerToRawData))
      && Packed(sections, FirstRaw(|sections|), fileAlignment)
    }

    /** The passes ahead of the save. */
    method LayOutModule() returns (ghost p: seq<nat>)
      requires Valid() && MappedModule()
      requires HeadersEnd(|original|) + SpaceBound(SourceSizes(), fileAlignment) < 0x8000_0000
      modifies this`sections, this`sizeOfImage
      ensures LaidOut(p)
      ensures Holding(sections, Raws(), Memories(p))
      ensures HeadersSameOrder(original) ==> InFileOrder(sections)
    {
      hide Trimmed, FourZerosKept, Packed, AlignedCopy, RawOrderKept,
        SameOrder, HeadersSameOrder, InFileOrder, SortedBy, AlignValue,
        Words, Need, SpaceBound, Reorders, EndsImage, IsPow2, SourceBytes, InMemory, Memories, Raws, Holding;
      GetPESections();
      ghost var before := sections;
      ReadSizes(before);
      p := AlignAllSectionHeaders();
      FixPEHeader();
      OwnAddresses(before, p);
      HoldingSource(before, p);
      OwnRawOrder(before, p);
      if HeadersSameOrder(original) {
        SameOrderBefore(before);
      }
    }

    /** What was read needs no more space than the sections of the source. */
    lemma {:induction false} ReadSizes(before: seq<PEFileSection>)
      requires SourceInBounds() && |before| == |original|
      requires forall i :: 0 <= i < |before| ==> Trimmed(before[i].data[..], SourceBytes(original[i]))
      ensures Need(before, fileAlignment) <= SpaceBound(SourceSizes(), fileAlignment)
    {
      forall i | 0 <= i < |before| ensures before[i].data.Length <= SourceSizes()[i] {
        assert before[i].data[..] <= SourceBytes(original[i]);
      }
      NeedWithin(before, SourceSizes(), fileAlignment);
    }

    lemma OwnRawOrder(before: seq<PEFileSection>, p: seq<nat>)
      requires IsPermutation(p, |before|) && |before| == |sections| == |original| && RawOrderKept(before, sections, p)
      requires forall i :: 0 <= i < |before| ==> before[i].header == original[i]
      ensures forall i, j :: 0 <= i < |sections| && 0 <= j < |sections| ==>
        (original[p[i]].pointerToRawData < original[p[j]].pointerToRawData ==>
         sections[i].header.RawEnd() <= sections[j].header.pointerToRawData)
    {
    }

    lemma HoldingSource(before: seq<PEFileSection>, p: seq<nat>)
      requires Valid() && MappedModule() && IsPermutation(p, |original|) && |before| == |sections| == |original|
      requires forall i :: 0 <= i < |before| ==> Trimmed(before[i].data[..], SourceBytes(original[i]))
      requires forall i :: 0 <= i < |sections| ==> AlignedCopy(before[p[i]], sections[i], sectionAlignment)
      ensures Holding(sections, Raws(), Memories(p))
    {
      forall i | 0 <= i < |sections| ensures Trimmed(Raws()[i].data, Memories(p)[i]) {
        assert before[p[i]].data == sections[i].data;
      }
    }

    /** Dumps the mapped module. Virtual ranges that were disjoint stay so. The raw ranges clear the
        headers exactly if the first one does. If it does, the section table of the file is that of the
        list, and loading the file by it gives the module's memory back exactly when the last section in
        memory that has data is shorter than its raw size or lies behind all others in the file; so it
        always does when sections lie in memory in the order of their raw pointers. */
    method DumpProcess(file: OutputFile) returns (ghost p: seq<nat>)
      requires Valid() && MappedModule()
      requires HeadersEnd(|original|) + SpaceBound(SourceSizes(), fileAlignment) < 0x8000_0000
      modifies this`sections, this`sizeOfImage, file
      ensures Dumped(p, file.bytes)
      ensures VirtualDisjoint(original) ==> VirtualDisjoint(HeadersOf(sections))
      ensures original != [] ==>
        ((forall i :: 0 <= i < |sections| ==> |HeaderBytes()| <= sections[i].header.pointerToRawData)
         <==> |HeaderBytes()| <= FirstRaw(|original|))
      ensures HeadersFit(|original|) ==> ReadsBack(p, file.bytes)
    {
      hide Saved, LaidOut, Holding, HeadersSameOrder, InFileOrder;
      hide ReadsBack, VirtualDisjoint, AlignValue, SpaceBound, HeaderBytes;
      p := LayOutModule();
      SavePEFileToDisk(file, []);
      LaidOutParts(p);
      if original != [] {
        ClearIffFirst(sections, FirstRaw(|original|), fileAlignment, |HeaderBytes()|);
      }
      if HeadersFit(|original|) {
        SavedModule(p, file.bytes);
      }
      if VirtualDisjoint(original) {
        StillDisjoint(p);
      }
    }

    lemma LaidOutParts(p: seq<nat>)
      requires Valid() && MappedModule() && LaidOut(p)
      ensures IsPermutation(p, |original|) && |sections| == |original|
      ensures Packed(sections, FirstRaw(|sections|), fileAlignment)
      ensures forall i :: 0 <= i < |sections| ==>
        sections[i].header.virtualAddress == original[p[i]].virtualAddress &&
        sections[i].header.virtualSize == AlignValue(original[p[i]].virtualSize, sectionAlignment)
    {
      hide Packed, AlignValue, Words, SortedBy;
    }

    /** A dump of the module: its sections laid out, and the file as the save writes it. */
    ghost predicate Dumped(p: seq<nat>, file: seq<Byte>)
      requires Valid() && MappedModule()
      reads this, set s | s in sections :: s.data
    {
      && LaidOut(p) && Holding(sections, Raws(), Memories(p)) && (HeadersSameOrder(original) ==> InFileOrder(sections))
      && file == Saved(HeaderBytes(), Raws(), [])
    }

    /** The file has the module's own first bytes up to the NT headers, and the NT headers behind them. */
    ghost predicate StartsLike(file: seq<Byte>) {
      var n := if eLfanew < 64 then 64 else eLfanew;
      n + |ntHeader| <= |file| && n <= |memory| && file[..n] == memory[..n] && file[n..n + |ntHeader|] == ntHeader
    }

    lemma FrontKept(file: seq<Byte>)
      requires Valid() && |HeaderBytes()| <= |file| && file[..|HeaderBytes()|] == HeaderBytes()
      ensures StartsLike(file)
    {
      hide TableBytes;
      var n, header := if eLfanew < 64 then 64 else eLfanew, HeaderBytes();
      var front := memory[..n];
      assert header == front + ntHeader + TableBytes(sections);
      Parts(file, front, ntHeader, TableBytes(sections));
    }

    lemma Parts(file: seq<Byte>, a: seq<Byte>, b: seq<Byte>, c: seq<Byte>)
      requires |a + b + c| <= |file| && file[..|a + b + c|] == a + b + c
      ensures file[..|a|] == a && file[|a|..|a| + |b|] == b
    {
      var whole := file[..|a + b + c|];
      assert forall i :: 0 <= i < |a| ==> file[i] == whole[i] == a[i];
      assert forall i :: 0 <= i < |b| ==> file[|a| + i] == whole[|a| + i] == b[i];
    }

    /** What a loader makes of the file. */
    ghost predicate ReadsBack(p: seq<nat>, file: seq<Byte>)
      requires Valid() && MappedModule() && IsPermutation(p, |original|)
      reads this, set s | s in sections :: s.data
    {
      && StartsLike(file) && TableAt() + SECTION_HEADER_SIZE * |sections| <= |file|
      && DecodeTable(file, TableAt(), |sections|) == HeadersOf(sections)
      && (LoadsBack(file, TableAt(), Memories(p)) <==> TailSafe(Raws()))
      && (HeadersSameOrder(original) ==> LoadsBack(file, TableAt(), Memories(p)))
    }

    lemma SavedModule(p: seq<nat>, file: seq<Byte>)
      requires Valid() && MappedModule() && Dumped(p, file) && HeadersFit(|original|)
      ensures ReadsBack(p, file)
    {
      hide Saved, FinalPos, Arranged, Holding, Packed, LoadsBack;
      hide DecodeTable, TableIn, TailSafe, Tight, Covered, HeadersSameOrder;
      var header, rs := HeaderBytes(), Raws();
      HeaderOfList(FirstRaw(|original|));
      HeaderKept(header, rs, []);
      FrontKept(file);
      TableKept(header, TableAt(), sections, file);
      LoadsBackIffCovered(header, TableAt(), sections, rs, Memories(p));
      CoveredIffTailSafe(header, rs, FirstRaw(|original|));
      if HeadersSameOrder(original) {
        RawsInOrder(sections, rs);
        CoveredInOrder(header, rs, []);
      }
    }

    /** A packed list behind headers that fit. */
    lemma HeaderOfList(first: nat)
      requires Valid() && Packed(sections, first, fileAlignment)
      requires first == FirstRaw(|sections|) && HeadersFit(|sections|)
      requires forall i :: 0 <= i < |sections| ==> Words(sections[i].header)
      ensures Arranged(Raws(), |HeaderBytes()|) && TableIn(HeaderBytes(), TableAt(), sections) && Tight(Raws(), first)
    {
      hide TableBytes, AlignValue, IsPow2, Words, Packed, Arranged, Tight;
      ArrangedRaws(first);
      assert HeaderBytes()[TableAt()..] == TableBytes(sections);
    }

    /** A module with headers of 392 bytes whose second section in memory was the first one in its file
        and fills its raw range: the file ends behind it, and the other section is lost. */
    lemma CutsOff(p: seq<nat>, file: seq<Byte>)
      requires Valid() && MappedModule() && Dumped(p, file) && fileAlignment == 0x200 && sectionAlignment == 0x1000
      requires eLfanew == 64 && sizeOfOptionalHeader == 224 && |ntHeader| == SIGNATURE_AND_FILE_HEADER + 224
      requires original == [SectionHeader(0x1000, 1, 0x600, 0x200), SectionHeader(0x2000, 0x200, 0x400, 0x200)]
      requires memory[0x1000] != 0 && memory[0x21FF] != 0
      ensures HeadersFit(2) && !LoadsBack(file, TableAt(), Memories(p))
    {
      hide Saved, AlignValue, LoadsBack, DecodeTable, TableBytes, HeaderBytes, LaidOut, Trimmed, TailSafe, IsPow2;
      AlignUp(HeadersEnd(2), 0x200);
      TwoInOrder(p);
      assert Memories(p)[0] == InMemory(0) && Memories(p)[1] == InMemory(1);
      WholeData(Raws()[0].data, InMemory(0));
      WholeData(Raws()[1].data, InMemory(1));
      CutTail(Raws());
      SavedModule(p, file);
    }

    lemma TwoInOrder(p: seq<nat>)
      requires Valid() && MappedModule() && LaidOut(p) && fileAlignment == 0x200
      requires |original| == 2 && original[0].virtualAddress < original[1].virtualAddress
      requires original[1].pointerToRawData < original[0].pointerToRawData
      ensures p == [0, 1] && sections[1].header.RawEnd() <= sections[0].header.pointerToRawData
      ensures RawAligned(sections[0], 0x200) && RawAligned(sections[1], 0x200)
    {
      hide AlignValue, Words, IsPow2;
      assert SortKey(sections[0].header, false) <= SortKey(sections[1].header, false);
    }

    lemma CutTail(rs: seq<Raw>)
      requires |rs| == 2 && |rs[0].data| == 1 && |rs[1].data| == rs[1].size == 0x200 && rs[0].size > 0
      requires rs[1].End() <= rs[0].at
      ensures !TailSafe(rs)
    {
      assert LastWithData(rs, 1);
    }

    /** A module with an optional header of 96 bytes, which the save widens to 224: the first raw range is
        at 512, the written headers end at 544, and the data damages the section table. */
    lemma ShortOptionalHeader(p: seq<nat>, file: seq<Byte>)
      requires Valid() && MappedModule() && Dumped(p, file) && fileAlignment == 0x200 && sectionAlignment == 0x1000
      requires eLfanew == 256 && sizeOfOptionalHeader == 96 && |ntHeader| == SIGNATURE_AND_FILE_HEADER + 224
      requires original == [SectionHeader(0x1000, 1, 0x200, 0x200)] && memory[0x1000] == 5
      ensures |HeaderBytes()| == 544 && FirstRaw(1) == 512 && TableAt() == 504 && 544 <= |file|
      ensures DecodeTable(file, 504, 1) != HeadersOf(sections)
    {
      hide Saved, AlignValue, EncodeHeader, DecodeTable, IsPow2, Trimmed, EndsImage, HeadersSameOrder, InFileOrder;
      hide Words, SourceBytes;
      AlignUp(416, 0x200);
      AlignUp(1, 0x1000);
      assert Memories(p)[0] == InMemory(0) == [5];
      WholeData(Raws()[0].data, [5]);
      assert Raws() == [Raw(512, 0x200, [5])];
      OneByteWritten(HeaderBytes(), file);
      TableDamaged(file);
    }

    lemma TableDamaged(file: seq<Byte>)
      requires 544 <= |file| && file[512] == 5 && |sections| == 1 && sections[0].header.virtualSize % 0x1000 == 0
      ensures DecodeTable(file, 504, 1) != HeadersOf(sections)
    {
      hide DecodeTable;
      OneHeader(file, 504);
    }

    lemma SameOrderBefore(before: seq<PEFileSection>)
      requires Valid() && MappedModule() && HeadersSameOrder(original)
      requires |before| == |original| && forall i :: 0 <= i < |before| ==> before[i].header == original[i]
      ensures SameOrder(before, sectionAlignment)
    {
      forall i | 0 <= i < |original|
        ensures AlignValue(original[i].virtualAddress, sectionAlignment) == original[i].virtualAddress
      {
        VirtualAlreadyAligned(original[i], sectionAlignment);
      }
    }

    lemma OwnAddresses(before: seq<PEFileSection>, p: seq<nat>)
      requires Valid() && MappedModule() && IsPermutation(p, |original|) && |before| == |sections| == |original|
      requires forall i :: 0 <= i < |before| ==> before[i].header == original[i]
      requires forall i :: 0 <= i < |sections| ==> AlignedCopy(before[p[i]], sections[i], sectionAlignment)
      ensures forall i :: 0 <= i < |sections| ==>
        sections[i].header.virtualAddress == original[p[i]].virtualAddress &&
        sections[i].header.virtualSize == AlignValue(original[p[i]].virtualSize, sectionAlignment)
    {
      forall i | 0 <= i < |sections| ensures sections[i].header.virtualAddress == original[p[i]].virtualAddress {
        VirtualAlreadyAligned(original[p[i]], sectionAlignment);
      }
    }

    lemma ArrangedRaws(first: nat)
      requires Valid() && Packed(sections, first, fileAlignment) && |HeaderBytes()| <= first
      ensures Arranged(Raws(), |HeaderBytes()|) && Tight(Raws(), first)
    {
      hide EncodeTable, IsPow2;
      forall i | 0 <= i < |sections| && Raws()[i].at != first
        ensures exists j :: 0 <= j < |sections| && Raws()[j].data != [] && Raws()[i].at == Raws()[j].End()
      {
        var j :| 0 <= j < |sections| && sections[j].data.Length > 0
          && sections[i].header.pointerToRawData == sections[j].header.RawEnd();
        assert Raws()[j].data != [];
      }
    }

    lemma StillDisjoint(p: seq<nat>)
      requires Valid() && MappedModule() && VirtualDisjoint(original)
      requires IsPermutation(p, |original|) && |sections| == |original|
      requires forall i :: 0 <= i < |sections| ==>
        sections[i].header.virtualAddress == original[p[i]].virtualAddress &&
        sections[i].header.virtualSize == AlignValue(original[p[i]].virtualSize, sectionAlignment)
      ensures VirtualDisjoint(HeadersOf(sections))
    {
      forall i, j | 0 <= i < |sections| && 0 <= j < |sections| && i != j
        ensures sections[i].header.VirtualEnd() <= sections[j].header.virtualAddress ||
                sections[j].header.VirtualEnd() <= sections[i].header.virtualAddress
      {
        var h, k := original[p[i]], original[p[j]];
        assert p[i] != p[j];
        VirtualAlreadyAligned(h, sectionAlignment);
        VirtualAlreadyAligned(k, sectionAlignment);
        if h.VirtualEnd() <= k.virtualAddress {
          VirtualStaysDisjoint(h, k, sectionAlignment);
        } else {
          VirtualStaysDisjoint(k, h, sectionAlignment);
        }
      }
    }
  }
}
