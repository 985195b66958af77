/** The intrusive hash table: chains of entries that end in a tagged pointer to the table. */
module HashTables {
  import opened Arith
  import opened Bits
  import opened Bytes
  import opened Hashing
  import opened Chains

  /** A next pointer: an entry, the table with the low bit set, or either with the bits of a removed
      entry set. */
  datatype Link = Unlinked | To(node: Node) | Tag(table: HashTable) | Poisoned(link: Link)

  /** A single-list entry: a bucket's list head, or the link of an entry with its key. */
  class Node {
    var next: Link
    const key: Key

    constructor (key: Key)
      ensures this.key == key && next == Unlinked
    {
      this.key := key;
      next := Unlinked;
    }
  }

  /** The low bit of a next pointer. */
  predicate TagBit(link: Link) {
    match link
    case Tag(_) => true
    case Poisoned(l) => TagBit(l)
    case _ => false
  }

  predicate LastLink(bucket: Node)
    reads bucket
  {
    TagBit(bucket.next)
  }

  // ------------------------------------------------------------------ linked chains

  /** What precedes position i of the chain that hangs off `head`. */
  ghost function Before(head: Node, chain: seq<Node>, i: nat): Node
    requires i <= |chain|
  {
    if i == 0 then head else chain[i - 1]
  }

  ghost function LinkAt(chain: seq<Node>, i: nat, t: HashTable): Link
    requires i <= |chain|
  {
    if i == |chain| then Tag(t) else To(chain[i])
  }

  ghost predicate Linked(head: Node, chain: seq<Node>, t: HashTable)
    reads head, chain
  {
    forall i :: 0 <= i <= |chain| ==> Before(head, chain, i).next == LinkAt(chain, i, t)
  }

  /** No entry or head occurs twice. */
  ghost predicate Separate(heads: seq<Node>, chains: seq<seq<Node>>) {
    && |heads| == |chains|
    && (forall j, k :: 0 <= j < k < |heads| ==> heads[j] != heads[k])
    && (forall j, k, i :: 0 <= j < |heads| && 0 <= k < |chains| && 0 <= i < |chains[k]| ==> heads[j] != chains[k][i])
    && (forall j, i, k, l :: 0 <= j < |chains| && 0 <= i < |chains[j]| && 0 <= k < |chains| && 0 <= l < |chains[k]| ==>
         (chains[j][i] == chains[k][l] ==> j == k && i == l))
  }

  ghost predicate Apart(heads: seq<Node>, chains: seq<seq<Node>>, e: Node) {
    e !in heads && forall k, i :: 0 <= k < |chains| && 0 <= i < |chains[k]| ==> chains[k][i] != e
  }

  ghost predicate Within(heads: seq<Node>, chains: seq<seq<Node>>, nodes: set<Node>) {
    && (forall j :: 0 <= j < |heads| ==> heads[j] in nodes)
    && forall k, i :: 0 <= k < |chains| && 0 <= i < |chains[k]| ==> chains[k][i] in nodes
  }

  /** Every head carries its chain, every chain ends in the tag of t, and all of them are among
      `nodes`. */
  ghost predicate Chained(heads: seq<Node>, chains: seq<seq<Node>>, t: HashTable, nodes: set<Node>): (r: bool)
    reads nodes
    ensures r ==> |heads| == |chains| && Within(heads, chains, nodes)
  {
    && Separate(heads, chains) && Within(heads, chains, nodes)
    && forall j :: 0 <= j < |heads| ==> Linked(heads[j], chains[j], t)
  }

  lemma MoreNodes(heads: seq<Node>, chains: seq<seq<Node>>, t: HashTable, nodes: set<Node>, more: set<Node>)
    requires Chained(heads, chains, t, nodes)
    ensures Chained(heads, chains, t, nodes + more)
  {
  }

  lemma FewerNodes(heads: seq<Node>, chains: seq<seq<Node>>, t: HashTable, nodes: set<Node>, e: Node)
    requires Chained(heads, chains, t, nodes) && Apart(heads, chains, e)
    ensures Chained(heads, chains, t, nodes - {e})
  {
  }

  /** PushEntryList. */
  method PushEntry(ghost heads: seq<Node>, ghost chains: seq<seq<Node>>, ghost t: HashTable, ghost nodes: set<Node>,
                   ghost j: nat, head: Node, e: Node)
    returns (ghost r: seq<seq<Node>>)
    requires j < |heads| && heads[j] == head && e in nodes
    requires Chained(heads, chains, t, nodes) && Apart(heads, chains, e)
    modifies head, e
    ensures r == chains[j := [e] + chains[j]] && Chained(heads, r, t, nodes)
  {
    e.next := head.next;
    head.next := To(e);
    r := chains[j := [e] + chains[j]];
    forall k | 0 <= k < |heads| ensures Linked(heads[k], r[k], t) {
      forall i | 0 <= i <= |r[k]| ensures Before(heads[k], r[k], i).next == LinkAt(r[k], i, t) {
        var at := if k == j && i > 0 then i - 1 else i;
        assert old(Before(heads[k], chains[k], at).next) == LinkAt(chains[k], at, t);
      }
    }
  }

  /** Takes the entry behind `before`, at position i of chain j, out of its chain. */
  method Unlink(ghost heads: seq<Node>, ghost chains: seq<seq<Node>>, ghost t: HashTable, ghost nodes: set<Node>,
                ghost j: nat, ghost i: nat, before: Node)
    returns (e: Node, ghost r: seq<seq<Node>>)
    requires Chained(heads, chains, t, nodes)
    requires j < |heads| == |chains| && i < |chains[j]| && before == Before(heads[j], chains[j], i)
    modifies before
    ensures e == chains[j][i] && e in nodes && e != before && r == chains[j := Without(chains[j], i)]
    ensures Chained(heads, r, t, nodes) && Apart(heads, r, e)
  {
    assert Before(heads[j], chains[j], i).next == LinkAt(chains[j], i, t);
    assert Before(heads[j], chains[j], i + 1).next == LinkAt(chains[j], i + 1, t);
    e := before.next.node;
    before.next := e.next;
    r := chains[j := Without(chains[j], i)];
    forall k | 0 <= k < |heads| ensures Linked(heads[k], r[k], t) {
      forall l | 0 <= l <= |r[k]| ensures Before(heads[k], r[k], l).next == LinkAt(r[k], l, t) {
        var at := if k == j && l > i then l + 1 else l;
        assert old(Before(heads[k], chains[k], at).next) == LinkAt(chains[k], at, t);
      }
    }
  }

  function Without<T>(s: seq<T>, i: nat): (r: seq<T>)
    requires i < |s|
    ensures |r| == |s| - 1
  {
    s[..i] + s[i + 1..]
  }

  /** The bucket count for a requested one: the least power of two from it up, capped; 0 for 0. */
  ghost predicate RoundedCount(requested: nat, count: nat) {
    if requested == 0 then count == 0
    else exists r: nat :: LeastPower(requested, r) && count == Capped(r)
  }

  function Capped(count: nat): nat { if count > MAX_BUCKETS then MAX_BUCKETS else count }

  method RoundCount(requested: nat) returns (count: nat)
    requires requested <= 0x8000_0000
    ensures RoundedCount(requested, count) && count <= MAX_BUCKETS && (count > 0 ==> IsPow2(count))
  {
    count := RoundToPowerOfTwo(requested, false);
    if count > MAX_BUCKETS {
      count := MAX_BUCKETS;
    }
    Pow2Facts();
    assert IsPow2(MAX_BUCKETS);
  }

  class HashTable {
    var entryCount: nat
    const maskBitCount: nat
    var bucketCount: nat
    var buckets: seq<Node>
    ghost var chains: seq<seq<Node>>
    ghost var nodes: set<Node>       // list heads and entries

    ghost predicate Valid()
      reads this, nodes
    {
      && |chains| == |buckets| == bucketCount <= MAX_BUCKETS && maskBitCount < 32
      && (bucketCount > 0 ==> IsPow2(bucketCount))
      && Chained(buckets, chains, this, nodes)
      && entryCount == Wrap(|Flat(chains)|, DWORDS)
    }

    /** All entries, bucket by bucket. */
    ghost function Entries(): seq<Node>
      reads this`chains
    {
      Flat(chains)
    }

    /** The bucket of an entry in a table with `count` buckets. */
    ghost function Bucket(count: nat): Node -> nat
      requires count >= 1
    {
      (n: Node) => if count >= 1 then Index(count, Masked(maskBitCount, n.key)) else 0
    }

    ghost function Matches(key: Key): Node -> bool {
      (n: Node) => Masked(maskBitCount, n.key) == Masked(maskBitCount, key)
    }

    /** Every entry hangs in the bucket its key hashes to. */
    ghost predicate Placed(count: nat)
      reads this`chains
      requires count >= 1
    {
      PlacedIn(chains, count)
    }

    ghost predicate PlacedIn(cs: seq<seq<Node>>, count: nat)
      requires count >= 1
    {
      forall j, i :: 0 <= j < |cs| && 0 <= i < |cs[j]| ==> Bucket(count)(cs[j][i]) == j
    }

    /** What a search for the key enumerates. */
    ghost function Matching(key: Key): seq<Node>
      reads this`chains
    {
      MatchingIn(chains, key)
    }

    ghost function MatchingIn(cs: seq<seq<Node>>, key: Key): seq<Node> {
      if cs == [] then [] else Select(cs[Index(|cs|, Masked(maskBitCount, key))], Matches(key))
    }

    lemma Pushed(cs: seq<seq<Node>>, r: seq<seq<Node>>, e: Node)
      requires cs != [] && var j := Index(|cs|, Masked(maskBitCount, e.key)); r == cs[j := [e] + cs[j]]
      ensures forall key :: MatchingIn(r, key) == (if Matches(key)(e) then [e] else []) + MatchingIn(cs, key)
      ensures PlacedIn(cs, |cs|) ==> PlacedIn(r, |cs|)
      ensures |Flat(r)| == |Flat(cs)| + 1
    {
      var j := Index(|cs|, Masked(maskBitCount, e.key));
      forall key ensures MatchingIn(r, key) == (if Matches(key)(e) then [e] else []) + MatchingIn(cs, key) {
        SelectAppend([e], cs[j], Matches(key));
        assert [e][1..] == [];
      }
      FlatUpdate(cs, j, [e] + cs[j]);
      FlatAt(cs, j);
    }

    /** HashTableInitialize. The mask bit count is a 5-bit field. */
    constructor (maskBits: nat, requested: nat, heads: seq<Node>)
      requires requested <= 0x8000_0000 && RoundedCount(requested, |heads|) && NoDuplicates(heads)
      modifies heads
      ensures Valid() && maskBitCount == maskBits % 32 && buckets == heads && Entries() == []
      ensures nodes == set h | h in heads
      ensures bucketCount > 0 ==> Placed(bucketCount)
    {
      entryCount, maskBitCount, buckets := 0, maskBits % 32, heads;
      var c := RoundCount(requested);
      bucketCount := c;
      chains := seq(|heads|, _ => []);
      nodes := set h | h in heads;
      new;
      hide RoundedCount, Wrap, IsPow2;
      RoundedCountUnique(requested, |heads|, bucketCount);
      for p := 0 to bucketCount
        invariant buckets == heads && entryCount == 0 && bucketCount == |heads| && chains == seq(|heads|, _ => [])
        invariant nodes == set h | h in heads
        invariant forall k :: 0 <= k < p ==> heads[k].next == Tag(this)
      {
        heads[p].next := Tag(this);
      }
      FlatEmpty(chains);
    }

    method Insert(e: Node) returns (count: nat)
      requires Valid() && bucketCount > 0 && Apart(buckets, chains, e)
      modifies this, nodes, e
      ensures Valid() && buckets == old(buckets) && bucketCount == old(bucketCount) && nodes == old(nodes) + {e}
      ensures var j := Index(bucketCount, Masked(maskBitCount, e.key)); chains == old(chains)[j := [e] + old(chains[j])]
      ensures forall key :: Matching(key) == (if Matches(key)(e) then [e] else []) + old(Matching(key))
      ensures old(Placed(bucketCount)) ==> Placed(bucketCount)
      ensures count == entryCount == Wrap(old(entryCount) + 1, DWORDS)
    {
      hide Wrap, Index, Masked, IsPow2, MatchingIn, PlacedIn, Flat, Apart, Chained, Matches, Bucket;
      var idx := GetBucketIndex(bucketCount, Masked(maskBitCount, e.key));
      ghost var r := chains[idx := [e] + chains[idx]];
      Pushed(chains, r, e);
      WrapAdd(|Flat(chains)|, 1, DWORDS);
      MoreNodes(buckets, chains, this, nodes, {e});
      InChains(idx);
      ghost var _ := PushEntry(buckets, chains, this, nodes + {e}, idx, buckets[idx], e);
      chains, nodes := r, nodes + {e};
      count := Wrap(entryCount + 1, DWORDS);
      entryCount := count;
    }

    /** Position i of chain j holds n. */
    ghost predicate Holds(j: nat, i: nat, n: Node)
      reads this`chains
    {
      j < |chains| && i < |chains[j]| && chains[j][i] == n
    }

    /** The matching entries behind a linked entry; without one, all that a search meets. */
    ghost function Rest(key: Key, link: Node?, j: nat, i: nat): seq<Node>
      requires link != null ==> Holds(j, i, link)
      reads this`chains
    {
      if link == null then Matching(key) else Select(chains[j][i + 1..], Matches(key))
    }

    /** The next entry behind `link`, at position i of chain j, whose masked key matches; without a
        link the search starts at the key's bucket. Null when there is none. */
    method FindNext(key: Key, link: Node?, ghost j: nat, ghost i: nat) returns (r: Node?, ghost b: nat, ghost at: nat)
      requires Valid() && (link != null ==> Holds(j, i, link))
      ensures r == null ==> Rest(key, link, j, i) == []
      ensures r != null ==> Holds(b, at, r) && Rest(key, link, j, i) == [r] + Rest(key, r, b, at)
    {
      hide Chained, Index, Masked, MatchingIn;
      var k1 := Masked(maskBitCount, key);
      var p: Node;
      b, at := j, i + 1;
      if link != null {
        p := link;
        AllLinkedAt(j, i + 1);
      } else {
        if bucketCount == 0 {
          NoBuckets(key);
          return null, 0, 0;
        }
        var idx := GetBucketIndex(bucketCount, k1);
        p := buckets[idx];
        b, at := idx, 0;
        StartOfSearch(key);
      }
      assert link == null ==> chains[b][0..] == chains[b];
      while !LastLink(p)
        invariant b < |chains| && at <= |chains[b]| && p == Before(buckets[b], chains[b], at) && LinkedAt(b, at)
        invariant Rest(key, link, j, i) == Select(chains[b][at..], Matches(key))
        decreases |chains[b]| - at
      {
        var n := p.next.node;
        assert chains[b][at..][1..] == chains[b][at + 1..];
        if k1 == Masked(maskBitCount, n.key) {
          return n, b, at;
        }
        p, at := n, at + 1;
        AllLinkedAt(b, at);
      }
      return null, 0, 0;
    }

    lemma NoBuckets(key: Key)
      requires Valid() && bucketCount == 0
      ensures Matching(key) == []
    {
    }

    lemma StartOfSearch(key: Key)
      requires Valid() && bucketCount > 0
      ensures var j := Index(bucketCount, Masked(maskBitCount, key));
        j < |chains| && LinkedAt(j, 0) && Matching(key) == Select(chains[j], Matches(key))
    {
      AllLinkedAt(Index(bucketCount, Masked(maskBitCount, key)), 0);
    }

    /** The loop of a caller who looks for all entries of a key: it meets the matching entries of
        the key's bucket, each once, from the newest on. */
    method FindAll(key: Key) returns (found: seq<Node>)
      requires Valid()
      ensures found == Matching(key) && NoDuplicates(found)
    {
      hide Chained, MatchingIn, Index, Masked, Select, NoDuplicates;
      found := [];
      var p;
      ghost var j, i;
      p, j, i := FindNext(key, null, 0, 0);
      while p != null
        invariant p != null ==> Holds(j, i, p) && Matching(key) == found + [p] + Rest(key, p, j, i)
        invariant p == null ==> Matching(key) == found
        decreases if p == null then 0 else 1 + |Rest(key, p, j, i)|
      {
        found := found + [p];
        p, j, i := FindNext(key, p, j, i);
      }
      MatchingOnce(key);
    }

    /** In a table whose entries hang where they belong, a search meets exactly the entries with an
        equal masked key. */
    lemma MatchingExact(key: Key)
      requires Valid() && bucketCount > 0
      ensures Placed(bucketCount) ==>
        Matching(key) == Select(Entries(), Matches(key)) &&
        forall n: Node :: n in Matching(key) <==>
          n in Entries() && Masked(maskBitCount, n.key) == Masked(maskBitCount, key)
    {
      hide Linked, Wrap, Index, Masked;
      if Placed(bucketCount) {
        SelectFlat(chains, Index(bucketCount, Masked(maskBitCount, key)), Matches(key));
        forall n: Node {
          SelectMember(Entries(), Matches(key), n);
        }
      }
    }

    lemma MatchingOnce(key: Key)
      requires Valid()
      ensures NoDuplicates(Matching(key))
    {
      if chains != [] {
        SelectNoDuplicates(chains[Index(|chains|, Masked(maskBitCount, key))], Matches(key));
      }
    }

    // ---------------------------------------------------------------- a new bucket array

    /** Moves all entries to a new bucket array, which a rounded count must not make shorter than the
        old one. The index of an entry is taken with the old bucket count. */
    method ChangeTable(requested: nat, newBuckets: seq<Node>) returns (oldBuckets: seq<Node>)
      requires Valid() && requested <= 0x8000_0000
      requires RoundedCount(requested, |newBuckets|) && bucketCount <= |newBuckets|
      requires Separate(buckets + newBuckets, chains + NoEntries(|newBuckets|))
      modifies this, nodes, newBuckets
      ensures Valid() && buckets == newBuckets && bucketCount == |newBuckets| && entryCount == old(entryCount)
      ensures nodes == old(nodes) + set h | h in newBuckets
      ensures oldBuckets == old(buckets) && forall j :: 0 <= j < |oldBuckets| ==> oldBuckets[j].next == Tag(this)
      ensures multiset(Entries()) == old(multiset(Entries()))
      ensures old(bucketCount) == 0 ==> chains == NoEntries(bucketCount)
      ensures old(bucketCount) > 0 ==> chains == Respread(old(chains), old(bucketCount), bucketCount)
    {
      hide Chained, Separate, Spread, Flat, RoundedCount, IsPow2, Wrap, Respread, Respreading;
      var count := RoundCount(requested);
      RoundedCountUnique(requested, |newBuckets|, count);
      ghost var n, heads, ch := bucketCount, buckets + newBuckets, chains + NoEntries(count);
      ghost var all := PrepareBuckets(newBuckets);
      StartOfSpread(ch, count);
      ch := MoveChains(n, heads, ch, all, newBuckets);
      AllMoved(n, heads, ch, all, newBuckets);
      Conserved(n, ch, count);
      oldBuckets := buckets;
      buckets, bucketCount, chains, nodes := newBuckets, count, ch[n..], all;
    }

    method MoveChains(ghost n: nat, ghost heads: seq<Node>, ghost ch: seq<seq<Node>>, ghost all: set<Node>,
                      newBuckets: seq<Node>)
      returns (ghost r: seq<seq<Node>>)
      requires Unchanged(n, heads, newBuckets) && Chained(heads, ch, this, all)
      modifies all
      ensures Chained(heads, r, this, all) && forall k :: 0 <= k < n ==> r[k] == []
      ensures if n > 0 then Respreading(r, n) == Respreading(ch, n) else r == ch
    {
      hide Chained, IsPow2, Respreading;
      r := ch;
      for j := 0 to bucketCount
        invariant Chained(heads, r, this, all) && (forall k :: 0 <= k < j ==> r[k] == [])
        invariant if n > 0 then Respreading(r, n) == Respreading(ch, n) else r == ch
      {
        r := MoveChain(n, heads, r, all, newBuckets, j);
      }
    }

    lemma StartOfSpread(ch: seq<seq<Node>>, count: nat)
      requires |chains| == bucketCount && ch == chains + NoEntries(count) && bucketCount <= count
      ensures
        if bucketCount > 0 then Respreading(ch, bucketCount) == Respread(chains, bucketCount, count)
        else ch == NoEntries(count)
    {
      assert ch[..bucketCount] == chains && ch[bucketCount..] == NoEntries(count) && ch[0..] == ch;
    }

    /** Ends every new chain with the table's tag. */
    method PrepareBuckets(newBuckets: seq<Node>) returns (ghost all: set<Node>)
      requires Valid() && Separate(buckets + newBuckets, chains + NoEntries(|newBuckets|))
      modifies newBuckets
      ensures all == nodes + set h | h in newBuckets
      ensures Chained(buckets + newBuckets, chains + NoEntries(|newBuckets|), this, all)
    {
      for p := 0 to |newBuckets|
        invariant forall k :: 0 <= k < p ==> newBuckets[k].next == Tag(this)
      {
        newBuckets[p].next := Tag(this);
      }
      all := nodes + set h | h in newBuckets;
      ghost var heads, ch := buckets + newBuckets, chains + NoEntries(|newBuckets|);
      forall j | 0 <= j < |heads| ensures Linked(heads[j], ch[j], this) {
        if j < |buckets| {
          assert old(Linked(buckets[j], chains[j], this));
          assert heads[j] == buckets[j] && ch[j] == chains[j];
          forall i | 0 <= i <= |chains[j]| ensures Before(heads[j], ch[j], i).next == LinkAt(ch[j], i, this) {
            assert old(Before(buckets[j], chains[j], i).next) == LinkAt(ch[j], i, this);
            forall k | 0 <= k < |newBuckets| ensures newBuckets[k] != Before(heads[j], ch[j], i) {
              assert newBuckets[k] == heads[|buckets| + k];
            }
          }
        }
      }
    }

    /** When the first n chains are empty, the others make up a table. */
    lemma AllMoved(n: nat, heads: seq<Node>, ch: seq<seq<Node>>, all: set<Node>, newBuckets: seq<Node>)
      requires Unchanged(n, heads, newBuckets) && |heads| == |ch| && Chained(heads, ch, this, all)
      requires forall k :: 0 <= k < n ==> ch[k] == []
      ensures Chained(newBuckets, ch[n..], this, all)
      ensures forall k :: 0 <= k < n ==> buckets[k] in all && buckets[k].next == Tag(this)
    {
      forall k | 0 <= k < n ensures buckets[k] in all && buckets[k].next == Tag(this) {
        StartOfChain(heads, ch, all, k);
        assert heads[k] == buckets[k];
      }
      forall j | 0 <= j < |newBuckets| ensures Linked(newBuckets[j], ch[n..][j], this) && newBuckets[j] in all {
        assert Linked(heads[n + j], ch[n + j], this);
      }
      SeparateTail(heads, ch, n);
      assert heads[n..] == newBuckets;
    }

    lemma SeparateTail(heads: seq<Node>, ch: seq<seq<Node>>, n: nat)
      requires Separate(heads, ch) && n <= |heads|
      ensures Separate(heads[n..], ch[n..])
    {
    }

    /** The spread chains hold all entries. */
    lemma Conserved(n: nat, ch: seq<seq<Node>>, count: nat)
      requires |ch| == n + count && n <= count && forall k :: 0 <= k < n ==> ch[k] == []
      requires
        if n > 0 then Respreading(ch, n) == Respread(chains, n, count)
        else ch == NoEntries(count) && chains == []
      ensures n > 0 ==> ch[n..] == Respread(chains, n, count)
      ensures multiset(Flat(ch[n..])) == multiset(Flat(chains)) && |Flat(ch[n..])| == |Flat(chains)|
    {
      FlatEmpty(NoEntries(count));
      if n > 0 {
        FlatEmpty(ch[..n]);
        SpreadMultiset(Flat(chains), Bucket(n), NoEntries(count));
      } else {
        assert ch[n..] == ch;
      }
      assert |multiset(Flat(ch[n..]))| == |multiset(Flat(chains))|;
    }

    ghost function NoEntries(n: nat): seq<seq<Node>> { seq(n, _ => []) }

    /** All entries, spread over m empty chains by their index in a table of n buckets. */
    ghost function Respread(cs: seq<seq<Node>>, n: nat, m: nat): (r: seq<seq<Node>>)
      requires 1 <= n <= m
      ensures |r| == m
    {
      Spread(Flat(cs), Bucket(n), NoEntries(m))
    }

    /** Half way: the entries still in the first n chains are yet to be spread over the others. */
    ghost function Respreading(ch: seq<seq<Node>>, n: nat): (r: seq<seq<Node>>)
      requires n >= 1 && 2 * n <= |ch|
    {
      Spread(Flat(ch[..n]), Bucket(n), ch[n..])
    }

    ghost predicate Unchanged(n: nat, heads: seq<Node>, newBuckets: seq<Node>)
      reads this
    {
      && n == bucketCount == |buckets| == |chains| <= |newBuckets| && (n > 0 ==> IsPow2(n))
      && heads == buckets + newBuckets
    }

    /** Moves chain j, from its front on. */
    method MoveChain(ghost n: nat, ghost heads: seq<Node>, ghost ch: seq<seq<Node>>, ghost all: set<Node>,
                     newBuckets: seq<Node>, j: nat)
      returns (ghost r: seq<seq<Node>>)
      requires Unchanged(n, heads, newBuckets) && Chained(heads, ch, this, all) && j < n
      requires forall k :: 0 <= k < j ==> ch[k] == []
      modifies all
      ensures Chained(heads, r, this, all) && r[j] == [] && forall k :: 0 <= k < n && k != j ==> r[k] == ch[k]
      ensures Respreading(r, n) == Respreading(ch, n)
    {
      hide Chained, Spread, Flat;
      var bucket := buckets[j];
      r := ch;
      StartOfChain(heads, r, all, j);
      while !LastLink(bucket)
        invariant Chained(heads, r, this, all) && (forall k :: 0 <= k < n && k != j ==> r[k] == ch[k])
        invariant LastLink(bucket) <==> r[j] == []
        invariant Respreading(r, n) == Respreading(ch, n)
        decreases |r[j]|
      {
        MovedOne(r, n, j);
        r := MoveEntry(n, heads, r, all, newBuckets, j);
        StartOfChain(heads, r, all, j);
      }
    }

    method MoveEntry(ghost n: nat, ghost heads: seq<Node>, ghost ch: seq<seq<Node>>, ghost all: set<Node>,
                     newBuckets: seq<Node>, j: nat)
      returns (ghost r: seq<seq<Node>>)
      requires Unchanged(n, heads, newBuckets) && Chained(heads, ch, this, all) && j < n && ch[j] != []
      modifies all
      ensures Chained(heads, r, this, all) && r == Moved(ch, n, j)
    {
      hide Chained, Apart, Index, Masked;
      var e;
      assert heads[j] == buckets[j];
      e, r := Unlink(heads, ch, this, all, j, 0, buckets[j]);
      assert Without(ch[j], 0) == ch[j][1..];
      var idx := GetBucketIndex(bucketCount, Masked(maskBitCount, e.key));
      assert heads[n + idx] == newBuckets[idx];
      r := PushEntry(heads, r, this, all, n + idx, newBuckets[idx], e);
    }

    /** The chains after the first entry of chain j has moved. */
    ghost function Moved(ch: seq<seq<Node>>, n: nat, j: nat): seq<seq<Node>>
      requires j < n && 2 * n <= |ch| && ch[j] != []
    {
      var k := n + Bucket(n)(ch[j][0]);
      ch[j := ch[j][1..]][k := [ch[j][0]] + ch[k]]
    }

    lemma MovedOne(ch: seq<seq<Node>>, n: nat, j: nat)
      requires j < n && 2 * n <= |ch| && ch[j] != [] && forall k :: 0 <= k < j ==> ch[k] == []
      ensures Respreading(Moved(ch, n, j), n) == Respreading(ch, n)
    {
      FlatTail(ch[..n], j);
      assert Moved(ch, n, j)[..n] == ch[..n][j := ch[j][1..]];
      var i := Bucket(n)(ch[j][0]);
      assert Moved(ch, n, j)[n..] == ch[n..][i := [ch[j][0]] + ch[n..][i]];
    }

    lemma StartOfChain(heads: seq<Node>, ch: seq<seq<Node>>, all: set<Node>, j: nat)
      requires Chained(heads, ch, this, all) && j < |ch| == |heads|
      ensures LastLink(heads[j]) <==> ch[j] == []
      ensures ch[j] == [] ==> heads[j].next == Tag(this)
    {
      assert Linked(heads[j], ch[j], this);
      assert Before(heads[j], ch[j], 0).next == LinkAt(ch[j], 0, this);
    }

    /** The new chain k: the entries whose old index is k, in reverse order. */
    lemma RespreadAt(cs: seq<seq<Node>>, n: nat, m: nat, k: nat)
      requires 1 <= n <= m && k < m
      ensures Respread(cs, n, m)[k] == Reversed(Select(Flat(cs), Picks(Bucket(n), k)))
    {
      SpreadAt(Flat(cs), Bucket(n), NoEntries(m), k);
    }

    /** A new array places entries by the old bucket count. */
    lemma RespreadPlaced(cs: seq<seq<Node>>, n: nat, m: nat)
      requires 1 <= n <= m
      ensures PlacedIn(Respread(cs, n, m), n)
    {
      hide Respread, Bucket;
      var r := Respread(cs, n, m);
      forall j, i | 0 <= j < |r| && 0 <= i < |r[j]| ensures Bucket(n)(r[j][i]) == j {
        RespreadAt(cs, n, m, j);
        ReversedMember(Select(Flat(cs), Picks(Bucket(n), j)), r[j][i]);
        SelectMember(Flat(cs), Picks(Bucket(n), j), r[j][i]);
      }
    }

    /** A second new array of the same length puts every entry where searches look for it. */
    lemma SecondChangeRepairs(cs: seq<seq<Node>>, n: nat, m: nat)
      requires 1 <= n <= m
      ensures PlacedIn(Respread(Respread(cs, n, m), m, m), m)
    {
      RespreadPlaced(Respread(cs, n, m), m, m);
    }

    /** What a search finds after a change of the bucket array: the same entries in reverse order if
        the key's index is the same for both counts, and nothing otherwise. */
    lemma LookupAfterChange(cs: seq<seq<Node>>, n: nat, m: nat, key: Key)
      requires 1 <= n <= m && |cs| == n && PlacedIn(cs, n)
      ensures var k := Masked(maskBitCount, key);
        MatchingIn(Respread(cs, n, m), key) == if Index(m, k) == Index(n, k) then Reversed(MatchingIn(cs, key)) else []
    {
      hide Respread, Index, Masked;
      var k := Index(m, Masked(maskBitCount, key));
      RespreadAt(cs, n, m, k);
      if k < n {
        SelectFlat(cs, k, Picks(Bucket(n), k));
        SelectAll(cs[k], Picks(Bucket(n), k));
        SelectReversed(cs[k], Matches(key));
        if k != Index(n, Masked(maskBitCount, key)) {
          SelectNone(cs[k], Matches(key));
        }
      } else {
        forall x | x in Flat(cs) ensures Bucket(n)(x) != k {
          FlatMember(cs, x);
        }
        SelectNone(Flat(cs), Picks(Bucket(n), k));
      }
    }

    /** An entry is found by its own key after the change if and only if its index is the same for
        both counts. */
    lemma FoundIffIndexKept(cs: seq<seq<Node>>, n: nat, m: nat, e: Node)
      requires 1 <= n <= m && |cs| == n && PlacedIn(cs, n) && e in Flat(cs)
      ensures var k := Masked(maskBitCount, e.key);
        e in MatchingIn(Respread(cs, n, m), e.key) <==> Index(m, k) == Index(n, k)
    {
      hide Respread, Index, Masked;
      LookupAfterChange(cs, n, m, e.key);
      FlatMember(cs, e);
      var j :| 0 <= j < |cs| && e in cs[j];
      assert Bucket(n)(e) == j;
      SelectMember(cs[j], Matches(e.key), e);
      ReversedMember(MatchingIn(cs, e.key), e);
    }

    /** Growing from one bucket to two hides an entry with key 0: it is in the table, but a search for its
        key, which found it before, finds nothing. */
    lemma GrowingHidesKeyZero(e: Node)
      requires e.key == 0
      ensures MatchingIn([[e]], 0) == [e] && e in Flat(Respread([[e]], 1, 2))
      ensures MatchingIn(Respread([[e]], 1, 2), 0) == []
    {
      hide Respread, Index;
      IndicesOfZero();
      assert Masked(maskBitCount, 0) == 0;
      var cs := [[e]];
      assert Flat(cs) == [e] by {
        assert cs[1..] == [];
      }
      assert PlacedIn(cs, 1);
      LookupAfterChange(cs, 1, 2, 0);
      RespreadAt(cs, 1, 2, 0);
      assert [e][1..] == [];
      assert Respread(cs, 1, 2)[0] == [e];
      assert e in Respread(cs, 1, 2)[0];
      FlatMember(Respread(cs, 1, 2), e);
    }

    lemma AllLinkedAt(j: nat, i: nat)
      requires Valid() && j < |chains| && i <= |chains[j]|
      ensures LinkedAt(j, i)
    {
      assert Linked(buckets[j], chains[j], this);
    }

    lemma InChains(j: nat)
      requires Valid() && j < |chains|
      ensures buckets[j] in nodes
    {
    }

    ghost predicate LinkedAt(j: nat, i: nat)
      reads this, nodes
    {
      && j < |buckets| == |chains| && i <= |chains[j]| && Before(buckets[j], chains[j], i) in nodes
      && Before(buckets[j], chains[j], i).next == LinkAt(chains[j], i, this)
    }
  }

  /** From any linked entry to the table that owns it: along the chain to the tag, then a search for
      the entry by its own key. */
  method GetTable(hashEntry: Node, ghost t: HashTable, ghost j: nat, ghost i: nat) returns (hash: HashTable)
    requires t.Valid() && t.Holds(j, i, hashEntry)
    ensures hash == t
  {
    hide Chained, Index, Masked, HashTable.MatchingIn;
    var p := hashEntry;
    ghost var at := i + 1;
    assert t.LinkedAt(j, at) by { t.AllLinkedAt(j, at); }
    while !LastLink(p)
      invariant at <= |t.chains[j]| && p == Before(t.buckets[j], t.chains[j], at) && t.LinkedAt(j, at)
      decreases |t.chains[j]| - at
    {
      p, at := p.next.node, at + 1;
      t.AllLinkedAt(j, at);
    }
    hash := p.next.table;
    var entry: Node?;
    ghost var b, k;
    entry, b, k := hash.FindNext(hashEntry.key, null, 0, 0);
    while entry != null && entry != hashEntry
      invariant entry != null ==> t.Holds(b, k, entry)
      decreases if entry == null then 0 else 1 + |t.Rest(hashEntry.key, entry, b, k)|
    {
      entry, b, k := hash.FindNext(hashEntry.key, entry, b, k);
    }
  }

  lemma RoundedCountUnique(requested: nat, a: nat, b: nat)
    requires RoundedCount(requested, a) && RoundedCount(requested, b)
    ensures a == b
  {
    if requested > 0 {
      var r: nat :| LeastPower(requested, r) && a == Capped(r);
      var s: nat :| LeastPower(requested, s) && b == Capped(s);
      LeastUnique(requested, r, s);
      LeastUnique(requested, s, r);
    }
  }

  lemma LeastUnique(v: nat, r: nat, s: nat)
    requires LeastPower(v, r) && LeastPower(v, s)
    ensures r <= s
  {
    var k: nat :| s == Pow2(k);
    assert v <= Pow2(k);
  }

  lemma IndicesOfZero()
    ensures IsPow2(1) && IsPow2(2) && Index(1, 0) == 0 && Index(2, 0) == 1
  {
    assert 1 == Pow2(0) && 2 == Pow2(1);
    IndexIsPolynomial(2, 0);
    LEOfZero(8);
    OddOnZeros(8);
  }

  lemma {:induction false} LEOfZero(n: nat)
    ensures LE(0, n) == Zeros(n)
  {
    if n > 0 {
      LEOfZero(n - 1);
      assert Zeros(n) == [0] + Zeros(n - 1);
    }
  }

  lemma {:induction false} OddOnZeros(n: nat)
    ensures Poly(Zeros(n), COEFFICIENT, SEED) % 2 == 1
  {
    if n > 0 {
      assert Zeros(n)[..n - 1] == Zeros(n - 1);
      OddOnZeros(n - 1);
    }
  }
}
