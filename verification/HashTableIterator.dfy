/** The iterator of the hash table, with removal. */
module HashTableIterators {
  import opened Arith
  import opened Bits
  import opened Chains
  import opened HashTables

  class HashTableIterator {
    const hash: HashTable
    var hashEntry: Node?
    var bucket: nat
    ghost var pos: nat     // how many entries of the bucket have been passed

    ghost predicate Valid()
      reads this, hash, hash.nodes
    {
      && hash.Valid()
      && if hash.buckets == [] then hashEntry == null && bucket == 0 && pos == 0
         else bucket < |hash.buckets| && pos <= |hash.chains[bucket]| &&
              hashEntry == Before(hash.buckets[bucket], hash.chains[bucket], pos)
    }

    /** The entries passed so far that are still in the table. */
    ghost function Passed(): seq<Node>
      requires Valid()
      reads this, hash, hash.nodes
    {
      if hash.buckets == [] then [] else Flat(hash.chains[..bucket]) + hash.chains[bucket][..pos]
    }

    ghost function Ahead(): seq<Node>
      requires Valid()
      reads this, hash, hash.nodes
    {
      if hash.buckets == [] then [] else hash.chains[bucket][pos..] + Flat(hash.chains[bucket + 1..])
    }

    constructor (hash: HashTable)
      requires hash.Valid()
      ensures Valid() && this.hash == hash && Passed() == [] && Ahead() == hash.Entries()
    {
      this.hash := hash;
      this.bucket, this.pos := 0, 0;
      this.hashEntry := if hash.buckets == [] then null else hash.buckets[0];
      new;
      if hash.buckets != [] {
        FlatAt(hash.chains, 0);
      }
    }

    lemma Parts()
      requires Valid()
      ensures Passed() + Ahead() == hash.Entries()
    {
      if hash.buckets != [] {
        FlatAt(hash.chains, bucket);
      }
    }

    /** Steps to the next entry; null when there is none, and then the iterator stays where it is. */
    method GetNext() returns (r: Node?)
      requires Valid()
      modifies this
      ensures Valid()
      ensures old(Ahead()) == [] ==>
        r == null && Ahead() == [] && Passed() == old(Passed()) && hashEntry == old(hashEntry)
      ensures old(Ahead()) != [] ==>
        r == hashEntry == old(Ahead())[0] && pos > 0 && Ahead() == old(Ahead())[1..] && Passed() == old(Passed()) + [r]
    {
      hide Chained, IsPow2, Wrap, Flat;
      if hashEntry != null {
        hash.AllLinkedAt(bucket, pos);
      }
      if hashEntry == null || LastLink(hashEntry) {
        var pBucket := NextBucket(bucket + 1);
        if pBucket >= hash.bucketCount {
          return null;
        }
        SkipEmpty(hash.chains, bucket, pBucket);
        var entry := hash.buckets[pBucket].next.node;
        bucket, hashEntry, pos := pBucket, entry, 1;
        return entry;
      } else {
        hashEntry, pos := hashEntry.next.node, pos + 1;
        return hashEntry;
      }
    }

    /** The first bucket from `start` on that is not empty. */
    method NextBucket(start: nat) returns (pBucket: nat)
      requires hash.Valid()
      ensures pBucket < hash.bucketCount ==> start <= pBucket && hash.LinkedAt(pBucket, 0) && hash.chains[pBucket] != []
      ensures forall k :: start <= k < pBucket && k < hash.bucketCount ==> hash.chains[k] == []
      ensures pBucket >= hash.bucketCount && start <= hash.bucketCount ==> Flat(hash.chains[start..]) == []
    {
      hide Chained, IsPow2, Wrap, Flat;
      pBucket := start;
      while true
        invariant start <= pBucket
        invariant forall k :: start <= k < pBucket && k < hash.bucketCount ==> hash.chains[k] == []
        decreases hash.bucketCount - pBucket
      {
        if pBucket >= hash.bucketCount {
          if start <= hash.bucketCount {
            FlatEmpty(hash.chains[start..]);
          }
          return;
        }
        hash.AllLinkedAt(pBucket, 0);
        if !LastLink(hash.buckets[pBucket]) {
          return;
        }
        pBucket := pBucket + 1;
      }
    }

    static lemma SkipEmpty(cs: seq<seq<Node>>, b: nat, p: nat)
      requires b < p < |cs| && forall k :: b < k < p ==> cs[k] == []
      ensures Flat(cs[..p]) == Flat(cs[..b]) + cs[b]
      ensures Flat(cs[b + 1..]) == cs[p] + Flat(cs[p + 1..])
    {
      hide Flat;
      FlatAt(cs[..p], b);
      assert cs[..p][..b] == cs[..b];
      FlatEmpty(cs[..p][b + 1..]);
      var behind := cs[b + 1..];
      FlatAt(behind, p - b - 1);
      FlatEmpty(behind[..p - b - 1]);
      assert behind[p - b..] == cs[p + 1..];
    }

    /** Takes the current entry out of the table and steps back to what precedes it. Right after the
        start, or after a removal at the front of a bucket, there is no current entry. */
    method Remove() returns (r: Node?)
      requires Valid()
      modifies this, hash, hash.nodes
      ensures Valid() && hash.buckets == old(hash.buckets)
      ensures hash.nodes == if old(pos) > 0 then old(hash.nodes) - {r} else old(hash.nodes)
      ensures Ahead() == old(Ahead())
      ensures old(pos) == 0 ==> r == null && Passed() == old(Passed()) && hash.chains == old(hash.chains)
      ensures old(pos) > 0 ==>
        r == old(hashEntry) && old(Passed()) == Passed() + [r] &&
        hash.chains == old(hash.chains)[bucket := Without(old(hash.chains[bucket]), old(pos) - 1)] &&
        hash.entryCount == Wrap(old(hash.entryCount) - 1, DWORDS) &&
        r.next == Poisoned(old(hashEntry.next))
    {
      hide Chained, IsPow2, Wrap, Flat;
      if hash.bucketCount == 0 {
        return null;
      }
      var pBucket, found := Predecessor();
      if !found {
        return null;
      }
      r := hashEntry;
      TakeOut(pBucket, r);
    }

    /** The search along the current bucket for the link to the current entry. */
    method Predecessor() returns (pBucket: Node, found: bool)
      requires Valid() && hash.buckets != []
      ensures found <==> pos > 0
      ensures found ==> pBucket == Before(hash.buckets[bucket], hash.chains[bucket], pos - 1)
    {
      hide Chained, IsPow2, Wrap, Flat;
      pBucket := hash.buckets[bucket];
      ghost var at := 0;
      hash.AllLinkedAt(bucket, 0);
      while !LastLink(pBucket)
        invariant at <= |hash.chains[bucket]| && pBucket == Before(hash.buckets[bucket], hash.chains[bucket], at)
        invariant hash.LinkedAt(bucket, at) && (at < pos || pos == 0)
        decreases |hash.chains[bucket]| - at
      {
        OnlyPlace(at);
        if pBucket.next.node == hashEntry {
          return pBucket, true;
        }
        pBucket, at := pBucket.next.node, at + 1;
        hash.AllLinkedAt(bucket, at);
      }
      return pBucket, false;
    }

    /** The current entry stands behind position `at` only if that is where it was met. */
    lemma OnlyPlace(at: nat)
      requires Valid() && hash.buckets != [] && at < |hash.chains[bucket]|
      ensures hash.chains[bucket][at] == hashEntry <==> pos == at + 1
    {
    }

    /** Removes the current entry if asked to, and steps on. */
    method Advance(remove: bool) returns (r: Node?)
      requires Valid() && pos > 0
      modifies this, hash, hash.nodes
      ensures Valid() && hash.buckets == old(hash.buckets) && hash.nodes <= old(hash.nodes)
      ensures old(Passed()) != []
      ensures r == null ==> old(Ahead()) == [] && Ahead() == [] && Passed() == Keeping(old(Passed()), remove)
      ensures r != null ==>
        (pos > 0 && hashEntry == r && old(Ahead()) == [r] + Ahead() && Passed() == Keeping(old(Passed()), remove) + [r])
    {
      hide Chained, Within, Separate, Flat, Wrap, IsPow2, Passed, Ahead;
      DropCurrent(remove);
      r := GetNext();
    }

    method DropCurrent(remove: bool)
      requires Valid() && pos > 0
      modifies this, hash, hash.nodes
      ensures Valid() && hash.buckets == old(hash.buckets) && hash.nodes <= old(hash.nodes)
      ensures old(Passed()) != [] && Passed() == Keeping(old(Passed()), remove) && Ahead() == old(Ahead())
    {
      hide Chained, Within, Separate, Flat, Wrap, IsPow2, Ahead;
      NotFirst();
      if remove {
        var _ := Remove();
      }
    }

    lemma NotFirst()
      requires Valid() && pos > 0
      ensures Passed() != [] && Passed()[|Passed()| - 1] == hashEntry
    {
    }

    /** The removal itself: unlink, count down, poison the entry's link. */
    method TakeOut(before: Node, entry: Node)
      requires Valid() && pos > 0 && hash.buckets != [] && entry == hashEntry
      requires before == Before(hash.buckets[bucket], hash.chains[bucket], pos - 1)
      modifies this, hash, before, entry
      ensures Valid() && hash.buckets == old(hash.buckets) && hash.nodes == old(hash.nodes) - {entry}
      ensures bucket == old(bucket) && pos == old(pos) - 1 && hashEntry == before
      ensures hash.chains == old(hash.chains)[bucket := Without(old(hash.chains[bucket]), old(pos) - 1)]
      ensures hash.entryCount == Wrap(old(hash.entryCount) - 1, DWORDS)
      ensures entry.next == Poisoned(old(entry.next))
      ensures Ahead() == old(Ahead()) && old(Passed()) == Passed() + [entry]
    {
      hide Chained, IsPow2, Wrap, Flat, Apart, Within, Separate;
      ghost var cs := hash.chains;
      Shorten(before, entry);
      hashEntry, pos := before, pos - 1;
      Cut(cs, bucket, pos);
    }

    /** Takes the entry behind `before` out of its chain and the count, and poisons its link. */
    method Shorten(before: Node, entry: Node)
      requires Valid() && pos > 0 && hash.buckets != [] && entry == hashEntry
      requires before == Before(hash.buckets[bucket], hash.chains[bucket], pos - 1)
      modifies hash, before, entry
      ensures hash.Valid() && hash.buckets == old(hash.buckets) && hash.nodes == old(hash.nodes) - {entry}
      ensures hash.chains == old(hash.chains)[bucket := Without(old(hash.chains[bucket]), pos - 1)]
      ensures hash.entryCount == Wrap(old(hash.entryCount) - 1, DWORDS)
      ensures entry.next == Poisoned(old(entry.next))
    {
      hide Chained, IsPow2, Wrap, Flat, Apart, Within, Separate;
      ghost var cs := hash.chains;
      ghost var r;
      var e;
      e, r := Unlink(hash.buckets, cs, hash, hash.nodes, bucket, pos - 1, before);
      FewerNodes(hash.buckets, r, hash, hash.nodes, e);
      ShorterBy(cs, bucket, pos - 1);
      WrapAdd(|Flat(cs)|, -1, DWORDS);
      hash.entryCount := Wrap(hash.entryCount - 1, DWORDS);
      hash.nodes := hash.nodes - {e};
      entry.next := Poisoned(entry.next);
      hash.chains := r;
    }
  }

  /** Entry i leaves chain j: what is before it and what is behind it stay. */
  lemma Cut(cs: seq<seq<Node>>, j: nat, i: nat)
    requires j < |cs| && i < |cs[j]|
    ensures var r := cs[j := Without(cs[j], i)];
      && r[..j] == cs[..j] && r[j + 1..] == cs[j + 1..] && r[j][i..] == cs[j][i + 1..]
      && Flat(cs[..j]) + cs[j][..i + 1] == Flat(r[..j]) + r[j][..i] + [cs[j][i]]
  {
    var r := cs[j := Without(cs[j], i)];
    assert r[..j] == cs[..j] && r[j + 1..] == cs[j + 1..] && r[j][i..] == cs[j][i + 1..];
    assert cs[j][..i + 1] == r[j][..i] + [cs[j][i]];
  }

  lemma ShorterBy(cs: seq<seq<Node>>, j: nat, i: nat)
    requires j < |cs| && i < |cs[j]|
    ensures |Flat(cs[j := Without(cs[j], i)])| == |Flat(cs)| - 1
  {
    FlatUpdate(cs, j, Without(cs[j], i));
    FlatAt(cs, j);
  }

  ghost function Keeping(s: seq<Node>, remove: bool): seq<Node>
    requires s != []
  {
    if remove then s[..|s| - 1] else s
  }

  ghost predicate Chosen(remove: seq<bool>, n: nat) { n < |remove| && remove[n] }

  /** The entries of s but for those that the choices remove. */
  ghost function Kept(s: seq<Node>, remove: seq<bool>): seq<Node> {
    if s == [] then []
    else Kept(s[..|s| - 1], remove) + if Chosen(remove, |s| - 1) then [] else [s[|s| - 1]]
  }

  lemma NoneKept(remove: seq<bool>)
    ensures Kept([], remove) == []
  {
  }

  lemma KeptNext(s: seq<Node>, e: Node, remove: seq<bool>)
    ensures Kept(s + [e], remove) == Keeping(Kept(s, remove) + [e], Chosen(remove, |s|))
  {
    assert (s + [e])[..|s|] == s;
  }

  /** Any run over a table in which the caller removes whichever entries it likes as it meets them:
      every entry is met exactly once, and the others stay, in order. */
  method Sweep(t: HashTable, remove: seq<bool>) returns (visited: seq<Node>)
    requires t.Valid()
    modifies t, t.nodes
    ensures t.Valid() && t.buckets == old(t.buckets)
    ensures visited == old(t.Entries()) && t.Entries() == Kept(visited, remove)
  {
    hide Chained, Within, Separate, Flat, Wrap;
    hide IsPow2, HashTableIterator.Passed, HashTableIterator.Ahead, Kept, Keeping;
    NoneKept(remove);
    ghost var all, nodes := t.Entries(), t.nodes;
    var it := new HashTableIterator(t);
    visited := [];
    var e := it.GetNext();
    while e != null
      invariant fresh(it) && it.hash == t && it.Valid() && t.buckets == old(t.buckets) && t.nodes <= nodes
      invariant visited + (if e == null then [] else [e]) + it.Ahead() == all
      invariant it.Passed() == Kept(visited, remove) + (if e == null then [] else [e])
      invariant if e == null then it.Ahead() == [] else it.pos > 0 && it.hashEntry == e
      decreases if e == null then 0 else 1 + |it.Ahead()|
    {
      ghost var was := visited;
      visited := visited + [e];
      KeptNext(was, e, remove);
      e := it.Advance(|visited| <= |remove| && remove[|visited| - 1]);
    }
    it.Parts();
  }
}
