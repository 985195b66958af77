/** std::map with unsigned keys: an association list in strictly ascending key order. */
module OrderedMap {

  datatype Entry<V> = Entry(key: nat, value: V)

  type Map<V> = seq<Entry<V>>

  ghost predicate Sorted<V>(m: Map<V>) {
    forall i, j :: 0 <= i < j < |m| ==> m[i].key < m[j].key
  }

  function Values<V>(m: Map<V>): (vs: seq<V>)
    ensures |vs| == |m|
    ensures forall i :: 0 <= i < |m| ==> vs[i] == m[i].value
  {
    seq(|m|, i requires 0 <= i < |m| => m[i].value)
  }

  /** The index of the first entry whose key exceeds k; |m| when there is none. */
  function UpperBound<V>(m: Map<V>, k: nat): (i: nat)
    ensures i <= |m|
    ensures forall j :: 0 <= j < i ==> m[j].key <= k
    ensures i < |m| ==> k < m[i].key
  {
    if m == [] || k < m[0].key then 0 else 1 + UpperBound(m[1..], k)
  }

  /** operator[]= : replaces the value stored under k, or inserts it in key order. */
  function Set<V>(m: Map<V>, k: nat, v: V): (r: Map<V>) {
    var i := UpperBound(m, k);
    if i > 0 && m[i - 1].key == k then m[i - 1 := Entry(k, v)] else m[..i] + [Entry(k, v)] + m[i..]
  }

  /** insert: as operator[]=, but an entry already stored under k stays. */
  function Insert<V>(m: Map<V>, k: nat, v: V): (r: Map<V>) {
    var i := UpperBound(m, k);
    if i > 0 && m[i - 1].key == k then m else m[..i] + [Entry(k, v)] + m[i..]
  }

  /** A key above every stored key lands at the end, by either kind of insertion. */
  lemma AppendLargest<V>(m: Map<V>, k: nat, v: V)
    requires forall i :: 0 <= i < |m| ==> m[i].key < k
    ensures UpperBound(m, k) == |m|
    ensures Set(m, k, v) == Insert(m, k, v) == m + [Entry(k, v)]
  {
  }

  /** Either kind of insertion. */
  function Put<V>(m: Map<V>, k: nat, v: V, replace: bool): Map<V> { if replace then Set(m, k, v) else Insert(m, k, v) }

  /** What has been stored under k is at or before k's upper bound. */
  lemma Stored<V>(m: Map<V>, k: nat, v: V, replace: bool)
    ensures 0 < UpperBound(Put(m, k, v, replace), k) <= |Put(m, k, v, replace)|
  {
    var r := Put(m, k, v, replace);
    assert r != [] && r[0].key <= k;
  }
}
