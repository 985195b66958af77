/** Bucket chains as values: what they contain, and how inserting, removing and spreading change it. */
module Chains {

  function Flat<T>(chains: seq<seq<T>>): seq<T> {
    if chains == [] then [] else chains[0] + Flat(chains[1..])
  }

  /** The elements that satisfy p, in order. */
  function Select<T>(s: seq<T>, p: T -> bool): (r: seq<T>)
    ensures |r| <= |s|
  {
    if s == [] then [] else (if p(s[0]) then [s[0]] else []) + Select(s[1..], p)
  }

  function Reversed<T>(s: seq<T>): (r: seq<T>)
    ensures |r| == |s|
  {
    if s == [] then [] else Reversed(s[1..]) + [s[0]]
  }

  ghost predicate NoDuplicates<T>(s: seq<T>) {
    forall i, j :: 0 <= i < j < |s| ==> s[i] != s[j]
  }

  lemma {:induction false} FlatAppend<T>(a: seq<seq<T>>, b: seq<seq<T>>)
    ensures Flat(a + b) == Flat(a) + Flat(b)
  {
    if a == [] {
      assert a + b == b;
    } else {
      assert (a + b)[1..] == a[1..] + b;
      FlatAppend(a[1..], b);
    }
  }

  lemma FlatAt<T>(chains: seq<seq<T>>, j: nat)
    requires j < |chains|
    ensures Flat(chains) == Flat(chains[..j]) + chains[j] + Flat(chains[j + 1..])
  {
    assert chains == chains[..j] + chains[j..];
    FlatAppend(chains[..j], chains[j..]);
    assert chains[j..][1..] == chains[j + 1..];
  }

  /** Replacing one chain replaces its stretch of the flat list. */
  lemma FlatUpdate<T>(chains: seq<seq<T>>, j: nat, c: seq<T>)
    requires j < |chains|
    ensures Flat(chains[j := c]) == Flat(chains[..j]) + c + Flat(chains[j + 1..])
  {
    FlatAt(chains[j := c], j);
    assert chains[j := c][..j] == chains[..j] && chains[j := c][j + 1..] == chains[j + 1..];
  }

  lemma {:induction false} FlatEmpty<T>(chains: seq<seq<T>>)
    requires forall j :: 0 <= j < |chains| ==> chains[j] == []
    ensures Flat(chains) == []
  {
    if chains != [] {
      FlatEmpty(chains[1..]);
    }
  }

  lemma {:induction false} FlatMember<T>(chains: seq<seq<T>>, x: T)
    ensures x in Flat(chains) <==> exists j :: 0 <= j < |chains| && x in chains[j]
  {
    if chains != [] {
      FlatMember(chains[1..], x);
      if j :| 0 <= j < |chains| && x in chains[j] {
        assert j == 0 || x in chains[1..][j - 1];
      }
      if j :| 0 <= j < |chains| - 1 && x in chains[1..][j] {
        assert x in chains[j + 1];
      }
    }
  }

  lemma {:induction false} SelectMember<T>(s: seq<T>, p: T -> bool, x: T)
    ensures x in Select(s, p) <==> x in s && p(x)
  {
    if s != [] {
      SelectMember(s[1..], p, x);
    }
  }

  lemma {:induction false} SelectAppend<T>(a: seq<T>, b: seq<T>, p: T -> bool)
    ensures Select(a + b, p) == Select(a, p) + Select(b, p)
  {
    if a == [] {
      assert a + b == b;
    } else {
      var head := if p(a[0]) then [a[0]] else [];
      assert (a + b)[1..] == a[1..] + b && (a + b)[0] == a[0];
      SelectAppend(a[1..], b, p);
      assert head + (Select(a[1..], p) + Select(b, p)) == (head + Select(a[1..], p)) + Select(b, p);
    }
  }

  lemma {:induction false} SelectAll<T>(s: seq<T>, p: T -> bool)
    requires forall x :: x in s ==> p(x)
    ensures Select(s, p) == s
  {
    if s != [] {
      SelectAll(s[1..], p);
    }
  }

  lemma {:induction false} SelectNone<T>(s: seq<T>, p: T -> bool)
    requires forall x :: x in s ==> !p(x)
    ensures Select(s, p) == []
  {
    if s != [] {
      SelectNone(s[1..], p);
    }
  }

  lemma {:induction false} SelectNoDuplicates<T>(s: seq<T>, p: T -> bool)
    requires NoDuplicates(s)
    ensures NoDuplicates(Select(s, p))
  {
    if s != [] {
      SelectNoDuplicates(s[1..], p);
      SelectMember(s[1..], p, s[0]);
    }
  }

  /** A selection from a concatenation of chains in which only chain j has matching elements. */
  lemma SelectFlat<T>(chains: seq<seq<T>>, j: nat, p: T -> bool)
    requires j < |chains|
    requires forall k, i :: 0 <= k < |chains| && 0 <= i < |chains[k]| && k != j ==> !p(chains[k][i])
    ensures Select(Flat(chains), p) == Select(chains[j], p)
  {
    FlatAt(chains, j);
    var a, b := Flat(chains[..j]), Flat(chains[j + 1..]);
    SelectAppend(a + chains[j], b, p);
    SelectAppend(a, chains[j], p);
    forall x | x in a ensures !p(x) {
      FlatMember(chains[..j], x);
    }
    forall x | x in b ensures !p(x) {
      FlatMember(chains[j + 1..], x);
    }
    SelectNone(a, p);
    SelectNone(b, p);
  }

  lemma {:induction false} ReversedMember<T>(s: seq<T>, x: T)
    ensures x in Reversed(s) <==> x in s
  {
    if s != [] {
      ReversedMember(s[1..], x);
    }
  }

  lemma {:induction false} SelectReversed<T>(s: seq<T>, p: T -> bool)
    ensures Select(Reversed(s), p) == Reversed(Select(s, p))
  {
    if s != [] {
      SelectReversed(s[1..], p);
      SelectAppend(Reversed(s[1..]), [s[0]], p);
      var tail := Select(s[1..], p);
      if p(s[0]) {
        assert ([s[0]] + tail)[1..] == tail;
      } else {
        assert [] + tail == tail;
      }
    }
  }

  // ------------------------------------------------------------------ spreading

  /** Pushes every element, in order, to the front of the chain its index names. */
  function Spread<T>(s: seq<T>, index: T -> nat, chains: seq<seq<T>>): (r: seq<seq<T>>)
    requires forall x :: x in s ==> index(x) < |chains|
    ensures |r| == |chains|
    decreases |s|
  {
    if s == [] then chains
    else var j := index(s[0]); Spread(s[1..], index, chains[j := [s[0]] + chains[j]])
  }

  function Picks<T>(index: T -> nat, k: nat): T -> bool { x => index(x) == k }

  /** Spreading reverses the elements of each index, in front of what was there. */
  lemma {:induction false} SpreadAt<T>(s: seq<T>, index: T -> nat, chains: seq<seq<T>>, k: nat)
    requires k < |chains| && forall x :: x in s ==> index(x) < |chains|
    ensures Spread(s, index, chains)[k] == Reversed(Select(s, Picks(index, k))) + chains[k]
    decreases |s|
  {
    if s != [] {
      var j := index(s[0]);
      var chains' := chains[j := [s[0]] + chains[j]];
      SpreadAt(s[1..], index, chains', k);
      var tail := Select(s[1..], Picks(index, k));
      if j == k {
        assert Select(s, Picks(index, k)) == [s[0]] + tail;
        assert ([s[0]] + tail)[1..] == tail;
        assert Reversed(tail) + ([s[0]] + chains[k]) == Reversed(tail) + [s[0]] + chains[k];
      } else {
        assert Select(s, Picks(index, k)) == tail;
      }
    } else {
      assert Reversed(Select(s, Picks(index, k))) + chains[k] == chains[k];
    }
  }

  /** Spreading conserves the elements. */
  lemma {:induction false} SpreadMultiset<T>(s: seq<T>, index: T -> nat, chains: seq<seq<T>>)
    requires forall x :: x in s ==> index(x) < |chains|
    ensures multiset(Flat(Spread(s, index, chains))) == multiset(s) + multiset(Flat(chains))
    decreases |s|
  {
    if s != [] {
      var j := index(s[0]);
      SpreadMultiset(s[1..], index, chains[j := [s[0]] + chains[j]]);
      FlatUpdate(chains, j, [s[0]] + chains[j]);
      FlatAt(chains, j);
      assert s == [s[0]] + s[1..];
    }
  }

  /** Moving the first element of chain j, the first that is not empty, takes it off the flat list. */
  lemma FlatTail<T>(chains: seq<seq<T>>, j: nat)
    requires j < |chains| && chains[j] != [] && forall k :: 0 <= k < j ==> chains[k] == []
    ensures Flat(chains) != [] && Flat(chains)[0] == chains[j][0]
    ensures Flat(chains[j := chains[j][1..]]) == Flat(chains)[1..]
  {
    FlatUpdate(chains, j, chains[j][1..]);
    FlatAt(chains, j);
    FlatEmpty(chains[..j]);
  }
}
