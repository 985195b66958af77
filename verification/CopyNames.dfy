/** Names for pasted registry values, and why the search for a free one ends. */
module CopyNames {

  function Digit(d: nat): char
    requires d < 10
  {
    '0' + d as char
  }

  function Decimal(n: nat): (s: string)
    ensures s != []
  {
    if n < 10 then [Digit(n)] else Decimal(n / 10) + [Digit(n % 10)]
  }

  /** The k-th name the search tries. */
  function Candidate(name: string, k: nat): string {
    if k == 0 then name
    else if k == 1 then "Copy Of " + name
    else "Copy(" + Decimal(k + 1) + ") Of " + name
  }

  /** The number that a string of digits stands for. */
  function Number(s: string): nat {
    if s == "" then 0
    else
      var c := s[|s| - 1];
      10 * Number(s[..|s| - 1]) + if '0' <= c <= '9' then (c - '0') as nat else 0
  }

  lemma {:induction false} DecimalNumber(n: nat)
    ensures Number(Decimal(n)) == n
  {
    var s := Decimal(n);
    assert s[|s| - 1] == Digit(n % 10);
    if n >= 10 {
      DecimalNumber(n / 10);
      assert s[..|s| - 1] == Decimal(n / 10);
    }
  }

  /** No name is tried twice. */
  lemma {:induction false} CandidatesDiffer(name: string, j: nat, k: nat)
    requires j < k
    ensures Candidate(name, j) != Candidate(name, k)
  {
    var a, b := Candidate(name, j), Candidate(name, k);
    if j == 0 {
      assert |b| > |a|;
    } else if j == 1 {
      assert a[4] == ' ' && b[4] == '(';
    } else if a == b {
      var x, y := Decimal(j + 1), Decimal(k + 1);
      assert |x| == |y|;
      assert a[5..5 + |x|] == x && b[5..5 + |y|] == y;
      DecimalNumber(j + 1);
      DecimalNumber(k + 1);
    }
  }

  /** The names tried first. */
  function Tried(name: string, k: nat): set<string> {
    if k == 0 then {} else Tried(name, k - 1) + {Candidate(name, k - 1)}
  }

  lemma {:induction false} TriedFacts(name: string, k: nat)
    ensures |Tried(name, k)| == k
    ensures forall s :: s in Tried(name, k) <==> exists j :: 0 <= j < k && s == Candidate(name, j)
  {
    hide Candidate;
    if k > 0 {
      TriedFacts(name, k - 1);
      forall j | 0 <= j < k - 1 ensures Candidate(name, j) != Candidate(name, k - 1) {
        CandidatesDiffer(name, j, k - 1);
      }
      OneMore(Tried(name, k - 1), Candidate(name, k - 1));
    }
  }

  lemma OneMore(tried: set<string>, s: string)
    requires s !in tried
    ensures |tried + {s}| == |tried| + 1
  {
  }

  /** Among more candidates than there are names, one is free. */
  lemma {:induction false} Pigeonhole(name: string, names: set<string>, k: nat)
    requires forall j :: 0 <= j < k ==> Candidate(name, j) in names
    ensures k <= |names|
  {
    TriedFacts(name, k);
    assert Tried(name, k) <= names;
    Smaller(Tried(name, k), names);
  }

  lemma {:induction false} Smaller(a: set<string>, b: set<string>)
    requires a <= b
    ensures |a| <= |b|
  {
    assert |b - a| == |b| - |a|;
  }

  /** How many of the first candidates are taken, from the k-th on. */
  function FreshFrom(name: string, names: set<string>, k: nat): (r: nat)
    requires forall j :: 0 <= j < k ==> Candidate(name, j) in names
    ensures k <= r && Candidate(name, r) !in names && forall j :: 0 <= j < r ==> Candidate(name, j) in names
    decreases |names| + 1 - k
  {
    Pigeonhole(name, names, k);
    if Candidate(name, k) !in names then k else FreshFrom(name, names, k + 1)
  }

  /** The first candidate that is not taken. */
  function FreshName(name: string, names: set<string>): string { Candidate(name, FreshFrom(name, names, 0)) }

  lemma {:induction false} FreshUnique(name: string, names: set<string>, k: nat)
    requires Candidate(name, k) !in names && forall j :: 0 <= j < k ==> Candidate(name, j) in names
    ensures Candidate(name, k) == FreshName(name, names)
  {
    var r := FreshFrom(name, names, 0);
    assert !(r < k) && !(k < r);
  }

  /** The search of the paste command. */
  method FindFreshName(name: string, names: set<string>) returns (tname: string)
    ensures tname == FreshName(name, names) && tname !in names
  {
    var i := 1;
    tname := name;
    ghost var k := 0;
    while tname in names
      invariant tname == Candidate(name, k) && i == k + 1 && forall j :: 0 <= j < k ==> Candidate(name, j) in names
      invariant k <= |names|
      decreases |names| + 1 - k
    {
      i := i + 1;
      if i == 2 {
        tname := "Copy Of " + name;
      } else {
        tname := "Copy(" + Decimal(i) + ") Of " + name;
      }
      k := k + 1;
      Pigeonhole(name, names, k);
    }
    FreshUnique(name, names, k);
  }
}
