/** Registry commands: what executing and undoing them does, to the registry and to themselves. */
module Commands {
  import opened Bytes
  import opened CopyNames

  type Path = seq<string>

  datatype Value = Value(kind: nat, data: seq<Byte>)

  type KeyValues = map<string, Value>

  type Reg = map<Path, KeyValues>

  /** Every key's parent exists. */
  ghost predicate Closed(r: Reg) {
    forall p :: p in r && p != [] ==> p[..|p| - 1] in r
  }

  /** A command with what it has saved: the other value, the deleted value, the pasted name. The name of
      a key to create is a path below the key it is created in. */
  datatype Command =
    | ChangeValue(path: Path, name: string, value: Value)
    | DeleteValue(path: Path, name: string, saved: Value)
    | CopyValue(path: Path, name: string, targetPath: Path, targetName: string)
    | CreateKey(path: Path, subkey: Path)
    | CommandList(commands: seq<Command>)

  datatype Outcome = Outcome(ok: bool, command: Command, reg: Reg)

  datatype ListOutcome = ListOutcome(ok: bool, commands: seq<Command>, reg: Reg)

  function SetValue(r: Reg, p: Path, n: string, v: Value): Reg
    requires p in r
  {
    r[p := r[p][n := v]]
  }

  function RemoveValue(r: Reg, p: Path, n: string): Reg
    requires p in r
  {
    r[p := r[p] - {n}]
  }

  predicate Under(p: Path, root: Path) { |root| <= |p| && p[..|root|] == root }

  /** RegDeleteTree. */
  function DeleteTree(r: Reg, root: Path): Reg { map p | p in r && !Under(p, root) :: r[p] }

  /** The registry with further keys, which have no values. */
  function Plus(r: Reg, more: set<Path>): Reg { map q | q in r.Keys + more :: if q in r then r[q] else map[] }

  /** The keys that are missing on the way from p to p + n, and p + n itself. */
  function Missing(r: Reg, p: Path, n: Path): set<Path> { set k | 0 <= k <= |n| && p + n[..k] !in r :: p + n[..k] }

  function Execute(c: Command, r: Reg): Outcome
    decreases c, 0
  {
    match c
    case ChangeValue(p, n, v) =>
      if p !in r || n !in r[p] then Outcome(false, c, r)
      else Outcome(true, ChangeValue(p, n, r[p][n]), SetValue(r, p, n, v))
    case DeleteValue(p, n, saved) =>
      if p !in r then Outcome(false, c, r)
      else if n !in r[p] then Outcome(false, c.(saved := Value(saved.kind, [])), r)
      else Outcome(true, c.(saved := r[p][n]), RemoveValue(r, p, n))
    case CopyValue(p, n, t, _) =>
      if p !in r || t !in r then Outcome(false, c, r)
      else
        var c' := c.(targetName := FreshName(n, r[t].Keys));
        if n !in r[p] then Outcome(false, c', r)
        else Outcome(true, c', SetValue(r, t, c'.targetName, r[p][n]))
    case CreateKey(p, n) =>
      if p !in r || "" in n || p + n in r then Outcome(false, c, r)
      else Outcome(true, c, Plus(r, Missing(r, p, n)))
    case CommandList(cs) =>
      var l := ExecuteAll(cs, r);
      Outcome(l.ok, CommandList(l.commands), l.reg)
  }

  /** In order, up to the first failure. */
  function ExecuteAll(cs: seq<Command>, r: Reg): (l: ListOutcome)
    ensures |l.commands| == |cs|
    decreases cs, 1
  {
    if cs == [] then ListOutcome(true, [], r)
    else
      var s := Execute(cs[0], r);
      if !s.ok then ListOutcome(false, [s.command] + cs[1..], s.reg)
      else
        var l := ExecuteAll(cs[1..], s.reg);
        ListOutcome(l.ok, [s.command] + l.commands, l.reg)
  }

  function Undo(c: Command, r: Reg): Outcome
    decreases c, 0
  {
    match c
    case ChangeValue(_, _, _) => Execute(c, r)
    case DeleteValue(p, n, saved) =>
      if p !in r then Outcome(false, c, r) else Outcome(true, c, SetValue(r, p, n, saved))
    case CopyValue(_, _, t, tn) =>
      if t !in r || tn !in r[t] then Outcome(false, c, r) else Outcome(true, c, RemoveValue(r, t, tn))
    case CreateKey(p, n) =>
      if p !in r || n == [] || "" in n || p + n !in r then Outcome(false, c, r)
      else Outcome(true, c, DeleteTree(r, p + n))
    case CommandList(cs) =>
      var l := UndoAll(cs, r);
      Outcome(l.ok, CommandList(l.commands), l.reg)
  }

  /** From the last back, up to the first failure. */
  function UndoAll(cs: seq<Command>, r: Reg): (l: ListOutcome)
    ensures |l.commands| == |cs|
    decreases cs, 1
  {
    if cs == [] then ListOutcome(true, [], r)
    else
      var l := UndoAll(cs[1..], r);
      if !l.ok then ListOutcome(false, [cs[0]] + l.commands, l.reg)
      else
        var s := Undo(cs[0], l.reg);
        ListOutcome(s.ok, [s.command] + l.commands, s.reg)
  }

  // ------------------------------------------------------------------ what a command changes

  ghost predicate HasValue(r: Reg, p: Path, n: string) { p in r && n in r[p] }

  /** The registries have the same keys, and but for value n of key p the same values. */
  ghost predicate OnlyValue(r: Reg, s: Reg, p: Path, n: string) {
    && p in r && r.Keys == s.Keys && (forall q :: q in r && q != p ==> s[q] == r[q])
    && forall m :: m != n ==> (m in s[p] <==> m in r[p]) && (m in r[p] ==> s[p][m] == r[p][m])
  }

  /** Nothing but keys without values is new, and these are the keys from p + n upwards that were missing. */
  ghost predicate OnlyKeys(r: Reg, s: Reg, p: Path, n: Path) {
    && (forall q :: q in r ==> q in s && s[q] == r[q])
    && (forall q :: q in s && q !in r ==> s[q] == map[])
    && forall q :: q in s <==> q in r || (Under(q, p) && Under(p + n, q))
  }

  /** What executing a single command does, read off the registries before and after. */
  ghost predicate Effect(c: Command, r: Reg, o: Outcome) {
    match c
    case ChangeValue(p, n, v) =>
      if !HasValue(r, p, n) then o == Outcome(false, c, r)
      else
        && o.ok && OnlyValue(r, o.reg, p, n) && HasValue(o.reg, p, n)
        && o.reg[p][n] == v && o.command == ChangeValue(p, n, r[p][n])
    case DeleteValue(p, n, _) =>
      if !HasValue(r, p, n) then !o.ok && o.reg == r
      else
        && o.ok && OnlyValue(r, o.reg, p, n) && !HasValue(o.reg, p, n)
        && o.command == DeleteValue(p, n, r[p][n])
    case CopyValue(p, n, t, _) =>
      if !HasValue(r, p, n) || t !in r then !o.ok && o.reg == r
      else
        && o.ok && o.command.CopyValue? && o.command == CopyValue(p, n, t, o.command.targetName)
        && var name := o.command.targetName;
           && !HasValue(r, t, name) && OnlyValue(r, o.reg, t, name) && HasValue(o.reg, t, name)
           && o.reg[t][name] == r[p][n] && IsFirstFree(name, n, r[t].Keys)
    case CreateKey(p, n) =>
      if p !in r || "" in n || p + n in r then o == Outcome(false, c, r)
      else o.ok && o.command == c && p + n in o.reg && OnlyKeys(r, o.reg, p, n)
    case CommandList(_) => true
  }

  /** Of the names to try for n, this is the first that is not taken. */
  ghost predicate IsFirstFree(name: string, n: string, names: set<string>) {
    exists k: nat :: name == Candidate(n, k) && name !in names && forall j :: 0 <= j < k ==> Candidate(n, j) in names
  }

  lemma {:induction false} ExecuteEffect(c: Command, r: Reg)
    ensures Effect(c, r, Execute(c, r))
  {
    hide Candidate, FreshFrom;
    match c
    case CopyValue(p, n, t, _) =>
      if HasValue(r, p, n) && t in r {
        FirstFree(n, r[t].Keys);
      }
    case CreateKey(p, n) =>
      if p in r && "" !in n && p + n !in r {
        KeysCreated(r, p, n);
      }
    case _ =>
  }

  /** Redoing an undone paste pastes the same value under the same name. */
  lemma PastedAgain(p: Path, n: string, t: Path, tn: string, r: Reg)
    requires Closed(r) && HasValue(r, p, n) && t in r
    ensures var s := Execute(CopyValue(p, n, t, tn), r); var u := Undo(s.command, s.reg);
      && s.ok && u.ok && u.reg == r && Execute(u.command, u.reg) == Outcome(true, s.command, s.reg)
      && s.command.CopyValue? && HasValue(s.reg, t, s.command.targetName) && s.reg[t][s.command.targetName] == r[p][n]
  {
    hide FreshName, Undo;
    ExecuteEffect(CopyValue(p, n, t, tn), r);
    ExecuteReverses(CopyValue(p, n, t, tn), r);
  }

  lemma FirstFree(n: string, names: set<string>)
    ensures IsFirstFree(FreshName(n, names), n, names)
  {
    hide Candidate;
    var k := FreshFrom(n, names, 0);
    assert FreshName(n, names) == Candidate(n, k);
  }

  lemma KeysCreated(r: Reg, p: Path, n: Path)
    requires p in r
    ensures var s := Plus(r, Missing(r, p, n)); p + n in s && OnlyKeys(r, s, p, n)
  {
    var s := Plus(r, Missing(r, p, n));
    assert n[..|n|] == n;
    forall q ensures q in s <==> q in r || (Under(q, p) && Under(p + n, q)) {
      if Under(q, p) && Under(p + n, q) {
        assert q == p + n[..|q| - |p|];
      }
    }
  }

  /** What undoing a single command does: a value is written back, the pasted value or the tree of the
      created key disappears, and nothing else changes. */
  ghost predicate UndoEffect(c: Command, r: Reg, o: Outcome) {
    match c
    case ChangeValue(_, _, _) => Effect(c, r, o)
    case DeleteValue(p, n, saved) =>
      if p !in r then o == Outcome(false, c, r)
      else o.ok && o.command == c && OnlyValue(r, o.reg, p, n) && HasValue(o.reg, p, n) && o.reg[p][n] == saved
    case CopyValue(_, _, t, tn) =>
      if !HasValue(r, t, tn) then o == Outcome(false, c, r)
      else o.ok && o.command == c && OnlyValue(r, o.reg, t, tn) && !HasValue(o.reg, t, tn)
    case CreateKey(p, n) =>
      if p !in r || n == [] || "" in n || p + n !in r then o == Outcome(false, c, r)
      else
        && o.ok && o.command == c && (forall q :: q in o.reg <==> q in r && !Under(q, p + n))
        && forall q :: q in o.reg ==> o.reg[q] == r[q]
    case CommandList(_) => true
  }

  lemma {:induction false} UndoHasEffect(c: Command, r: Reg)
    ensures UndoEffect(c, r, Undo(c, r))
  {
    if c.ChangeValue? {
      ExecuteEffect(c, r);
    }
  }

  // ------------------------------------------------------------------ undoing what was executed

  /** Undoing `done` in r' restores r, and the command it leaves can be executed again with the same
      effect. */
  ghost predicate Reverses(r: Reg, done: Command, r': Reg) {
    var u := Undo(done, r');
    u.ok && u.reg == r && Execute(u.command, r) == Outcome(true, done, r')
  }

  /** The keys that are there, beyond those of r, once c was executed in r and undone with `more` keys
      present that it had not created. */
  ghost function Left(c: Command, r: Reg, more: set<Path>): set<Path>
    decreases c, 0
  {
    match c
    case CreateKey(p, n) => set q | q in Missing(r, p, n) + more && !Under(q, p + n)
    case CommandList(cs) => LeftAll(cs, r, more)
    case _ => more
  }

  ghost function LeftAll(cs: seq<Command>, r: Reg, more: set<Path>): set<Path>
    decreases cs, 1
  {
    if cs == [] then more else Left(cs[0], r, LeftAll(cs[1..], Execute(cs[0], r).reg, more))
  }

  /** What undoing leaves behind. */
  ghost function Leftover(c: Command, r: Reg): set<Path> { Left(c, r, {}) }

  /** Any executed command, nested lists included, can be undone, which leaves the registry it was
      executed in and the leftover keys; it restores that registry, so that the command can be executed
      again with the same effect, exactly if there are none. */
  lemma {:induction false} ExecuteReverses(c: Command, r: Reg)
    requires Closed(r)
    ensures var s := Execute(c, r);
      && Closed(s.reg) && r.Keys <= s.reg.Keys
      && (s.ok ==>
            && Undo(s.command, s.reg).ok && Undo(s.command, s.reg).reg == Plus(r, Leftover(c, r))
            && Leftover(c, r) !! r.Keys
            && (Reverses(r, s.command, s.reg) <==> Leftover(c, r) == {}))
  {
    var s := Execute(c, r);
    UndoneIn(c, r, {});
    PlusNothing(s.reg);
    PlusNothing(r);
    if s.ok && Leftover(c, r) != {} {
      var q :| q in Leftover(c, r);
      assert q in Plus(r, Leftover(c, r)) && q !in r;
    }
  }

  lemma PlusNothing(r: Reg)
    ensures Plus(r, {}) == r
  {
  }

  /** What undoing a command does in the registry it left with `more` keys added, and that the command it
      leaves can be executed again where it was executed. */
  ghost predicate UndoesIn(c: Command, r: Reg, more: set<Path>) {
    var s := Execute(c, r);
    && Closed(s.reg) && r.Keys <= s.reg.Keys
    && (s.ok && more !! s.reg.Keys ==>
          && Left(c, r, more) !! r.Keys
          && Undo(s.command, Plus(s.reg, more))
            == Outcome(true, Undo(s.command, s.reg).command, Plus(r, Left(c, r, more)))
          && Execute(Undo(s.command, s.reg).command, r) == Outcome(true, s.command, s.reg))
  }

  lemma {:induction false} UndoneIn(c: Command, r: Reg, more: set<Path>)
    requires Closed(r)
    ensures UndoesIn(c, r, more)
    decreases c, 0
  {
    match c
    case ChangeValue(p, n, v) => ChangeUndone(p, n, v, r, more);
    case DeleteValue(p, n, saved) => DeleteUndone(p, n, saved, r, more);
    case CopyValue(p, n, t, tn) => CopyUndone(p, n, t, tn, r, more);
    case CreateKey(p, n) => CreateUndone(p, n, r, more);
    case CommandList(cs) => ListUndone(cs, r, more);
  }

  lemma {:induction false} ListUndone(cs: seq<Command>, r: Reg, more: set<Path>)
    requires Closed(r)
    ensures var l := ExecuteAll(cs, r);
      && Closed(l.reg) && r.Keys <= l.reg.Keys
      && (l.ok && more !! l.reg.Keys ==>
            && LeftAll(cs, r, more) !! r.Keys
            && UndoAll(l.commands, Plus(l.reg, more))
              == ListOutcome(true, UndoAll(l.commands, l.reg).commands, Plus(r, LeftAll(cs, r, more)))
            && ExecuteAll(UndoAll(l.commands, l.reg).commands, r) == ListOutcome(true, l.commands, l.reg))
    decreases cs, 1
  {
    hide Execute, Undo, Left, Plus, Closed;
    if cs != [] {
      UndoneIn(cs[0], r, {});
      var s := Execute(cs[0], r);
      if s.ok {
        ListUndone(cs[1..], s.reg, more);
        ListUndone(cs[1..], s.reg, {});
        var l := ExecuteAll(cs, r);
        assert l.commands[1..] == ExecuteAll(cs[1..], s.reg).commands;
        if l.ok && more !! l.reg.Keys {
          PlusNothing(l.reg);
          UndoneIn(cs[0], r, LeftAll(cs[1..], s.reg, more));
          UndoneIn(cs[0], r, LeftAll(cs[1..], s.reg, {}));
          var u, v, w := UndoAll(l.commands[1..], l.reg), Undo(s.command, s.reg), UndoAll(l.commands, l.reg);
          assert w.commands == [v.command] + u.commands;
          assert w.commands[0] == v.command && w.commands[1..] == u.commands;
        }
      }
    }
  }

  lemma {:induction false} ChangeUndone(p: Path, n: string, v: Value, r: Reg, more: set<Path>)
    requires Closed(r)
    ensures UndoesIn(ChangeValue(p, n, v), r, more)
  {
    if p in r && n in r[p] {
      var r' := SetValue(r, p, n, v);
      assert SetValue(r', p, n, r[p][n])[p] == r[p];
      assert SetValue(r', p, n, r[p][n]) == r;
      assert SetValue(Plus(r', more), p, n, r[p][n])[p] == r[p];
      assert SetValue(Plus(r', more), p, n, r[p][n]) == Plus(r, more);
    }
  }

  lemma {:induction false} DeleteUndone(p: Path, n: string, saved: Value, r: Reg, more: set<Path>)
    requires Closed(r)
    ensures UndoesIn(DeleteValue(p, n, saved), r, more)
  {
    if p in r && n in r[p] {
      var r' := RemoveValue(r, p, n);
      assert SetValue(r', p, n, r[p][n])[p] == r[p];
      assert SetValue(r', p, n, r[p][n]) == r;
      assert SetValue(Plus(r', more), p, n, r[p][n])[p] == r[p];
      assert SetValue(Plus(r', more), p, n, r[p][n]) == Plus(r, more);
    }
  }

  lemma {:induction false} CopyUndone(p: Path, n: string, t: Path, tn: string, r: Reg, more: set<Path>)
    requires Closed(r)
    ensures UndoesIn(CopyValue(p, n, t, tn), r, more)
  {
    if p in r && t in r && n in r[p] {
      var name := FreshName(n, r[t].Keys);
      assert name !in r[t].Keys;
      hide FreshName;
      ValueRemoved(r, t, name, r[p][n], more);
    }
  }

  lemma ValueRemoved(r: Reg, t: Path, name: string, v: Value, more: set<Path>)
    requires t in r && name !in r[t]
    ensures RemoveValue(SetValue(r, t, name, v), t, name) == r
    ensures RemoveValue(Plus(SetValue(r, t, name, v), more), t, name) == Plus(r, more)
  {
    var r' := SetValue(r, t, name, v);
    assert RemoveValue(r', t, name)[t] == r[t];
    assert RemoveValue(Plus(r', more), t, name)[t] == r[t];
  }

  lemma {:induction false} CreateUndone(p: Path, n: Path, r: Reg, more: set<Path>)
    requires Closed(r)
    ensures UndoesIn(CreateKey(p, n), r, more)
  {
    if p in r && "" !in n && p + n !in r {
      assert n == [] ==> p + n == p;
      PathCreated(r, p, n);
      var r' := Plus(r, Missing(r, p, n));
      forall q | q in r ensures !Under(q, p + n) {
        NoneUnder(r, p + n, q);
      }
      PlusNothing(r');
      assert DeleteTree(Plus(r', more), p + n) == Plus(r, Left(CreateKey(p, n), r, more));
    }
  }

  /** Creating a path keeps parents present and ends at its key. */
  lemma PathCreated(r: Reg, p: Path, n: Path)
    requires Closed(r) && p in r
    ensures Closed(Plus(r, Missing(r, p, n))) && p + n in Plus(r, Missing(r, p, n))
  {
    var r' := Plus(r, Missing(r, p, n));
    forall k | 0 <= k <= |n| ensures p + n[..k] in r' { }
    assert n[..|n|] == n;
    forall q | q in r' && q != [] ensures q[..|q| - 1] in r' {
      if q !in r {
        var k :| 0 <= k <= |n| && q == p + n[..k];
        assert n[..0] == [] && p + [] == p;
        assert q[..|q| - 1] == p + n[..k - 1];
      }
    }
  }

  /** Below a key that does not exist there is none. */
  lemma {:induction false} NoneUnder(r: Reg, root: Path, p: Path)
    requires Closed(r) && root !in r && root != [] && p in r
    ensures !Under(p, root)
    decreases |p|
  {
    if Under(p, root) {
      assert p != root && |p| > |root|;
      var parent := p[..|p| - 1];
      assert parent[..|root|] == root;
      NoneUnder(r, root, parent);
    }
  }

  /** A command that is not a list leaves the registry alone when it fails. */
  lemma {:induction false} FailureKeeps(c: Command, r: Reg)
    requires !c.CommandList? && !Execute(c, r).ok
    ensures Execute(c, r).reg == r
  {
  }

  // ------------------------------------------------------------------ creating keys

  /** All keys on the way exist. */
  predicate ParentsExist(r: Reg, p: Path, n: Path) { forall k :: 0 <= k < |n| ==> p + n[..k] in r }

  /** Undoing the creation of a key restores the registry exactly if all keys on the way to it existed. */
  lemma {:induction false} CreateReverses(p: Path, n: Path, r: Reg)
    requires Closed(r) && Execute(CreateKey(p, n), r).ok
    ensures Reverses(r, CreateKey(p, n), Execute(CreateKey(p, n), r).reg) <==> ParentsExist(r, p, n)
    ensures Leftover(CreateKey(p, n), r) == {} <==> ParentsExist(r, p, n)
  {
    hide Reverses, Closed;
    var c := CreateKey(p, n);
    ExecuteReverses(c, r);
    if ParentsExist(r, p, n) {
      forall q | q in Missing(r, p, n) ensures Under(q, p + n) {
        var k :| 0 <= k <= |n| && q == p + n[..k];
        assert k == |n| && n[..k] == n;
      }
      assert Leftover(c, r) == {};
    } else {
      var k :| 0 <= k < |n| && p + n[..k] !in r;
      assert p + n[..k] in Leftover(c, r);
    }
  }

  /** Without "a", creating `a\b` and undoing it leaves "a". */
  lemma {:induction false} NestedKeyLeft()
    ensures var r, c := map[[] := map[]], CreateKey([], ["a", "b"]);
      && Execute(c, r) == Outcome(true, c, map[[] := map[], ["a"] := map[], ["a", "b"] := map[]])
      && Undo(c, Execute(c, r).reg) == Outcome(true, c, map[[] := map[], ["a"] := map[]])
  {
    var r: Reg, n: Path := map[[] := map[]], ["a", "b"];
    assert [] + n == n && n[..0] == [] && n[..1] == ["a"] && n[..2] == n;
    assert [] + n[..0] == [] && [] + n[..1] == ["a"] && [] + n[..2] == n;
    assert Missing(r, [], n) == {["a"], n};
    assert Plus(r, Missing(r, [], n)) == map[[] := map[], ["a"] := map[], n := map[]];
    assert !Under(["a"], n) && !Under([], n) && Under(n, n);
  }

  /** Every creation of a key in a list finds its parent when its turn comes. */
  ghost predicate Complete(c: Command, r: Reg)
    decreases c, 0
  {
    match c
    case CreateKey(p, n) => ParentsExist(r, p, n)
    case CommandList(cs) => AllComplete(cs, r)
    case _ => true
  }

  ghost predicate AllComplete(cs: seq<Command>, r: Reg)
    decreases cs, 1
  {
    cs == [] || (Complete(cs[0], r) && AllComplete(cs[1..], Execute(cs[0], r).reg))
  }

  /** Then nothing is left over. */
  lemma {:induction false} CompleteLeavesNothing(c: Command, r: Reg)
    requires Complete(c, r)
    ensures Leftover(c, r) == {}
    decreases c, 0
  {
    match c
    case CreateKey(p, n) =>
      forall q | q in Missing(r, p, n) ensures Under(q, p + n) {
        var k :| 0 <= k <= |n| && q == p + n[..k];
        assert k == |n| && n[..k] == n;
      }
    case CommandList(cs) => AllCompleteLeaveNothing(cs, r);
    case _ =>
  }

  lemma {:induction false} AllCompleteLeaveNothing(cs: seq<Command>, r: Reg)
    requires AllComplete(cs, r)
    ensures LeftAll(cs, r, {}) == {}
    decreases cs, 1
  {
    if cs != [] {
      AllCompleteLeaveNothing(cs[1..], Execute(cs[0], r).reg);
      CompleteLeavesNothing(cs[0], r);
    }
  }

  // ------------------------------------------------------------------ commands that fail

  /** The single commands of a command, in the order in which they are executed. */
  function Leaves(c: Command): seq<Command>
    decreases c, 0
  {
    if c.CommandList? then AllLeaves(c.commands) else [c]
  }

  function AllLeaves(cs: seq<Command>): seq<Command>
    decreases cs, 1
  {
    if cs == [] then [] else Leaves(cs[0]) + AllLeaves(cs[1..])
  }

  /** How many of the commands succeed in a row. */
  function Successes(cs: seq<Command>, r: Reg): (k: nat)
    ensures k <= |cs|
  {
    if cs == [] || !Execute(cs[0], r).ok then 0 else 1 + Successes(cs[1..], Execute(cs[0], r).reg)
  }

  /** The registry after commands that all succeed. */
  function After(cs: seq<Command>, r: Reg): Reg {
    if cs == [] then r else After(cs[1..], Execute(cs[0], r).reg)
  }

  /** A command, failing or not, leaves exactly the registry after the longest prefix of its single
      commands that succeeds, and it fails exactly if that is not all of them. */
  lemma {:induction false} LeavesPrefix(c: Command, r: Reg)
    ensures var cs, s := Leaves(c), Execute(c, r); var k := Successes(cs, r);
      && (s.ok <==> k == |cs|) && s.reg == After(cs[..k], r)
      && (k < |cs| ==> !Execute(cs[k], s.reg).ok)
    decreases c, 0
  {
    if c.CommandList? {
      ListLeavesPrefix(c.commands, r);
    } else {
      SingleLeavesPrefix(c, r);
    }
  }

  lemma {:induction false} SingleLeavesPrefix(c: Command, r: Reg)
    requires !c.CommandList?
    ensures var k, s := Successes([c], r), Execute(c, r);
      (s.ok <==> k == 1) && s.reg == After([c][..k], r) && (k < 1 ==> !Execute(c, s.reg).ok)
  {
    hide Execute;
    assert [c][1..] == [] && [c][..1] == [c] && [c][..0] == [];
    if !Execute(c, r).ok {
      FailureKeeps(c, r);
    }
  }

  lemma {:induction false} ListLeavesPrefix(cs: seq<Command>, r: Reg)
    ensures var ls, l := AllLeaves(cs), ExecuteAll(cs, r); var k := Successes(ls, r);
      && (l.ok <==> k == |ls|) && l.reg == After(ls[..k], r)
      && (k < |ls| ==> !Execute(ls[k], l.reg).ok)
    decreases cs, 1
  {
    hide Execute;
    if cs != [] {
      LeavesPrefix(cs[0], r);
      var first, rest, s := Leaves(cs[0]), AllLeaves(cs[1..]), Execute(cs[0], r);
      if s.ok {
        assert first[..|first|] == first;
        ListLeavesPrefix(cs[1..], s.reg);
      }
      SuccessesInFront(first, rest, r);
    }
  }

  /** Successes of commands one behind the other. */
  lemma {:induction false} SuccessesInFront(a: seq<Command>, b: seq<Command>, r: Reg)
    ensures var k := Successes(a, r);
      if k < |a| then Successes(a + b, r) == k && (a + b)[..k] == a[..k] && (a + b)[k] == a[k]
      else
        var m := Successes(b, After(a, r));
        && Successes(a + b, r) == |a| + m && After((a + b)[..|a| + m], r) == After(b[..m], After(a, r))
        && (m < |b| ==> (a + b)[|a| + m] == b[m])
  {
    hide Execute;
    SuccessesAdd(a, b, r);
    if Successes(a, r) == |a| {
      var m := Successes(b, After(a, r));
      AfterBoth(a, b[..m], r);
      assert (a + b)[..|a| + m] == a + b[..m];
    }
  }

  lemma {:induction false} SuccessesAdd(a: seq<Command>, b: seq<Command>, r: Reg)
    ensures var k := Successes(a, r); Successes(a + b, r) == if k < |a| then k else |a| + Successes(b, After(a, r))
  {
    hide Execute;
    if a == [] {
      assert a + b == b;
    } else {
      var s := Execute(a[0], r);
      assert (a + b)[1..] == a[1..] + b;
      SuccessesAdd(a[1..], b, s.reg);
    }
  }

  lemma {:induction false} AfterBoth(a: seq<Command>, b: seq<Command>, r: Reg)
    ensures After(a + b, r) == After(b, After(a, r))
  {
    hide Execute;
    if a == [] {
      assert a + b == b;
    } else {
      assert (a + b)[1..] == a[1..] + b;
      AfterBoth(a[1..], b, Execute(a[0], r).reg);
    }
  }

  /** So a list that fails leaves the registry alone if its first single command fails. If the second
      does, it leaves it alone exactly if the first only wrote a value over itself; and whichever does,
      not if one in front of it created a key. */
  lemma {:induction false} FailureKeepsIff(c: Command, r: Reg)
    requires !Execute(c, r).ok
    ensures var cs := Leaves(c); var k := Successes(cs, r);
      && (k == 0 ==> Execute(c, r).reg == r)
      && (k == 1 ==> (Execute(c, r).reg == r <==> cs[0].ChangeValue? && r[cs[0].path][cs[0].name] == cs[0].value))
      && ((exists i :: 0 <= i < k && cs[i].CreateKey?) <==> Execute(c, r).reg.Keys != r.Keys)
  {
    hide Execute;
    var cs := Leaves(c);
    var k := Successes(cs, r);
    LeavesPrefix(c, r);
    LeavesSingle(c);
    KeysGrow(cs, k, r);
    if k == 1 {
      assert cs[..1][1..] == [];
      assert After(cs[..1], r) == Execute(cs[0], r).reg;
      SingleChanges(cs[0], r);
    }
  }

  lemma {:induction false} LeavesSingle(c: Command)
    ensures forall i :: 0 <= i < |Leaves(c)| ==> !Leaves(c)[i].CommandList?
    decreases c, 0
  {
    if c.CommandList? {
      AllLeavesSingle(c.commands);
    }
  }

  lemma {:induction false} AllLeavesSingle(cs: seq<Command>)
    ensures forall i :: 0 <= i < |AllLeaves(cs)| ==> !AllLeaves(cs)[i].CommandList?
    decreases cs, 1
  {
    if cs != [] {
      LeavesSingle(cs[0]);
      AllLeavesSingle(cs[1..]);
    }
  }

  /** Of the single commands only one that writes a value over itself succeeds without an effect. */
  lemma {:induction false} SingleChanges(c: Command, r: Reg)
    requires !c.CommandList? && Execute(c, r).ok
    ensures Execute(c, r).reg == r <==> c.ChangeValue? && r[c.path][c.name] == c.value
    ensures if c.CreateKey? then r.Keys < Execute(c, r).reg.Keys else Execute(c, r).reg.Keys == r.Keys
  {
    var r' := Execute(c, r).reg;
    match c
    case ChangeValue(p, n, v) =>
      assert r'[p][n] == v;
      if r[p][n] == v {
        assert r[p][n := v] == r[p];
      }
    case DeleteValue(p, n, _) => assert n !in r'[p];
    case CopyValue(p, n, t, _) => assert FreshName(n, r[t].Keys) in r'[t];
    case CreateKey(p, n) =>
      assert n[..|n|] == n;
      assert p + n in r';
    case CommandList(_) =>
  }

  /** Successful commands change the set of keys exactly if one of them creates a key. */
  lemma {:induction false} KeysGrow(cs: seq<Command>, k: nat, r: Reg)
    requires k <= Successes(cs, r) && forall i :: 0 <= i < |cs| ==> !cs[i].CommandList?
    ensures r.Keys <= After(cs[..k], r).Keys
    ensures (exists i :: 0 <= i < k && cs[i].CreateKey?) <==> After(cs[..k], r).Keys != r.Keys
    decreases k
  {
    hide Execute;
    if k > 0 {
      var s := Execute(cs[0], r);
      SingleChanges(cs[0], r);
      KeysGrow(cs[1..], k - 1, s.reg);
      assert cs[..k][1..] == cs[1..][..k - 1];
      assert forall i :: 0 < i < k ==> cs[i] == cs[1..][i - 1];
      assert forall i :: 0 <= i < k - 1 ==> cs[1..][i] == cs[i + 1];
    }
  }

  // ------------------------------------------------------------------ the keys that commands create

  /** The keys after a command has succeeded. */
  ghost function KeysAfter(c: Command, keys: set<Path>): set<Path>
    decreases c, 0
  {
    match c
    case CreateKey(p, n) => keys + set k | 0 <= k <= |n| :: p + n[..k]
    case CommandList(cs) => AllKeysAfter(cs, keys)
    case _ => keys
  }

  ghost function AllKeysAfter(cs: seq<Command>, keys: set<Path>): set<Path>
    decreases cs, 1
  {
    if cs == [] then keys else AllKeysAfter(cs[1..], KeysAfter(cs[0], keys))
  }

  lemma {:induction false} ExecutedKeys(c: Command, r: Reg)
    requires Execute(c, r).ok
    ensures Execute(c, r).reg.Keys == KeysAfter(c, r.Keys)
    decreases c, 0
  {
    if c.CommandList? {
      AllExecutedKeys(c.commands, r);
    }
  }

  lemma {:induction false} AllExecutedKeys(cs: seq<Command>, r: Reg)
    requires ExecuteAll(cs, r).ok
    ensures ExecuteAll(cs, r).reg.Keys == AllKeysAfter(cs, r.Keys)
    decreases cs, 1
  {
    if cs != [] {
      ExecutedKeys(cs[0], r);
      AllExecutedKeys(cs[1..], Execute(cs[0], r).reg);
    }
  }

  /** Undoing a command does not change which keys it creates. */
  lemma {:induction false} UndoneKeys(c: Command, r: Reg, keys: set<Path>)
    ensures KeysAfter(Undo(c, r).command, keys) == KeysAfter(c, keys)
    decreases c, 0
  {
    if c.CommandList? {
      AllUndoneKeys(c.commands, r, keys);
    }
  }

  lemma {:induction false} AllUndoneKeys(cs: seq<Command>, r: Reg, keys: set<Path>)
    ensures AllKeysAfter(UndoAll(cs, r).commands, keys) == AllKeysAfter(cs, keys)
    decreases cs, 1
  {
    hide Undo;
    if cs != [] {
      var u := UndoAll(cs[1..], r);
      AllUndoneKeys(cs[1..], r, KeysAfter(cs[0], keys));
      UndoneKeys(cs[0], u.reg, keys);
      var w := UndoAll(cs, r).commands;
      assert w[1..] == u.commands;
    }
  }
}
