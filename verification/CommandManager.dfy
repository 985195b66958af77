/** The history of registry commands: executing, undoing and redoing them in place. */
module CommandHistory {
  import opened CopyNames
  import opened Commands

  // ------------------------------------------------------------------ histories as values

  /** The two lists, newest last, and the registry. */
  datatype History = History(undone: seq<Command>, redone: seq<Command>, reg: Reg)

  /** Undoing the list from its end restores `initial`, and each step can be redone. */
  ghost predicate Backward(done: seq<Command>, reg: Reg, initial: Reg)
    decreases |done|
  {
    Closed(reg) &&
    if done == [] then reg == initial
    else
      var n := |done| - 1;
      var u := Undo(done[n], reg);
      u.ok && Execute(u.command, u.reg) == Outcome(true, done[n], reg) && Backward(done[..n], u.reg, initial)
  }

  /** Redoing the list from its end succeeds, and each step can be undone. */
  ghost predicate Forward(redo: seq<Command>, reg: Reg)
    decreases |redo|
  {
    Closed(reg) &&
    (redo != [] ==>
      var n := |redo| - 1;
      var s := Execute(redo[n], reg);
      s.ok && Undo(s.command, s.reg) == Outcome(true, redo[n], reg) && Forward(redo[..n], s.reg))
  }

  ghost predicate Consistent(h: History, initial: Reg) {
    Backward(h.undone, h.reg, initial) && Forward(h.redone, h.reg)
  }

  function Back(h: History): History {
    if h.undone == [] then h
    else
      var n := |h.undone| - 1;
      var u := Undo(h.undone[n], h.reg);
      if u.ok then History(h.undone[..n], h.redone + [u.command], u.reg)
      else History(h.undone[n := u.command], h.redone, u.reg)
  }

  function Forth(h: History): History {
    if h.redone == [] then h
    else
      var n := |h.redone| - 1;
      var s := Execute(h.redone[n], h.reg);
      if s.ok then History(h.undone + [s.command], h.redone[..n], s.reg)
      else History(h.undone, h.redone[n := s.command], s.reg)
  }

  /** Undo keeps a history consistent, takes one command off it, and redo takes it back. */
  lemma {:induction false} BackForth(h: History, initial: Reg)
    requires Consistent(h, initial) && h.undone != []
    ensures Undo(h.undone[|h.undone| - 1], h.reg).ok && Consistent(Back(h), initial)
    ensures |Back(h).undone| == |h.undone| - 1 && |Back(h).redone| == |h.redone| + 1 && Forth(Back(h)) == h
  {
    var b, n := Back(h), |h.undone| - 1;
    assert b.redone[..|h.redone|] == h.redone && b.redone[|h.redone|] == Undo(h.undone[n], h.reg).command;
    assert h.undone[..n] + [h.undone[n]] == h.undone;
  }

  /** Redo keeps a history consistent, and undo takes it back. */
  lemma {:induction false} ForthBack(h: History, initial: Reg)
    requires Consistent(h, initial) && h.redone != []
    ensures Execute(h.redone[|h.redone| - 1], h.reg).ok && Consistent(Forth(h), initial)
    ensures |Forth(h).undone| == |h.undone| + 1 && |Forth(h).redone| == |h.redone| - 1 && Back(Forth(h)) == h
  {
    var f, n := Forth(h), |h.redone| - 1;
    assert f.undone[..|h.undone|] == h.undone && f.undone[|h.undone|] == Execute(h.redone[n], h.reg).command;
    assert h.redone[..n] + [h.redone[n]] == h.redone;
    assert Forward(h.redone[..n], f.reg);
  }

  function BackTimes(h: History, k: nat): History
    decreases k
  {
    if k == 0 then h else BackTimes(Back(h), k - 1)
  }

  function ForthTimes(h: History, k: nat): History
    decreases k
  {
    if k == 0 then h else Forth(ForthTimes(h, k - 1))
  }

  /** k undos and then k redos change neither the registry nor the lists. */
  lemma {:induction false} UndoRedo(h: History, initial: Reg, k: nat)
    requires Consistent(h, initial) && k <= |h.undone|
    ensures Consistent(BackTimes(h, k), initial) && |BackTimes(h, k).undone| == |h.undone| - k
    ensures ForthTimes(BackTimes(h, k), k) == h
    decreases k
  {
    hide Consistent, Back, Forth;
    if k > 0 {
      BackForth(h, initial);
      UndoRedo(Back(h), initial, k - 1);
    }
  }

  /** Undoing everything restores the registry the history started with. */
  lemma {:induction false} UndoEverything(h: History, initial: Reg)
    requires Consistent(h, initial)
    ensures BackTimes(h, |h.undone|).reg == initial && BackTimes(h, |h.undone|).undone == []
  {
    UndoRedo(h, initial, |h.undone|);
  }

  // ------------------------------------------------------------------ the registry in place

  class Registry {
    var keys: Reg

    constructor (keys: Reg)
      ensures this.keys == keys
    {
      this.keys := keys;
    }

    /** Execute of one command; the command it returns is the one object after the call. */
    method ExecuteCommand(c: Command) returns (ok: bool, c': Command)
      modifies this
      ensures Outcome(ok, c', keys) == Execute(c, old(keys))
      decreases c, 0
    {
      match c
      case ChangeValue(p, n, v) =>
        if p !in keys || n !in keys[p] {
          return false, c;
        }
        var previous := keys[p][n];
        keys := SetValue(keys, p, n, v);
        return true, ChangeValue(p, n, previous);
      case DeleteValue(p, n, saved) =>
        if p !in keys {
          return false, c;
        }
        if n !in keys[p] {
          return false, DeleteValue(p, n, Value(saved.kind, []));
        }
        var deleted := keys[p][n];
        keys := RemoveValue(keys, p, n);
        return true, DeleteValue(p, n, deleted);
      case CopyValue(p, n, t, _) =>
        if p !in keys || t !in keys {
          return false, c;
        }
        var tname := FindFreshName(n, keys[t].Keys);
        if n !in keys[p] {
          return false, CopyValue(p, n, t, tname);
        }
        keys := SetValue(keys, t, tname, keys[p][n]);
        return true, CopyValue(p, n, t, tname);
      case CreateKey(p, n) =>
        if p !in keys || "" in n || p + n in keys {
          return false, c;
        }
        keys := Plus(keys, Missing(keys, p, n));
        return true, c;
      case CommandList(cs) =>
        var commands;
        ok, commands := ExecuteList(cs);
        c' := CommandList(commands);
    }

    method ExecuteList(cs: seq<Command>) returns (ok: bool, commands: seq<Command>)
      modifies this
      ensures ListOutcome(ok, commands, keys) == ExecuteAll(cs, old(keys))
      decreases cs, 1
    {
      hide Execute, ExecuteAll;
      commands := [];
      ghost var all := ExecuteAll(cs, keys);
      assert cs[0..] == cs;
      for i := 0 to |cs|
        invariant var l := ExecuteAll(cs[i..], keys); all == ListOutcome(l.ok, commands + l.commands, l.reg)
      {
        ExecuteNext(cs, i, keys);
        var done, c := ExecuteCommand(cs[i]);
        assert commands + ([c] + cs[i + 1..]) == commands + [c] + cs[i + 1..];
        commands := commands + [c];
        if !done {
          return false, commands + cs[i + 1..];
        }
      }
      assert ExecuteAll(cs[|cs|..], keys) == ListOutcome(true, [], keys) by {
        ExecuteNone(keys);
      }
      ok := true;
    }

    method UndoCommand(c: Command) returns (ok: bool, c': Command)
      modifies this
      ensures Outcome(ok, c', keys) == Undo(c, old(keys))
      decreases c, 0
    {
      match c
      case ChangeValue(_, _, _) => ok, c' := ExecuteCommand(c);
      case DeleteValue(p, n, saved) =>
        if p !in keys {
          return false, c;
        }
        keys := SetValue(keys, p, n, saved);
        return true, c;
      case CopyValue(_, _, t, tn) =>
        if t !in keys || tn !in keys[t] {
          return false, c;
        }
        keys := RemoveValue(keys, t, tn);
        return true, c;
      case CreateKey(p, n) =>
        if p !in keys || n == [] || "" in n || p + n !in keys {
          return false, c;
        }
        keys := DeleteTree(keys, p + n);
        return true, c;
      case CommandList(cs) =>
        var commands;
        ok, commands := UndoList(cs);
        c' := CommandList(commands);
    }

    method UndoList(cs: seq<Command>) returns (ok: bool, commands: seq<Command>)
      modifies this
      ensures ListOutcome(ok, commands, keys) == UndoAll(cs, old(keys))
      decreases cs, 1
    {
      commands := [];
      var i := |cs|;
      assert cs[i..] == [];
      while i > 0
        invariant 0 <= i <= |cs| && UndoAll(cs[i..], old(keys)) == ListOutcome(true, commands, keys)
      {
        i := i - 1;
        assert cs[i..][0] == cs[i] && cs[i..][1..] == cs[i + 1..];
        var done, c := UndoCommand(cs[i]);
        commands := [c] + commands;
        if !done {
          StopsAt(cs, i, old(keys));
          return false, cs[..i] + commands;
        }
      }
      assert cs[0..] == cs;
      ok := true;
    }
  }

  lemma {:induction false} ExecuteNext(cs: seq<Command>, i: nat, r: Reg)
    requires i < |cs|
    ensures var s := Execute(cs[i], r);
      ExecuteAll(cs[i..], r) ==
        if !s.ok then ListOutcome(false, [s.command] + cs[i + 1..], s.reg)
        else var l := ExecuteAll(cs[i + 1..], s.reg); ListOutcome(l.ok, [s.command] + l.commands, l.reg)
  {
    assert cs[i..][0] == cs[i] && cs[i..][1..] == cs[i + 1..];
  }

  lemma {:induction false} ExecuteNone(r: Reg)
    ensures ExecuteAll([], r) == ListOutcome(true, [], r)
  {
  }

  /** Once a command cannot be undone, those before it are not touched. */
  lemma {:induction false} StopsAt(cs: seq<Command>, i: nat, r: Reg)
    requires i <= |cs| && !UndoAll(cs[i..], r).ok
    ensures var l := UndoAll(cs[i..], r); UndoAll(cs, r) == ListOutcome(false, cs[..i] + l.commands, l.reg)
    decreases i
  {
    var l := UndoAll(cs[i..], r);
    if i == 0 {
      assert cs[0..] == cs;
    } else {
      assert cs[1..][i - 1..] == cs[i..];
      StopsAt(cs[1..], i - 1, r);
      assert [cs[0]] + (cs[1..][..i - 1] + l.commands) == cs[..i] + l.commands;
    }
  }

  // ------------------------------------------------------------------ the manager

  class CommandManager {
    const registry: Registry
    var undoList: seq<Command>
    var redoList: seq<Command>
    var enabled: bool
    ghost var initial: Reg

    constructor (registry: Registry)
      requires Closed(registry.keys)
      ensures Valid() && this.registry == registry && undoList == []
      ensures redoList == [] && enabled && initial == registry.keys
    {
      this.registry, undoList, redoList, enabled, initial := registry, [], [], true, registry.keys;
    }

    ghost function State(): History
      reads this, registry
    {
      History(undoList, redoList, registry.keys)
    }

    ghost predicate Valid()
      reads this, registry
    {
      Consistent(State(), initial)
    }

    /** Executes a command and records it, which keeps the history consistent exactly if undoing the
        command would leave no keys behind. If it fails nothing is recorded; the history stays consistent
        if the registry is unchanged, and is not if keys were created. */
    method AddCommand(command: Command, execute: bool) returns (ok: bool)
      requires Valid()
      modifies this, registry
      ensures enabled == old(enabled) && initial == old(initial)
      ensures ok == (execute ==> Execute(command, old(registry.keys)).ok)
      ensures registry.keys == if execute then Execute(command, old(registry.keys)).reg else old(registry.keys)
      ensures ok && execute && enabled ==>
        && undoList == old(undoList) + [Execute(command, old(registry.keys)).command] && redoList == []
        && (Valid() <==> Leftover(command, old(registry.keys)) == {})
      ensures !ok ==>
        && undoList == old(undoList) && redoList == old(redoList)
        && (registry.keys == old(registry.keys) ==> Valid())
        && (registry.keys.Keys != old(registry.keys.Keys) ==> !Valid())
    {
      ghost var r := registry.keys;
      var c := command;
      if execute {
        ExecuteReverses(command, r);
        ok, c := registry.ExecuteCommand(command);
        if !ok {
          if Valid() {
            SameKeys(undoList, r, registry.keys, initial);
          }
          return false;
        }
      }
      if !enabled {
        return true;
      }
      ghost var was := undoList;
      undoList := undoList + [c];
      redoList := [];
      if execute {
        Recorded(was, r, command, initial);
      }
      return true;
    }

    /** Undoes the newest command. It does not fail, and does what undo does on histories. */
    method UndoLast() returns (success: bool)
      requires Valid()
      modifies this, registry
      ensures Valid() && enabled == old(enabled) && initial == old(initial)
      ensures success <==> old(undoList) != []
      ensures State() == Back(old(State()))
    {
      if undoList == [] {
        return false;
      }
      BackForth(State(), initial);
      var n := |undoList| - 1;
      var cmd;
      success, cmd := registry.UndoCommand(undoList[n]);
      if success {
        redoList := redoList + [cmd];
        undoList := undoList[..n];
      }
    }

    method Redo() returns (success: bool)
      requires Valid()
      modifies this, registry
      ensures Valid() && enabled == old(enabled) && initial == old(initial)
      ensures success <==> old(redoList) != []
      ensures State() == Forth(old(State()))
    {
      if redoList == [] {
        return false;
      }
      ForthBack(State(), initial);
      var n := |redoList| - 1;
      var command;
      success, command := registry.ExecuteCommand(redoList[n]);
      if success {
        redoList := redoList[..n];
        undoList := undoList + [command];
      }
    }

    method Clear()
      requires Valid()
      modifies this
      ensures Valid() && undoList == [] && redoList == [] && initial == registry.keys && enabled == old(enabled)
    {
      undoList, redoList, initial := [], [], registry.keys;
    }
  }

  /** A recorded command keeps the history consistent exactly if undoing it would leave no keys behind. */
  lemma {:induction false} Recorded(done: seq<Command>, r: Reg, command: Command, initial: Reg)
    requires Backward(done, r, initial) && Execute(command, r).ok
    ensures var s := Execute(command, r);
      Consistent(History(done + [s.command], [], s.reg), initial) <==> Leftover(command, r) == {}
  {
    hide Execute, Undo, Leftover;
    var s := Execute(command, r);
    var more := done + [s.command];
    ExecuteReverses(command, r);
    assert more[..|done|] == done && more[|done|] == s.command;
    if Consistent(History(more, [], s.reg), initial) {
      SameKeys(done, r, Plus(r, Leftover(command, r)), initial);
      assert Leftover(command, r) <= Plus(r, Leftover(command, r)).Keys;
    }
  }

  /** The undo list and the initial registry determine the keys of the registry. */
  lemma {:induction false} SameKeys(done: seq<Command>, a: Reg, b: Reg, initial: Reg)
    requires Backward(done, a, initial) && Backward(done, b, initial)
    ensures a.Keys == b.Keys
    decreases |done|
  {
    hide Execute, Undo, KeysAfter, Closed;
    if done != [] {
      var n := |done| - 1;
      var u, v := Undo(done[n], a), Undo(done[n], b);
      SameKeys(done[..n], u.reg, v.reg, initial);
      ExecutedKeys(u.command, u.reg);
      ExecutedKeys(v.command, v.reg);
      UndoneKeys(done[n], a, u.reg.Keys);
      UndoneKeys(done[n], b, v.reg.Keys);
    }
  }
}
