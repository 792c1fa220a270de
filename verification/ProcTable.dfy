/** The table-scanning loops of src/proc.c, each computing the step it implements. */
module ProcTable {
  import opened Common
  import opened ProcMachine

  class Ptable {
    const proc: array<Proc>
    var nextpid: int
    var initproc: int

    ghost function View(): State reads this, proc { State(proc[..], nextpid, initproc) }

    constructor (n: nat)
      requires n > 0
      ensures View() == Boot(n) && Inv(View()) && fresh(proc)
    {
      proc := new Proc[n](i => if i == 0 then Free.(status := RUNNABLE, pid := 1) else Free);
      nextpid, initproc := 2, 0;
      new;
      assert proc[..] == Boot(n).table;
      RunKeeps(n, []);
    }

    method Wakeup1(chan: Chan)
      modifies proc
      ensures proc[..] == Wake(old(proc[..]), chan)
      ensures forall k :: 0 <= k < proc.Length ==>
        if old(proc[k]).status == SLEEPING && old(proc[k]).chan == chan then proc[k] == old(proc[k]).(status := RUNNABLE) else proc[k] == old(proc[k])
    {
      for i := 0 to proc.Length
        invariant forall k :: 0 <= k < proc.Length ==> proc[k] == if k < i then Woken(old(proc[k]), chan) else old(proc[k])
      {
        if proc[i].status == SLEEPING && proc[i].chan == chan {
          proc[i] := proc[i].(status := RUNNABLE);
        }
      }
      assert |Wake(old(proc[..]), chan)| == proc.Length;
    }

    /** The slot taken, or NONE. */
    method AllocProc(p: nat) returns (c: int)
      requires Inv(View()) && p < proc.Length && Running(View(), p)
      modifies this`nextpid, proc
      ensures Inv(View()) && View() == Do(old(View()), Allocate(p))
      ensures c == NONE <==> forall k :: 0 <= k < proc.Length ==> old(proc[..])[k].status != UNUSED
      ensures c != NONE ==> 0 <= c < proc.Length && proc[c].status == EMBRYO && proc[c].pid == old(nextpid) && proc[p].forking == c
      ensures c != NONE ==> nextpid == old(nextpid) + 1 && forall k :: 0 <= k < proc.Length && k != c && k != p ==> proc[k] == old(proc[k])
      ensures c == NONE ==> nextpid == old(nextpid) && proc[..] == old(proc[..])
    {
      DoKeeps(View(), Allocate(p));
      ghost var t := proc[..];
      c := 0;
      while c < proc.Length && proc[c].status != UNUSED
        invariant 0 <= c <= proc.Length && forall k :: 0 <= k < c ==> proc[k].status != UNUSED
      {
        c := c + 1;
      }
      assert c == FindUnused(t);
      if c == proc.Length { return NONE; }
      assert t[c].status == UNUSED;
      proc[c] := proc[c].(status := EMBRYO, pid := nextpid);
      nextpid := nextpid + 1;
      proc[p] := proc[p].(forking := c);
      assert proc[..] == t[c := t[c].(status := EMBRYO, pid := nextpid - 1)][p := t[p].(forking := c)];
    }

    /** One scan and what follows it: the pid reaped, -1, or to sleep. */
    method WaitProc(p: nat) returns (r: Option<int>)
      requires Inv(View()) && p < proc.Length && Running(View(), p)
      modifies proc
      ensures Inv(View()) && View() == Do(old(View()), Wait(p))
      ensures var c := FindZombie(old(proc[..]), p);
        r == if c < proc.Length then Some(old(proc[..])[c].pid)
             else if !HasKids(old(proc[..]), p) || old(proc[p].killed) then Some(-1) else None
      ensures r.None? <==> proc[p].status == SLEEPING
      ensures var c := FindZombie(old(proc[..]), p);
        c < proc.Length ==> proc[c].status == UNUSED && proc[c].pid == 0 && proc[c].parent == NONE && !proc[c].killed
      ensures forall k :: 0 <= k < proc.Length && k != FindZombie(old(proc[..]), p) && k != p ==> proc[k] == old(proc[k])
      ensures r.None? ==> proc[p] == old(proc[p]).(status := SLEEPING, chan := OnProc(p))
      ensures r.Some? && p != FindZombie(old(proc[..]), p) ==> proc[p] == old(proc[p])
      ensures r.Some? && r.value != -1 <==> exists c :: 0 <= c < proc.Length && old(proc[..])[c].status == ZOMBIE && old(proc[..])[c].parent == p
    {
      DoKeeps(View(), Wait(p));
      ghost var t := proc[..];
      var havekids, i := false, 0;
      while i < proc.Length
        invariant 0 <= i <= proc.Length && proc[..] == t
        invariant havekids == exists k :: 0 <= k < i && t[k].parent == p
        invariant forall k :: 0 <= k < i ==> !(t[k].status == ZOMBIE && t[k].parent == p)
      {
        if proc[i].parent == p {
          havekids := true;
          assert t[i].parent == p;
          if proc[i].status == ZOMBIE {
            assert i == FindZombie(t, p);
            assert SlotOk(View(), i);
            r := Some(proc[i].pid);
            proc[i] := Free;
            assert proc[..] == t[i := Free];
            return;
          }
        }
        i := i + 1;
      }
      assert FindZombie(t, p) == |t|;
      if !havekids || proc[p].killed { return Some(-1); }
      r := None;
      proc[p] := proc[p].(status := SLEEPING, chan := OnProc(p));
      assert proc[..] == t[p := t[p].(status := SLEEPING, chan := OnProc(p))];
    }

    method KillPid(pid: int) returns (r: int)
      requires Inv(View())
      modifies proc
      ensures Inv(View()) && View() == Do(old(View()), Kill(pid))
      ensures r == if exists k :: 0 <= k < |old(proc[..])| && old(proc[..])[k].pid == pid then 0 else -1
      ensures forall k :: 0 <= k < proc.Length && k != FindPid(old(proc[..]), pid) ==> proc[k] == old(proc[k])
      ensures var i := FindPid(old(proc[..]), pid);
        i < proc.Length ==> proc[i].killed && proc[i].status == if old(proc[..])[i].status == SLEEPING then RUNNABLE else old(proc[..])[i].status
    {
      DoKeeps(View(), Kill(pid));
      ghost var t := proc[..];
      var i := 0;
      while i < proc.Length && proc[i].pid != pid
        invariant 0 <= i <= proc.Length && forall k :: 0 <= k < i ==> proc[k].pid != pid
      {
        i := i + 1;
      }
      assert i == FindPid(t, pid);
      if i == proc.Length { return -1; }
      assert t[i].pid == pid;
      proc[i] := proc[i].(killed := true);
      if proc[i].status == SLEEPING { proc[i] := proc[i].(status := RUNNABLE); }
      assert proc[..] == DoKill(State(t, nextpid, initproc), pid).table;
      return 0;
    }

    method ExitProc(p: nat)
      requires Inv(View()) && p < proc.Length && Running(View(), p) && p != initproc
      modifies proc
      ensures Inv(View()) && View() == Do(old(View()), Exit(p))
      ensures proc[p].status == ZOMBIE && proc[p].pid == old(proc[p]).pid
      ensures forall k :: 0 <= k < proc.Length ==> proc[k].parent == if old(proc[k]).parent == p then initproc else old(proc[k]).parent
      ensures forall k :: 0 <= k < proc.Length && k != p && old(proc[k]).status == SLEEPING && old(proc[k]).chan == OnProc(old(proc[p]).parent) ==>
        proc[k].status == RUNNABLE
      ensures forall k :: 0 <= k < proc.Length && k != p && proc[k].status != old(proc[k]).status ==>
        old(proc[k]).status == SLEEPING && (old(proc[k]).chan == OnProc(old(proc[p]).parent) || old(proc[k]).chan == OnProc(initproc))
    {
      DoKeeps(View(), Exit(p));
      ExitSays(proc[..], p, initproc);
      Wakeup1(OnProc(proc[p].parent));
      Abandon(p);
      ghost var t := proc[..];
      proc[p] := proc[p].(status := ZOMBIE);
      assert proc[..] == t[p := t[p].(status := ZOMBIE)];
    }

    /** Passes p's children to init. */
    method Abandon(p: int)
      requires 0 <= initproc < proc.Length && p != initproc
      modifies proc
      ensures proc[..] == Orphan(old(proc[..]), p, initproc)
    {
      ghost var t, woke := proc[..], false;
      var i := 0;
      while i < proc.Length
        invariant 0 <= i <= proc.Length && woke == exists k :: 0 <= k < i && t[k].parent == p && t[k].status == ZOMBIE
        invariant forall k :: 0 <= k < proc.Length ==> proc[k] == Passed(t[k], p, initproc, k < i, woke)
      {
        assert t[i] == t[i];
        if proc[i].parent == p {
          proc[i] := proc[i].(parent := initproc);
          if proc[i].status == ZOMBIE {
            Wakeup1(OnProc(initproc));
            woke := true;
          }
        }
        i := i + 1;
      }
      assert woke <==> FindZombie(t, p) < |t|;
      assert proc[..] == Orphan(t, p, initproc);
    }
  }

  /** An entry of the table while children of p pass to init. */
  function Passed(q: Proc, p: int, init: int, moved: bool, woke: bool): Proc {
    var q' := if moved && q.parent == p then q.(parent := init) else q;
    if woke then Woken(q', OnProc(init)) else q'
  }
}
