/**
 * The process table of src/proc.c at the points where ptable.lock is free: fork, exit, wait, kill,
 * sleep and wakeup as steps. A process is named by its slot.
 */
module ProcMachine {
  datatype Status = UNUSED | EMBRYO | SLEEPING | RUNNABLE | RUNNING | ZOMBIE

  /** Sleep channels: wait() uses the address of the sleeper's own slot. */
  datatype Chan = Nowhere | OnProc(slot: int) | Elsewhere(n: int)

  /** `forking` is the slot of the child a process inside fork() has allocated, or NONE. */
  datatype Proc = Proc(status: Status, pid: int, parent: int, chan: Chan, killed: bool, forking: int)

  const NONE := -1

  type Table = seq<Proc>

  datatype State = State(table: Table, nextpid: int, initproc: int)

  datatype Step =
    | Allocate(p: int)
    | Adopt(p: int)
    | Launch(p: int)
    | Exit(p: int)
    | Wait(p: int)
    | Kill(pid: int)
    | Dispatch(p: int)
    | Yield(p: int)
    | Sleep(p: int, n: int)
    | Wakeup(n: int)

  // ----- What the table loops compute -----

  function Woken(q: Proc, chan: Chan): Proc { if q.status == SLEEPING && q.chan == chan then q.(status := RUNNABLE) else q }

  /** wakeup1 */
  function Wake(t: Table, chan: Chan): Table { seq(|t|, i requires 0 <= i < |t| => Woken(t[i], chan)) }

  /** The first slot at or after i that satisfies f, or |t|. */
  function First(t: Table, f: Proc -> bool, i: nat): (r: int)
    requires i <= |t|
    ensures i <= r <= |t| && (r < |t| ==> f(t[r])) && forall k :: i <= k < r ==> !f(t[k])
    decreases |t| - i
  {
    if i == |t| || f(t[i]) then i else First(t, f, i + 1)
  }

  function FindUnused(t: Table): (r: int)
    ensures 0 <= r <= |t| && (r < |t| ==> t[r].status == UNUSED) && forall k :: 0 <= k < r ==> t[k].status != UNUSED
  {
    First(t, (q: Proc) => q.status == UNUSED, 0)
  }

  function FindZombie(t: Table, p: int): (r: int)
    ensures 0 <= r <= |t| && (r < |t| ==> t[r].status == ZOMBIE && t[r].parent == p)
    ensures forall k :: 0 <= k < r ==> !(t[k].status == ZOMBIE && t[k].parent == p)
  {
    First(t, (q: Proc) => q.status == ZOMBIE && q.parent == p, 0)
  }

  function FindPid(t: Table, pid: int): (r: int)
    ensures 0 <= r <= |t| && (r < |t| ==> t[r].pid == pid) && forall k :: 0 <= k < r ==> t[k].pid != pid
  {
    First(t, (q: Proc) => q.pid == pid, 0)
  }

  predicate HasKids(t: Table, p: int) { exists i :: 0 <= i < |t| && t[i].parent == p }

  /** exit's loop: every child of p goes to init, which is woken if one of them is a zombie. */
  function Reparent(t: Table, p: int, init: int): Table {
    seq(|t|, i requires 0 <= i < |t| => if t[i].parent == p then t[i].(parent := init) else t[i])
  }

  function Orphan(t: Table, p: int, init: int): Table {
    var t' := Reparent(t, p, init);
    if FindZombie(t, p) < |t| then Wake(t', OnProc(init)) else t'
  }

  function Bury(t: Table, p: int, init: int): Table
    requires 0 <= p < |t|
  {
    var t' := Orphan(Wake(t, OnProc(t[p].parent)), p, init);
    t'[p := t'[p].(status := ZOMBIE)]
  }

  const Free := Proc(UNUSED, 0, NONE, Nowhere, false, NONE)

  // ----- Steps -----

  /** p runs and is not in the middle of fork(). */
  predicate Running(s: State, p: int) {
    0 <= p < |s.table| && s.table[p].status == RUNNING && s.table[p].forking == NONE
  }

  predicate Forking(s: State, p: int) {
    0 <= p < |s.table| && s.table[p].status == RUNNING && 0 <= s.table[p].forking < |s.table| && s.table[p].forking != p
  }

  /** allocproc under the lock */
  function DoAllocate(s: State, p: int): State {
    var c := FindUnused(s.table);
    if c == |s.table| || !(0 <= p < |s.table|) || c == p then s
    else State(s.table[c := s.table[c].(status := EMBRYO, pid := s.nextpid)][p := s.table[p].(forking := c)], s.nextpid + 1, s.initproc)
  }

  function DoWait(s: State, p: int): State
    requires 0 <= p < |s.table|
  {
    var c := FindZombie(s.table, p);
    if c < |s.table| then s.(table := s.table[c := Free])
    else if !HasKids(s.table, p) || s.table[p].killed then s
    else s.(table := s.table[p := s.table[p].(status := SLEEPING, chan := OnProc(p))])
  }

  function DoKill(s: State, pid: int): State {
    var i := FindPid(s.table, pid);
    if i == |s.table| then s
    else
      var q := s.table[i];
      s.(table := s.table[i := q.(killed := true, status := if q.status == SLEEPING then RUNNABLE else q.status)])
  }

  function Do(s: State, step: Step): State {
    match step
    case Allocate(p) => if Running(s, p) then DoAllocate(s, p) else s
    case Adopt(p) =>
      if Forking(s, p) then s.(table := s.table[s.table[p].forking := s.table[s.table[p].forking].(parent := p)]) else s
    case Launch(p) =>
      if Forking(s, p) && s.table[s.table[p].forking].parent == p then
        var c := s.table[p].forking;
        s.(table := s.table[c := s.table[c].(status := RUNNABLE)][p := s.table[p].(forking := NONE)])
      else s
    case Exit(p) => if Running(s, p) && p != s.initproc then s.(table := Bury(s.table, p, s.initproc)) else s
    case Wait(p) => if Running(s, p) then DoWait(s, p) else s
    case Kill(pid) => DoKill(s, pid)
    case Dispatch(p) =>
      if 0 <= p < |s.table| && s.table[p].status == RUNNABLE then s.(table := s.table[p := s.table[p].(status := RUNNING, chan := Nowhere)]) else s
    case Yield(p) =>
      if 0 <= p < |s.table| && s.table[p].status == RUNNING then s.(table := s.table[p := s.table[p].(status := RUNNABLE)]) else s
    case Sleep(p, n) =>
      if Running(s, p) then s.(table := s.table[p := s.table[p].(status := SLEEPING, chan := Elsewhere(n))]) else s
    case Wakeup(n) => s.(table := Wake(s.table, Elsewhere(n)))
  }

  function Run(s: State, steps: seq<Step>): State
    decreases |steps|
  {
    if steps == [] then s else Do(Run(s, steps[..|steps| - 1]), steps[|steps| - 1])
  }

  // ----- The invariant -----

  predicate Up(q: Proc) { q.status == SLEEPING || q.status == RUNNABLE || q.status == RUNNING }

  /** q is the child that the process in slot c, of that pid, is making. */
  predicate Making(q: Proc, pid: int, c: int) { q.status == EMBRYO && q.pid > pid && (q.parent == NONE || q.parent == c) }

  /** What slot c may look like. */
  ghost predicate SlotOk(s: State, c: int) {
    0 <= c < |s.table| ==>
      var t, q := s.table, s.table[c];
      && q.pid < s.nextpid && (q.status == UNUSED <==> q.pid == 0) && q.pid >= 0
      && (q.status == UNUSED ==> q.parent == NONE)
      // a child's parent is up and older
      && (q.parent != NONE ==> 0 <= q.parent < |t| && Up(t[q.parent]) && t[q.parent].pid < q.pid)
      // only init and a child still inside its parent's fork() have none
      && (q.status != UNUSED && q.parent == NONE ==> c == s.initproc || q.status == EMBRYO)
      // the embryo a process is making is its own
      && (q.forking != NONE ==> Up(q) && 0 <= q.forking < |t| && Making(t[q.forking], q.pid, c))
      // init is the oldest
      && (0 <= s.initproc < |t| && q.status != UNUSED && c != s.initproc ==> t[s.initproc].pid < q.pid)
      // wait() sleeps on the sleeper's own slot
      && (q.status == SLEEPING && q.chan.OnProc? ==> q.chan.slot == c)
  }

  /** A process asleep in wait() has no zombie child. */
  ghost predicate NoMissedChild(t: Table) {
    forall p, c :: 0 <= p < |t| && 0 <= c < |t| && t[p].status == SLEEPING && t[p].chan == OnProc(p) && t[c].parent == p ==> t[c].status != ZOMBIE
  }

  /** Two processes never make the same child. */
  ghost predicate OwnForks(t: Table) {
    forall p, q :: 0 <= p < q < |t| && t[p].forking != NONE ==> t[p].forking != t[q].forking
  }

  ghost predicate Inv(s: State) {
    && 0 <= s.initproc < |s.table| && s.nextpid > 0
    && Up(s.table[s.initproc]) && s.table[s.initproc].parent == NONE
    && (forall c :: 0 <= c < |s.table| ==> SlotOk(s, c))
    && NoMissedChild(s.table) && OwnForks(s.table)
  }

  // ----- Steps that only move processes between sleeping, runnable and running -----

  predicate Similar(q: Proc, q': Proc) {
    q'.pid == q.pid && q'.parent == q.parent && q'.forking == q.forking && Up(q') == Up(q) && (!Up(q) ==> q'.status == q.status)
  }

  /** q' sleeps in wait() only if q did. */
  predicate NotMoreAsleep(q: Proc, q': Proc) { q'.status == SLEEPING && q'.chan.OnProc? ==> q == q' }

  lemma SimilarKeeps(s: State, s': State)
    requires Inv(s) && |s'.table| == |s.table| && s'.nextpid == s.nextpid && s'.initproc == s.initproc
    requires forall c :: 0 <= c < |s.table| ==> Similar(s.table[c], s'.table[c])
    requires forall c :: 0 <= c < |s.table| ==> SleepsOk(s', c)
    ensures Inv(s')
  {
    forall c | 0 <= c < |s'.table| ensures SlotOk(s', c) {
      assert SlotOk(s, c) && Similar(s.table[c], s'.table[c]) && SleepsOk(s', c);
      var q := s.table[c];
      if q.parent != NONE { assert Similar(s.table[q.parent], s'.table[q.parent]); }
      if q.forking != NONE { assert Similar(s.table[q.forking], s'.table[q.forking]); }
    }
    assert Similar(s.table[s.initproc], s'.table[s.initproc]);
    assert NoMissedChild(s'.table) by {
      forall p, c | 0 <= p < |s'.table| && 0 <= c < |s'.table| && s'.table[p].status == SLEEPING && s'.table[p].chan == OnProc(p) && s'.table[c].parent == p
        ensures s'.table[c].status != ZOMBIE
      {
        assert SleepsOk(s', p);
      }
    }
    assert OwnForks(s'.table) by {
      forall p, q | 0 <= p < q < |s'.table| && s'.table[p].forking != NONE ensures s'.table[p].forking != s'.table[q].forking {
        assert Similar(s.table[p], s'.table[p]) && Similar(s.table[q], s'.table[q]);
      }
    }
  }

  /** If p sleeps in wait(), it is on its own slot and none of its children is a zombie. */
  ghost predicate SleepsOk(s: State, p: int) {
    0 <= p < |s.table| && s.table[p].status == SLEEPING && s.table[p].chan.OnProc? ==>
      s.table[p].chan.slot == p && forall c :: 0 <= c < |s.table| && s.table[c].parent == p ==> s.table[c].status != ZOMBIE
  }

  lemma Asleep(s: State, p: int)
    requires Inv(s)
    ensures SleepsOk(s, p)
  {
    assert 0 <= p < |s.table| ==> SlotOk(s, p);
  }

  /** The same, for a step that puts nobody to sleep in wait(). */
  lemma WakingKeeps(s: State, s': State)
    requires Inv(s) && |s'.table| == |s.table| && s'.nextpid == s.nextpid && s'.initproc == s.initproc
    requires forall c :: 0 <= c < |s.table| ==> Similar(s.table[c], s'.table[c]) && NotMoreAsleep(s.table[c], s'.table[c])
    ensures Inv(s')
  {
    forall p | 0 <= p < |s.table| ensures SleepsOk(s', p) {
      Asleep(s, p);
      assert Similar(s.table[p], s'.table[p]) && NotMoreAsleep(s.table[p], s'.table[p]);
      forall c | 0 <= c < |s.table| && s'.table[c].parent == p && SleepsOk(s, p) && s.table[p] == s'.table[p] &&
        s.table[p].status == SLEEPING && s.table[p].chan.OnProc? ensures s'.table[c].status != ZOMBIE
      {
        assert Similar(s.table[c], s'.table[c]);
      }
    }
    forall c | 0 <= c < |s.table| ensures Similar(s.table[c], s'.table[c]) {}
    SimilarKeeps(s, s');
  }

  lemma WakeFacts(t: Table, chan: Chan, c: int)
    requires 0 <= c < |t|
    ensures Similar(t[c], Wake(t, chan)[c]) && NotMoreAsleep(t[c], Wake(t, chan)[c])
  {
  }

  // ----- fork -----

  lemma Rebuild(s: State)
    requires 0 <= s.initproc < |s.table| && s.nextpid > 0 && Up(s.table[s.initproc]) && s.table[s.initproc].parent == NONE
    requires forall c :: 0 <= c < |s.table| ==> SlotOk(s, c) && SleepsOk(s, c)
    requires OwnForks(s.table)
    ensures Inv(s)
  {
    forall p, c | 0 <= p < |s.table| && 0 <= c < |s.table| && s.table[p].status == SLEEPING && s.table[p].chan == OnProc(p) && s.table[c].parent == p
      ensures s.table[c].status != ZOMBIE
    {
      assert SleepsOk(s, p);
    }
  }

  lemma AllocateKeeps(s: State, p: int)
    requires Inv(s) && Running(s, p)
    ensures Inv(DoAllocate(s, p))
  {
    var s', c := DoAllocate(s, p), FindUnused(s.table);
    if s' != s {
      forall d | 0 <= d < |s'.table| ensures SlotOk(s', d) && SleepsOk(s', d) { AllocateSlot(s, p, d); }
      assert OwnForks(s'.table) by {
        forall d | 0 <= d < |s.table| ensures s.table[d].forking != c { assert SlotOk(s, d); }
      }
      Rebuild(s');
    }
  }

  lemma AllocateSlot(s: State, p: int, d: int)
    requires Inv(s) && Running(s, p) && 0 <= d < |s.table|
    ensures SlotOk(DoAllocate(s, p), d) && SleepsOk(DoAllocate(s, p), d)
  {
    assert SlotOk(s, FindUnused(s.table)) && SlotOk(s, p) && SlotOk(s, d);
    Asleep(s, d);
  }

  lemma AdoptKeeps(s: State, p: int)
    requires Inv(s) && Forking(s, p)
    ensures Inv(Do(s, Adopt(p)))
  {
    var s', c := Do(s, Adopt(p)), s.table[p].forking;
    assert SlotOk(s, p) && SlotOk(s, c);
    forall d | 0 <= d < |s'.table| ensures SlotOk(s', d) && SleepsOk(s', d) {
      assert SlotOk(s, d);
      Asleep(s, d);
    }
    Rebuild(s');
  }

  lemma LaunchKeeps(s: State, p: int)
    requires Inv(s) && Forking(s, p) && s.table[s.table[p].forking].parent == p
    ensures Inv(Do(s, Launch(p)))
  {
    var s', c := Do(s, Launch(p)), s.table[p].forking;
    assert SlotOk(s, p) && SlotOk(s, c);
    forall d | 0 <= d < |s'.table| ensures SlotOk(s', d) && SleepsOk(s', d) {
      assert SlotOk(s, d);
      Asleep(s, d);
    }
    Rebuild(s');
  }

  // ----- wait -----

  lemma ReapKeeps(s: State, p: int, c: int)
    requires Inv(s) && Running(s, p) && 0 <= c < |s.table| && s.table[c].status == ZOMBIE
    ensures Inv(s.(table := s.table[c := Free]))
  {
    var s' := s.(table := s.table[c := Free]);
    assert SlotOk(s, c);
    forall d | 0 <= d < |s'.table| ensures SlotOk(s', d) && SleepsOk(s', d) {
      assert SlotOk(s, d);
      Asleep(s, d);
    }
    Rebuild(s');
  }

  lemma WaitKeeps(s: State, p: int)
    requires Inv(s) && Running(s, p)
    ensures Inv(DoWait(s, p))
  {
    var c, s' := FindZombie(s.table, p), DoWait(s, p);
    if c < |s.table| {
      ReapKeeps(s, p, c);
    } else if HasKids(s.table, p) && !s.table[p].killed {
      forall d | 0 <= d < |s.table| ensures Similar(s.table[d], s'.table[d]) && SleepsOk(s', d) {
        Asleep(s, d);
      }
      SimilarKeeps(s, s');
    }
  }

  // ----- exit -----

  /** Slot i of the table that exit(p) leaves. */
  lemma BuriedSlot(t: Table, p: int, init: int, i: int)
    requires 0 <= p < |t| && 0 <= i < |t| && 0 <= init < |t| && p != init && Up(t[p]) && t[p].parent != p
    ensures |Bury(t, p, init)| == |t|
    ensures var q, q' := t[i], Bury(t, p, init)[i];
      && q'.pid == q.pid && q'.forking == q.forking && q'.chan == q.chan
      && q'.parent == (if q.parent == p then init else q.parent)
      && (if i == p then q'.status == ZOMBIE else Up(q') == Up(q) && (!Up(q) ==> q'.status == q.status))
      && (i != p && q'.status == SLEEPING ==> q.status == SLEEPING && q.chan != OnProc(t[p].parent))
      && (i != p && q'.status == SLEEPING && q.chan == OnProc(init) ==>
          forall c :: 0 <= c < |t| && t[c].parent == p ==> t[c].status != ZOMBIE)
  {
    var t1 := Wake(t, OnProc(t[p].parent));
    var z := FindZombie(t1, p);
    forall c | 0 <= c < |t| ensures (t1[c].status == ZOMBIE <==> t[c].status == ZOMBIE) && t1[c].parent == t[c].parent {}
  }

  /** What exit(p) does, slot by slot. */
  lemma ExitSays(t: Table, p: int, init: int)
    requires 0 <= p < |t| && 0 <= init < |t| && p != init
    ensures var t' := Bury(t, p, init);
      && |t'| == |t| && t'[p].status == ZOMBIE
      && (forall k :: 0 <= k < |t| ==> t'[k].pid == t[k].pid && t'[k].parent == if t[k].parent == p then init else t[k].parent)
      && (forall k :: 0 <= k < |t| && k != p && t[k].status == SLEEPING && t[k].chan == OnProc(t[p].parent) ==> t'[k].status == RUNNABLE)
      && (forall k :: 0 <= k < |t| && k != p && t'[k].status != t[k].status ==>
            t[k].status == SLEEPING && (t[k].chan == OnProc(t[p].parent) || t[k].chan == OnProc(init)))
  {
  }

  lemma ExitKeeps(s: State, p: int)
    requires Inv(s) && Running(s, p) && p != s.initproc
    ensures Inv(Do(s, Exit(p)))
  {
    var s' := Do(s, Exit(p));
    assert SlotOk(s, p);
    forall d | 0 <= d < |s.table| ensures |s'.table| == |s.table| && SlotOk(s', d) { ExitSlot(s, p, d); }
    forall d | 0 <= d < |s.table| ensures SleepsOk(s', d) {
      BuriedSlot(s.table, p, s.initproc, d);
      assert SlotOk(s', d);
      ExitWakes(s, p, d);
    }
    BuriedSlot(s.table, p, s.initproc, s.initproc);
    assert OwnForks(s'.table) by {
      forall d | 0 <= d < |s.table| ensures s'.table[d].forking == s.table[d].forking { BuriedSlot(s.table, p, s.initproc, d); }
    }
    Rebuild(s');
  }

  lemma ExitSlot(s: State, p: int, d: int)
    requires Inv(s) && Running(s, p) && p != s.initproc && 0 <= d < |s.table|
    ensures |Do(s, Exit(p)).table| == |s.table| && SlotOk(Do(s, Exit(p)), d)
  {
    assert SlotOk(s, p) && SlotOk(s, d) && SlotOk(s, s.initproc);
    BuriedSlot(s.table, p, s.initproc, d);
    BuriedSlot(s.table, p, s.initproc, s.initproc);
    ExitParent(s, p, d);
    ExitForking(s, p, d);
  }

  /** A process's parent is up and older after the exit too. */
  lemma ExitParent(s: State, p: int, d: int)
    requires Inv(s) && Running(s, p) && p != s.initproc && 0 <= d < |s.table|
    ensures var t := Bury(s.table, p, s.initproc);
      |t| == |s.table| && (t[d].parent != NONE ==> 0 <= t[d].parent < |t| && Up(t[t[d].parent]) && t[t[d].parent].pid < t[d].pid)
  {
    assert SlotOk(s, p) && SlotOk(s, d) && SlotOk(s, s.initproc);
    BuriedSlot(s.table, p, s.initproc, d);
    BuriedSlot(s.table, p, s.initproc, s.initproc);
    if s.table[d].parent != NONE { BuriedSlot(s.table, p, s.initproc, s.table[d].parent); }
  }

  /** And a child being made stays its parent's. */
  lemma ExitForking(s: State, p: int, d: int)
    requires Inv(s) && Running(s, p) && p != s.initproc && 0 <= d < |s.table|
    ensures var t := Bury(s.table, p, s.initproc);
      |t| == |s.table| && (t[d].forking != NONE ==> Up(t[d]) && 0 <= t[d].forking < |t| && Making(t[t[d].forking], t[d].pid, d))
  {
    assert SlotOk(s, p) && SlotOk(s, d);
    BuriedSlot(s.table, p, s.initproc, d);
    if s.table[d].forking != NONE { BuriedSlot(s.table, p, s.initproc, s.table[d].forking); }
  }

  /** After exit(p), whoever still sleeps in wait() has no zombie child. */
  lemma ExitWakes(s: State, p: int, d: int)
    requires Inv(s) && Running(s, p) && p != s.initproc && 0 <= d < |s.table|
    ensures |Bury(s.table, p, s.initproc)| == |s.table|
    ensures var t := Bury(s.table, p, s.initproc);
      t[d].status == SLEEPING && t[d].chan == OnProc(d) ==>
        forall c :: 0 <= c < |t| && t[c].parent == d ==> t[c].status != ZOMBIE
  {
    assert SlotOk(s, p);
    BuriedSlot(s.table, p, s.initproc, d);
    Asleep(s, d);
    var t := Bury(s.table, p, s.initproc);
    if t[d].status == SLEEPING && t[d].chan == OnProc(d) {
      forall c | 0 <= c < |t| && t[c].parent == d ensures t[c].status != ZOMBIE {
        BuriedSlot(s.table, p, s.initproc, c);
      }
    }
  }

  // ----- Every run -----

  /** After userinit: process 1 in slot 0 of n slots. */
  function Boot(n: nat): State {
    State(seq(n, i => if i == 0 then Free.(status := RUNNABLE, pid := 1) else Free), 2, 0)
  }

  lemma DoKeeps(s: State, step: Step)
    requires Inv(s)
    ensures Inv(Do(s, step))
  {
    var s' := Do(s, step);
    match step
    case Allocate(p) => if Running(s, p) { AllocateKeeps(s, p); }
    case Adopt(p) => if Forking(s, p) { AdoptKeeps(s, p); }
    case Launch(p) => if Forking(s, p) && s.table[s.table[p].forking].parent == p { LaunchKeeps(s, p); }
    case Exit(p) => if Running(s, p) && p != s.initproc { ExitKeeps(s, p); }
    case Wait(p) => if Running(s, p) { WaitKeeps(s, p); }
    case Kill(pid) => WakingKeeps(s, s');
    case Dispatch(p) => WakingKeeps(s, s');
    case Yield(p) => WakingKeeps(s, s');
    case Sleep(p, n) => WakingKeeps(s, s');
    case Wakeup(n) =>
      forall c | 0 <= c < |s.table| ensures Similar(s.table[c], s'.table[c]) && NotMoreAsleep(s.table[c], s'.table[c]) {
        WakeFacts(s.table, Elsewhere(n), c);
      }
      WakingKeeps(s, s');
  }

  lemma {:induction false} RunKeeps(n: nat, steps: seq<Step>)
    requires n > 0
    ensures Inv(Run(Boot(n), steps))
    decreases |steps|
  {
    if steps == [] {
      var s := Boot(n);
      forall c | 0 <= c < |s.table| ensures SlotOk(s, c) && SleepsOk(s, c) {}
      Rebuild(s);
    } else {
      RunKeeps(n, steps[..|steps| - 1]);
      DoKeeps(Run(Boot(n), steps[..|steps| - 1]), steps[|steps| - 1]);
    }
  }

  /** The k-th ancestor of the process in slot c, or NONE above init. */
  function Ancestor(t: Table, c: int, k: nat): int
    decreases k
  {
    if k == 0 || !(0 <= c < |t|) then c else Ancestor(t, t[c].parent, k - 1)
  }

  /** A forked process: it has left its parent's fork(), or its parent has already adopted it. */
  predicate Forked(s: State, c: int) {
    0 <= c < |s.table| && s.table[c].status != UNUSED && (s.table[c].status != EMBRYO || s.table[c].parent != NONE)
  }

  /** Parent pointers lead to init, and every process on the way is up. */
  lemma {:induction false} LeadsToInit(s: State, c: int) returns (k: nat)
    requires Inv(s) && Forked(s, c)
    ensures Ancestor(s.table, c, k) == s.initproc
    ensures forall j :: 1 <= j <= k ==> 0 <= Ancestor(s.table, c, j) < |s.table| && Up(s.table[Ancestor(s.table, c, j)])
    decreases s.table[c].pid
  {
    assert SlotOk(s, c);
    if c == s.initproc {
      k := 0;
    } else {
      var p := s.table[c].parent;
      assert SlotOk(s, p);
      var m := LeadsToInit(s, p);
      k := m + 1;
      forall j | 1 <= j <= k ensures 0 <= Ancestor(s.table, c, j) < |s.table| && Up(s.table[Ancestor(s.table, c, j)]) {
        assert Ancestor(s.table, c, j) == Ancestor(s.table, p, j - 1);
      }
    }
  }

  /**
   * In every run, whenever the lock is free: each forked process reaches init through live parents
   * of strictly smaller pid, and nobody sleeps in wait() with a zombie child.
   */
  lemma FamilySafety(n: nat, steps: seq<Step>, c: int)
    requires n > 0
    ensures var s := Run(Boot(n), steps);
      && NoMissedChild(s.table)
      && (Forked(s, c) ==> exists k :: 0 <= k && Ancestor(s.table, c, k) == s.initproc)
      && (Forked(s, c) && c != s.initproc ==>
          0 <= s.table[c].parent < |s.table| && Up(s.table[s.table[c].parent]) && s.table[s.table[c].parent].pid < s.table[c].pid)
  {
    RunKeeps(n, steps);
    var s := Run(Boot(n), steps);
    if Forked(s, c) {
      assert SlotOk(s, c);
      var k := LeadsToInit(s, c);
    }
  }

  // ----- kill -----

  /** kill(pid) changes at most the slot it finds; that slot is a process's exactly when pid is not 0. */
  lemma KillHits(s: State, pid: int)
    requires Inv(s)
    ensures var i, t := FindPid(s.table, pid), DoKill(s, pid).table;
      && |t| == |s.table| && (forall j :: 0 <= j < |t| && j != i ==> t[j] == s.table[j])
      && (i < |t| ==> t[i].killed && t[i].status != SLEEPING && t[i].pid == pid && (t[i].status != UNUSED <==> pid != 0))
      && (i == |t| <==> forall j :: 0 <= j < |t| ==> s.table[j].pid != pid)
  {
    var i := FindPid(s.table, pid);
    if i < |s.table| { assert SlotOk(s, i); }
  }

  /** A slot that fork may take carries no kill from before. */
  predicate Clean(t: Table) { forall i :: 0 <= i < |t| && t[i].status == UNUSED ==> !t[i].killed }

  lemma FirstFree(s: State)
    requires Inv(s)
    ensures FindPid(s.table, 0) == FindUnused(s.table)
  {
    var i, j := FindPid(s.table, 0), FindUnused(s.table);
    assert SlotOk(s, i) && SlotOk(s, j);
  }

  /** Free slots stay clean exactly until kill(0) finds one. */
  lemma CleanExactly(s: State, step: Step)
    requires Inv(s) && Clean(s.table)
    ensures Clean(Do(s, step).table) <==> !(step == Kill(0) && FindUnused(s.table) < |s.table|)
  {
    if step.Kill? {
      FirstFree(s);
      KillHits(s, step.pid);
    } else if step.Exit? && Running(s, step.p) && step.p != s.initproc {
      BuryClean(s.table, step.p, s.initproc);
    }
  }

  lemma BuryClean(t: Table, p: int, init: int)
    requires Clean(t) && 0 <= p < |t|
    ensures Clean(Bury(t, p, init))
  {
    var t1 := Wake(t, OnProc(t[p].parent));
    assert Clean(t1);
    assert Clean(Orphan(t1, p, init));
  }

  /** fork makes a runnable child of its own pid, and leaves every other process as it was. */
  lemma ForkChild(s: State, p: int)
    requires Inv(s) && Running(s, p) && FindUnused(s.table) < |s.table|
    ensures var c, s' := FindUnused(s.table), Do(Do(Do(s, Allocate(p)), Adopt(p)), Launch(p));
      && |s'.table| == |s.table| && s'.nextpid == s.nextpid + 1
      && s'.table[c] == s.table[c].(status := RUNNABLE, pid := s.nextpid, parent := p)
      && forall k :: 0 <= k < |s.table| && k != c ==> s'.table[k] == s.table[k]
  {
    var c := FindUnused(s.table);
    assert SlotOk(s, c);
    var s1 := Do(s, Allocate(p));
    assert Forking(s1, p) && s1.table[p].forking == c;
  }

  /** A sleeper is woken by its own channel, and then runs when it is dispatched. */
  lemma SleepWakes(s: State, p: int, n: int, m: int)
    requires Running(s, p)
    ensures var t := Do(Do(s, Sleep(p, n)), Wakeup(m)).table;
      |t| == |s.table| && t[p] == s.table[p].(status := if m == n then RUNNABLE else SLEEPING, chan := Elsewhere(n))
    ensures Do(Do(Do(s, Sleep(p, n)), Wakeup(n)), Dispatch(p)).table[p] == s.table[p].(status := RUNNING, chan := Nowhere)
    ensures Do(s, Yield(p)).table[p] == s.table[p].(status := RUNNABLE)
  {
  }

  /** The next child of any process then starts its life killed. */
  lemma BornKilled(s: State, p: int)
    requires Inv(s) && Running(s, p) && FindUnused(s.table) < |s.table|
    ensures var c, s' := FindUnused(s.table), Do(Do(Do(Do(s, Kill(0)), Allocate(p)), Adopt(p)), Launch(p));
      s'.table[c] == Proc(RUNNABLE, s.nextpid, p, s.table[c].chan, true, s.table[c].forking)
  {
    var c := FindUnused(s.table);
    FirstFree(s);
    assert SlotOk(s, c);
    var s1 := Do(s, Kill(0));
    var u := FindUnused(s1.table);
    assert s1.table[c].status == UNUSED && forall k :: 0 <= k < c ==> s1.table[k] == s.table[k];
    assert u == c && Running(s1, p);
    var s2 := Do(s1, Allocate(p));
    assert Forking(s2, p) && s2.table[p].forking == c;
  }

  /** From boot: init calls kill(0) and forks. */
  lemma KilledFirstChild(n: nat)
    requires n >= 2
    ensures var s := Do(Do(Do(Do(Do(Boot(n), Dispatch(0)), Kill(0)), Allocate(0)), Adopt(0)), Launch(0));
      s.table[1] == Proc(RUNNABLE, 2, 0, Nowhere, true, NONE)
  {
    RunKeeps(n, []);
    DoKeeps(Boot(n), Dispatch(0));
    var s := Do(Boot(n), Dispatch(0));
    assert s.table[0].status == RUNNING && s.table[1].status == UNUSED;
    assert FindUnused(s.table) == 1;
    BornKilled(s, 0);
  }
}
