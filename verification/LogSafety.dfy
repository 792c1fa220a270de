/**
 * Crash safety and admission control of the log: the invariant of the machine, its
 * preservation step by step, and what it says about every run.
 */
module LogSafety {
  import opened Common
  import opened LogMachine

  // ----- Sums over the process table -----

  function Spare(p: Proc): nat {
    if p.Active? && p.spent <= MAXOPBLOCKS then MAXOPBLOCKS - p.spent else 0
  }

  function Busy(p: Proc): nat { if p.Active? then 1 else 0 }

  function Sum(ps: seq<Proc>, f: Proc -> nat): nat {
    if ps == [] then 0 else Sum(ps[..|ps| - 1], f) + f(ps[|ps| - 1])
  }

  lemma {:induction false} SumUpdate(ps: seq<Proc>, i: nat, x: Proc, f: Proc -> nat)
    requires i < |ps|
    ensures Sum(ps[i := x], f) == Sum(ps, f) - f(ps[i]) + f(x)
  {
    var n := |ps| - 1;
    if i == n {
      assert ps[i := x][..n] == ps[..n];
    } else {
      assert ps[i := x][..n] == ps[..n][i := x];
      SumUpdate(ps[..n], i, x, f);
    }
  }

  lemma {:induction false} SumAgrees(ps: seq<Proc>, qs: seq<Proc>, f: Proc -> nat)
    requires |ps| == |qs| && forall i :: 0 <= i < |ps| ==> f(ps[i]) == f(qs[i])
    ensures Sum(ps, f) == Sum(qs, f)
  {
    if ps != [] { SumAgrees(ps[..|ps| - 1], qs[..|ps| - 1], f); }
  }

  lemma {:induction false} SpareBound(ps: seq<Proc>)
    ensures Sum(ps, Spare) <= MAXOPBLOCKS * Sum(ps, Busy)
  {
    if ps != [] { SpareBound(ps[..|ps| - 1]); }
  }

  lemma {:induction false} BusyMember(ps: seq<Proc>, i: nat)
    requires i < |ps| && ps[i].Active?
    ensures Sum(ps, Busy) >= 1 && Sum(ps, Spare) >= Spare(ps[i])
  {
    if i < |ps| - 1 { BusyMember(ps[..|ps| - 1], i); }
  }

  lemma {:induction false} NoneBusy(ps: seq<Proc>)
    ensures Sum(ps, Busy) == 0 <==> forall i :: 0 <= i < |ps| ==> !ps[i].Active?
  {
    if ps != [] { NoneBusy(ps[..|ps| - 1]); }
  }

  // ----- Installing is idempotent -----

  lemma {:induction false} InstalledElsewhere(geo: Geometry, d: Disk, bs: seq<int>, n: nat, b: int)
    requires DiskShape(geo, d) && n <= |bs| <= geo.Slots() && HomeBlocks(geo, d, bs)
    requires b in d && Untouched(bs, n, b)
    ensures b in Installed(geo, d, bs, n) && Installed(geo, d, bs, n)[b] == d[b]
  {
    if n > 0 { InstalledElsewhere(geo, d, bs, n - 1, b); }
  }

  lemma {:induction false} InstalledKeys(geo: Geometry, d: Disk, bs: seq<int>, n: nat)
    requires DiskShape(geo, d) && n <= |bs| <= geo.Slots() && HomeBlocks(geo, d, bs)
    ensures Installed(geo, d, bs, n).Keys == d.Keys
  {
    if n > 0 { InstalledKeys(geo, d, bs, n - 1); }
  }

  /** install_trans brings slot i to its home, whatever was there before. */
  lemma {:induction false} InstalledAt(geo: Geometry, d: Disk, bs: seq<int>, n: nat, i: nat)
    requires DiskShape(geo, d) && i < n <= |bs| <= geo.Slots() && HomeBlocks(geo, d, bs) && Distinct(bs)
    ensures bs[i] in Installed(geo, d, bs, n) && Installed(geo, d, bs, n)[bs[i]] == d[geo.start + 1 + i]
  {
    if i == n - 1 {
      InstalledElsewhere(geo, d, bs, n - 1, geo.start + n);
    } else {
      InstalledAt(geo, d, bs, n - 1, i);
    }
  }

  ghost predicate Untouched(bs: seq<int>, n: nat, b: int)
    requires n <= |bs|
  {
    forall i :: 0 <= i < n ==> bs[i] != b
  }

  /** An index of b in bs, or -1. */
  ghost function Slot(bs: seq<int>, b: int): (i: int)
    ensures -1 <= i < |bs|
    ensures i >= 0 ==> bs[i] == b
    ensures i < 0 ==> b !in bs
  {
    if b in bs then var i :| 0 <= i < |bs| && bs[i] == b; i else -1
  }

  /** The same result, block by block: the slot of the log that names b, or b itself. */
  ghost function Redo(geo: Geometry, d: Disk, bs: seq<int>): Disk
    requires DiskShape(geo, d) && |bs| <= geo.Slots()
  {
    map b | b in d && !geo.InLog(b) ::
      if Slot(bs, b) >= 0 then d[geo.start + 1 + Slot(bs, b)] else d[b]
  }

  lemma SameAsRedo(geo: Geometry, d: Disk, x: Disk, bs: seq<int>)
    requires DiskShape(geo, d) && |bs| <= geo.Slots()
    requires x.Keys == d.Keys
    requires forall i :: 0 <= i < |bs| ==> bs[i] in x && x[bs[i]] == d[geo.start + 1 + i]
    requires forall b :: b in d && Untouched(bs, |bs|, b) ==> x[b] == d[b]
    ensures Home(geo, x) == Redo(geo, d, bs)
  {
    forall b | b in d && !geo.InLog(b) ensures x[b] == Redo(geo, d, bs)[b] {
      if Slot(bs, b) < 0 { assert Untouched(bs, |bs|, b); }
    }
  }

  lemma InstalledIsRedo(geo: Geometry, d: Disk, bs: seq<int>)
    requires DiskShape(geo, d) && |bs| <= geo.Slots() && HomeBlocks(geo, d, bs) && Distinct(bs)
    ensures Home(geo, Installed(geo, d, bs, |bs|)) == Redo(geo, d, bs)
  {
    var x := Installed(geo, d, bs, |bs|);
    InstalledKeys(geo, d, bs, |bs|);
    forall i | 0 <= i < |bs| ensures x[bs[i]] == d[geo.start + 1 + i] {
      InstalledAt(geo, d, bs, |bs|, i);
    }
    forall b | b in d && Untouched(bs, |bs|, b) ensures x[b] == d[b] {
      InstalledElsewhere(geo, d, bs, |bs|, b);
    }
    SameAsRedo(geo, d, x, bs);
  }

  lemma RecoveredIsRedo(geo: Geometry, d: Disk)
    requires HeadOk(geo, d)
    ensures RecoveredHome(geo, d) == Redo(geo, d, HeadList(geo, d))
  {
    InstalledIsRedo(geo, d, HeadList(geo, d));
  }

  lemma SameHead(geo: Geometry, d: Disk, e: Disk)
    requires HeadOk(geo, d) && d.Keys == e.Keys && e[geo.start] == d[geo.start]
    requires forall b :: b in e ==> |e[b]| == BLOCK_WORDS
    ensures HeadOk(geo, e) && HeadList(geo, e) == HeadList(geo, d)
  {
    assert HeadList(geo, e) == HeadList(geo, d);
  }

  /** Copying a slot of the log to its home does not change what recovery produces. */
  lemma InstallKeepsRecovery(geo: Geometry, d: Disk, tail: nat)
    requires HeadOk(geo, d) && tail < HeadCount(geo, d)
    ensures var e := InstallOne(geo, d, HeadList(geo, d), tail);
            HeadOk(geo, e) && HeadList(geo, e) == HeadList(geo, d)
            && RecoveredHome(geo, e) == RecoveredHome(geo, d)
  {
    var bs := HeadList(geo, d);
    var e := InstallOne(geo, d, bs, tail);
    SameHead(geo, d, e);
    RecoveredIsRedo(geo, d);
    RecoveredIsRedo(geo, e);
    RedoAfterInstall(geo, d, bs, tail);
  }

  lemma RedoAfterInstall(geo: Geometry, d: Disk, bs: seq<int>, tail: nat)
    requires DiskShape(geo, d) && HomeBlocks(geo, d, bs) && Distinct(bs) && tail < |bs| <= geo.Slots()
    ensures Redo(geo, InstallOne(geo, d, bs, tail), bs) == Redo(geo, d, bs)
  {
    assert Redo(geo, InstallOne(geo, d, bs, tail), bs).Keys == Redo(geo, d, bs).Keys;
  }

  /** Once every slot is at home, the header can be cleared. */
  lemma InstalledIsRecovered(geo: Geometry, d: Disk)
    requires HeadOk(geo, d)
    requires forall i :: 0 <= i < HeadCount(geo, d) ==> d[HeadList(geo, d)[i]] == d[geo.start + 1 + i]
    ensures RecoveredHome(geo, d) == Home(geo, d)
  {
    RecoveredIsRedo(geo, d);
    assert Redo(geo, d, HeadList(geo, d)).Keys == Home(geo, d).Keys;
  }

  /** While the header is empty nothing else in the log matters. */
  lemma EmptyHeadRecovers(geo: Geometry, d: Disk)
    requires DiskShape(geo, d) && HeadCount(geo, d) == 0
    ensures HeadOk(geo, d) && RecoveredHome(geo, d) == Home(geo, d)
  {
  }

  // ----- The invariant -----

  ghost predicate Admission(s: State) {
    && s.outstanding == Sum(s.procs, Busy)
    && Distinct(s.lh)
    && (s.committing ==> s.outstanding == 0)
    && (forall i :: 0 <= i < |s.procs| && s.procs[i].Asleep? ==> s.committing || s.outstanding > 0)
    && (forall i :: 0 <= i < |s.procs| && s.procs[i].Asleep? ==> Refuses(s))
  }

  /** What begin_op sleeps on. */
  ghost predicate Refuses(s: State) { s.committing || |s.lh| + (s.outstanding + 1) * MAXOPBLOCKS > LOGSIZE }

  /** Nobody has appended more than was reserved, so what the open operations may still append fits. */
  ghost predicate Budgets(s: State) {
    s.frugal ==>
      && |s.lh| + Sum(s.procs, Spare) <= LOGSIZE
      && (forall i :: 0 <= i < |s.procs| && s.procs[i].Active? ==> s.procs[i].spent <= MAXOPBLOCKS)
  }

  /** The pinned buffers are the open group's writes over the committed home blocks. */
  ghost predicate PinnedMatch(geo: Geometry, s: State) {
    && HomeBlocks(geo, s.disk, s.lh)
    && s.dirty.Keys == SetOf(s.lh)
    && (forall b :: b in s.dirty ==> |s.dirty[b]| == BLOCK_WORDS)
    && Home(geo, s.disk) + s.dirty == ApplyEvents(Home(geo, s.disk), s.pending)
  }

  ghost function SetOf(bs: seq<int>): set<int> { set b | b in bs }

  ghost predicate OpenMatch(s: State) {
    && Open(s.pending).Some?
    && (forall p: nat :: p in Open(s.pending).value <==> p < |s.procs| && s.procs[p].Active?)
  }

  ghost predicate WritesMatch(geo: Geometry, s: State) {
    forall i :: 0 <= i < |s.procs| && s.procs[i].Active? && s.procs[i].write.Some? ==>
      s.procs[i].write.value.0 in s.disk && !geo.InLog(s.procs[i].write.value.0)
      && |s.procs[i].write.value.1| == BLOCK_WORDS
  }

  ghost predicate ServingOk(geo: Geometry, s: State)
    requires DiskShape(geo, s.disk)
  {
    && !s.committing && HeadCount(geo, s.disk) == 0
    && PinnedMatch(geo, s) && OpenMatch(s)
    && (s.outstanding == 0 ==> s.lh == [])
  }

  ghost predicate CopyingOk(geo: Geometry, s: State, t: nat)
    requires DiskShape(geo, s.disk)
  {
    && s.committing && HeadCount(geo, s.disk) == 0
    && PinnedMatch(geo, s) && OpenMatch(s) && t <= |s.lh| <= geo.Slots()
    && (forall i :: 0 <= i < t ==> s.disk[geo.start + 1 + i] == s.dirty[s.lh[i]])
  }

  ghost predicate HeadIs(geo: Geometry, d: Disk, lh: seq<int>)
    requires DiskShape(geo, d)
  {
    && |lh| <= geo.Slots() && HeadCount(geo, d) == |lh| && HeadList(geo, d) == lh
    && HomeBlocks(geo, d, lh)
  }

  ghost predicate InstallingOk(geo: Geometry, s: State, t: nat, boot: bool)
    requires DiskShape(geo, s.disk)
  {
    && s.committing == !boot && s.outstanding == 0 && s.pending == []
    && HeadIs(geo, s.disk, s.lh) && t <= |s.lh|
    && (forall i :: 0 <= i < t ==> s.disk[s.lh[i]] == s.disk[geo.start + 1 + i])
    && s.dirty.Keys == (if boot then {} else SetOf(s.lh[t..]))
  }

  ghost predicate PhaseOk(geo: Geometry, s: State)
    requires DiskShape(geo, s.disk)
  {
    match s.phase
    case Serving => ServingOk(geo, s)
    case Copying(t) => CopyingOk(geo, s, t)
    case Installing(t, boot) => InstallingOk(geo, s, t, boot)
    case Committed =>
      && s.committing && HeadCount(geo, s.disk) == 0
      && s.lh == [] && s.dirty == map[] && s.pending == []
    case Booting => s == Boot(s)
    case BigPanic => |s.lh| == geo.Slots()
    case Overrun => |s.lh| == geo.Slots() && (geo.size > LOGSIZE ==> !s.frugal)
    case EndPanic => false
    case TransPanic => false
  }

  /** The heart of it: recovering this disk gives the committed groups and nothing else. */
  ghost predicate Durable(geo: Geometry, home0: Disk, d: Disk, groups: seq<seq<Event>>) {
    && HeadOk(geo, d)
    && RecoveredHome(geo, d) == ApplyGroups(home0, groups)
    && (forall g :: g in groups ==> WholeOperations(g))
  }

  ghost predicate Inv(geo: Geometry, home0: Disk, s: State) {
    && Durable(geo, home0, s.disk, s.groups)
    && |s.lh| <= geo.Slots() && Admission(s) && Budgets(s) && WritesMatch(geo, s)
    && PhaseOk(geo, s)
  }

  lemma NoneBusyAfterBoot(s: State)
    ensures Sum(Boot(s).procs, Busy) == 0 && Sum(Boot(s).procs, Spare) == 0
  {
    NoneBusy(Boot(s).procs);
    SpareBound(Boot(s).procs);
  }

  lemma InitInv(geo: Geometry, s: State)
    requires PowerOn(geo, s)
    ensures Inv(geo, RecoveredHome(geo, s.disk), s)
  {
    NoneBusyAfterBoot(s);
  }

  /** Every step the control flow allows finds the blocks it needs. */
  lemma EnabledIsDefined(geo: Geometry, home0: Disk, s: State, step: Step)
    requires Inv(geo, home0, s) && Enabled(geo, s, step)
    ensures Defined(geo, s, step)
  {
  }

  lemma BeginOpens(s: State, p: nat)
    requires OpenMatch(s) && p < |s.procs| && s.procs[p].Outside?
    ensures OpenMatch(DoBegin(s, p))
    ensures forall h :: ApplyEvents(h, DoBegin(s, p).pending) == ApplyEvents(h, s.pending)
  {
    assert (s.pending + [Begin(p)])[..|s.pending|] == s.pending;
  }

  lemma BeginPhase(geo: Geometry, s: State, p: nat)
    requires DiskShape(geo, s.disk) && PhaseOk(geo, s) && Enabled(geo, s, BeginOp(p))
    requires Admission(s)
    ensures PhaseOk(geo, DoBegin(s, p))
    ensures WritesMatch(geo, s) ==> WritesMatch(geo, DoBegin(s, p))
  {
    if OpenMatch(s) { BeginOpens(s, p); }
  }

  lemma BeginBudgets(s: State, p: nat)
    requires Admission(s) && Budgets(s) && p < |s.procs| && s.procs[p].Outside?
    ensures Budgets(DoBegin(s, p))
  {
    var t := DoBegin(s, p);
    SumUpdate(s.procs, p, t.procs[p], Busy);
    SumUpdate(s.procs, p, t.procs[p], Spare);
    SpareBound(s.procs);
  }

  lemma BeginKeeps(geo: Geometry, home0: Disk, s: State, p: nat)
    requires Inv(geo, home0, s) && Enabled(geo, s, BeginOp(p))
    ensures Inv(geo, home0, DoBegin(s, p))
  {
    BeginAdmits(s, p);
    BeginBudgets(s, p);
    BeginPhase(geo, s, p);
  }

  lemma BeginAdmits(s: State, p: nat)
    requires Admission(s) && p < |s.procs| && s.procs[p].Outside?
    requires !s.committing && s.outstanding == 0 ==> s.lh == []
    ensures Admission(DoBegin(s, p))
  {
    SumUpdate(s.procs, p, DoBegin(s, p).procs[p], Busy);
  }

  lemma CheckKeeps(geo: Geometry, home0: Disk, s: State, p: nat, b: int, data: Block)
    requires Inv(geo, home0, s) && Enabled(geo, s, LogCheck(p, b, data))
    ensures Inv(geo, home0, DoCheck(geo, s, p, b, data))
  {
    BusyMember(s.procs, p);
    CheckAdmits(geo, s, p, b, data);
  }

  lemma CheckAdmits(geo: Geometry, s: State, p: nat, b: int, data: Block)
    requires Admission(s) && Budgets(s) && p < |s.procs| && s.procs[p].Active?
    ensures Admission(DoCheck(geo, s, p, b, data)) && Budgets(DoCheck(geo, s, p, b, data))
  {
    var t := DoCheck(geo, s, p, b, data);
    SumUpdate(s.procs, p, t.procs[p], Busy);
    SumUpdate(s.procs, p, t.procs[p], Spare);
  }

  /** There is a slot for the block, or it needs none. */
  ghost predicate HasSlot(geo: Geometry, s: State, p: nat)
    requires p < |s.procs| && s.procs[p].Active? && s.procs[p].write.Some?
  {
    s.procs[p].write.value.0 in s.lh || |s.lh| < geo.Slots()
  }

  lemma AppendAdmits(geo: Geometry, s: State, p: nat)
    requires Admission(s) && |s.lh| <= geo.Slots() && p < |s.procs| && s.procs[p].Active? && s.procs[p].write.Some?
    requires HasSlot(geo, s, p)
    ensures var t := DoAppend(geo, s, p); Admission(t) && |t.lh| <= geo.Slots()
    ensures SetOf(DoAppend(geo, s, p).lh) == SetOf(s.lh) + {s.procs[p].write.value.0}
  {
    BusyMember(s.procs, p);
    SumUpdate(s.procs, p, DoAppend(geo, s, p).procs[p], Busy);
  }

  lemma AppendBudgets(geo: Geometry, s: State, p: nat)
    requires Budgets(s) && p < |s.procs| && s.procs[p].Active? && s.procs[p].write.Some?
    ensures Budgets(DoAppend(geo, s, p))
    ensures DoAppend(geo, s, p).frugal ==> HasSlot(geo, s, p) || geo.size <= LOGSIZE
  {
    BusyMember(s.procs, p);
    SumUpdate(s.procs, p, DoAppend(geo, s, p).procs[p], Spare);
  }

  lemma AppendPins(geo: Geometry, s: State, t: State, p: nat, b: int, data: Block)
    requires PinnedMatch(geo, s) && OpenMatch(s)
    requires p < |s.procs| && s.procs[p].Active? && b in s.disk && !geo.InLog(b) && |data| == BLOCK_WORDS
    requires t.disk == s.disk && t.dirty == s.dirty[b := data] && t.pending == s.pending + [Write(p, b, data)]
    requires |t.procs| == |s.procs| && (forall i :: 0 <= i < |s.procs| ==> t.procs[i].Active? == s.procs[i].Active?)
    requires (t.lh == s.lh || t.lh == s.lh + [b]) && SetOf(t.lh) == SetOf(s.lh) + {b}
    ensures PinnedMatch(geo, t) && OpenMatch(t)
  {
    assert t.pending[..|s.pending|] == s.pending;
    var h := Home(geo, s.disk);
    assert h + s.dirty[b := data] == (h + s.dirty)[b := data];
  }

  lemma AppendKeeps(geo: Geometry, home0: Disk, s: State, p: nat)
    requires Inv(geo, home0, s) && Enabled(geo, s, LogAppend(p))
    ensures Inv(geo, home0, DoAppend(geo, s, p))
  {
    BusyMember(s.procs, p);
    AppendBudgets(geo, s, p);
    if HasSlot(geo, s, p) {
      AppendAdmits(geo, s, p);
      AppendPhase(geo, s, p);
    }
  }

  lemma AppendPhase(geo: Geometry, s: State, p: nat)
    requires DiskShape(geo, s.disk) && ServingOk(geo, s) && s.phase.Serving? && s.outstanding > 0 && WritesMatch(geo, s)
    requires p < |s.procs| && s.procs[p].Active? && s.procs[p].write.Some? && HasSlot(geo, s, p)
    requires SetOf(DoAppend(geo, s, p).lh) == SetOf(s.lh) + {s.procs[p].write.value.0}
    ensures PhaseOk(geo, DoAppend(geo, s, p)) && WritesMatch(geo, DoAppend(geo, s, p))
  {
    AppendPins(geo, s, DoAppend(geo, s, p), p, s.procs[p].write.value.0, s.procs[p].write.value.1);
  }

  lemma EndAdmits(s: State, p: nat)
    requires Admission(s) && Budgets(s) && !s.committing && p < |s.procs| && s.procs[p].Active?
    ensures Admission(DoEnd(s, p)) && Budgets(DoEnd(s, p))
    ensures DoEnd(s, p).outstanding == 0 ==> forall i :: 0 <= i < |s.procs| ==> !DoEnd(s, p).procs[i].Active?
  {
    var t := DoEnd(s, p);
    var ps := s.procs[p := Outside];
    BusyMember(s.procs, p);
    SumUpdate(s.procs, p, Outside, Busy);
    SumUpdate(s.procs, p, Outside, Spare);
    SumAgrees(ps, t.procs, Busy);
    SumAgrees(ps, t.procs, Spare);
    NoneBusy(t.procs);
  }

  lemma EndOpens(s: State, p: nat)
    requires OpenMatch(s) && p < |s.procs| && s.procs[p].Active? && !s.committing
    ensures Open(s.pending + [End(p)]).Some?
    ensures forall q: nat :: q in Open(s.pending + [End(p)]).value <==>
              q < |s.procs| && DoEnd(s, p).procs[q].Active?
    ensures forall h :: ApplyEvents(h, s.pending + [End(p)]) == ApplyEvents(h, s.pending)
  {
    assert (s.pending + [End(p)])[..|s.pending|] == s.pending;
  }

  lemma EndKeeps(geo: Geometry, home0: Disk, s: State, p: nat)
    requires Inv(geo, home0, s) && Enabled(geo, s, EndOp(p))
    ensures Inv(geo, home0, DoEnd(s, p))
  {
    BusyMember(s.procs, p);
    var t := DoEnd(s, p);
    EndAdmits(s, p);
    EndOpens(s, p);
  }

  /** A step of the committing process or of recovery touches no other process. */
  lemma DiskStep(geo: Geometry, s: State, t: State)
    requires Admission(s) && Budgets(s) && WritesMatch(geo, s)
    requires t == s.(disk := t.disk, lh := t.lh, dirty := t.dirty, phase := t.phase,
                     groups := t.groups, pending := t.pending)
    requires t.disk.Keys == s.disk.Keys && (t.lh == s.lh || (t.lh == [] && (s.committing || s.outstanding == 0)))
    ensures Admission(t) && Budgets(t) && WritesMatch(geo, t)
  {
  }

  lemma CopyKeeps(geo: Geometry, home0: Disk, s: State)
    requires Inv(geo, home0, s) && Enabled(geo, s, CopyBlock)
    ensures Inv(geo, home0, Do(geo, s, CopyBlock))
  {
    var k := s.phase.tail;
    var t := Do(geo, s, CopyBlock);
    CopyDisk(geo, home0, s.disk, s.groups, t.disk, geo.start + 1 + k, Read(s, s.lh[k]));
    CopyPhase(geo, s, t, k);
    DiskStep(geo, s, t);
  }

  /** While the header is empty, a slot may hold anything. */
  lemma CopyDisk(geo: Geometry, home0: Disk, d: Disk, groups: seq<seq<Event>>, d': Disk, slot: int, data: Block)
    requires Durable(geo, home0, d, groups) && HeadCount(geo, d) == 0
    requires geo.InLog(slot) && slot != geo.start && |data| == BLOCK_WORDS && d' == d[slot := data]
    ensures Durable(geo, home0, d', groups) && HeadCount(geo, d') == 0 && Home(geo, d') == Home(geo, d) && d'.Keys == d.Keys
  {
    assert Home(geo, d') == Home(geo, d);
    EmptyHeadRecovers(geo, d);
    EmptyHeadRecovers(geo, d');
  }

  lemma CopyPhase(geo: Geometry, s: State, t: State, k: nat)
    requires DiskShape(geo, s.disk) && CopyingOk(geo, s, k) && k < |s.lh| && s.lh[k] in s.disk
    requires t == s.(disk := t.disk, phase := Copying(k + 1))
    requires DiskShape(geo, t.disk) && t.disk == s.disk[geo.start + 1 + k := Read(s, s.lh[k])]
    requires HeadCount(geo, t.disk) == 0 && Home(geo, t.disk) == Home(geo, s.disk)
    ensures PhaseOk(geo, t)
  {
    assert s.lh[k] in SetOf(s.lh);
  }

  lemma RedoAt(geo: Geometry, d: Disk, lh: seq<int>, dirty: map<int, Block>, b: int)
    requires DiskShape(geo, d) && HomeBlocks(geo, d, lh) && |lh| <= geo.Slots()
    requires dirty.Keys == SetOf(lh)
    requires forall i :: 0 <= i < |lh| ==> d[geo.start + 1 + i] == dirty[lh[i]]
    requires b in d && !geo.InLog(b)
    ensures Redo(geo, d, lh)[b] == (Home(geo, d) + dirty)[b]
  {
  }

  lemma RedoIsOverlay(geo: Geometry, d: Disk, lh: seq<int>, dirty: map<int, Block>)
    requires DiskShape(geo, d) && HomeBlocks(geo, d, lh) && |lh| <= geo.Slots()
    requires dirty.Keys == SetOf(lh)
    requires forall i :: 0 <= i < |lh| ==> d[geo.start + 1 + i] == dirty[lh[i]]
    ensures Redo(geo, d, lh) == Home(geo, d) + dirty
  {
    var x, y := Redo(geo, d, lh), Home(geo, d) + dirty;
    assert x.Keys == y.Keys;
    forall b | b in x ensures x[b] == y[b] { RedoAt(geo, d, lh, dirty, b); }
  }

  lemma HeadWritten(geo: Geometry, d: Disk, lh: seq<int>)
    requires DiskShape(geo, d) && HomeBlocks(geo, d, lh) && Distinct(lh) && |lh| <= geo.Slots()
    ensures var e := d[geo.start := HeadBlock(d[geo.start], lh)];
            HeadOk(geo, e) && HeadIs(geo, e, lh) && Home(geo, e) == Home(geo, d)
  {
    var e := d[geo.start := HeadBlock(d[geo.start], lh)];
    assert HeadList(geo, e) == lh;
    assert Home(geo, e).Keys == Home(geo, d).Keys;
  }

  /** The commit point: one header write makes the whole open group recoverable. */
  lemma HeadWriteCommits(geo: Geometry, d: Disk, lh: seq<int>, dirty: map<int, Block>)
    requires DiskShape(geo, d) && HomeBlocks(geo, d, lh) && Distinct(lh) && |lh| <= geo.Slots()
    requires dirty.Keys == SetOf(lh)
    requires forall i :: 0 <= i < |lh| ==> d[geo.start + 1 + i] == dirty[lh[i]]
    ensures var e := d[geo.start := HeadBlock(d[geo.start], lh)];
            HeadOk(geo, e) && HeadIs(geo, e, lh) && RecoveredHome(geo, e) == Home(geo, d) + dirty
  {
    HeadWritten(geo, d, lh);
    var e := d[geo.start := HeadBlock(d[geo.start], lh)];
    RecoveredIsRedo(geo, e);
    RedoIsOverlay(geo, e, lh, dirty);
  }

  lemma CommitWhole(s: State)
    requires OpenMatch(s) && Sum(s.procs, Busy) == 0
    ensures WholeOperations(s.pending)
  {
    NoneBusy(s.procs);
    assert Open(s.pending).value == {};
  }

  lemma CommitDurable(geo: Geometry, home0: Disk, s: State, d: Disk)
    requires Durable(geo, home0, s.disk, s.groups) && PinnedMatch(geo, s)
    requires HeadCount(geo, s.disk) == 0 && WholeOperations(s.pending)
    requires HeadOk(geo, d) && RecoveredHome(geo, d) == Home(geo, s.disk) + s.dirty
    ensures Durable(geo, home0, d, s.groups + [s.pending])
  {
    EmptyHeadRecovers(geo, s.disk);
    assert (s.groups + [s.pending])[..|s.groups|] == s.groups;
  }

  lemma CommitPhase(geo: Geometry, s: State, t: State)
    requires DiskShape(geo, s.disk) && CopyingOk(geo, s, |s.lh|) && s.outstanding == 0
    requires DiskShape(geo, t.disk) && HeadIs(geo, t.disk, s.lh)
    requires t == s.(disk := t.disk, phase := t.phase, groups := t.groups, pending := [])
    ensures InstallingOk(geo, t, 0, false)
  {
    assert s.lh == s.lh[0..];
  }

  /** All that changes between the states before and after the header write. */
  lemma CommitDisk(geo: Geometry, home0: Disk, s: State, d: Disk)
    requires Durable(geo, home0, s.disk, s.groups) && CopyingOk(geo, s, |s.lh|)
    requires Distinct(s.lh) && WholeOperations(s.pending)
    requires d == s.disk[geo.start := HeadBlock(s.disk[geo.start], s.lh)]
    ensures Durable(geo, home0, d, s.groups + [s.pending]) && HeadIs(geo, d, s.lh)
    ensures d.Keys == s.disk.Keys
  {
    HeadWriteCommits(geo, s.disk, s.lh, s.dirty);
    CommitDurable(geo, home0, s, d);
  }

  lemma CommitKeeps(geo: Geometry, home0: Disk, s: State)
    requires Inv(geo, home0, s) && Enabled(geo, s, CommitHead)
    ensures Inv(geo, home0, Do(geo, s, CommitHead))
  {
    var t := Do(geo, s, CommitHead);
    CommitWhole(s);
    CommitDisk(geo, home0, s, t.disk);
    CommitPhase(geo, s, t);
    DiskStep(geo, s, t);
  }

  lemma DropFirst(bs: seq<int>, k: nat)
    requires Distinct(bs) && k < |bs|
    ensures SetOf(bs[k..]) - {bs[k]} == SetOf(bs[k + 1..])
  {
    assert bs[k..] == [bs[k]] + bs[k + 1..];
  }

  lemma InstallPrefix(geo: Geometry, d: Disk, bs: seq<int>, k: nat)
    requires DiskShape(geo, d) && HomeBlocks(geo, d, bs) && Distinct(bs) && k < |bs| <= geo.Slots()
    requires forall i :: 0 <= i < k ==> d[bs[i]] == d[geo.start + 1 + i]
    ensures var e := InstallOne(geo, d, bs, k);
            forall i :: 0 <= i < k + 1 ==> e[bs[i]] == e[geo.start + 1 + i]
  {
    var e := InstallOne(geo, d, bs, k);
    forall i | 0 <= i < k + 1 ensures e[bs[i]] == e[geo.start + 1 + i] {
      assert geo.InLog(geo.start + 1 + i) && !geo.InLog(bs[k]);
    }
  }

  lemma InstallPhase(geo: Geometry, s: State, t: State, k: nat)
    requires DiskShape(geo, s.disk) && k < |s.lh| && Distinct(s.lh) && s.phase.Installing?
    requires InstallingOk(geo, s, k, s.phase.boot)
    requires DiskShape(geo, t.disk) && HeadIs(geo, t.disk, s.lh)
    requires t == s.(disk := t.disk, dirty := s.dirty - {s.lh[k]}, phase := Installing(k + 1, s.phase.boot))
    requires forall i :: 0 <= i < k + 1 ==> t.disk[s.lh[i]] == t.disk[geo.start + 1 + i]
    ensures PhaseOk(geo, t)
  {
    DropFirst(s.lh, k);
  }

  lemma InstallKeeps(geo: Geometry, home0: Disk, s: State)
    requires Inv(geo, home0, s) && Enabled(geo, s, InstallBlock)
    ensures Inv(geo, home0, Do(geo, s, InstallBlock))
  {
    var k := s.phase.tail;
    var t := Do(geo, s, InstallBlock);
    InstallDisk(geo, home0, s.disk, s.groups, t.disk, s.lh, k);
    InstallPrefix(geo, s.disk, s.lh, k);
    InstallPhase(geo, s, t, k);
    DiskStep(geo, s, t);
  }

  lemma InstallDisk(geo: Geometry, home0: Disk, d: Disk, groups: seq<seq<Event>>, d': Disk, lh: seq<int>, k: nat)
    requires Durable(geo, home0, d, groups) && HeadIs(geo, d, lh) && k < |lh| && d' == InstallOne(geo, d, lh, k)
    ensures Durable(geo, home0, d', groups) && HeadIs(geo, d', lh) && d'.Keys == d.Keys
  {
    InstallKeepsRecovery(geo, d, k);
    assert d'.Keys == d.Keys;
  }

  lemma ClearKeeps(geo: Geometry, home0: Disk, s: State)
    requires Inv(geo, home0, s) && Enabled(geo, s, ClearHead)
    ensures Inv(geo, home0, Do(geo, s, ClearHead))
  {
    var t := Do(geo, s, ClearHead);
    ClearDisk(geo, home0, s.disk, s.groups, t.disk);
    ClearPhase(geo, s, t);
    DiskStep(geo, s, t);
  }

  lemma ClearPhase(geo: Geometry, s: State, t: State)
    requires DiskShape(geo, s.disk) && InstallingOk(geo, s, |s.lh|, s.phase.Installing? && s.phase.boot)
    requires s.phase.Installing? && s.outstanding == Sum(s.procs, Busy)
    requires DiskShape(geo, t.disk) && HeadCount(geo, t.disk) == 0
    requires t == s.(disk := t.disk, lh := [], phase := if s.phase.boot then Serving else Committed)
    ensures PhaseOk(geo, t)
  {
    assert s.lh[|s.lh|..] == [];
    NoneBusy(s.procs);
    assert Home(geo, t.disk) + map[] == Home(geo, t.disk);
  }

  /** With every slot at home the header may be cleared. */
  lemma ClearDisk(geo: Geometry, home0: Disk, d: Disk, groups: seq<seq<Event>>, d': Disk)
    requires Durable(geo, home0, d, groups) && d' == d[geo.start := HeadBlock(d[geo.start], [])]
    requires forall i :: 0 <= i < HeadCount(geo, d) ==> d[HeadList(geo, d)[i]] == d[geo.start + 1 + i]
    ensures Durable(geo, home0, d', groups) && HeadCount(geo, d') == 0 && d'.Keys == d.Keys
  {
    InstalledIsRecovered(geo, d);
    EmptyHeadRecovers(geo, d');
    assert Home(geo, d') == Home(geo, d);
  }

  lemma FinishKeeps(geo: Geometry, home0: Disk, s: State)
    requires Inv(geo, home0, s) && Enabled(geo, s, FinishCommit)
    ensures Inv(geo, home0, Do(geo, s, FinishCommit))
  {
    var t := Do(geo, s, FinishCommit);
    SumAgrees(s.procs, t.procs, Busy);
    SumAgrees(s.procs, t.procs, Spare);
    NoneBusy(t.procs);
    assert Home(geo, t.disk) + t.dirty == Home(geo, t.disk);
  }

  lemma BootKeeps(geo: Geometry, home0: Disk, s: State, step: Step)
    requires Inv(geo, home0, s) && Enabled(geo, s, step) && (step.Crash? || step.ReadHead?)
    ensures Inv(geo, home0, Do(geo, s, step))
  {
    NoneBusyAfterBoot(s);
    NoneBusy(Boot(s).procs);
  }

  /** Every step preserves the invariant, so it never meets an undefined block. */
  lemma StepKeeps(geo: Geometry, home0: Disk, s: State, step: Step)
    requires Inv(geo, home0, s) && Enabled(geo, s, step)
    ensures Defined(geo, s, step) && Inv(geo, home0, Do(geo, s, step))
  {
    EnabledIsDefined(geo, home0, s, step);
    match step
    case BeginOp(p) => BeginKeeps(geo, home0, s, p);
    case LogCheck(p, b, data) => CheckKeeps(geo, home0, s, p, b, data);
    case LogAppend(p) => AppendKeeps(geo, home0, s, p);
    case EndOp(p) => EndKeeps(geo, home0, s, p);
    case CopyBlock => CopyKeeps(geo, home0, s);
    case CommitHead => CommitKeeps(geo, home0, s);
    case InstallBlock => InstallKeeps(geo, home0, s);
    case ClearHead => ClearKeeps(geo, home0, s);
    case FinishCommit => FinishKeeps(geo, home0, s);
    case ReadHead => BootKeeps(geo, home0, s, step);
    case Crash => BootKeeps(geo, home0, s, step);
  }

  /** Every state of every run satisfies the invariant. */
  lemma {:induction false} RunInv(geo: Geometry, run: seq<State>, i: nat)
    requires IsRun(geo, run) && i < |run|
    ensures Inv(geo, RecoveredHome(geo, run[0].disk), run[i])
  {
    if i == 0 {
      InitInv(geo, run[0]);
    } else {
      RunInv(geo, run, i - 1);
      assert Next(geo, run[i - 1], run[i - 1 + 1]);
      var step :| Leads(geo, run[i - 1], step, run[i]);
      StepKeeps(geo, RecoveredHome(geo, run[0].disk), run[i - 1], step);
    }
  }

  /** An enabled step extends a run. */
  lemma ExtendRun(geo: Geometry, run: seq<State>, step: Step)
    requires IsRun(geo, run) && Enabled(geo, run[|run| - 1], step)
    ensures Defined(geo, run[|run| - 1], step)
    ensures IsRun(geo, run + [Do(geo, run[|run| - 1], step)])
  {
    var s := run[|run| - 1];
    RunInv(geo, run, |run| - 1);
    StepKeeps(geo, RecoveredHome(geo, run[0].disk), s, step);
    var longer := run + [Do(geo, s, step)];
    assert Leads(geo, s, step, Do(geo, s, step));
    forall i | 0 <= i < |longer| - 1 ensures Next(geo, longer[i], longer[i + 1]) {
      if i < |run| - 1 { assert Next(geo, run[i], run[i + 1]); }
    }
  }

  lemma DirtyOutsideLog(geo: Geometry, home0: Disk, s: State)
    requires Inv(geo, home0, s) && !Halted(s)
    ensures forall b :: b in s.dirty ==> b in s.lh && !geo.InLog(b)
  {
    forall b | b in s.dirty ensures b in s.lh && !geo.InLog(b) {
      if s.phase.Installing? {
        assert b in SetOf(s.lh[s.phase.tail..]);
      } else {
        assert b in SetOf(s.lh);
      }
    }
  }

  /** What write_head needs to know, from the run that led to it. */
  lemma HeadFacts(geo: Geometry, run: seq<State>)
    requires IsRun(geo, run) && !Halted(run[|run| - 1])
    ensures var s := run[|run| - 1];
            && geo.start in s.disk && |s.disk[geo.start]| == BLOCK_WORDS && geo.start !in s.dirty
            && 0 <= s.disk[geo.start][0] <= LOGSIZE && |s.lh| <= LOGSIZE
            && (s.phase.Booting? ==> s == Boot(s))
            && (s.phase.Committed? ==> s.lh == [] && s.dirty == map[] && s.pending == [])
  {
    RunInv(geo, run, |run| - 1);
    var s := run[|run| - 1];
    DirtyOutsideLog(geo, RecoveredHome(geo, run[0].disk), s);
  }

  /** What write_log and install_trans need to know about slot `tail` of the log. */
  lemma SlotFacts(geo: Geometry, run: seq<State>, tail: nat)
    requires IsRun(geo, run) && tail < |run[|run| - 1].lh|
    requires run[|run| - 1].phase.Copying? || run[|run| - 1].phase.Installing?
    ensures var s := run[|run| - 1];
            && geo.start + 1 + tail in s.disk && geo.start + 1 + tail !in s.dirty
            && s.lh[tail] in s.disk && |s.lh| <= LOGSIZE
  {
    RunInv(geo, run, |run| - 1);
    var s := run[|run| - 1];
    DirtyOutsideLog(geo, RecoveredHome(geo, run[0].disk), s);
    assert geo.InLog(geo.start + 1 + tail);
  }

  lemma ActiveFacts(geo: Geometry, run: seq<State>, p: nat)
    requires IsRun(geo, run) && Live(run[|run| - 1], p) && run[|run| - 1].procs[p].Active?
    ensures var s := run[|run| - 1];
            && s.phase.Serving? && !s.committing && s.outstanding >= 1 && |s.lh| <= geo.Slots()
  {
    RunInv(geo, run, |run| - 1);
    BusyMember(run[|run| - 1].procs, p);
  }

  // ----- What every run guarantees -----

  /**
   * Atomicity and durability. In every state of every run, a crash followed by an
   * uninterrupted recovery leaves the home blocks as they were at power-on with the committed
   * groups applied in order; each of those groups is a whole number of operations; and no
   * group is ever lost or rewritten by a later step, crash or interrupted recovery.
   */
  lemma CrashSafety(geo: Geometry, run: seq<State>, i: nat, j: nat)
    requires IsRun(geo, run) && i <= j < |run|
    ensures HeadOk(geo, run[0].disk) && HeadOk(geo, run[j].disk)
    ensures RecoveredHome(geo, run[j].disk) == ApplyGroups(RecoveredHome(geo, run[0].disk), run[j].groups)
    ensures forall g :: g in run[j].groups ==> WholeOperations(g)
    ensures run[i].groups <= run[j].groups
  {
    RunInv(geo, run, j);
    GroupsGrow(geo, run, i, j);
  }

  /** When the header is empty again, the home blocks are those that recovery owed before. */
  lemma RecoveredAs(geo: Geometry, run: seq<State>, i: nat, j: nat)
    requires IsRun(geo, run) && i <= j < |run| && run[i].groups == run[j].groups
    requires geo.start in run[j].disk && |run[j].disk[geo.start]| == BLOCK_WORDS
    requires HeadCount(geo, run[j].disk) == 0
    ensures HeadOk(geo, run[i].disk) && Home(geo, run[j].disk) == RecoveredHome(geo, run[i].disk)
  {
    CrashSafety(geo, run, i, i);
    CrashSafety(geo, run, i, j);
    EmptyHeadRecovers(geo, run[j].disk);
  }

  lemma StepGroups(geo: Geometry, s: State, step: Step, t: State)
    requires Leads(geo, s, step, t)
    ensures s.groups <= t.groups
  {
    match step
    case CommitHead => assert t.groups == s.groups + [s.pending];
    case EndOp(p) => assert t.groups == s.groups;
    case LogAppend(p) => assert t.groups == s.groups;
    case _ =>
  }

  lemma {:induction false} GroupsGrow(geo: Geometry, run: seq<State>, i: nat, j: nat)
    requires IsRun(geo, run) && i <= j < |run|
    ensures run[i].groups <= run[j].groups
  {
    if i < j {
      GroupsGrow(geo, run, i, j - 1);
      assert Next(geo, run[j - 1], run[j - 1 + 1]);
      var step :| Leads(geo, run[j - 1], step, run[j]);
      StepGroups(geo, run[j - 1], step, run[j]);
    }
  }

  /**
   * What readers see: while operations are being served, every home block read through the
   * cache is the committed state with the open group's writes on top, and when no operation
   * is open the disk itself holds exactly the committed state.
   */
  lemma ServedView(geo: Geometry, run: seq<State>, i: nat)
    requires IsRun(geo, run) && i < |run| && run[i].phase.Serving?
    ensures var committed := ApplyGroups(RecoveredHome(geo, run[0].disk), run[i].groups);
            && (forall b :: b in run[i].disk && !geo.InLog(b) ==>
                  b in ApplyEvents(committed, run[i].pending)
                  && Read(run[i], b) == ApplyEvents(committed, run[i].pending)[b])
            && (run[i].outstanding == 0 ==> Home(geo, run[i].disk) == committed)
  {
    RunInv(geo, run, i);
    var s := run[i];
    EmptyHeadRecovers(geo, s.disk);
    forall b | b in s.disk && !geo.InLog(b)
      ensures b in Home(geo, s.disk) + s.dirty && Read(s, b) == (Home(geo, s.disk) + s.dirty)[b]
    {
    }
  }

  /**
   * Admission control. In every state of every run no block is logged twice, there is a slot for
   * each, a commit runs alone, and whoever sleeps in begin_op would be refused if it tried again:
   * there is no lost wake-up. As long as no
   * operation appends more than its reservation, the blocks already logged plus what the open
   * operations may still append fit in the log.
   */
  lemma AdmissionSafety(geo: Geometry, run: seq<State>, i: nat)
    requires IsRun(geo, run) && i < |run|
    ensures var s := run[i];
            && |s.lh| <= geo.Slots() && Distinct(s.lh)
            && (s.frugal ==> |s.lh| + Sum(s.procs, Spare) <= LOGSIZE)
            && s.outstanding == Sum(s.procs, Busy)
            && (s.committing ==> s.outstanding == 0)
            && (!s.committing && s.outstanding == 0 ==> forall p :: 0 <= p < |s.procs| ==> !s.procs[p].Asleep?)
            && (forall p :: 0 <= p < |s.procs| && s.procs[p].Asleep? ==>
                  s.committing || |s.lh| + (s.outstanding + 1) * MAXOPBLOCKS > LOGSIZE)
  {
    RunInv(geo, run, i);
  }

  /** With a log of more than LOGSIZE blocks the list overruns it only if an operation exceeds its reservation. */
  lemma NoOverrun(geo: Geometry, run: seq<State>, i: nat)
    requires IsRun(geo, run) && i < |run| && geo.size > LOGSIZE && run[i].frugal
    ensures !run[i].phase.Overrun?
  {
    RunInv(geo, run, i);
  }

  /**
   * log_write's size test panics exactly when every slot is taken already, even if the block would
   * only be absorbed. With a log of more than LOGSIZE blocks every open operation has then spent
   * its whole budget, unless one has spent more.
   */
  lemma PanicExactly(geo: Geometry, run: seq<State>, i: nat, p: nat, b: int, data: Block)
    requires IsRun(geo, run) && i < |run| && Enabled(geo, run[i], LogCheck(p, b, data))
    ensures DoCheck(geo, run[i], p, b, data).phase.BigPanic? <==> |run[i].lh| == geo.Slots()
    ensures DoCheck(geo, run[i], p, b, data).phase.BigPanic? && run[i].frugal && geo.size > LOGSIZE ==>
              forall q :: 0 <= q < |run[i].procs| && run[i].procs[q].Active? ==> run[i].procs[q].spent == MAXOPBLOCKS
  {
    RunInv(geo, run, i);
    var s := run[i];
    BusyMember(s.procs, p);
    forall q | 0 <= q < |s.procs| && s.procs[q].Active? && |s.lh| == LOGSIZE && s.frugal
      ensures s.procs[q].spent == MAXOPBLOCKS
    {
      BusyMember(s.procs, q);
    }
  }

  /** end_op never finds a commit in progress and log_write is never outside a transaction. */
  lemma NoEndPanic(geo: Geometry, run: seq<State>, i: nat)
    requires IsRun(geo, run) && i < |run|
    ensures !run[i].phase.EndPanic? && !run[i].phase.TransPanic?
  {
    RunInv(geo, run, i);
  }
}
