/**
 * The code of src/log.c, updating its global `log` in place. Every disk write and every
 * lock-held region is also recorded in a ghost trace, and the methods prove that the trace
 * is a run of the machine: what holds of every run therefore holds of this code, and a
 * crash inside any of its loops is a crash at some state of the trace.
 */
module KernelLog {
  import opened Common
  import opened LogMachine
  import opened LogSafety

  class Log {
    const geo: Geometry
    const block: array<int>          // lh.block
    var n: nat                       // lh.n
    var outstanding: int
    var committing: bool
    var disk: Disk
    var dirty: map<int, Block>       // cached blocks with B_DIRTY set
    ghost var trace: seq<State>

    ghost predicate Valid()
      reads this, block
    {
      && block.Length == LOGSIZE && n <= LOGSIZE
      && IsRun(geo, trace)
      && Now() == Now().(disk := disk, lh := block[..n], outstanding := outstanding,
                         committing := committing, dirty := dirty)
    }

    ghost function Now(): State
      requires trace != []
      reads this
    {
      trace[|trace| - 1]
    }

    /** Power-on with a disk left by mkfs or by an earlier kernel, for any number of processes. */
    constructor (geo: Geometry, disk: Disk, nproc: nat)
      requires HeadOk(geo, disk)
      ensures Valid() && Now().phase.Booting? && |Now().procs| == nproc
      ensures this.geo == geo && this.disk == disk && fresh(block)
    {
      this.geo := geo;
      this.disk := disk;
      block := new int[LOGSIZE];
      n, outstanding, committing, dirty := 0, 0, false, map[];
      trace := [State(disk, [], 0, false, map[], seq(nproc, _ => Outside), Booting, [], [], true)];
    }

    /** The bookkeeping of one step whose effect on the real fields is the caller's. */
    ghost method Record(step: Step)
      requires IsRun(geo, trace) && Enabled(geo, Now(), step)
      modifies this`trace
      ensures old(Defined(geo, Now(), step))
      ensures trace == old(trace) + [old(Do(geo, Now(), step))] && IsRun(geo, trace)
    {
      ExtendRun(geo, trace, step);
      trace := trace + [Do(geo, Now(), step)];
    }

    method Bread(b: int) returns (data: Block)
      requires b in disk
      ensures data == if b in dirty then dirty[b] else disk[b]
    {
      data := if b in dirty then dirty[b] else disk[b];
    }

    /** Bwrite: one atomic block write, which also clears B_DIRTY. */
    method Bwrite(b: int, data: Block)
      modifies this`disk, this`dirty
      ensures disk == old(disk)[b := data] && dirty == old(dirty) - {b}
    {
      disk := disk[b := data];
      dirty := dirty - {b};
    }

    method InstallTrans()
      requires Valid() && Now().phase.Installing? && Now().phase.tail == 0
      modifies this`disk, this`dirty, this`trace
      ensures Valid() && old(trace) <= trace
      ensures Now() == old(Now()).(disk := disk, dirty := dirty, phase := Installing(n, old(Now()).phase.boot))
    {
      var tail := 0;
      ghost var boot := Now().phase.boot;
      while tail < n
        invariant tail <= n && Valid() && old(trace) <= trace
        invariant Now() == old(Now()).(disk := disk, dirty := dirty, phase := Installing(tail, boot))
      {
        SlotFacts(geo, trace, tail);
        var data := Bread(geo.start + tail + 1);
        Record(InstallBlock);
        Bwrite(block[tail], data);
        tail := tail + 1;
      }
    }

    /** The on-disk header for the in-memory one: count and entries replaced, the rest kept. */
    method WriteHead()
      requires block.Length == LOGSIZE && n <= LOGSIZE
      requires geo.start in disk && |disk[geo.start]| == BLOCK_WORDS && geo.start !in dirty
      modifies this`disk, this`dirty
      ensures disk == old(disk)[geo.start := HeadBlock(old(disk)[geo.start], block[..n])]
      ensures dirty == old(dirty)
    {
      var hb := Bread(geo.start);
      ghost var before := hb;
      hb := hb[0 := n];
      var i := 0;
      while i < n
        invariant i <= n && |hb| == BLOCK_WORDS && hb[0] == n
        invariant hb[1..1 + i] == block[..i] && hb[1 + i..] == before[1 + i..]
      {
        hb := hb[1 + i := block[i]];
        i := i + 1;
      }
      assert hb == hb[..1] + hb[1..1 + n] + hb[1 + n..];
      assert hb == HeadBlock(before, block[..n]);
      Bwrite(geo.start, hb);
      assert dirty == old(dirty);
    }

    /** log.lh.n = 0; write_head(); */
    method EraseHead()
      requires Valid() && Now().phase.Installing? && Now().phase.tail == n
      modifies this`disk, this`dirty, this`trace, this`n
      ensures Valid() && old(trace) <= trace && n == 0
      ensures geo.start in disk && |disk[geo.start]| == BLOCK_WORDS && HeadCount(geo, disk) == 0
      ensures Now() == old(Now()).(disk := disk, lh := [], phase := if old(Now()).phase.boot then Serving else LogMachine.Committed)
    {
      HeadFacts(geo, trace);
      Record(ClearHead);
      n := 0;
      WriteHead();
    }

    method ReadHead()
      requires Valid() && Now().phase.Booting?
      modifies this`n, block, this`trace
      ensures Valid() && old(trace) <= trace
      ensures Now().phase == Installing(0, true) && Now().groups == old(Now().groups)
      ensures |Now().procs| == |old(Now().procs)|
    {
      HeadFacts(geo, trace);
      var buf := Bread(geo.start);
      Record(LogMachine.ReadHead);
      n := buf[0];
      var i := 0;
      while i < n
        invariant i <= n <= LOGSIZE && block[..i] == buf[1..1 + i]
        modifies block
      {
        block[i] := buf[1 + i];
        i := i + 1;
      }
      assert block[..n] == HeadList(geo, disk);
    }

    /** Recovery, however it ends: the trace shows every disk it passes through. */
    method RecoverFromLog()
      requires Valid() && Now().phase.Booting?
      modifies this, block
      ensures Valid() && old(trace) <= trace && Now().phase.Serving?
      ensures Now().groups == old(Now().groups) && |Now().procs| == |old(Now().procs)|
      ensures HeadOk(geo, old(disk)) && Home(geo, disk) == RecoveredHome(geo, old(disk))
    {
      ghost var found := |trace| - 1;
      ReadHead();
      InstallTrans();
      EraseHead();
      RecoveredAs(geo, trace, found, |trace| - 1);
    }

    /** One turn of begin_op's loop: admitted, or asleep until the next wakeup. */
    method BeginOp(p: nat) returns (admitted: bool)
      requires Valid() && Enabled(geo, Now(), LogMachine.BeginOp(p))
      modifies this`outstanding, this`trace
      ensures Valid() && trace == old(trace) + [DoBegin(old(Now()), p)]
      ensures admitted <==> !committing && n + (old(outstanding) + 1) * MAXOPBLOCKS <= LOGSIZE
      ensures admitted <==> Now().procs[p] == Active(0, None)
      ensures !admitted <==> Now().procs[p] == Asleep
    {
      Record(LogMachine.BeginOp(p));
      if committing {
        admitted := false;
      } else if n + (outstanding + 1) * MAXOPBLOCKS > LOGSIZE {
        admitted := false;
      } else {
        outstanding := outstanding + 1;
        admitted := true;
      }
    }

    /** The absorption loop: the index of b among the logged blocks, or n. */
    method FindSlot(b: int) returns (i: nat)
      requires n <= block.Length
      ensures i == IndexOf(block[..n], b)
    {
      i := 0;
      while i < n && block[i] != b
        invariant i <= n && Scan(block[..n], b, i) == IndexOf(block[..n], b)
      {
        i := i + 1;
      }
    }

    /** The block is written into its slot, or into a new one at the end. */
    method Absorb(b: int)
      requires n < block.Length
      modifies this`n, block
      ensures n <= block.Length
      ensures block[..n] == if IndexOf(old(block[..n]), b) == old(n) then old(block[..n]) + [b] else old(block[..n])
    {
      var i := FindSlot(b);
      ghost var before := block[..n];
      block[i] := b;
      if i == n {
        n := n + 1;
        assert block[..n] == before + [b];
      } else {
        assert block[..n] == before;
      }
    }

    /** log_write: the tests, then absorption or append. Returns false where the source panics. */
    method LogWrite(p: nat, b: int, data: Block) returns (ok: bool)
      requires Valid() && Enabled(geo, Now(), LogCheck(p, b, data))
      modifies this, block
      ensures Valid() && old(trace) <= trace
      ensures ok <==> old(n) < geo.Slots()
      ensures ok ==> dirty == old(dirty)[b := data] && disk == old(disk)
      ensures ok ==> Now().pending == old(Now()).pending + [Write(p, b, data)]
      ensures ok ==> block[..n] == if b in old(block[..n]) then old(block[..n]) else old(block[..n]) + [b]
    {
      ActiveFacts(geo, trace, p);
      Record(LogCheck(p, b, data));
      if n >= LOGSIZE || n >= geo.size - 1 {
        return false;
      }
      assert outstanding >= 1;  // so the source's second panic cannot happen
      Record(LogAppend(p));
      Absorb(b);
      dirty := dirty[b := data];
      ok := true;
    }

    method WriteLog()
      requires Valid() && Now().phase == Copying(0)
      modifies this`disk, this`dirty, this`trace
      ensures Valid() && old(trace) <= trace
      ensures Now() == old(Now()).(disk := disk, phase := Copying(n))
      ensures dirty == old(dirty)
    {
      var tail := 0;
      while tail < n
        invariant tail <= n && Valid() && old(trace) <= trace && dirty == old(dirty)
        invariant Now() == old(Now()).(disk := disk, phase := Copying(tail))
      {
        SlotFacts(geo, trace, tail);
        var from := Bread(block[tail]);
        Record(CopyBlock);
        Bwrite(geo.start + tail + 1, from);
        assert dirty == old(dirty);
        tail := tail + 1;
      }
    }

    /** commit with something to write: the open group becomes the last committed one. */
    method Commit()
      requires Valid() && Now().phase == Copying(0)
      modifies this`disk, this`dirty, this`trace, this`n
      ensures Valid() && old(trace) <= trace && Now().phase.Committed?
      ensures Now().groups == old(Now()).groups + [old(Now()).pending]
      ensures Now().procs == old(Now()).procs && n == 0
    {
      WriteLog();
      HeadFacts(geo, trace);
      Record(CommitHead);
      WriteHead();
      InstallTrans();
      EraseHead();
    }

    /**
     * end_op. If this was the last open operation the whole group is durable on return;
     * otherwise nothing reaches the disk. Either way everyone asleep in begin_op is woken.
     */
    method EndOp(p: nat) returns (committed: bool)
      requires Valid() && Enabled(geo, Now(), LogMachine.EndOp(p))
      modifies this`disk, this`dirty, this`trace, this`n, this`outstanding, this`committing
      ensures Valid() && old(trace) <= trace && Now().phase.Serving?
      ensures committed <==> old(outstanding) == 1
      ensures !committed ==> disk == old(disk) && Now().pending == old(Now()).pending + [End(p)]
      ensures committed ==> Now().pending == [] && n == 0 && dirty == map[]
      ensures committed && old(n) > 0 ==>
                Now().groups == old(Now()).groups + [old(Now()).pending + [End(p)]]
      ensures !committed || old(n) == 0 ==> Now().groups == old(Now()).groups
      ensures forall q :: 0 <= q < |Now().procs| ==> !Now().procs[q].Asleep?
    {
      ActiveFacts(geo, trace, p);
      Record(LogMachine.EndOp(p));
      outstanding := outstanding - 1;
      committed := outstanding == 0;
      if committed {
        committing := true;
        CloseGroup();
      }
    }

    /** commit() and the end of end_op. */
    method CloseGroup()
      requires Valid() && Now().phase == (if n > 0 then Copying(0) else LogMachine.Committed)
      modifies this`disk, this`dirty, this`trace, this`n, this`committing
      ensures Valid() && old(trace) <= trace && Now().phase.Serving? && Now().pending == [] && n == 0 && dirty == map[]
      ensures Now().groups == if old(n) > 0 then old(Now()).groups + [old(Now()).pending] else old(Now()).groups
      ensures forall q :: 0 <= q < |Now().procs| ==> !Now().procs[q].Asleep?
    {
      if n > 0 { Commit(); }
      HeadFacts(geo, trace);
      Record(FinishCommit);
      committing := false;
    }
  }
}
