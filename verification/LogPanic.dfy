/**
 * Runs of src/log.c that end badly: a panic although no operation logs more than was reserved for
 * it, a panic between two writes of the size filewrite allows itself, and a list that overruns the
 * log when that has no more than LOGSIZE blocks.
 */
module LogPanic {
  import opened Common
  import opened LogMachine
  import opened LogSafety
  import FileWrite

  ghost function Last(run: seq<State>): State
    requires run != []
  {
    run[|run| - 1]
  }

  /** The first a writes are process 0's, the next b process 1's and the rest process 2's. */
  function Writer(a: nat, b: nat, k: nat): nat { if k < a then 0 else if k < a + b then 1 else 2 }

  /** How many of the first n writes are process p's. */
  function Share(a: nat, b: nat, n: nat, p: nat): nat {
    if p == 0 then if n < a then n else a
    else if p == 1 then if n < a then 0 else if n < a + b then n - a else b
    else if n < a + b then 0 else n - a - b
  }

  ghost predicate HomeSet(geo: Geometry, d: Disk, bs: seq<int>) {
    Distinct(bs) && forall k :: 0 <= k < |bs| ==> bs[k] in d && !geo.InLog(bs[k])
  }

  /** The kernel serves, three operations are open, and n of the blocks bs have been logged. */
  ghost predicate Filling(geo: Geometry, run: seq<State>, bs: seq<int>, a: nat, b: nat, n: nat) {
    && IsRun(geo, run) && n <= |bs| && n <= geo.Slots()
    && var s := Last(run);
       && s.phase.Serving? && !s.committing && s.outstanding == 3 && |s.procs| == 3 && s.lh == bs[..n] && HomeSet(geo, s.disk, bs)
       && (forall p :: 0 <= p < 3 ==> s.procs[p] == Active(Share(a, b, n, p), None))
       && ((forall p :: 0 <= p < 3 ==> Share(a, b, n, p) <= MAXOPBLOCKS) ==> s.frugal)
  }

  lemma {:induction false} NotThere(bs: seq<int>, b: int, from: nat)
    requires b !in bs && from <= |bs|
    ensures Scan(bs, b, from) == |bs|
    decreases |bs| - from
  {
    if from < |bs| { NotThere(bs, b, from + 1); }
  }

  lemma NewBlock(bs: seq<int>, n: nat)
    requires Distinct(bs) && n < |bs|
    ensures IndexOf(bs[..n], bs[n]) == n && bs[..n] + [bs[n]] == bs[..n + 1]
  {
    forall k | 0 <= k < n ensures bs[..n][k] != bs[n] { assert bs[k] != bs[n]; }
    NotThere(bs[..n], bs[n], 0);
  }

  /** log_write passes its test. */
  lemma Check(geo: Geometry, run: seq<State>, p: nat, b: int, data: Block) returns (run': seq<State>)
    requires IsRun(geo, run) && Enabled(geo, Last(run), LogCheck(p, b, data)) && Last(run).outstanding > 0
    requires |Last(run).lh| < geo.Slots()
    ensures IsRun(geo, run') && run'[0] == run[0]
    ensures var s := Last(run); Last(run') == s.(procs := s.procs[p := s.procs[p].(write := Some((b, data)))])
  {
    ExtendRun(geo, run, LogCheck(p, b, data));
    run' := run + [Do(geo, Last(run), LogCheck(p, b, data))];
  }

  /** One more block is logged, by the process whose turn it is. */
  lemma WriteOne(geo: Geometry, run: seq<State>, bs: seq<int>, a: nat, b: nat, n: nat, data: Block) returns (run': seq<State>)
    requires Filling(geo, run, bs, a, b, n) && n < |bs| && n < geo.Slots() && |data| == BLOCK_WORDS
    ensures Filling(geo, run', bs, a, b, n + 1) && run'[0] == run[0]
  {
    var p, s := Writer(a, b, n), Last(run);
    assert s.procs[p] == Active(Share(a, b, n, p), None) && Share(a, b, n + 1, p) == Share(a, b, n, p) + 1;
    var run1 := Check(geo, run, p, bs[n], data);
    ExtendRun(geo, run1, LogAppend(p));
    NewBlock(bs, n);
    var t := Do(geo, Last(run1), LogAppend(p));
    run' := run1 + [t];
    forall q | 0 <= q < 3 ensures t.procs[q] == Active(Share(a, b, n + 1, q), None) && Share(a, b, n, q) <= Share(a, b, n + 1, q) {
      assert s.procs[q] == Active(Share(a, b, n, q), None);
    }
  }

  lemma {:induction false} WriteMany(geo: Geometry, run: seq<State>, bs: seq<int>, a: nat, b: nat, n: nat, m: nat, data: Block)
    returns (run': seq<State>)
    requires Filling(geo, run, bs, a, b, n) && n <= m <= |bs| && m <= geo.Slots() && |data| == BLOCK_WORDS
    ensures Filling(geo, run', bs, a, b, m) && run'[0] == run[0]
    decreases m - n
  {
    if n == m {
      run' := run;
    } else {
      var longer := WriteOne(geo, run, bs, a, b, n, data);
      run' := WriteMany(geo, longer, bs, a, b, n + 1, m, data);
    }
  }

  /** Power-on over an empty log, recovery, and three operations admitted. */
  lemma Admit(geo: Geometry, disk: Disk, bs: seq<int>, a: nat, b: nat) returns (run: seq<State>)
    requires HeadOk(geo, disk) && HeadCount(geo, disk) == 0 && HomeSet(geo, disk, bs)
    ensures Filling(geo, run, bs, a, b, 0) && run[0].disk == disk
  {
    var s0 := State(disk, [], 0, false, map[], seq(3, _ => Outside), Booting, [], [], true);
    assert s0 == Boot(s0);
    var r0 := [s0];
    ExtendRun(geo, r0, ReadHead);
    var s1 := Do(geo, s0, ReadHead);
    assert s1.lh == [];
    ExtendRun(geo, r0 + [s1], ClearHead);
    var s2 := Do(geo, s1, ClearHead);
    var r2 := r0 + [s1] + [s2];
    ExtendRun(geo, r2, BeginOp(0));
    var s3 := Do(geo, s2, BeginOp(0));
    ExtendRun(geo, r2 + [s3], BeginOp(1));
    var s4 := Do(geo, s3, BeginOp(1));
    ExtendRun(geo, r2 + [s3] + [s4], BeginOp(2));
    var s5 := Do(geo, s4, BeginOp(2));
    run := r2 + [s3] + [s4] + [s5];
    assert bs[..0] == [];
  }

  /** Power-on to m logged blocks, split between the three operations. */
  lemma Reach(geo: Geometry, disk: Disk, bs: seq<int>, a: nat, b: nat, m: nat, data: Block) returns (run: seq<State>)
    requires HeadOk(geo, disk) && HeadCount(geo, disk) == 0 && HomeSet(geo, disk, bs)
    requires m <= |bs| && m <= geo.Slots() && |data| == BLOCK_WORDS
    ensures Filling(geo, run, bs, a, b, m) && run[0].disk == disk
  {
    var start := Admit(geo, disk, bs, a, b);
    run := WriteMany(geo, start, bs, a, b, 0, m, data);
  }

  /** With every slot taken, any log_write panics. */
  lemma OneMore(geo: Geometry, full: seq<State>, bs: seq<int>, a: nat, b: nat, p: nat, c: int, data: Block) returns (run: seq<State>)
    requires Filling(geo, full, bs, a, b, geo.Slots()) && |data| == BLOCK_WORDS && p < 3
    requires c in Last(full).disk && !geo.InLog(c)
    ensures IsRun(geo, run) && |run| > 1 && run[0] == full[0] && run[|run| - 2] == Last(full)
    ensures Last(run).phase.BigPanic? && Leads(geo, Last(full), LogCheck(p, c, data), Last(run))
  {
    var s := Last(full);
    assert s.procs[p] == Active(Share(a, b, geo.Slots(), p), None);
    ExtendRun(geo, full, LogCheck(p, c, data));
    run := full + [Do(geo, s, LogCheck(p, c, data))];
  }

  /**
   * In a run in which no operation logs more than MAXOPBLOCKS blocks, a process writes a block again
   * that is logged already, which would take no more room, and log_write panics.
   */
  lemma AbsorbedWritePanics(geo: Geometry, disk: Disk, bs: seq<int>, data: Block) returns (run: seq<State>)
    requires HeadOk(geo, disk) && HeadCount(geo, disk) == 0 && geo.size > LOGSIZE && |data| == BLOCK_WORDS
    requires |bs| == LOGSIZE && HomeSet(geo, disk, bs)
    ensures IsRun(geo, run) && |run| > 1 && run[0].disk == disk && Last(run).phase.BigPanic?
    ensures var s := run[|run| - 2]; s.frugal && bs[0] in s.lh && Leads(geo, s, LogCheck(0, bs[0], data), Last(run))
  {
    var full := Reach(geo, disk, bs, MAXOPBLOCKS, MAXOPBLOCKS, LOGSIZE, data);
    assert bs[..LOGSIZE][0] == bs[0] && bs[0] in Last(full).disk;
    run := OneMore(geo, full, bs, MAXOPBLOCKS, MAXOPBLOCKS, 0, bs[0], data);
  }

  /**
   * Two operations that log no more than filewrite lets its transactions log, which is more than
   * begin_op reserves for them: one has logged 17 blocks, the other panics at its 14th.
   */
  lemma LargeWritesPanic(geo: Geometry, disk: Disk, bs: seq<int>, data: Block) returns (run: seq<State>)
    requires HeadOk(geo, disk) && HeadCount(geo, disk) == 0 && geo.size > LOGSIZE && |data| == BLOCK_WORDS
    requires |bs| == LOGSIZE + 1 && HomeSet(geo, disk, bs)
    ensures IsRun(geo, run) && |run| > 1 && run[0].disk == disk && Last(run).phase.BigPanic?
    ensures var s := run[|run| - 2];
      && s.procs == [Active(FileWrite.CHUNK_BLOCKS, None), Active(13, None), Active(0, None)]
      && bs[LOGSIZE] !in s.lh && Leads(geo, s, LogCheck(1, bs[LOGSIZE], data), Last(run))
  {
    var full := Reach(geo, disk, bs, FileWrite.CHUNK_BLOCKS, 13, LOGSIZE, data);
    NewBlock(bs, LOGSIZE);
    var s := Last(full);
    assert s.procs[0] == Active(17, None) && s.procs[1] == Active(13, None) && s.procs[2] == Active(0, None);
    assert bs[LOGSIZE] in s.disk;
    run := OneMore(geo, full, bs, FileWrite.CHUNK_BLOCKS, 13, 1, bs[LOGSIZE], data);
  }

  /**
   * With a log of at most LOGSIZE blocks, such as mkfs makes, two operations that keep to their
   * reservations both pass log_write's test for the last slot.
   */
  lemma SmallLogOverruns(geo: Geometry, disk: Disk, bs: seq<int>, data: Block) returns (run: seq<State>)
    requires HeadOk(geo, disk) && HeadCount(geo, disk) == 0 && 2 <= geo.size <= LOGSIZE && |data| == BLOCK_WORDS
    requires |bs| == geo.size && HomeSet(geo, disk, bs)
    ensures IsRun(geo, run) && run[0].disk == disk && Last(run).phase.Overrun? && Last(run).frugal
  {
    var n := geo.size - 2;
    var r0 := Reach(geo, disk, bs, MAXOPBLOCKS, 9, n, data);
    var s0 := Last(r0);
    assert s0.procs[1] == Active(Share(MAXOPBLOCKS, 9, n, 1), None) && s0.procs[2] == Active(Share(MAXOPBLOCKS, 9, n, 2), None);
    assert bs[n] in s0.disk && bs[n + 1] in s0.disk;
    var r1 := Check(geo, r0, 1, bs[n], data);
    var r2 := Check(geo, r1, 2, bs[n + 1], data);
    ExtendRun(geo, r2, LogAppend(1));
    var s3 := Do(geo, Last(r2), LogAppend(1));
    NewBlock(bs, n);
    assert s3.lh == bs[..n + 1];
    ExtendRun(geo, r2 + [s3], LogAppend(2));
    NewBlock(bs, n + 1);
    run := r2 + [s3] + [Do(geo, s3, LogAppend(2))];
  }
}
