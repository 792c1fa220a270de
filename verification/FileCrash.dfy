/**
 * A crash in the middle of filewrite (src/file.c over src/fs.c over src/log.c). The transactions of
 * one write pass through the log while nobody else writes; whatever happens, recovery leaves a disk
 * on which the file has a whole number of chunks.
 */
module FileCrash {
  import opened Common
  import opened LogMachine
  import opened LogSafety
  import opened FileWrite
  import Fs
  import FsBytes
  import FsImage

  type Super = FsImage.Super

  // ----- The file system as blocks of words -----

  /** A block as the words the log copies. */
  function Words(b: FsImage.Block): Block {
    if |b| == FsImage.BSIZE then seq(BLOCK_WORDS, j requires 0 <= j < BLOCK_WORDS => FsImage.Word(b, j)) else []
  }

  /** A 16-bit field. */
  function Short(x: int): int { x % 0x1_0000 }

  /** struct dinode, 16 words. */
  function DinodeWords(d: FsImage.Inode): seq<int> {
    [Short(d.kind) + 0x1_0000 * Short(d.major), Short(d.minor) + 0x1_0000 * Short(d.nlink), d.size] + d.addrs
  }

  function InodeBlock(sb: Super, inum: nat): nat { inum / Fs.IPB + sb.inodestart }

  predicate IsInodeBlock(sb: Super, b: int) { sb.inodestart <= b && (b - sb.inodestart) * Fs.IPB < sb.ninodes }

  /** The dinodes with numbers i to end - 1, one after the other. */
  function Dinodes(inos: seq<FsImage.Inode>, i: nat, end: nat): Block
    decreases |inos| - i
  {
    if i >= end || i >= |inos| then [] else DinodeWords(inos[i]) + Dinodes(inos, i + 1, end)
  }

  function HomeBlock(sb: Super, st: Stage, b: nat): Block
    requires b in st.disk
  {
    if IsInodeBlock(sb, b) then Dinodes(st.inos, (b - sb.inodestart) * Fs.IPB, (b - sb.inodestart + 1) * Fs.IPB) else Words(st.disk[b])
  }

  /** What the home blocks of the log's disk hold at a stage. */
  ghost function HomeOf(geo: Geometry, sb: Super, st: Stage): Disk {
    map b: nat | b in st.disk && !geo.InLog(b) :: HomeBlock(sb, st, b)
  }

  lemma {:induction false} DinodesSame(inos: seq<FsImage.Inode>, inos': seq<FsImage.Inode>, i: nat, end: nat, inum: nat)
    requires inum < |inos| == |inos'| && inos' == inos[inum := inos'[inum]] && !(i <= inum < end)
    ensures Dinodes(inos', i, end) == Dinodes(inos, i, end)
    decreases |inos| - i
  {
    if i < end && i < |inos| { DinodesSame(inos, inos', i + 1, end, inum); }
  }

  /** A transaction changes no home block that it has not logged. */
  lemma UnloggedSame(geo: Geometry, sb: Super, a: Stage, b: Stage, log: set<nat>, inum: nat, c: nat)
    requires Transacts(a, b, log, inum, InodeBlock(sb, inum)) && c !in log
    ensures c in a.disk <==> c in b.disk
    ensures c in a.disk ==> HomeBlock(sb, b, c) == HomeBlock(sb, a, c)
  {
    FsBytes.OpenConfined(a.disk, {}, b.disk, log);
    assert b.disk.Keys == a.disk.Keys;
    if c in a.disk && IsInodeBlock(sb, c) && b.inos != a.inos {
      DinodesSame(a.inos, b.inos, (c - sb.inodestart) * Fs.IPB, (c - sb.inodestart + 1) * Fs.IPB, inum);
    }
  }

  // ----- The blocks determine the file system -----

  lemma Digits(a: int, b: int, c: int, d: int, a': int, b': int, c': int, d': int)
    requires 0 <= a < 256 && 0 <= b < 256 && 0 <= c < 256 && 0 <= a' < 256 && 0 <= b' < 256 && 0 <= c' < 256
    requires a + 256 * (b + 256 * (c + 256 * d)) == a' + 256 * (b' + 256 * (c' + 256 * d'))
    ensures a == a' && b == b' && c == c' && d == d'
  {
  }

  lemma WordsDetermine(x: FsImage.Block, y: FsImage.Block)
    requires FsImage.IsBlock(x) && FsImage.IsBlock(y) && Words(x) == Words(y)
    ensures x == y
  {
    forall k | 0 <= k < FsImage.BSIZE ensures x[k] == y[k] {
      var j := k / 4;
      assert Words(x)[j] == FsImage.Word(x, j) && Words(y)[j] == FsImage.Word(y, j);
      Digits(x[4 * j], x[4 * j + 1], x[4 * j + 2], x[4 * j + 3], y[4 * j], y[4 * j + 1], y[4 * j + 2], y[4 * j + 3]);
      assert k == 4 * j || k == 4 * j + 1 || k == 4 * j + 2 || k == 4 * j + 3;
    }
  }

  predicate IsShort(x: int) { -0x8000 <= x < 0x8000 }

  /** A dinode whose fields fit their types. */
  predicate IsDinode(d: FsImage.Inode) {
    IsShort(d.kind) && IsShort(d.major) && IsShort(d.minor) && IsShort(d.nlink) && |d.addrs| == FsImage.NDIRECT + 1
  }

  lemma Shorts(a: int, b: int, a': int, b': int)
    requires IsShort(a) && IsShort(b) && IsShort(a') && IsShort(b')
    requires Short(a) + 0x1_0000 * Short(b) == Short(a') + 0x1_0000 * Short(b')
    ensures a == a' && b == b'
  {
  }

  lemma DinodeDetermines(x: FsImage.Inode, y: FsImage.Inode)
    requires IsDinode(x) && IsDinode(y) && DinodeWords(x) == DinodeWords(y)
    ensures x == y
  {
    var u, v := DinodeWords(x), DinodeWords(y);
    assert u[0] == v[0] && u[1] == v[1] && u[2] == v[2];
    Shorts(x.kind, x.major, y.kind, y.major);
    Shorts(x.minor, x.nlink, y.minor, y.nlink);
    assert x.addrs == u[3..] && y.addrs == v[3..];
  }

  lemma {:induction false} DinodeAt(inos: seq<FsImage.Inode>, i: nat, end: nat, k: nat)
    requires i + k < end && i + k < |inos| && forall j :: 0 <= j < |inos| ==> IsDinode(inos[j])
    ensures var b := Dinodes(inos, i, end); |b| >= 16 * (k + 1) && b[16 * k..16 * (k + 1)] == DinodeWords(inos[i + k])
    decreases k
  {
    var first, rest := DinodeWords(inos[i]), Dinodes(inos, i + 1, end);
    assert |first| == 16;
    if k > 0 {
      DinodeAt(inos, i + 1, end, k - 1);
      assert (first + rest)[16 * k..16 * (k + 1)] == rest[16 * (k - 1)..16 * k];
    } else {
      assert (first + rest)[..16] == first;
    }
  }

  /** The log, then the inode blocks, then the bitmap and the data, as mkfs lays them out. */
  ghost predicate LaidOut(geo: Geometry, sb: Super) {
    geo.start + geo.size <= sb.inodestart && sb.inodestart * Fs.IPB + sb.ninodes <= sb.bmapstart * Fs.IPB
  }

  ghost predicate Wellformed(sb: Super, st: Stage) {
    FsImage.Shape(sb, st.disk, st.inos) && forall j :: 0 <= j < |st.inos| ==> IsDinode(st.inos[j])
  }

  lemma DataDetermined(geo: Geometry, sb: Super, a: Stage, b: Stage, c: nat)
    requires LaidOut(geo, sb) && Wellformed(sb, a) && Wellformed(sb, b) && HomeOf(geo, sb, a) == HomeOf(geo, sb, b)
    requires sb.bmapstart <= c < sb.size
    ensures a.disk[c] == b.disk[c]
  {
    assert !IsInodeBlock(sb, c) && !geo.InLog(c);
    assert HomeOf(geo, sb, a)[c] == Words(a.disk[c]) && HomeOf(geo, sb, b)[c] == Words(b.disk[c]);
    WordsDetermine(a.disk[c], b.disk[c]);
  }

  /** Where dinode i is in its block. */
  lemma InodeIn(sb: Super, st: Stage, i: nat)
    requires Wellformed(sb, st) && i < sb.ninodes && InodeBlock(sb, i) in st.disk
    ensures IsInodeBlock(sb, InodeBlock(sb, i))
    ensures var b, k := HomeBlock(sb, st, InodeBlock(sb, i)), i % Fs.IPB;
      |b| >= 16 * (k + 1) && b[16 * k..16 * (k + 1)] == DinodeWords(st.inos[i])
  {
    var q, k := i / Fs.IPB, i % Fs.IPB;
    assert i == q * Fs.IPB + k && InodeBlock(sb, i) - sb.inodestart == q;
    DinodeAt(st.inos, q * Fs.IPB, (q + 1) * Fs.IPB, k);
  }

  lemma InodeDetermined(geo: Geometry, sb: Super, a: Stage, b: Stage, i: nat)
    requires LaidOut(geo, sb) && Wellformed(sb, a) && Wellformed(sb, b) && HomeOf(geo, sb, a) == HomeOf(geo, sb, b)
    requires i < sb.ninodes
    ensures a.inos[i] == b.inos[i]
  {
    var c := InodeBlock(sb, i);
    assert sb.inodestart <= c < sb.bmapstart <= sb.size && !geo.InLog(c);
    assert HomeOf(geo, sb, a)[c] == HomeBlock(sb, a, c) && HomeOf(geo, sb, b)[c] == HomeBlock(sb, b, c);
    InodeIn(sb, a, i);
    InodeIn(sb, b, i);
    DinodeDetermines(a.inos[i], b.inos[i]);
  }

  /** Two stages with the same home blocks have the same inodes, bitmap and data. */
  lemma HomeDetermines(geo: Geometry, sb: Super, a: Stage, b: Stage)
    requires LaidOut(geo, sb) && Wellformed(sb, a) && Wellformed(sb, b) && HomeOf(geo, sb, a) == HomeOf(geo, sb, b)
    ensures a.inos == b.inos && forall c: nat :: sb.bmapstart <= c < sb.size ==> a.disk[c] == b.disk[c]
  {
    forall c: nat | sb.bmapstart <= c < sb.size ensures a.disk[c] == b.disk[c] { DataDetermined(geo, sb, a, b, c); }
    forall i | 0 <= i < sb.ninodes ensures a.inos[i] == b.inos[i] { InodeDetermined(geo, sb, a, b, i); }
  }

  // ----- Events -----

  /** The last content written to block b, or d. */
  ghost function LastWrite(evs: seq<Event>, b: int): Option<Block> {
    if evs == [] then None else
      var e := evs[|evs| - 1];
      if e.Write? && e.block == b then Some(e.data) else LastWrite(evs[..|evs| - 1], b)
  }

  lemma {:induction false} ApplyAt(h: Disk, evs: seq<Event>, b: int)
    ensures b in ApplyEvents(h, evs) <==> b in h || LastWrite(evs, b).Some?
    ensures b in ApplyEvents(h, evs) ==>
              ApplyEvents(h, evs)[b] == if LastWrite(evs, b).Some? then LastWrite(evs, b).value else h[b]
    decreases |evs|
  {
    if evs != [] { ApplyAt(h, evs[..|evs| - 1], b); }
  }

  lemma {:induction false} ApplyConcat(h: Disk, xs: seq<Event>, ys: seq<Event>)
    ensures ApplyEvents(h, xs + ys) == ApplyEvents(ApplyEvents(h, xs), ys)
    decreases |ys|
  {
    if ys == [] {
      assert xs + ys == xs;
    } else {
      var y := ys[..|ys| - 1];
      assert (xs + ys)[..|xs + ys| - 1] == xs + y;
      ApplyConcat(h, xs, y);
    }
  }

  lemma {:induction false} OpenConcat(xs: seq<Event>, ys: seq<Event>)
    requires WholeOperations(xs)
    ensures Open(xs + ys) == Open(ys)
    decreases |ys|
  {
    if ys == [] {
      assert xs + ys == xs;
    } else {
      var y := ys[..|ys| - 1];
      assert (xs + ys)[..|xs + ys| - 1] == xs + y;
      OpenConcat(xs, y);
    }
  }

  ghost function Flatten(gs: seq<seq<Event>>): seq<Event> {
    if gs == [] then [] else gs[0] + Flatten(gs[1..])
  }

  lemma {:induction false} FlattenSnoc(gs: seq<seq<Event>>, g: seq<Event>)
    ensures Flatten(gs + [g]) == Flatten(gs) + g
  {
    if gs == [] {
      assert [g][1..] == [];
    } else {
      assert (gs + [g])[1..] == gs[1..] + [g];
      FlattenSnoc(gs[1..], g);
    }
  }

  lemma {:induction false} ApplyFlat(h: Disk, before: seq<seq<Event>>, gs: seq<seq<Event>>)
    ensures ApplyGroups(h, before + gs) == ApplyEvents(ApplyGroups(h, before), Flatten(gs))
    decreases |gs|
  {
    if gs == [] {
      assert before + gs == before;
    } else {
      var front, g := gs[..|gs| - 1], gs[|gs| - 1];
      assert (before + gs)[..|before + gs| - 1] == before + front && gs == front + [g];
      ApplyFlat(h, before, front);
      FlattenSnoc(front, g);
      ApplyConcat(ApplyGroups(h, before), Flatten(front), g);
    }
  }

  lemma {:induction false} FlatWhole(gs: seq<seq<Event>>)
    requires forall g :: g in gs ==> WholeOperations(g)
    ensures WholeOperations(Flatten(gs))
  {
    if gs != [] {
      assert gs[0] in gs;
      FlatWhole(gs[1..]);
      OpenConcat(gs[0], Flatten(gs[1..]));
    }
  }

  // ----- The operations of one writer -----

  ghost predicate WritesOf(p: nat, ws: seq<Event>) {
    forall k :: 0 <= k < |ws| ==> ws[k].Write? && ws[k].pid == p
  }

  /** One operation of p: begin_op, any number of log_writes, end_op. */
  ghost predicate Operation(p: nat, op: seq<Event>) {
    && |op| >= 2 && op[0] == Begin(p) && op[|op| - 1] == End(p) && WritesOf(p, op[1..|op| - 1])
  }

  lemma {:induction false} InsideOpen(p: nat, op: seq<Event>, n: nat)
    requires Operation(p, op) && n <= |op|
    ensures Open(op[..n]) == Some(if n == 0 || n == |op| then {} else {p})
  {
    if n > 0 {
      InsideOpen(p, op, n - 1);
      assert op[..n][..n - 1] == op[..n - 1] && op[..n][n - 1] == op[n - 1];
      if 1 < n < |op| { assert op[n - 1] == op[1..|op| - 1][n - 2]; }
      assert {} + {p} == {p} && {p} - {p} == {};
    }
  }

  lemma InsideNotWhole(p: nat, op: seq<Event>, x: seq<Event>)
    requires Operation(p, op) && x <= op && 0 < |x| < |op|
    ensures !WholeOperations(x)
  {
    InsideOpen(p, op, |x|);
    assert x == op[..|x|] && p in {p};
  }

  lemma NotInside(p: nat, op: seq<Event>, x: seq<Event>, rest: seq<Event>)
    requires Operation(p, op) && x != [] && x <= op + rest && WholeOperations(x)
    ensures |x| >= |op|
  {
    if |x| < |op| { InsideNotWhole(p, op, x); }
  }

  /** Whatever prefix of these operations is a whole number of operations is some of the first of them. */
  lemma {:induction false} WholePrefix(p: nat, ops: seq<seq<Event>>, x: seq<Event>) returns (m: nat)
    requires (forall k :: 0 <= k < |ops| ==> Operation(p, ops[k])) && x <= Flatten(ops) && WholeOperations(x)
    ensures m <= |ops| && x == Flatten(ops[..m])
    decreases |ops|
  {
    if x == [] {
      m := 0;
    } else {
      var op, rest := ops[0], Flatten(ops[1..]);
      assert Flatten(ops) == op + rest;
      InsideOpen(p, op, |op|);
      assert op[..|op|] == op;
      NotInside(p, op, x, rest);
      var y := x[|op|..];
      assert x == op + y && y <= rest;
      OpenConcat(op, y);
      var k := WholePrefix(p, ops[1..], y);
      m := k + 1;
      assert ops[..m][1..] == ops[1..][..k] && ops[..m][0] == op;
    }
  }

  /** The operation logs exactly the blocks in `log`, each last with the content it has at stage b. */
  ghost predicate Records(geo: Geometry, sb: Super, p: nat, op: seq<Event>, b: Stage, log: set<nat>) {
    && Operation(p, op)
    && (forall c: nat :: c in log ==> c in b.disk && !geo.InLog(c) && LastWrite(op, c) == Some(HomeBlock(sb, b, c)))
    && (forall c :: LastWrite(op, c).Some? ==> c in log)
  }

  lemma OperationApplies(geo: Geometry, sb: Super, p: nat, op: seq<Event>, a: Stage, b: Stage, log: set<nat>, inum: nat)
    requires Transacts(a, b, log, inum, InodeBlock(sb, inum)) && Records(geo, sb, p, op, b, log)
    ensures ApplyEvents(HomeOf(geo, sb, a), op) == HomeOf(geo, sb, b)
  {
    var h, h' := ApplyEvents(HomeOf(geo, sb, a), op), HomeOf(geo, sb, b);
    FsBytes.OpenConfined(a.disk, {}, b.disk, log);
    assert b.disk.Keys == a.disk.Keys;
    forall c: int ensures (c in h <==> c in h') && (c in h ==> h[c] == h'[c]) {
      ApplyAt(HomeOf(geo, sb, a), op, c);
      if c >= 0 && c !in log { UnloggedSame(geo, sb, a, b, log, inum, c); }
    }
  }

  /** What the transactions of one write, journalled as filewrite does, put into the log. Folded. */
  ghost predicate Recorded(geo: Geometry, sb: Super, p: nat, ops: seq<seq<Event>>, stages: seq<Stage>, logs: seq<set<nat>>) {
    && |ops| == |logs| && |stages| == |logs| + 1
    && (forall k :: 0 <= k < |ops| ==> Operation(p, ops[k]))
    && forall z: int {:trigger Seal((ops, stages), z)} :: Seal((ops, stages), z) ==>
      forall k :: 0 <= k < |ops| ==> Records(geo, sb, p, ops[k], stages[k + 1], logs[k])
  }

  lemma OneApplies(geo: Geometry, sb: Super, p: nat, ops: seq<seq<Event>>, stages: seq<Stage>, logs: seq<set<nat>>,
                   inum: nat, off: nat, src: seq<FsImage.Byte>, k: nat)
    requires Journal(sb, stages, logs, inum, InodeBlock(sb, inum), off, src)
    requires Recorded(geo, sb, p, ops, stages, logs) && k < |ops|
    ensures ApplyEvents(HomeOf(geo, sb, stages[k]), ops[k]) == HomeOf(geo, sb, stages[k + 1])
  {
    assert Seal((ops, stages), 0);
    OpenJournal(sb, stages, logs, inum, InodeBlock(sb, inum), off, src, k);
    OperationApplies(geo, sb, p, ops[k], stages[k], stages[k + 1], logs[k], inum);
  }

  lemma {:induction false} StepsApply(homes: seq<Disk>, ops: seq<seq<Event>>, m: nat)
    requires |homes| == |ops| + 1 && m <= |ops| && forall k :: 0 <= k < |ops| ==> ApplyEvents(homes[k], ops[k]) == homes[k + 1]
    ensures ApplyEvents(homes[0], Flatten(ops[..m])) == homes[m]
    decreases m
  {
    if m > 0 {
      StepsApply(homes, ops, m - 1);
      assert ops[..m] == ops[..m - 1] + [ops[m - 1]];
      FlattenSnoc(ops[..m - 1], ops[m - 1]);
      ApplyConcat(homes[0], Flatten(ops[..m - 1]), ops[m - 1]);
    }
  }

  lemma OperationsApply(geo: Geometry, sb: Super, p: nat, ops: seq<seq<Event>>, stages: seq<Stage>, logs: seq<set<nat>>,
                        inum: nat, off: nat, src: seq<FsImage.Byte>, m: nat)
    requires Journal(sb, stages, logs, inum, InodeBlock(sb, inum), off, src)
    requires Recorded(geo, sb, p, ops, stages, logs) && m <= |ops|
    ensures ApplyEvents(HomeOf(geo, sb, stages[0]), Flatten(ops[..m])) == HomeOf(geo, sb, stages[m])
  {
    var homes := seq(|stages|, k requires 0 <= k < |stages| => HomeOf(geo, sb, stages[k]));
    forall k | 0 <= k < |ops| ensures ApplyEvents(homes[k], ops[k]) == homes[k + 1] {
      OneApplies(geo, sb, p, ops, stages, logs, inum, off, src, k);
    }
    StepsApply(homes, ops, m);
  }

  /** The groups committed after state i are the first operations of p, if p alone logs anything. */
  lemma CommitsWhole(geo: Geometry, run: seq<State>, i: nat, j: nat, p: nat, ops: seq<seq<Event>>) returns (m: nat)
    requires IsRun(geo, run) && i <= j < |run| && forall k :: 0 <= k < |ops| ==> Operation(p, ops[k])
    requires run[i].groups <= run[j].groups ==> Flatten(run[j].groups[|run[i].groups|..]) <= Flatten(ops)
    ensures HeadOk(geo, run[i].disk) && HeadOk(geo, run[j].disk) && m <= |ops|
    ensures RecoveredHome(geo, run[j].disk) == ApplyEvents(RecoveredHome(geo, run[i].disk), Flatten(ops[..m]))
  {
    CrashSafety(geo, run, i, i);
    CrashSafety(geo, run, i, j);
    var before := run[i].groups;
    var gs := run[j].groups[|before|..];
    assert run[j].groups == before + gs;
    forall g | g in gs ensures WholeOperations(g) { assert g in run[j].groups; }
    FlatWhole(gs);
    m := WholePrefix(p, ops, Flatten(gs));
    ApplyFlat(RecoveredHome(geo, run[0].disk), before, gs);
  }

  /**
   * Between state i of a run, where the committed file system is the one filewrite starts from, and
   * state j, process p alone logs anything: the transactions of a filewrite. Then a crash at j and
   * recovery leave the file system as it was between two of those transactions: the file holds the
   * bytes of a whole number of chunks, its other bytes and the other files are as they were.
   */
  lemma CrashLeavesWholeChunks(geo: Geometry, sb: Super, run: seq<State>, i: nat, j: nat, p: nat, ops: seq<seq<Event>>,
                               stages: seq<Stage>, logs: seq<set<nat>>, inum: nat, off: nat, src: seq<FsImage.Byte>) returns (m: nat)
    requires IsRun(geo, run) && i <= j < |run|
    requires Journal(sb, stages, logs, inum, InodeBlock(sb, inum), off, src) && Recorded(geo, sb, p, ops, stages, logs)
    requires HeadOk(geo, run[i].disk) && RecoveredHome(geo, run[i].disk) == HomeOf(geo, sb, stages[0])
    requires run[i].groups <= run[j].groups ==> Flatten(run[j].groups[|run[i].groups|..]) <= Flatten(ops)
    ensures m <= |logs| && HeadOk(geo, run[j].disk) && RecoveredHome(geo, run[j].disk) == HomeOf(geo, sb, stages[m])
    ensures FsBytes.ContentsAfter(sb, stages[0].disk, stages[0].inos, stages[m].disk, stages[m].inos, inum, off, src[..Sent(m, |src|)])
  {
    m := CommitsWhole(geo, run, i, j, p, ops);
    OperationsApply(geo, sb, p, ops, stages, logs, inum, off, src, m);
    OpenJournal(sb, stages, logs, inum, InodeBlock(sb, inum), off, src, m);
  }
}
