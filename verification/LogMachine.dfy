/**
 * The write-ahead log of src/log.c as a state machine.
 *
 * One step is one lock-held region (begin_op, the two halves of log_write, end_op) or one
 * atomic block write (write_log, write_head and install_trans, during a commit or during
 * recovery). A crash may come between any two steps and keeps nothing but the disk.
 *
 * `groups` and `pending` are bookkeeping: the events of every committed group, in commit
 * order, and the events since the last group was closed; `frugal` says that no operation since
 * power-on has appended more than the MAXOPBLOCKS blocks begin_op reserves for it. No step reads them.
 */
module LogMachine {
  import opened Common

  const LOGSIZE: nat := 30
  const MAXOPBLOCKS: nat := 10
  const BLOCK_WORDS: nat := 128

  /** A disk block, as 32-bit words. */
  type Block = seq<int>
  type Disk = map<int, Block>

  /** The log occupies blocks [start, start + size): a header, then size - 1 data slots. */
  datatype Geometry = Geometry(start: nat, size: nat) {
    predicate InLog(b: int) { start <= b < start + size }

    /** How many blocks one group can have: lh.block and the slots on disk both limit it. */
    function Slots(): nat { if size > LOGSIZE then LOGSIZE else if size > 0 then size - 1 else 0 }
  }

  datatype Event = Begin(pid: nat) | Write(pid: nat, block: int, data: Block) | End(pid: nat)

  /**
   * A process, as the log sees it: outside, asleep in begin_op, or inside an operation that
   * has appended `spent` new blocks and may be between the two halves of a log_write.
   */
  datatype Proc = Outside | Asleep | Active(spent: nat, write: Option<(int, Block)>)

  datatype Phase =
    | Serving
    | Copying(tail: nat)                  // write_log, `tail` blocks copied
    | Installing(tail: nat, boot: bool)   // install_trans, `tail` blocks installed
    | Committed                           // commit() has returned, committing still set
    | Booting                             // before read_head
    | EndPanic                            // end_op: "log.committing"
    | BigPanic                            // log_write: "too big a transaction"
    | TransPanic                          // log_write: "log_write outside of trans"
    | Overrun                             // log_write has listed a block for which there is no slot

  datatype State = State(
    disk: Disk,
    lh: seq<int>,
    outstanding: int,
    committing: bool,
    dirty: map<int, Block>,
    procs: seq<Proc>,
    phase: Phase,
    groups: seq<seq<Event>>,
    pending: seq<Event>,
    frugal: bool)

  datatype Step =
    | BeginOp(pid: nat)
    | LogCheck(pid: nat, block: int, data: Block)
    | LogAppend(pid: nat)
    | EndOp(pid: nat)
    | CopyBlock
    | CommitHead
    | InstallBlock
    | ClearHead
    | FinishCommit
    | ReadHead
    | Crash

  // ----- The disk format -----

  function HeadCount(geo: Geometry, d: Disk): (n: int)
    requires geo.start in d && |d[geo.start]| == BLOCK_WORDS
  {
    d[geo.start][0]
  }

  /** write_head: overwrites the count and the first |lh| entries and leaves the rest of the block. */
  function HeadBlock(stale: Block, lh: seq<int>): (b: Block)
    requires |stale| == BLOCK_WORDS && |lh| <= LOGSIZE
    ensures |b| == BLOCK_WORDS && b[0] == |lh| && b[1..1 + |lh|] == lh
  {
    [|lh|] + lh + stale[1 + |lh|..]
  }

  ghost predicate Distinct(bs: seq<int>) {
    forall i, j :: 0 <= i < j < |bs| ==> bs[i] != bs[j]
  }

  ghost predicate HomeBlocks(geo: Geometry, d: Disk, bs: seq<int>) {
    forall i :: 0 <= i < |bs| ==> bs[i] in d && !geo.InLog(bs[i])
  }

  ghost predicate DiskShape(geo: Geometry, d: Disk) {
    && geo.size > 0
    && (forall b :: geo.InLog(b) ==> b in d)
    && (forall b :: b in d ==> |d[b]| == BLOCK_WORDS)
  }

  /** The header names distinct blocks, all outside the log, and no more than it has slots. */
  ghost predicate HeadOk(geo: Geometry, d: Disk) {
    && DiskShape(geo, d)
    && 0 <= HeadCount(geo, d) <= geo.Slots()
    && HomeBlocks(geo, d, HeadList(geo, d))
    && Distinct(HeadList(geo, d))
  }

  function HeadList(geo: Geometry, d: Disk): seq<int>
    requires geo.start in d && |d[geo.start]| == BLOCK_WORDS
    requires 0 <= HeadCount(geo, d) <= LOGSIZE
  {
    d[geo.start][1..1 + HeadCount(geo, d)]
  }

  /** One round of install_trans: slot `tail` of the log is copied to its home. */
  function InstallOne(geo: Geometry, d: Disk, bs: seq<int>, tail: nat): Disk
    requires tail < |bs| && geo.start + 1 + tail in d
  {
    d[bs[tail] := d[geo.start + 1 + tail]]
  }

  /** The disk after the first n rounds of install_trans. */
  ghost function Installed(geo: Geometry, d: Disk, bs: seq<int>, n: nat): (r: Disk)
    requires n <= |bs| < geo.size && DiskShape(geo, d)
    ensures DiskShape(geo, r)
  {
    if n == 0 then d else InstallOne(geo, Installed(geo, d, bs, n - 1), bs, n - 1)
  }

  ghost function Home(geo: Geometry, d: Disk): Disk {
    map b | b in d && !geo.InLog(b) :: d[b]
  }

  /** What recover_from_log leaves in the home blocks of disk d when it is not interrupted. */
  ghost function RecoveredHome(geo: Geometry, d: Disk): Disk
    requires HeadOk(geo, d)
  {
    Home(geo, Installed(geo, d, HeadList(geo, d), HeadCount(geo, d)))
  }

  // ----- The meaning of a group -----

  /** The home blocks after the writes of one group, in the order they were logged. */
  ghost function ApplyEvents(h: Disk, evs: seq<Event>): Disk {
    if evs == [] then h else
      var rest := ApplyEvents(h, evs[..|evs| - 1]);
      match evs[|evs| - 1]
      case Write(_, b, data) => rest[b := data]
      case _ => rest
  }

  ghost function ApplyGroups(h: Disk, gs: seq<seq<Event>>): Disk {
    if gs == [] then h else ApplyEvents(ApplyGroups(h, gs[..|gs| - 1]), gs[|gs| - 1])
  }

  /** Replays a group's brackets: the processes with an open operation, or None if ill-bracketed. */
  ghost function Open(evs: seq<Event>): Option<set<nat>> {
    if evs == [] then Some({}) else
      match Open(evs[..|evs| - 1])
      case None => None
      case Some(open) =>
        match evs[|evs| - 1]
        case Begin(p) => if p in open then None else Some(open + {p})
        case Write(p, _, _) => if p in open then Some(open) else None
        case End(p) => if p in open then Some(open - {p}) else None
  }

  /** A whole number of operations: every write inside a bracket and every bracket closed. */
  ghost predicate WholeOperations(evs: seq<Event>) {
    Open(evs) == Some({})
  }

  // ----- Steps -----

  function WakeAll(ps: seq<Proc>): (r: seq<Proc>)
    ensures |r| == |ps|
    ensures forall i :: 0 <= i < |ps| ==> r[i] == if ps[i].Asleep? then Outside else ps[i]
  {
    seq(|ps|, i requires 0 <= i < |ps| => if ps[i].Asleep? then Outside else ps[i])
  }

  /** The absorption scan of log_write: the first index of b in bs at or after `from`, or |bs|. */
  function Scan(bs: seq<int>, b: int, from: nat): (i: nat)
    requires from <= |bs|
    ensures from <= i <= |bs|
    ensures i < |bs| ==> bs[i] == b
    ensures forall j :: from <= j < i ==> bs[j] != b
    decreases |bs| - from
  {
    if from == |bs| || bs[from] == b then from else Scan(bs, b, from + 1)
  }

  function IndexOf(bs: seq<int>, b: int): nat { Scan(bs, b, 0) }

  ghost predicate Live(s: State, p: nat) {
    p < |s.procs| && s.phase != Booting && !(s.phase.Installing? && s.phase.boot) && !Halted(s)
  }

  predicate Halted(s: State) {
    s.phase.EndPanic? || s.phase.BigPanic? || s.phase.TransPanic? || s.phase.Overrun?
  }

  /**
   * Which steps a state allows. That nobody logs a block of the log itself is the callers' side of
   * the contract; everything else is the control flow of log.c.
   */
  ghost predicate Enabled(geo: Geometry, s: State, step: Step) {
    match step
    case BeginOp(p) => Live(s, p) && s.procs[p].Outside?
    case LogCheck(p, b, data) =>
      && Live(s, p) && s.procs[p].Active? && s.procs[p].write.None?
      && b in s.disk && !geo.InLog(b) && |data| == BLOCK_WORDS
    case LogAppend(p) =>
      Live(s, p) && s.procs[p].Active? && s.procs[p].write.Some?
    case EndOp(p) => Live(s, p) && s.procs[p].Active? && s.procs[p].write.None?
    case CopyBlock => s.phase.Copying? && s.phase.tail < |s.lh|
    case CommitHead => s.phase.Copying? && s.phase.tail == |s.lh|
    case InstallBlock => s.phase.Installing? && s.phase.tail < |s.lh|
    case ClearHead => s.phase.Installing? && s.phase.tail == |s.lh|
    case FinishCommit => s.phase.Committed?
    case ReadHead => s.phase.Booting?
    case Crash => true
  }

  /** bread: the pinned copy if there is one, else the disk. */
  function Read(s: State, b: int): Block
    requires b in s.disk
  {
    if b in s.dirty then s.dirty[b] else s.disk[b]
  }

  /** begin_op, one turn of its loop. */
  function DoBegin(s: State, p: nat): State
    requires p < |s.procs|
  {
    if s.committing || |s.lh| + (s.outstanding + 1) * MAXOPBLOCKS > LOGSIZE then
      s.(procs := s.procs[p := Asleep])
    else
      s.(outstanding := s.outstanding + 1,
         procs := s.procs[p := Active(0, None)],
         pending := s.pending + [Begin(p)])
  }

  /** log_write before it takes the lock: the tests only. */
  function DoCheck(geo: Geometry, s: State, p: nat, b: int, data: Block): State
    requires p < |s.procs| && s.procs[p].Active?
  {
    if |s.lh| >= LOGSIZE || |s.lh| >= geo.size - 1 then s.(phase := BigPanic)
    else if s.outstanding < 1 then s.(phase := TransPanic)
    else s.(procs := s.procs[p := s.procs[p].(write := Some((b, data)))])
  }

  /** log_write under the lock: absorb or append, and pin. */
  function DoAppend(geo: Geometry, s: State, p: nat): State
    requires p < |s.procs| && s.procs[p].Active? && s.procs[p].write.Some?
  {
    var (b, data) := s.procs[p].write.value;
    var isNew := IndexOf(s.lh, b) == |s.lh|;
    var frugal := s.frugal && (isNew ==> s.procs[p].spent < MAXOPBLOCKS);
    if isNew && |s.lh| >= geo.Slots() then s.(phase := Overrun, frugal := frugal)
    else
      s.(lh := if isNew then s.lh + [b] else s.lh,
         dirty := s.dirty[b := data],
         procs := s.procs[p := Active(s.procs[p].spent + (if isNew then 1 else 0), None)],
         pending := s.pending + [Write(p, b, data)],
         frugal := frugal)
  }

  /** end_op up to the release of the lock. */
  function DoEnd(s: State, p: nat): State
    requires p < |s.procs|
  {
    if s.committing then s.(phase := EndPanic, outstanding := s.outstanding - 1)
    else
      var t := s.(outstanding := s.outstanding - 1,
                  procs := s.procs[p := Outside],
                  pending := s.pending + [End(p)]);
      if t.outstanding == 0 then
        if |t.lh| > 0 then t.(committing := true, phase := Copying(0))
        else t.(committing := true, phase := Committed, pending := [])
      else t.(procs := WakeAll(t.procs))
  }

  /** Whether every block the step touches exists. */
  ghost predicate Defined(geo: Geometry, s: State, step: Step) {
    match step
    case CopyBlock => Enabled(geo, s, step) ==> s.lh[s.phase.tail] in s.disk
    case CommitHead => geo.start in s.disk && |s.disk[geo.start]| == BLOCK_WORDS && |s.lh| <= LOGSIZE
    case InstallBlock => Enabled(geo, s, step) ==> geo.start + 1 + s.phase.tail in s.disk
    case ClearHead => geo.start in s.disk && |s.disk[geo.start]| == BLOCK_WORDS
    case ReadHead =>
      geo.start in s.disk && |s.disk[geo.start]| == BLOCK_WORDS && 0 <= HeadCount(geo, s.disk) <= LOGSIZE
    case _ => true
  }

  ghost function Do(geo: Geometry, s: State, step: Step): State
    requires Enabled(geo, s, step) && Defined(geo, s, step)
  {
    match step
    case BeginOp(p) => DoBegin(s, p)
    case LogCheck(p, b, data) => DoCheck(geo, s, p, b, data)
    case LogAppend(p) => DoAppend(geo, s, p)
    case EndOp(p) => DoEnd(s, p)
    case CopyBlock =>
      var t := s.phase.tail;
      s.(disk := s.disk[geo.start + 1 + t := Read(s, s.lh[t])], phase := Copying(t + 1))
    case CommitHead =>
      s.(disk := s.disk[geo.start := HeadBlock(s.disk[geo.start], s.lh)],
         phase := Installing(0, false),
         groups := s.groups + [s.pending], pending := [])
    case InstallBlock =>
      var t := s.phase.tail;
      s.(disk := InstallOne(geo, s.disk, s.lh, t),
         dirty := s.dirty - {s.lh[t]},
         phase := s.phase.(tail := t + 1))
    case ClearHead =>
      s.(disk := s.disk[geo.start := HeadBlock(s.disk[geo.start], [])],
         lh := [],
         phase := if s.phase.boot then Serving else Committed)
    case FinishCommit =>
      s.(committing := false, procs := WakeAll(s.procs), phase := Serving)
    case ReadHead =>
      s.(lh := HeadList(geo, s.disk), phase := Installing(0, true))
    case Crash => Boot(s)
  }

  /** Power loss: everything in memory is gone. */
  function Boot(s: State): State {
    s.(lh := [], outstanding := 0, committing := false, dirty := map[],
       procs := seq(|s.procs|, _ => Outside), phase := Booting, pending := [], frugal := true)
  }

  /** The kernel at power-on, over a disk that some earlier kernel or mkfs left behind. */
  ghost predicate PowerOn(geo: Geometry, s: State) {
    && HeadOk(geo, s.disk)
    && s == Boot(s) && s.groups == []
  }

  ghost predicate Leads(geo: Geometry, s: State, step: Step, t: State) {
    Enabled(geo, s, step) && Defined(geo, s, step) && t == Do(geo, s, step)
  }

  ghost predicate Next(geo: Geometry, s: State, t: State) {
    exists step :: Leads(geo, s, step, t)
  }

  /** A run of the machine from power-on: any interleaving of any processes, with any crashes. */
  ghost predicate IsRun(geo: Geometry, run: seq<State>) {
    && |run| > 0
    && PowerOn(geo, run[0])
    && forall i :: 0 <= i < |run| - 1 ==> Next(geo, run[i], run[i + 1])
  }
}
