/**
 * A pipe of src/pipe.c and the processes using it. One step is one stretch under the pipe's lock:
 * from taking the lock to returning or going to sleep.
 */
module PipeMachine {
  type Byte = x: int | 0 <= x < 256

  const PIPESIZE := 512

  /**
   * What a process inside pipewrite or piperead is doing at a point where the lock is free: a writer
   * of n bytes has `rest` still to put in.
   */
  datatype Task = Writing(rest: seq<Byte>, n: nat) | WriteAsleep(rest: seq<Byte>, n: nat) | Reading(n: nat) | ReadAsleep(n: nat)

  datatype State = State(
    queue: seq<Byte>, sent: seq<Byte>, recv: seq<Byte>, readopen: bool, writeopen: bool, tasks: map<nat, Task>)

  datatype Step =
    | BeginWrite(p: nat, bytes: seq<Byte>)
    | BeginRead(p: nat, n: nat)
    | RunWrite(p: nat, killed: bool)
    | RunRead(p: nat, killed: bool)
    | Kill(p: nat)
    | Close(writable: bool)

  function Awake(t: Task): Task {
    match t
    case WriteAsleep(rest, n) => Writing(rest, n)
    case ReadAsleep(n) => Reading(n)
    case _ => t
  }

  /** wakeup(&p->nread) */
  function WakeReaders(tasks: map<nat, Task>): map<nat, Task> {
    map p | p in tasks :: if tasks[p].ReadAsleep? then Awake(tasks[p]) else tasks[p]
  }

  /** wakeup(&p->nwrite) */
  function WakeWriters(tasks: map<nat, Task>): map<nat, Task> {
    map p | p in tasks :: if tasks[p].WriteAsleep? then Awake(tasks[p]) else tasks[p]
  }

  function Min(a: int, b: int): int { if a < b then a else b }

  /** The first k bytes of rest go into the pipe. */
  function Push(s: State, rest: seq<Byte>, k: nat): State {
    if k <= |rest| then s.(queue := s.queue + rest[..k], sent := s.sent + rest[..k]) else s
  }

  /** One stretch of pipewrite: what fits goes in; then it is done, gives up, or sleeps. */
  function WriteStretch(s: State, p: nat, rest: seq<Byte>, n: nat, killed: bool): State {
    var k := Min(|rest|, PIPESIZE - |s.queue|);
    if k < 0 then s
    else if k == |rest| then Push(s, rest, k).(tasks := WakeReaders(s.tasks) - {p})
    else if !s.readopen || killed then Push(s, rest, k).(tasks := s.tasks - {p})
    else Push(s, rest, k).(tasks := WakeReaders(s.tasks)[p := WriteAsleep(rest[k..], n)])
  }

  /** One stretch of piperead. */
  function ReadStretch(s: State, p: nat, n: nat, killed: bool): State {
    if s.queue == [] && s.writeopen then
      if killed then s.(tasks := s.tasks - {p}) else s.(tasks := s.tasks[p := ReadAsleep(n)])
    else
      var k := Min(n, |s.queue|);
      s.(queue := s.queue[k..], recv := s.recv + s.queue[..k], tasks := WakeWriters(s.tasks) - {p})
  }

  function Do(s: State, step: Step): State {
    match step
    case BeginWrite(p, bytes) => if p in s.tasks then s else s.(tasks := s.tasks[p := Writing(bytes, |bytes|)])
    case BeginRead(p, n) => if p in s.tasks then s else s.(tasks := s.tasks[p := Reading(n)])
    case RunWrite(p, killed) =>
      if p in s.tasks && s.tasks[p].Writing? then WriteStretch(s, p, s.tasks[p].rest, s.tasks[p].n, killed) else s
    case RunRead(p, killed) =>
      if p in s.tasks && s.tasks[p].Reading? then ReadStretch(s, p, s.tasks[p].n, killed) else s
    case Kill(p) => if p in s.tasks then s.(tasks := s.tasks[p := Awake(s.tasks[p])]) else s
    case Close(writable) =>
      if writable then s.(writeopen := false, tasks := WakeReaders(s.tasks))
      else s.(readopen := false, tasks := WakeWriters(s.tasks))
  }

  function Run(s: State, steps: seq<Step>): State
    decreases |steps|
  {
    if steps == [] then s else Do(Run(s, steps[..|steps| - 1]), steps[|steps| - 1])
  }

  const Fresh := State([], [], [], true, true, map[])

  // ----- Safety -----

  ghost predicate ReaderSleeps(s: State) { exists p :: p in s.tasks && s.tasks[p].ReadAsleep? }
  ghost predicate WriterSleeps(s: State) { exists p :: p in s.tasks && s.tasks[p].WriteAsleep? }

  /** Bytes are neither lost, repeated nor reordered; sleepers have the reason they went to sleep for. */
  ghost predicate Inv(s: State) {
    && |s.queue| <= PIPESIZE && s.sent == s.recv + s.queue
    && (WriterSleeps(s) ==> |s.queue| == PIPESIZE && s.readopen)
    && (ReaderSleeps(s) ==> s.writeopen)
    && !(ReaderSleeps(s) && WriterSleeps(s))
  }

  lemma Sleeper(s: State, p: nat)
    requires p in s.tasks
    ensures s.tasks[p].ReadAsleep? ==> ReaderSleeps(s)
    ensures s.tasks[p].WriteAsleep? ==> WriterSleeps(s)
  {
  }

  /** Tasks of s' that sleep slept in s already. */
  ghost predicate NoNewSleeper(s: State, s': State) {
    forall p :: p in s'.tasks && (s'.tasks[p].ReadAsleep? || s'.tasks[p].WriteAsleep?) ==> p in s.tasks && s.tasks[p] == s'.tasks[p]
  }

  lemma SleepersSame(s: State, s': State)
    requires NoNewSleeper(s, s')
    ensures ReaderSleeps(s') ==> ReaderSleeps(s)
    ensures WriterSleeps(s') ==> WriterSleeps(s)
  {
    if ReaderSleeps(s') { var p :| p in s'.tasks && s'.tasks[p].ReadAsleep?; Sleeper(s, p); }
    if WriterSleeps(s') { var p :| p in s'.tasks && s'.tasks[p].WriteAsleep?; Sleeper(s, p); }
  }

  lemma WriteKeeps(s: State, p: nat, rest: seq<Byte>, n: nat, killed: bool)
    requires Inv(s) && p in s.tasks && s.tasks[p].Writing?
    ensures Inv(WriteStretch(s, p, rest, n, killed))
  {
    var s' := WriteStretch(s, p, rest, n, killed);
    var k := Min(|rest|, PIPESIZE - |s.queue|);
    assert s'.sent == s'.recv + s'.queue;
    if k < |rest| && s.readopen && !killed {
      assert !ReaderSleeps(s');
    } else {
      assert NoNewSleeper(s, s');
      SleepersSame(s, s');
      if WriterSleeps(s) { assert k == 0; }
    }
  }

  lemma ReadKeeps(s: State, p: nat, n: nat, killed: bool)
    requires Inv(s) && p in s.tasks && s.tasks[p].Reading?
    ensures Inv(ReadStretch(s, p, n, killed))
  {
    var s' := ReadStretch(s, p, n, killed);
    if s.queue == [] && s.writeopen {
      if killed { assert NoNewSleeper(s, s'); SleepersSame(s, s'); }
    } else {
      var k := Min(n, |s.queue|);
      assert s.queue == s.queue[..k] + s.queue[k..];
      assert NoNewSleeper(s, s');
      SleepersSame(s, s');
      assert !WriterSleeps(s');
    }
  }

  lemma DoKeeps(s: State, step: Step)
    requires Inv(s)
    ensures Inv(Do(s, step)) && s.sent <= Do(s, step).sent && s.recv <= Do(s, step).recv
  {
    var s' := Do(s, step);
    match step
    case RunWrite(p, killed) =>
      if p in s.tasks && s.tasks[p].Writing? { WriteKeeps(s, p, s.tasks[p].rest, s.tasks[p].n, killed); }
    case RunRead(p, killed) =>
      if p in s.tasks && s.tasks[p].Reading? { ReadKeeps(s, p, s.tasks[p].n, killed); }
    case Close(writable) =>
      assert NoNewSleeper(s, s');
      SleepersSame(s, s');
    case _ =>
      assert NoNewSleeper(s, s');
      SleepersSame(s, s');
  }

  /**
   * In every interleaving, what has been read is a prefix of what was written; a writer sleeps only
   * on a full pipe whose read end is open; a reader and a writer never sleep at the same time.
   */
  lemma {:induction false} RunKeeps(steps: seq<Step>)
    ensures var s := Run(Fresh, steps);
      && Inv(s) && s.recv <= s.sent
    decreases |steps|
  {
    if steps != [] {
      RunKeeps(steps[..|steps| - 1]);
      DoKeeps(Run(Fresh, steps[..|steps| - 1]), steps[|steps| - 1]);
    }
  }

  /** kill wakes the process it names, and touches nothing else. */
  lemma KillWakes(s: State, p: nat)
    requires p in s.tasks
    ensures var s' := Do(s, Kill(p));
      && s' == s.(tasks := s'.tasks) && s'.tasks.Keys == s.tasks.Keys && !s'.tasks[p].ReadAsleep? && !s'.tasks[p].WriteAsleep?
      && forall q :: q in s.tasks && q != p ==> s'.tasks[q] == s.tasks[q]
  {
  }

  // ----- Lost wake-ups -----

  /** Readers sleep only while there is nothing to read. */
  ghost predicate Prompt(s: State) { ReaderSleeps(s) ==> s.queue == [] }

  /** A writer that puts bytes in, finds the pipe full and gives up wakes nobody. */
  ghost predicate GivesUp(s: State, step: Step) {
    && step.RunWrite? && step.p in s.tasks && s.tasks[step.p].Writing?
    && |s.tasks[step.p].rest| > PIPESIZE - |s.queue| && (step.killed || !s.readopen)
  }

  /** A step strands a sleeping reader exactly when a writer gives up on the pipe it has just filled. */
  lemma StrandsExactly(s: State, step: Step)
    requires Inv(s) && Prompt(s)
    ensures Prompt(Do(s, step)) <==> !(GivesUp(s, step) && ReaderSleeps(s))
  {
    var s' := Do(s, step);
    if GivesUp(s, step) {
      if ReaderSleeps(s) {
        var p :| p in s.tasks && s.tasks[p].ReadAsleep?;
        assert p != step.p && p in s'.tasks && s'.tasks[p] == s.tasks[p];
        Sleeper(s', p);
        assert |s'.queue| == PIPESIZE;
      } else {
        assert NoNewSleeper(s, s');
        SleepersSame(s, s');
      }
    } else if step.RunWrite? && step.p in s.tasks && s.tasks[step.p].Writing? {
      assert !ReaderSleeps(s');
    } else if ReaderSleeps(s') {
      var p :| p in s'.tasks && s'.tasks[p].ReadAsleep?;
      if p in s.tasks { Sleeper(s, p); }
    }
  }

  /** Such a run: a reader waits, a killed writer fills the pipe and leaves, and the reader sleeps on. */
  lemma StrandedRun(bytes: seq<Byte>)
    requires |bytes| > PIPESIZE
    ensures var s := Run(Fresh, [BeginRead(1, 1), RunRead(1, false), BeginWrite(2, bytes), RunWrite(2, true)]);
      s.tasks == map[1 := ReadAsleep(1)] && |s.queue| == PIPESIZE && s.writeopen
  {
    var a, b, c, d := BeginRead(1, 1), RunRead(1, false), BeginWrite(2, bytes), RunWrite(2, true);
    assert [a, b, c, d][..3] == [a, b, c] && [a, b, c][..2] == [a, b] && [a, b][..1] == [a] && [a][..0] == [];
    assert Run(Fresh, [a]) == Do(Run(Fresh, []), a);
    assert Run(Fresh, [a, b]) == Do(Run(Fresh, [a]), b);
    assert Run(Fresh, [a, b, c]) == Do(Run(Fresh, [a, b]), c);
    assert Run(Fresh, [a, b, c, d]) == Do(Run(Fresh, [a, b, c]), d);
  }
}
