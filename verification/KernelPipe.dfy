/** The pipe as src/pipe.c keeps it: a 512-byte ring addressed by two 32-bit counters that wrap. */
module KernelPipe {
  import opened Common
  import opened PipeMachine

  const WRAP := 0x1_0000_0000

  lemma FullTest(sent: nat, recv: nat)
    requires recv <= sent <= recv + PIPESIZE
    ensures sent % WRAP == (recv % WRAP + PIPESIZE) % WRAP <==> sent == recv + PIPESIZE
    ensures sent % WRAP == recv % WRAP <==> sent == recv
  {
  }

  lemma SlotOf(n: nat)
    ensures (n % WRAP) % PIPESIZE == n % PIPESIZE && (n % WRAP + 1) % WRAP == (n + 1) % WRAP
  {
    assert n == WRAP * (n / WRAP) + n % WRAP;
    assert WRAP == PIPESIZE * 0x80_0000;
    assert n == PIPESIZE * (0x80_0000 * (n / WRAP)) + n % WRAP;
  }

  lemma SlotsApart(m: nat, k: nat)
    requires m < k < m + PIPESIZE
    ensures m % PIPESIZE != k % PIPESIZE
  {
  }

  class PipeBuffer {
    const data: array<Byte>
    var nread: int
    var nwrite: int
    var readopen: bool
    var writeopen: bool
    var tasks: map<nat, Task>
    ghost var sent: seq<Byte>
    ghost var recv: seq<Byte>

    ghost predicate Valid() reads this, data {
      && data.Length == PIPESIZE && |recv| <= |sent| <= |recv| + PIPESIZE
      && nwrite == |sent| % WRAP && nread == |recv| % WRAP && recv == sent[..|recv|]
      && forall k {:trigger sent[k]} :: |recv| <= k < |sent| ==> data[k % PIPESIZE] == sent[k]
    }

    ghost function Queue(): seq<Byte> reads this { if |recv| <= |sent| then sent[|recv|..] else [] }

    ghost function View(): State reads this { State(Queue(), sent, recv, readopen, writeopen, tasks) }

    constructor ()
      ensures Valid() && View() == Fresh && fresh(data)
    {
      data := new Byte[PIPESIZE](_ => 0);
      nread, nwrite, readopen, writeopen, tasks := 0, 0, true, true, map[];
      sent, recv := [], [];
    }

    method Put(c: Byte)
      requires Valid() && |sent| < |recv| + PIPESIZE
      modifies this`nwrite, this`sent, data
      ensures Valid() && sent == old(sent) + [c]
    {
      SlotOf(|sent|);
      forall k | |recv| <= k < |sent| ensures k % PIPESIZE != |sent| % PIPESIZE { SlotsApart(k, |sent|); }
      data[nwrite % PIPESIZE] := c;
      nwrite := (nwrite + 1) % WRAP;
      sent := sent + [c];
    }

    method Get() returns (c: Byte)
      requires Valid() && |recv| < |sent|
      modifies this`nread, this`recv
      ensures Valid() && c == sent[|old(recv)|] && recv == old(recv) + [c]
    {
      SlotOf(|recv|);
      c := data[nread % PIPESIZE];
      nread := (nread + 1) % WRAP;
      recv := recv + [c];
    }

    /** The copy loop: stops when the pipe is full or the bytes are all in. */
    method Fill(addr: seq<Byte>) returns (i: nat)
      requires Valid()
      modifies this`nwrite, this`sent, data
      ensures Valid() && i == Min(|addr|, PIPESIZE - |old(Queue())|)
      ensures sent == old(sent) + addr[..i] && Queue() == old(Queue()) + addr[..i]
    {
      ghost var s0 := sent;
      i := 0;
      while i < |addr|
        invariant i <= |addr| && Valid() && sent == s0 + addr[..i]
      {
        FullTest(|sent|, |recv|);
        if nwrite == (nread + PIPESIZE) % WRAP { break; }
        Put(addr[i]);
        assert addr[..i + 1] == addr[..i] + [addr[i]];
        i := i + 1;
      }
      assert Queue() == old(Queue()) + addr[..i];
    }

    /** From taking the lock to the return of n or -1, or to the sleep. */
    method PipeWrite(p: nat, killed: bool) returns (r: Option<int>)
      requires Valid() && p in tasks && tasks[p].Writing?
      modifies this`nwrite, this`sent, this`tasks, data
      ensures Valid() && View() == Do(old(View()), RunWrite(p, killed))
      ensures r.None? <==> p in tasks
      ensures r.Some? ==> r.value == if GivesUp(old(View()), RunWrite(p, killed)) then -1 else old(tasks)[p].n
      ensures var rest, k := old(tasks)[p].rest, Min(|old(tasks)[p].rest|, PIPESIZE - |old(Queue())|);
        sent == old(sent) + rest[..k] && (r.None? ==> tasks[p] == WriteAsleep(rest[k..], old(tasks)[p].n))
      ensures r.Some? && r.value >= 0 ==> sent == old(sent) + old(tasks)[p].rest
      ensures !GivesUp(old(View()), RunWrite(p, killed)) ==> forall q :: q in tasks ==> !tasks[q].ReadAsleep?
    {
      var addr, n := tasks[p].rest, tasks[p].n;
      var i := Fill(addr);
      if i == |addr| {
        tasks := WakeReaders(tasks) - {p};
        return Some(n);
      } else if !readopen || killed {
        tasks := tasks - {p};
        return Some(-1);
      } else {
        tasks := WakeReaders(tasks)[p := WriteAsleep(addr[i..], n)];
        return None;
      }
    }

    /** From taking the lock to the return or the sleep; `got` is what reaches the caller's buffer. */
    method PipeRead(p: nat, killed: bool) returns (got: seq<Byte>, r: Option<int>)
      requires Valid() && p in tasks && tasks[p].Reading?
      modifies this`nread, this`recv, this`tasks
      ensures Valid() && View() == Do(old(View()), RunRead(p, killed)) && recv == old(recv) + got
      ensures r.None? <==> p in tasks
      ensures r == Some(-1) <==> killed && old(Queue()) == [] && writeopen
      ensures r.Some? && r.value != -1 ==> r.value == |got| == Min(old(tasks)[p].n, |old(Queue())|)
      ensures got <= old(Queue()) && (r.None? ==> got == [] && tasks == old(tasks)[p := ReadAsleep(old(tasks)[p].n)])
      ensures r.Some? && r.value != -1 ==> forall q :: q in tasks ==> !tasks[q].WriteAsleep?
    {
      got := [];
      var n := tasks[p].n;
      FullTest(|sent|, |recv|);
      if nread == nwrite && writeopen {
        if killed {
          tasks := tasks - {p};
          return got, Some(-1);
        }
        tasks := tasks[p := ReadAsleep(n)];
        return got, None;
      }
      got := Drain(n);
      tasks := WakeWriters(tasks) - {p};
      r := Some(|got|);
    }

    /** The copy loop: takes up to n bytes in order. */
    method Drain(n: nat) returns (got: seq<Byte>)
      requires Valid()
      modifies this`nread, this`recv
      ensures Valid() && got == old(Queue())[..Min(n, |old(Queue())|)] && recv == old(recv) + got && Queue() == old(Queue())[|got|..]
    {
      ghost var q, r0 := Queue(), recv;
      got := [];
      FullTest(|sent|, |recv|);
      while |got| < n && nread != nwrite
        invariant |got| <= n && |got| <= |q| && Valid() && got == q[..|got|] && recv == r0 + got
        invariant nread == nwrite <==> |got| == |q|
        decreases n - |got|
      {
        var c := Get();
        assert c == q[|got|];
        got := got + [c];
        FullTest(|sent|, |recv|);
      }
      assert Queue() == q[|got|..];
    }

    method PipeClose(writable: bool) returns (last: bool)
      requires Valid()
      modifies this`readopen, this`writeopen, this`tasks
      ensures Valid() && View() == Do(old(View()), Close(writable)) && last == (!readopen && !writeopen)
      ensures writeopen == (old(writeopen) && !writable) && readopen == (old(readopen) && writable)
      ensures forall q :: q in tasks ==> if writable then !tasks[q].ReadAsleep? else !tasks[q].WriteAsleep?
    {
      if writable {
        writeopen := false;
        tasks := WakeReaders(tasks);
      } else {
        readopen := false;
        tasks := WakeWriters(tasks);
      }
      last := !readopen && !writeopen;
    }
  }
}
