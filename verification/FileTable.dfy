/** The open-file system calls of src/file.c, src/sysfile.c, src/pipe.c and src/proc.c. */
module FileTable {
  import opened FileRefs

  const NOFILE := 16

  /** Two files that nobody refers to. */
  ghost predicate TwoFiles(file: seq<File>) {
    exists i, j :: 0 <= i < j < |file| && file[i].ref == 0 && file[j].ref == 0
  }

  /** a is the lowest free descriptor of p and b the next one. */
  ghost predicate LowestTwo(ofile: Slots, p: int, a: int, b: int) {
    && 0 <= a < b < NOFILE && (p, a) !in ofile && (p, b) !in ofile
    && forall k :: 0 <= k < b && k != a ==> (p, k) in ofile
  }

  ghost predicate TwoSlots(ofile: Slots, p: int) {
    exists i, j :: 0 <= i < j < NOFILE && (p, i) !in ofile && (p, j) !in ofile
  }

  lemma OnlyOne(file: seq<File>, file': seq<File>, f: int)
    requires 0 <= f < |file| && file' == file[f := File(1, FdNone)] && forall k :: 0 <= k < |file'| ==> file'[k].ref != 0
    ensures !TwoFiles(file)
  {
    forall k | 0 <= k < |file| && k != f ensures file[k].ref != 0 { assert file'[k].ref != 0; }
  }

  /** What the two searches for a descriptor find. */
  lemma SlotsFound(ofile: Slots, p: int, a: int, f: int, b: int)
    requires 0 <= a < NOFILE && (p, a) !in ofile && forall k :: 0 <= k < a ==> (p, k) in ofile
    requires b == -1 <==> forall k :: 0 <= k < NOFILE ==> (p, k) in ofile[(p, a) := f]
    requires b != -1 ==> 0 <= b < NOFILE && (p, b) !in ofile[(p, a) := f] && forall k :: 0 <= k < b ==> (p, k) in ofile[(p, a) := f]
    ensures b == -1 <==> !TwoSlots(ofile, p)
    ensures b != -1 ==> LowestTwo(ofile, p, a, b)
  {
    forall k | 0 <= k < NOFILE && k != a ensures (p, k) in ofile[(p, a) := f] <==> (p, k) in ofile {}
  }

  class Files {
    var file: seq<File>
    var ofile: Slots
    /** The pages that hold a pipe now. */
    var pipes: map<int, Ends>
    /** References the running system call has in hand. */
    ghost var hand: multiset<int>

    ghost predicate Valid() reads this { Ok(file, ofile, hand, pipes) }

    /** No system call is under way: references are exactly descriptors. */
    ghost predicate Settled() reads this { Valid() && hand == multiset{} }

    constructor (n: nat)
      ensures Settled() && ofile == map[] && pipes == map[] && |file| == n
    {
      file, ofile, pipes, hand := seq(n, _ => File(0, FdNone)), map[], map[], multiset{};
      NoFiles(n);
    }

    method FileAlloc() returns (f: int)
      requires Valid()
      modifies this`file, this`hand
      ensures Valid() && (f == -1 <==> forall k :: 0 <= k < |old(file)| ==> old(file)[k].ref != 0)
      ensures f == -1 ==> file == old(file) && hand == old(hand)
      ensures f != -1 ==>
        && 0 <= f < |old(file)| && old(file)[f] == File(0, FdNone)
        && file == old(file)[f := File(1, FdNone)] && hand == old(hand) + multiset{f}
    {
      f := 0;
      while f < |file|
        invariant 0 <= f <= |file| && file == old(file) && hand == old(hand) && forall k :: 0 <= k < f ==> file[k].ref != 0
      {
        if file[f].ref == 0 {
          FreeFile(file, ofile, hand, pipes, f);
          TakeFree(file, ofile, hand, pipes, f);
          file := file[f := file[f].(ref := 1)];
          hand := hand + multiset{f};
          return;
        }
        f := f + 1;
      }
      f := -1;
    }

    /** fileclose of a reference in hand, not one of `slots`; the last one shuts its pipe end, and the page when both are shut. */
    method FileClose(f: int, ghost slots: Slots)
      requires Ok(file, slots, hand, pipes) && 0 <= f < |file| && hand[f] > 0
      modifies this`file, this`pipes, this`hand
      ensures Ok(file, slots, hand, pipes) && hand == old(hand) - multiset{f} && |file| == |old(file)|
      ensures old(file)[f].ref > 1 ==> file == old(file)[f := old(file)[f].(ref := old(file)[f].ref - 1)] && pipes == old(pipes)
      ensures old(file)[f].ref == 1 ==> file == old(file)[f := File(0, FdNone)] && pipes == AfterClose(old(pipes), old(file)[f].kind)
    {
      ghost var rest := hand - multiset{f};
      assert rest + multiset{f} == hand;
      FreeFile(file, slots, hand, pipes, f);
      if file[f].ref > 1 {
        DropShared(file, slots, rest, pipes, f);
        file := file[f := file[f].(ref := file[f].ref - 1)];
      } else {
        DropLast(file, slots, rest, pipes, f);
        var ff := file[f];
        file := file[f := File(0, FdNone)];
        if ff.kind.FdPipe? { PipeClose(ff.kind.page, ff.kind.writable); }
      }
      hand := rest;
    }

    /** pipeclose: the page is given back when, and only when, the other end is shut already. */
    method PipeClose(page: int, writable: bool)
      requires page in pipes
      modifies this`pipes
      ensures pipes == AfterClose(old(pipes), FdPipe(page, writable))
    {
      pipes := pipes[page := Shut(pipes[page], writable)];
      if !pipes[page].readopen && !pipes[page].writeopen {
        pipes := pipes - {page};
      }
    }

    /** The lowest free descriptor of p takes f, or none is free. */
    method FdAlloc(p: int, f: int) returns (fd: int)
      modifies this`ofile
      ensures fd == -1 <==> forall k :: 0 <= k < NOFILE ==> (p, k) in old(ofile)
      ensures fd == -1 ==> ofile == old(ofile)
      ensures fd != -1 ==>
        && 0 <= fd < NOFILE && (p, fd) !in old(ofile) && ofile == old(ofile)[(p, fd) := f]
        && forall k :: 0 <= k < fd ==> (p, k) in old(ofile)
    {
      fd := 0;
      while fd < NOFILE
        invariant 0 <= fd <= NOFILE && ofile == old(ofile) && forall k :: 0 <= k < fd ==> (p, k) in ofile
      {
        if (p, fd) !in ofile {
          ofile := ofile[(p, fd) := f];
          return;
        }
        fd := fd + 1;
      }
      fd := -1;
    }

    method SysDup(p: int, fd: int) returns (r: int)
      requires Settled()
      modifies this`file, this`ofile
      ensures Settled()
      ensures r == -1 <==> (p, fd) !in old(ofile) || forall k :: 0 <= k < NOFILE ==> (p, k) in old(ofile)
      ensures r == -1 ==> file == old(file) && ofile == old(ofile)
      ensures r != -1 ==>
        && 0 <= r < NOFILE && (p, r) !in old(ofile) && (forall k :: 0 <= k < r ==> (p, k) in old(ofile))
        && ofile == old(ofile)[(p, r) := old(ofile)[(p, fd)]]
        && (var f := old(ofile)[(p, fd)];
            0 <= f < |old(file)| && file == old(file)[f := old(file)[f].(ref := old(file)[f].ref + 1)])
    {
      if (p, fd) !in ofile { return -1; }
      var f := ofile[(p, fd)];
      PickUp(file, ofile, hand, pipes, (p, fd));
      r := FdAlloc(p, f);
      if r < 0 { return; }
      Duplicate(file, old(ofile), hand, pipes, (p, r), f);
      file := file[f := file[f].(ref := file[f].ref + 1)];
    }

    method SysClose(p: int, fd: int) returns (r: int)
      requires Settled()
      modifies this
      ensures Settled() && r == (if (p, fd) in old(ofile) then 0 else -1)
      ensures r == -1 ==> file == old(file) && ofile == old(ofile) && pipes == old(pipes)
      ensures r == 0 ==> ofile == old(ofile) - {(p, fd)}
      ensures r == 0 ==>
        var f := old(ofile)[(p, fd)];
        0 <= f < |old(file)| && old(file)[f].ref >= 1 &&
        if old(file)[f].ref > 1 then file == old(file)[f := old(file)[f].(ref := old(file)[f].ref - 1)] && pipes == old(pipes)
        else file == old(file)[f := File(0, FdNone)] && pipes == AfterClose(old(pipes), old(file)[f].kind)
    {
      if (p, fd) !in ofile { return -1; }
      var f := ofile[(p, fd)];
      PickUp(file, ofile, hand, pipes, (p, fd));
      ofile := ofile - {(p, fd)};
      hand := hand + multiset{f};
      FileClose(f, ofile);
      return 0;
    }

    /** sys_open once the path has led to inode ip: both allocations, and the clean way out of either failure. */
    method SysOpen(p: int, ip: int) returns (fd: int)
      requires Settled()
      modifies this
      ensures Settled() && pipes == old(pipes)
      ensures fd == -1 ==> file == old(file) && ofile == old(ofile)
      ensures fd == -1 <==> (forall k :: 0 <= k < NOFILE ==> (p, k) in old(ofile)) || (forall k :: 0 <= k < |old(file)| ==> old(file)[k].ref != 0)
      ensures |file| == |old(file)|
      ensures fd != -1 ==>
        && 0 <= fd < NOFILE && (p, fd) !in old(ofile) && (forall k :: 0 <= k < fd ==> (p, k) in old(ofile))
        && (p, fd) in ofile && ofile == old(ofile)[(p, fd) := ofile[(p, fd)]]
        && 0 <= ofile[(p, fd)] < |file| && file == old(file)[ofile[(p, fd)] := File(1, FdInode(ip))]
        && old(file)[ofile[(p, fd)]].ref == 0
    {
      var f := FileAlloc();
      if f == -1 { return -1; }
      fd := FdAlloc(p, f);
      if fd < 0 {
        FileClose(f, ofile);
        return -1;
      }
      assert hand == multiset{} + multiset{f};
      PlaceHeld(file, old(ofile), multiset{}, pipes, (p, fd), f);
      hand := multiset{};
      BecomeInode(file, ofile, hand, pipes, f, ip);
      file := file[f := file[f].(kind := FdInode(ip))];
    }

    /** pipealloc: two files in hand, ends of a pipe on the page kalloc gave; or nothing at all. */
    method PipeAlloc(page: int) returns (rf: int, wf: int)
      requires Settled() && page !in pipes
      modifies this`file, this`pipes, this`hand
      ensures Valid() && (rf == -1 <==> wf == -1) && |file| == |old(file)|
      ensures rf == -1 <==> !TwoFiles(old(file))
      ensures rf == -1 ==> file == old(file) && pipes == old(pipes) && hand == multiset{}
      ensures rf != -1 ==>
        && 0 <= rf < |file| && 0 <= wf < |file| && rf != wf && hand == multiset{rf, wf}
        && old(file)[rf] == File(0, FdNone) && old(file)[wf] == File(0, FdNone)
        && file == old(file)[rf := File(1, FdPipe(page, false))][wf := File(1, FdPipe(page, true))]
        && pipes == old(pipes)[page := Ends(true, true)]
    {
      rf, wf := -1, -1;
      var f0 := FileAlloc();
      if f0 == -1 { return; }
      var f1 := FileAlloc();
      if f1 == -1 {
        OnlyOne(old(file), file, f0);
        FileClose(f0, ofile);
        return;
      }
      assert old(file)[f0].ref == 0 && old(file)[f1].ref == 0;
      rf, wf := f0, f1;
      ghost var files' := file[f0 := file[f0].(kind := FdPipe(page, false))][f1 := file[f1].(kind := FdPipe(page, true))];
      BecomePipe(file, ofile, hand, pipes, f0, f1, page, files');
      pipes := pipes[page := Ends(true, true)];
      file := file[f0 := file[f0].(kind := FdPipe(page, false))];
      file := file[f1 := file[f1].(kind := FdPipe(page, true))];
    }

    /** sys_pipe: the two lowest free descriptors; on any failure no descriptor, file or page is left behind. */
    method SysPipe(p: int, page: int) returns (fd0: int, fd1: int)
      requires Settled() && page !in pipes
      modifies this
      ensures Settled() && (fd0 == -1 <==> fd1 == -1)
      ensures fd0 == -1 <==> !TwoFiles(old(file)) || !TwoSlots(old(ofile), p)
      ensures fd0 != -1 ==> LowestTwo(old(ofile), p, fd0, fd1)
      ensures fd0 == -1 ==> file == old(file) && ofile == old(ofile) && pipes == old(pipes)
      ensures fd0 != -1 ==>
        && fd0 != fd1 && (p, fd0) !in old(ofile) && (p, fd1) !in old(ofile) && pipes == old(pipes)[page := Ends(true, true)]
        && (p, fd0) in ofile && (p, fd1) in ofile
        && ofile == old(ofile)[(p, fd0) := ofile[(p, fd0)]][(p, fd1) := ofile[(p, fd1)]]
        && 0 <= ofile[(p, fd0)] < |old(file)| && 0 <= ofile[(p, fd1)] < |old(file)| && ofile[(p, fd0)] != ofile[(p, fd1)]
        && file == old(file)[ofile[(p, fd0)] := File(1, FdPipe(page, false))][ofile[(p, fd1)] := File(1, FdPipe(page, true))]
    {
      var rf, wf := PipeAlloc(page);
      if rf == -1 { return -1, -1; }
      fd0 := FdAlloc(p, rf);
      if fd0 < 0 {
        Undo(rf, wf, page, old(file), old(pipes));
        return -1, -1;
      }
      assert hand == multiset{wf} + multiset{rf};
      PlaceHeld(file, old(ofile), multiset{wf}, pipes, (p, fd0), rf);
      hand := multiset{wf};
      fd1 := FdAlloc(p, wf);
      SlotsFound(old(ofile), p, fd0, rf, fd1);
      if fd1 < 0 {
        PickUp(file, ofile, hand, pipes, (p, fd0));
        ofile := ofile - {(p, fd0)};
        hand := hand + multiset{rf};
        assert ofile == old(ofile);
        Undo(rf, wf, page, old(file), old(pipes));
        return -1, -1;
      }
      assert hand == multiset{} + multiset{wf};
      PlaceHeld(file, old(ofile)[(p, fd0) := rf], multiset{}, pipes, (p, fd1), wf);
      hand := multiset{};
    }

    /** Both ends of a pipe that never got its descriptors are closed: the page is freed once. */
    method Undo(rf: int, wf: int, page: int, ghost was: seq<File>, ghost pages: map<int, Ends>)
      requires Valid() && hand == multiset{rf, wf} && rf != wf && 0 <= rf < |was| && 0 <= wf < |was| && page !in pages
      requires was[rf] == File(0, FdNone) && was[wf] == File(0, FdNone)
      requires file == was[rf := File(1, FdPipe(page, false))][wf := File(1, FdPipe(page, true))]
      requires pipes == pages[page := Ends(true, true)]
      modifies this`file, this`pipes, this`hand
      ensures Settled() && file == was && pipes == pages
    {
      FileClose(rf, ofile);
      FileClose(wf, ofile);
      assert file == was && pipes == pages;
    }

    /** fork's share: the child gets the parent's descriptors. */
    method ForkFiles(p: int, c: int)
      requires Settled() && p != c && forall k :: 0 <= k < NOFILE ==> (c, k) !in ofile
      modifies this`file, this`ofile
      ensures Settled() && |file| == |old(file)| && forall f :: 0 <= f < |file| ==> file[f].kind == old(file)[f].kind
      ensures forall s :: s in old(ofile) ==> s in ofile && ofile[s] == old(ofile)[s]
      ensures forall s: Slot :: s in ofile && s.0 != c ==> s in old(ofile)
      ensures forall k :: 0 <= k < NOFILE ==> ((c, k) in ofile <==> (p, k) in ofile) && ((p, k) in ofile ==> ofile[(c, k)] == ofile[(p, k)])
    {
      for i := 0 to NOFILE
        invariant Settled() && |file| == |old(file)| && forall f :: 0 <= f < |file| ==> file[f].kind == old(file)[f].kind
        invariant forall s: Slot :: s in ofile && s.0 != c ==> s in old(ofile)
        invariant forall s :: s in old(ofile) ==> s in ofile && ofile[s] == old(ofile)[s]
        invariant forall k :: 0 <= k < NOFILE ==> ((p, k) in ofile <==> (p, k) in old(ofile))
        invariant forall k :: i <= k < NOFILE ==> (c, k) !in ofile
        invariant forall k :: 0 <= k < i ==> ((c, k) in ofile <==> (p, k) in ofile) && ((p, k) in ofile ==> ofile[(c, k)] == ofile[(p, k)])
      {
        if (p, i) in ofile {
          var f := ofile[(p, i)];
          PickUp(file, ofile, hand, pipes, (p, i));
          Duplicate(file, ofile, hand, pipes, (c, i), f);
          file := file[f := file[f].(ref := file[f].ref + 1)];
          ofile := ofile[(c, i) := f];
        }
      }
    }

    /** One turn of exit's loop: the file is closed, then the descriptor cleared. */
    method CloseSlot(p: int, fd: int)
      requires Settled() && (p, fd) in ofile
      modifies this
      ensures Settled() && ofile == old(ofile) - {(p, fd)} && |file| == |old(file)|
      ensures forall f :: 0 <= f < |file| && file[f].ref > 0 ==> 0 < old(file)[f].ref && file[f].kind == old(file)[f].kind
    {
      var f := ofile[(p, fd)];
      ghost var slots := ofile - {(p, fd)};
      PickUp(file, ofile, hand, pipes, (p, fd));
      hand := hand + multiset{f};
      FileClose(f, slots);
      ofile := ofile - {(p, fd)};
    }

    /** exit's share: every descriptor of p is closed and no other one changes. */
    method ExitFiles(p: int)
      requires Settled()
      modifies this
      ensures Settled() && forall k :: 0 <= k < NOFILE ==> (p, k) !in ofile
      ensures forall s: Slot :: s.0 != p ==> (s in ofile <==> s in old(ofile)) && (s in ofile ==> ofile[s] == old(ofile)[s])
      ensures |file| == |old(file)| && forall f :: 0 <= f < |file| && file[f].ref > 0 ==> file[f].kind == old(file)[f].kind
    {
      for fd := 0 to NOFILE
        invariant Settled() && forall k :: 0 <= k < fd ==> (p, k) !in ofile
        invariant |file| == |old(file)| && forall f :: 0 <= f < |file| && file[f].ref > 0 ==> file[f].kind == old(file)[f].kind
        invariant forall s: Slot :: s.0 != p ==> (s in ofile <==> s in old(ofile)) && (s in ofile ==> ofile[s] == old(ofile)[s])
      {
        if (p, fd) in ofile { CloseSlot(p, fd); }
      }
    }
  }
}
