/** Open files of src/file.c and src/sysfile.c: who refers to which file, and which pipe ends are open. */
module FileRefs {
  import opened Common

  /** A descriptor: a process and an index into its table. */
  type Slot = (int, int)
  type Slots = map<Slot, int>

  datatype Kind = FdNone | FdPipe(page: int, writable: bool) | FdInode(ip: int)
  datatype File = File(ref: nat, kind: Kind)
  datatype Ends = Ends(readopen: bool, writeopen: bool)

  /** The descriptors that name file f. */
  ghost function Named(ofile: Slots, f: int): set<Slot> { set s | s in ofile && ofile[s] == f }

  /** Every reference is a descriptor or one the running system call has in hand. */
  ghost predicate RefsAre(files: seq<File>, ofile: Slots, hand: multiset<int>) {
    && (forall f :: 0 <= f < |files| ==> files[f].ref == |Named(ofile, f)| + hand[f] && (files[f].ref == 0 ==> files[f].kind == FdNone))
    && (forall s :: s in ofile ==> 0 <= ofile[s] < |files|)
  }

  ghost predicate HasEnd(files: seq<File>, page: int, writable: bool) {
    exists f :: 0 <= f < |files| && files[f].kind == FdPipe(page, writable)
  }

  function Open(e: Ends, writable: bool): bool { if writable then e.writeopen else e.readopen }

  function Shut(e: Ends, writable: bool): Ends { if writable then e.(writeopen := false) else e.(readopen := false) }

  /** A pipe page is allocated exactly while one of its ends is a file, and knows which. */
  ghost predicate PipesAre(files: seq<File>, pipes: map<int, Ends>) {
    && (forall q :: q in pipes ==> pipes[q].readopen || pipes[q].writeopen)
    && (forall q, wr :: q in pipes ==> (Open(pipes[q], wr) <==> HasEnd(files, q, wr)))
    && (forall f :: 0 <= f < |files| && files[f].kind.FdPipe? ==> files[f].kind.page in pipes)
    && (forall f, g :: 0 <= f < g < |files| && files[f].kind.FdPipe? ==> files[f].kind != files[g].kind)
  }

  ghost predicate Ok(files: seq<File>, ofile: Slots, hand: multiset<int>, pipes: map<int, Ends>) {
    forall k: int {:trigger Seal((files, hand), k)} :: Seal((files, hand), k) ==> RefsAre(files, ofile, hand) && PipesAre(files, pipes)
  }

  lemma OpenOk(files: seq<File>, ofile: Slots, hand: multiset<int>, pipes: map<int, Ends>)
    requires Ok(files, ofile, hand, pipes)
    ensures RefsAre(files, ofile, hand) && PipesAre(files, pipes)
  {
    assert Seal((files, hand), 0);
  }

  lemma FreeFile(files: seq<File>, ofile: Slots, hand: multiset<int>, pipes: map<int, Ends>, f: int)
    requires Ok(files, ofile, hand, pipes) && 0 <= f < |files|
    ensures files[f].ref == 0 ==> files[f] == File(0, FdNone)
    ensures hand[f] > 0 ==> files[f].ref > 0
  {
    OpenOk(files, ofile, hand, pipes);
  }

  lemma NoFiles(n: nat)
    ensures Ok(seq(n, _ => File(0, FdNone)), map[], multiset{}, map[])
  {
    var files := seq(n, _ => File(0, FdNone));
    forall f ensures Named(map[], f) == {} {}
    assert RefsAre(files, map[], multiset{});
  }

  // ----- Counting -----

  lemma NamedAdd(ofile: Slots, s: Slot, f: int, g: int)
    requires s !in ofile
    ensures |Named(ofile[s := f], g)| == |Named(ofile, g)| + (if g == f then 1 else 0)
  {
    if g == f {
      assert Named(ofile[s := f], g) == Named(ofile, g) + {s};
    } else {
      assert Named(ofile[s := f], g) == Named(ofile, g);
    }
  }

  lemma NamedDrop(ofile: Slots, s: Slot, g: int)
    requires s in ofile
    ensures |Named(ofile, g)| == |Named(ofile - {s}, g)| + (if g == ofile[s] then 1 else 0)
  {
    NamedAdd(ofile - {s}, s, ofile[s], g);
    assert (ofile - {s})[s := ofile[s]] == ofile;
  }

  // ----- References -----

  /** filealloc hands out a reference. */
  lemma TakeFree(files: seq<File>, ofile: Slots, hand: multiset<int>, pipes: map<int, Ends>, f: int)
    requires Ok(files, ofile, hand, pipes) && 0 <= f < |files| && files[f].ref == 0
    ensures Ok(files[f := files[f].(ref := 1)], ofile, hand + multiset{f}, pipes)
  {
    OpenOk(files, ofile, hand, pipes);
    SameKinds(files, files[f := files[f].(ref := 1)], pipes);
  }

  lemma SameKinds(files: seq<File>, files': seq<File>, pipes: map<int, Ends>)
    requires PipesAre(files, pipes) && |files'| == |files| && forall f :: 0 <= f < |files| ==> files'[f].kind == files[f].kind
    ensures PipesAre(files', pipes)
  {
    forall q, wr ensures HasEnd(files', q, wr) <==> HasEnd(files, q, wr) {
      if HasEnd(files', q, wr) {
        var f :| 0 <= f < |files'| && files'[f].kind == FdPipe(q, wr);
        assert files[f].kind == FdPipe(q, wr);
      }
      if HasEnd(files, q, wr) {
        var f :| 0 <= f < |files| && files[f].kind == FdPipe(q, wr);
        assert files'[f].kind == FdPipe(q, wr);
      }
    }
  }

  /** A reference in hand goes into a descriptor. */
  lemma PlaceHeld(files: seq<File>, ofile: Slots, hand: multiset<int>, pipes: map<int, Ends>, s: Slot, f: int)
    requires Ok(files, ofile, hand + multiset{f}, pipes) && s !in ofile && 0 <= f < |files|
    ensures Ok(files, ofile[s := f], hand, pipes)
  {
    OpenOk(files, ofile, hand + multiset{f}, pipes);
    forall g | 0 <= g < |files| ensures files[g].ref == |Named(ofile[s := f], g)| + hand[g] { NamedAdd(ofile, s, f, g); }
  }

  /** A descriptor is cleared: its reference is in hand. */
  lemma PickUp(files: seq<File>, ofile: Slots, hand: multiset<int>, pipes: map<int, Ends>, s: Slot)
    requires Ok(files, ofile, hand, pipes) && s in ofile
    ensures 0 <= ofile[s] < |files| && files[ofile[s]].ref >= 1 && Ok(files, ofile - {s}, hand + multiset{ofile[s]}, pipes)
  {
    OpenOk(files, ofile, hand, pipes);
    forall g | 0 <= g < |files| ensures files[g].ref == |Named(ofile - {s}, g)| + (hand + multiset{ofile[s]})[g] { NamedDrop(ofile, s, g); }
  }

  /** A second descriptor for a file that has one. */
  lemma Duplicate(files: seq<File>, ofile: Slots, hand: multiset<int>, pipes: map<int, Ends>, s: Slot, f: int)
    requires Ok(files, ofile, hand, pipes) && s !in ofile && 0 <= f < |files| && files[f].ref >= 1
    ensures Ok(files[f := files[f].(ref := files[f].ref + 1)], ofile[s := f], hand, pipes)
  {
    OpenOk(files, ofile, hand, pipes);
    var files' := files[f := files[f].(ref := files[f].ref + 1)];
    forall g | 0 <= g < |files| ensures files'[g].ref == |Named(ofile[s := f], g)| + hand[g] { NamedAdd(ofile, s, f, g); }
    SameKinds(files, files', pipes);
  }

  /** fileclose while others still refer to the file. */
  lemma DropShared(files: seq<File>, ofile: Slots, hand: multiset<int>, pipes: map<int, Ends>, f: int)
    requires Ok(files, ofile, hand + multiset{f}, pipes) && 0 <= f < |files| && files[f].ref > 1
    ensures Ok(files[f := files[f].(ref := files[f].ref - 1)], ofile, hand, pipes)
  {
    OpenOk(files, ofile, hand + multiset{f}, pipes);
    SameKinds(files, files[f := files[f].(ref := files[f].ref - 1)], pipes);
  }

  /** Whether a pipe end is a file depends on the files of that kind alone. */
  lemma SameEnd(files: seq<File>, files': seq<File>, q: int, wr: bool)
    requires |files'| == |files| && forall g :: 0 <= g < |files| ==> (files[g].kind == FdPipe(q, wr) <==> files'[g].kind == FdPipe(q, wr))
    ensures HasEnd(files', q, wr) <==> HasEnd(files, q, wr)
  {
    if HasEnd(files', q, wr) {
      var g :| 0 <= g < |files'| && files'[g].kind == FdPipe(q, wr);
      assert files[g].kind == FdPipe(q, wr);
    }
    if HasEnd(files, q, wr) {
      var g :| 0 <= g < |files| && files[g].kind == FdPipe(q, wr);
      assert files'[g].kind == FdPipe(q, wr);
    }
  }

  /** What pipeclose leaves of the pipe: its page goes when both ends are shut. */
  function AfterClose(pipes: map<int, Ends>, k: Kind): map<int, Ends> {
    if k.FdPipe? && k.page in pipes then
      var e := Shut(pipes[k.page], k.writable);
      if !e.readopen && !e.writeopen then pipes - {k.page} else pipes[k.page := e]
    else pipes
  }

  /** fileclose of the last reference. */
  lemma DropLast(files: seq<File>, ofile: Slots, hand: multiset<int>, pipes: map<int, Ends>, f: int)
    requires Ok(files, ofile, hand + multiset{f}, pipes) && 0 <= f < |files| && files[f].ref == 1
    ensures files[f].kind.FdPipe? ==> files[f].kind.page in pipes
    ensures Ok(files[f := File(0, FdNone)], ofile, hand, AfterClose(pipes, files[f].kind))
  {
    OpenOk(files, ofile, hand + multiset{f}, pipes);
    var files', pipes' := files[f := File(0, FdNone)], AfterClose(pipes, files[f].kind);
    var k := files[f].kind;
    forall q, wr | FdPipe(q, wr) != k ensures HasEnd(files', q, wr) <==> HasEnd(files, q, wr) {
      SameEnd(files, files', q, wr);
    }
    if k.FdPipe? { assert !HasEnd(files', k.page, k.writable); }
  }

  /** A file in hand gets its kind: an inode. */
  lemma BecomeInode(files: seq<File>, ofile: Slots, hand: multiset<int>, pipes: map<int, Ends>, f: int, ip: int)
    requires Ok(files, ofile, hand, pipes) && 0 <= f < |files| && files[f].ref >= 1 && files[f].kind == FdNone
    ensures Ok(files[f := files[f].(kind := FdInode(ip))], ofile, hand, pipes)
  {
    OpenOk(files, ofile, hand, pipes);
    var files' := files[f := files[f].(kind := FdInode(ip))];
    forall q, wr ensures HasEnd(files', q, wr) <==> HasEnd(files, q, wr) {
      SameEnd(files, files', q, wr);
    }
  }

  /** Two files in hand become the ends of a new pipe. */
  lemma BecomePipe(files: seq<File>, ofile: Slots, hand: multiset<int>, pipes: map<int, Ends>, f0: int, f1: int, page: int, files': seq<File>)
    requires Ok(files, ofile, hand, pipes) && 0 <= f0 < |files| && 0 <= f1 < |files| && f0 != f1 && page !in pipes
    requires files[f0].ref >= 1 && files[f0].kind == FdNone && files[f1].ref >= 1 && files[f1].kind == FdNone
    requires files' == files[f0 := files[f0].(kind := FdPipe(page, false))][f1 := files[f1].(kind := FdPipe(page, true))]
    ensures Ok(files', ofile, hand, pipes[page := Ends(true, true)])
  {
    OpenOk(files, ofile, hand, pipes);
    forall g | 0 <= g < |files| && files[g].kind.FdPipe? ensures files[g].kind.page != page {}
    forall q, wr | q != page ensures HasEnd(files', q, wr) <==> HasEnd(files, q, wr) {
      SameEnd(files, files', q, wr);
    }
    assert files'[f0].kind == FdPipe(page, false) && files'[f1].kind == FdPipe(page, true);
    assert HasEnd(files', page, false) && HasEnd(files', page, true);
  }

  /** Some descriptor names that end of the pipe on page q. */
  ghost predicate Reached(files: seq<File>, ofile: Slots, q: int, writable: bool) {
    exists s :: s in ofile && 0 <= ofile[s] < |files| && files[ofile[s]].kind == FdPipe(q, writable)
  }

  /** Between system calls a pipe's page is allocated, and an end of it open, exactly while a descriptor names that end. */
  lemma EndsOpenExactly(files: seq<File>, ofile: Slots, pipes: map<int, Ends>, q: int, writable: bool)
    requires Ok(files, ofile, multiset{}, pipes)
    ensures q in pipes && Open(pipes[q], writable) <==> Reached(files, ofile, q, writable)
    ensures q in pipes <==> Reached(files, ofile, q, false) || Reached(files, ofile, q, true)
  {
    OpenOk(files, ofile, multiset{}, pipes);
    forall wr ensures q in pipes && Open(pipes[q], wr) <==> Reached(files, ofile, q, wr) {
      if Reached(files, ofile, q, wr) {
        var s :| s in ofile && 0 <= ofile[s] < |files| && files[ofile[s]].kind == FdPipe(q, wr);
        assert files[ofile[s]].kind.page in pipes;
        assert HasEnd(files, q, wr);
      }
      if q in pipes && Open(pipes[q], wr) {
        assert HasEnd(files, q, wr);
        var f :| 0 <= f < |files| && files[f].kind == FdPipe(q, wr);
        assert files[f].ref == |Named(ofile, f)| + multiset{}[f];
        assert Named(ofile, f) != {};
        var s :| s in Named(ofile, f);
      }
    }
  }
}
