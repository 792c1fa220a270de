/**
 * The code of src/vm.c and src/kalloc.c over one physical memory: the frame free list, the
 * page-table walk, growing, shrinking, copying and freeing a user address space.
 */
module Vm {
  import opened Common
  import opened PageTable

  const JUNK: nat := 0x0101_0101_0101_0101
  const USER_TOP: nat := USER_PAGES * PGSIZE
  const PHYS_FRAMES: nat := 0xE000  // PHYSTOP / PGSIZE
  const WORD32: nat := 0x1_0000_0000
  const WORD64: nat := 0x1_0000_0000_0000_0000

  /** What a call that may panic came to. */
  datatype Outcome<T> =
    | Done(value: T)
    | NoFrames        // kalloc: "Out of memory!"
    | Remap           // mappages: "remap"
    | NotPresent      // copyuvm: "pte should exist" or "page not present"

  datatype Walked = Table(frame: Frame) | Absent | Exhausted

  ghost function SetOf(s: seq<Frame>): set<Frame> { set f | f in s }

  ghost predicate Distinct(s: seq<Frame>) {
    forall i, j :: 0 <= i < j < |s| ==> s[i] != s[j]
  }

  /** First page number at or above byte address a. */
  function PageUp(a: nat): nat { (a + PGSIZE - 1) / PGSIZE }

  // ----- What the operations keep -----

  /** The kernel's address of frame f. */
  function Address(f: Frame): nat { KERNBASE + f * PGSIZE }

  /** What the link to entry i of the free list holds: an address, or 0 at the end. */
  ghost function Link(free: seq<Frame>, i: nat): nat { if i < |free| then Address(free[i]) else 0 }

  /** The first word of every free frame is the address of the next one. */
  ghost predicate Linked(mem: Memory, free: seq<Frame>) {
    forall i :: 0 <= i < |free| ==> free[i] in mem && |mem[free[i]]| == ENTRIES && mem[free[i]][0] == Link(free, i + 1)
  }

  ghost predicate Chained(mem: Memory, free: seq<Frame>) {
    forall z: int {:trigger Seal((mem, free), z)} :: Seal((mem, free), z) ==> Linked(mem, free)
  }

  /** The free list holds each frame at most once, linked through the frames; all lie below PHYSTOP. */
  ghost predicate Listed(mem: Memory, free: seq<Frame>) {
    && Shape(mem) && (forall f :: f in mem ==> 0 < f < PHYS_FRAMES) && Distinct(free)
    && (forall f :: f in SetOf(free) ==> f in mem) && Chained(mem, free)
  }

  /** And it never holds the shared kernel table. */
  ghost predicate Pool(mem: Memory, free: seq<Frame>, kpdpt: Frame) {
    Listed(mem, free) && kpdpt !in free
  }

  /** Changing frames that are not free leaves the list alone. */
  lemma StillListed(mem: Memory, mem': Memory, free: seq<Frame>)
    requires Listed(mem, free) && Shape(mem') && mem'.Keys == mem.Keys
    requires forall f :: f in SetOf(free) ==> mem'[f] == mem[f]
    ensures Listed(mem', free)
  {
    assert Seal((mem, free), 0);
    forall i | 0 <= i < |free| ensures free[i] in mem' && mem'[free[i]] == mem[free[i]] { assert free[i] in SetOf(free); }
  }

  /** An address space: a tree of frames of its own, with the shared kernel half. */
  ghost predicate Space(mem: Memory, free: seq<Frame>, kpdpt: Frame, root: Frame) {
    && Tree(mem, root) && Frames(mem, root) !! SetOf(free) && kpdpt !in Frames(mem, root)
    && mem[root][KERNEL_SLOT] == Entry(kpdpt, PTE_W)
  }

  /** Frames only move between the tree, the free list and the caller's hands; all others are untouched. */
  ghost predicate Conserves(mem: Memory, free: seq<Frame>, held: set<Frame>,
                            mem': Memory, free': seq<Frame>, held': set<Frame>, root: Frame) {
    && mem'.Keys == mem.Keys
    && Frames(mem', root) + SetOf(free') + held' == Frames(mem, root) + SetOf(free) + held
    && (forall f :: f in mem && f !in Frames(mem, root) + SetOf(free) + held ==> mem'[f] == mem[f])
  }

  lemma ConservesTrans(mem0: Memory, free0: seq<Frame>, held0: set<Frame>,
                       mem1: Memory, free1: seq<Frame>, held1: set<Frame>,
                       mem2: Memory, free2: seq<Frame>, held2: set<Frame>, root: Frame)
    requires Conserves(mem0, free0, held0, mem1, free1, held1, root)
    requires Conserves(mem1, free1, held1, mem2, free2, held2, root)
    ensures Conserves(mem0, free0, held0, mem2, free2, held2, root)
  {
  }

  ghost predicate SamePage(mem: Memory, mem': Memory, root: Frame, v: nat) {
    && Translate(mem', root, v) == Translate(mem, root, v)
    && (Translate(mem, root, v).Some? ==>
          var f := Translate(mem, root, v).value.frame;
          f in mem && f in mem' && mem'[f] == mem[f])
  }

  /** Pages outside [lo, hi) keep their frame, their flags and their contents. */
  ghost predicate SameOutside(mem: Memory, mem': Memory, root: Frame, lo: nat, hi: nat) {
    forall v :: 0 <= v < USER_PAGES && !(lo <= v < hi) ==> SamePage(mem, mem', root, v)
  }

  lemma SameTrans(mem0: Memory, mem1: Memory, mem2: Memory, root: Frame, lo: nat, mid: nat, hi: nat)
    requires lo <= mid <= hi
    requires SameOutside(mem0, mem1, root, lo, mid) && SameOutside(mem1, mem2, root, mid, hi)
    ensures SameOutside(mem0, mem2, root, lo, hi)
  {
    forall v | 0 <= v < USER_PAGES && !(lo <= v < hi) ensures SamePage(mem0, mem2, root, v) {
      assert SamePage(mem0, mem1, root, v) && SamePage(mem1, mem2, root, v);
    }
  }

  lemma SameRefl(mem: Memory, root: Frame, lo: nat, hi: nat)
    requires Tree(mem, root)
    ensures SameOutside(mem, mem, root, lo, hi)
  {
    forall v | 0 <= v < USER_PAGES ensures SamePage(mem, mem, root, v) {
      MappedIsLeaf(mem, root, v);
    }
  }

  ghost predicate Unmapped(mem: Memory, root: Frame, lo: nat, hi: nat) {
    forall v :: 0 <= v < USER_PAGES && lo <= v < hi ==> Translate(mem, root, v).None?
  }

  lemma StoreKeepsPage(mem: Memory, mem': Memory, root: Frame, touched: set<Frame>, v: nat)
    requires Tree(mem, root) && v < USER_PAGES && Translate(mem', root, v) == Translate(mem, root, v)
    requires mem'.Keys == mem.Keys && forall f :: f in mem && f !in touched ==> mem'[f] == mem[f]
    requires forall f :: f in touched ==> !At(mem, root, PathOf(v), f)
    ensures SamePage(mem, mem', root, v)
  {
    MappedIsLeaf(mem, root, v);
  }

  class Machine {
    var kpdpt: Frame
    var mem: Memory
    var freelist: nat           // kmem.freelist, the address of a frame or 0
    ghost var free: seq<Frame>  // the frames it leads to

    ghost predicate Ready() reads this { Pool(mem, free, kpdpt) && freelist == Link(free, 0) }

    /** freerange and kvmalloc over the frames [lo, hi): two tables are taken, the rest is free. */
    constructor (mem: Memory, lo: nat, hi: nat)
      requires Shape(mem) && 0 < lo && lo + 2 <= hi <= PHYS_FRAMES
      requires (forall f :: f in mem ==> lo <= f < hi) && (forall f: nat :: lo <= f < hi ==> f in mem)
      ensures Ready() && this.mem.Keys == mem.Keys && lo <= kpdpt < hi && |free| == hi - lo - 2
    {
      this.mem, freelist, free, kpdpt := mem, 0, [], 0;
      new;
      assert SetOf(free) == {};
      FreeRange(lo, hi);
      assert free[1] in free;
      KvmAlloc();
    }

    /** freerange: every frame of the range goes onto the list. */
    method FreeRange(lo: nat, hi: nat)
      requires Listed(mem, free) && freelist == Link(free, 0) && lo <= hi
      requires forall f: nat :: lo <= f < hi ==> f in mem && f !in free
      modifies this`mem, this`free, this`freelist
      ensures Listed(mem, free) && freelist == Link(free, 0) && mem.Keys == old(mem.Keys)
      ensures |free| == |old(free)| + hi - lo && forall f :: f in free ==> f in old(free) || lo <= f < hi
    {
      var p := lo;
      while p < hi
        invariant lo <= p <= hi && Listed(mem, free) && freelist == Link(free, 0) && mem.Keys == old(mem.Keys)
        invariant |free| == |old(free)| + p - lo && forall f :: f in free ==> f in old(free) || lo <= f < p
      {
        Kfree(p);
        p := p + 1;
      }
    }

    /** kvmalloc takes the top-level table and the table all address spaces share. */
    method KvmAlloc()
      requires Listed(mem, free) && freelist == Link(free, 0) && |free| >= 2
      modifies this`free, this`freelist, this`kpdpt
      ensures Ready() && free == old(free)[2..] && kpdpt == old(free)[1]
    {
      var kpml4 := Kalloc();
      var t := Kalloc();
      kpdpt := t.value;
    }

    /**
     * kalloc: takes one frame off the list, one that is in nobody's hands and is not the kernel's
     * table; None, where the source panics, exactly when no frame is free.
     */
    method Kalloc() returns (r: Option<Frame>)
      requires Listed(mem, free) && freelist == Link(free, 0)
      modifies this`free, this`freelist
      ensures Listed(mem, free) && freelist == Link(free, 0)
      ensures r.None? <==> old(SetOf(free)) == {}
      ensures r.None? ==> free == [] && old(free) == []
      ensures r.Some? ==> old(free) != [] && r == Some(old(free)[0]) && free == old(free)[1..]
      ensures r.Some? ==> r.value in mem && r.value !in free && SetOf(free) == old(SetOf(free)) - {r.value}
      ensures r.Some? && kpdpt !in old(free) ==> r.value != kpdpt && kpdpt !in free
    {
      if freelist == 0 {
        assert SetOf(free) == {};
        return None;
      }
      ghost var f := free[0];
      assert mem[f][0] == Link(free, 1) by { assert Seal((mem, free), 0); }
      var p := (freelist - KERNBASE) / PGSIZE;
      FrameOfAddress(f);
      PopList(mem, free);
      r := Some(p);
      freelist := mem[p][0];
      free := free[1..];
    }

    /** kfree: fills the frame with junk, links it to the head and makes it the head. Its range panic is f !in mem. */
    method Kfree(f: Frame)
      requires Listed(mem, free) && freelist == Link(free, 0) && f in mem && f !in free
      modifies this`mem, this`free, this`freelist
      ensures mem == old(mem)[f := Filled(JUNK)[0 := old(freelist)]] && free == [f] + old(free)
      ensures Listed(mem, free) && freelist == Link(free, 0) && SetOf(free) == old(SetOf(free)) + {f}
      ensures kpdpt !in old(free) && f != kpdpt ==> kpdpt !in free
    {
      var page: Words := Filled(JUNK);
      page := page[0 := freelist];
      PushList(mem, free, f, page);
      mem := mem[f := page];
      freelist := Address(f);
      free := [f] + free;
    }

    /** The "allocate" arm of one level of walkpgdir. */
    method AttachTable(root: Frame, cur: Frame, i: nat, ghost p0: seq<nat>) returns (z: Option<Frame>)
      requires Ready() && Space(mem, free, kpdpt, root)
      requires UserPath(p0 + [i]) && |p0| < 3 && Walk(mem, root, p0) == Some(cur)
      requires cur in mem && i < ENTRIES && !Present(mem[cur][i])
      modifies this`mem, this`free, this`freelist
      ensures z.None? ==> old(free) == []
      ensures z.Some? ==> |free| == |old(free)| - 1
      ensures z.Some? ==> Ready() && Space(mem, free, kpdpt, root)
      ensures z.Some? ==> Walk(mem, root, p0 + [i]) == z && z.value in mem
      ensures z.Some? ==> Conserves(old(mem), old(free), {}, mem, free, {}, root)
      ensures z.Some? ==> SameOutside(old(mem), mem, root, 0, 0)
      ensures z.Some? ==> Frames(mem, root) >= old(Frames(mem, root))
    {
      z := Kalloc();
      if z.None? { return; }
      ghost var mem0, free0 := mem, old(free);
      PopSet(free0);
      assert z.value in SetOf(free0);
      TreeFrames(mem, root);
      ExtendUser(p0, i);
      assert At(mem, root, p0, cur);
      mem := mem[z.value := Filled(0)];
      mem := Store(mem, cur, i, Entry(z.value, PTE_W + PTE_U));
      AttachFacts(mem0, mem, root, p0, i, cur, z.value, kpdpt);
      StillListed(mem0, mem, free);
    }

    /**
     * walkpgdir. Without alloc it reads only; with alloc it may add empty tables, which the
     * map from pages to frames cannot see.
     */
    method WalkPgdir(root: Frame, v: nat, alloc: bool) returns (r: Walked)
      requires Ready() && Space(mem, free, kpdpt, root) && v < USER_PAGES
      modifies this`mem, this`free, this`freelist
      ensures r.Exhausted? ==> alloc && |old(free)| < 3
      ensures !r.Exhausted? ==> |free| >= |old(free)| - 3
      ensures !alloc ==> mem == old(mem) && free == old(free)
      ensures r.Absent? ==> !alloc && Walk(mem, root, PathOf(v)[..3]).None?
      ensures r.Table? ==> Walk(mem, root, PathOf(v)[..3]) == Some(r.frame) && r.frame in mem
      ensures !r.Exhausted? ==> Ready() && Space(mem, free, kpdpt, root)
      ensures !r.Exhausted? ==> Conserves(old(mem), old(free), {}, mem, free, {}, root)
      ensures !r.Exhausted? ==> SameOutside(old(mem), mem, root, 0, 0)
      ensures !r.Exhausted? ==> Frames(mem, root) >= old(Frames(mem, root))
    {
      SplitPath(v);
      r := Descend(root, PathOf(v)[..3], alloc);
    }

    /** Down the three levels of tables. */
    method Descend(root: Frame, path: seq<nat>, alloc: bool) returns (r: Walked)
      requires Ready() && Space(mem, free, kpdpt, root) && UserPath(path) && |path| == 3
      modifies this`mem, this`free, this`freelist
      ensures r.Exhausted? ==> alloc && |old(free)| < 3
      ensures !r.Exhausted? ==> |free| >= |old(free)| - 3
      ensures !alloc ==> mem == old(mem) && free == old(free)
      ensures r.Absent? ==> !alloc && Walk(mem, root, path).None?
      ensures r.Table? ==> Walk(mem, root, path) == Some(r.frame) && r.frame in mem
      ensures !r.Exhausted? ==> Ready() && Space(mem, free, kpdpt, root)
      ensures !r.Exhausted? ==> Conserves(old(mem), old(free), {}, mem, free, {}, root)
      ensures !r.Exhausted? ==> SameOutside(old(mem), mem, root, 0, 0)
      ensures !r.Exhausted? ==> Frames(mem, root) >= old(Frames(mem, root))
    {
      var cur, level := root, 0;
      assert path[..0] == [] && path[..3] == path;
      ReachedSame(mem, free, root);
      while level < 3
        invariant level <= 3 && |free| >= |old(free)| - level && cur in mem && Walk(mem, root, path[..level]) == Some(cur)
        invariant !alloc ==> mem == old(mem) && free == old(free)
        invariant Ready() && Space(mem, free, kpdpt, root) && Reached(old(mem), old(free), mem, free, root)
      {
        assert path[..level + 1] == path[..level] + [path[level]];
        UserPrefix(path[..level + 1], path);
        if Present(mem[cur][path[level]]) {
          cur := FrameOf(mem[cur][path[level]]);
          assert At(mem, root, path[..level + 1], cur);
        } else if !alloc {
          WalkPrefix(mem, root, path[..level + 1], path);
          OpenReached(old(mem), old(free), mem, free, root);
          return Absent;
        } else {
          var z := ExtendWalk(root, cur, path[level], path[..level], old(mem), old(free));
          if z.None? { return Exhausted; }
          cur := z.value;
        }
        level := level + 1;
      }
      OpenReached(old(mem), old(free), mem, free, root);
      r := Table(cur);
    }

    /** A missing table on the way. */
    method ExtendWalk(root: Frame, cur: Frame, i: nat, ghost p0: seq<nat>, ghost mem0: Memory, ghost free0: seq<Frame>) returns (z: Option<Frame>)
      requires Ready() && Space(mem, free, kpdpt, root) && Reached(mem0, free0, mem, free, root)
      requires UserPath(p0 + [i]) && |p0| < 3 && Walk(mem, root, p0) == Some(cur)
      requires cur in mem && i < ENTRIES && !Present(mem[cur][i])
      modifies this`mem, this`free, this`freelist
      ensures z.None? ==> old(free) == []
      ensures z.Some? ==> |free| == |old(free)| - 1 && Ready() && Space(mem, free, kpdpt, root) && Reached(mem0, free0, mem, free, root)
      ensures z.Some? ==> Walk(mem, root, p0 + [i]) == z && z.value in mem
    {
      ghost var mem1, free1 := mem, free;
      z := AttachTable(root, cur, i, p0);
      if z.Some? { ReachedMore(mem0, free0, mem1, free1, mem, free, root); }
    }

    /** mappages for one page: v is mapped to frame z, which the caller holds. */
    method MapPage(root: Frame, v: nat, z: Frame, perm: nat) returns (r: Outcome<()>)
      requires Ready() && Space(mem, free, kpdpt, root) && v < USER_PAGES
      requires perm < PGSIZE && z in mem && z !in Frames(mem, root) && z !in free && z != kpdpt
      modifies this`mem, this`free, this`freelist
      ensures r.Done? || r.NoFrames? || r.Remap?
      ensures r.NoFrames? ==> |old(free)| < 3
      ensures r.Done? ==> |free| >= |old(free)| - 3
      ensures r.Remap? ==> old(Translate(mem, root, v).Some?)
      ensures r.Done? ==> old(Translate(mem, root, v).None?)
      ensures r.Done? ==> Translate(mem, root, v) == Some(Pte(z, Permit(perm)))
      ensures r.Done? ==> z in mem && mem[z] == old(mem[z]) && z in Frames(mem, root)
      ensures r.Done? ==> SameOutside(old(mem), mem, root, v, v + 1)
      ensures r.Done? ==> Ready() && Space(mem, free, kpdpt, root)
      ensures r.Done? ==> Conserves(old(mem), old(free), {z}, mem, free, {}, root)
      ensures r.Done? ==> Frames(mem, root) >= old(Frames(mem, root))
    {
      assert z !in Frames(mem, root) + SetOf(free);
      var w := WalkPgdir(root, v, true);
      if w.Exhausted? { return NoFrames; }
      assert SamePage(old(mem), mem, root, v);
      if Present(mem[w.frame][v % ENTRIES]) { return Remap; }
      ghost var mem1, free1 := mem, free;
      HoldPage(root, v, w.frame, z, Entry(z, perm));
      SameTrans(old(mem), mem1, mem, root, v, v, v + 1);
      ConservesTrans(old(mem), old(free), {z}, mem1, free1, {z}, mem, free, {}, root);
      r := Done(());
    }

    /** The store at the end of mappages. */
    method HoldPage(root: Frame, v: nat, t: Frame, z: Frame, e: nat)
      requires Ready() && Space(mem, free, kpdpt, root) && v < USER_PAGES
      requires Walk(mem, root, PathOf(v)[..3]) == Some(t) && t in mem && !Present(mem[t][v % ENTRIES])
      requires z in mem && z !in Frames(mem, root) && z !in free && z != kpdpt
      requires Present(e) && FrameOf(e) == z
      modifies this`mem
      ensures Translate(mem, root, v) == Some(Pte(z, FlagsOf(e)))
      ensures z in mem && mem[z] == old(mem[z]) && Frames(mem, root) == old(Frames(mem, root)) + {z}
      ensures SameOutside(old(mem), mem, root, v, v + 1)
      ensures Ready() && Space(mem, free, kpdpt, root)
      ensures Conserves(old(mem), free, {z}, mem, free, {}, root)
    {
      mem := Store(mem, t, v % ENTRIES, e);
      MapFacts(old(mem), mem, root, v, t, z, e);
      StillListed(old(mem), mem, free);
    }


    /** kalloc, fill, mappages: the body shared by the loops of allocuvm and copyuvm. */
    method AddPage(root: Frame, v: nat, contents: Words, perm: nat) returns (r: Outcome<Frame>)
      requires Ready() && Space(mem, free, kpdpt, root) && v < USER_PAGES
      requires perm < PGSIZE && |contents| == ENTRIES
      modifies this`mem, this`free, this`freelist
      ensures r.Done? || r.NoFrames? || r.Remap?
      ensures r.NoFrames? ==> |old(free)| < 4
      ensures r.Done? ==> |free| >= |old(free)| - 4
      ensures r.Remap? ==> old(Translate(mem, root, v).Some?)
      ensures r.Done? ==> old(Translate(mem, root, v).None?)
      ensures r.Done? ==> PageIs(mem, root, v, Permit(perm), contents) && r.value in old(free)
      ensures r.Done? ==> Translate(mem, root, v).value.frame == r.value
      ensures r.Done? ==> SameOutside(old(mem), mem, root, v, v + 1)
      ensures r.Done? ==> Ready() && Space(mem, free, kpdpt, root)
      ensures r.Done? ==> Conserves(old(mem), old(free), {}, mem, free, {}, root)
    {
      ghost var mem0, free0 := mem, free;
      var z := Kalloc();
      if z.None? { return NoFrames; }
      TakeFacts(mem0, free0, kpdpt, root, contents);
      mem := mem[z.value := contents];
      ghost var mem1, free1 := mem, free;
      assert SamePage(mem0, mem1, root, v);
      var m := MapPage(root, v, z.value, perm);
      match m
      case Done(_) =>
        SameTrans(mem0, mem1, mem, root, v, v, v + 1);
        ConservesTrans(mem0, free0, {}, mem1, free1, {z.value}, mem, free, {}, root);
        return Done(z.value);
      case NoFrames => return NoFrames;
      case Remap => return Remap;
      case NotPresent => assert false;
    }

    /**
     * allocuvm. On success exactly the pages from PGROUNDUP(oldsz) up to newsz become mapped,
     * each to a zeroed frame of its own, writable by the user.
     */
    method AllocUvm(root: Frame, oldsz: nat, newsz: nat) returns (r: Outcome<nat>)
      requires Ready() && Space(mem, free, kpdpt, root)
      requires newsz <= USER_TOP || newsz >= KERNBASE
      modifies this`mem, this`free, this`freelist
      ensures r.Done? || r.NoFrames? || r.Remap?
      ensures newsz >= KERNBASE ==> r == Done(0) && mem == old(mem) && free == old(free)
      ensures newsz < KERNBASE && newsz < oldsz ==> r == Done(oldsz) && mem == old(mem) && free == old(free)
      ensures r.NoFrames? ==> |old(free)| < 4 * (PageUp(newsz) - PageUp(oldsz))
      ensures r.Remap? ==> !Unmapped(old(mem), root, PageUp(oldsz), PageUp(newsz))
      ensures r.Done? && oldsz <= newsz < KERNBASE ==>
                && r.value == newsz
                && PagesAre(mem, root, PageUp(oldsz), PageUp(newsz), PTE_P + PTE_W + PTE_U, Filled(0))
      ensures r.Done? ==>
                && SameOutside(old(mem), mem, root, PageUp(oldsz), PageUp(newsz))
                && Ready() && Space(mem, free, kpdpt, root)
                && Conserves(old(mem), old(free), {}, mem, free, {}, root)
    {
      SameRefl(mem, root, PageUp(oldsz), PageUp(newsz));
      if newsz >= KERNBASE { return Done(0); }
      if newsz < oldsz { return Done(oldsz); }
      r := AddPages(root, oldsz, newsz);
      if r.Done? { OpenAdded(old(mem), old(free), mem, free, root, PageUp(oldsz), PageUp(newsz)); }
    }

    /** The loop of allocuvm. */
    method AddPages(root: Frame, oldsz: nat, newsz: nat) returns (r: Outcome<nat>)
      requires Ready() && Space(mem, free, kpdpt, root) && oldsz <= newsz <= USER_TOP
      modifies this`mem, this`free, this`freelist
      ensures r == Done(newsz) || r.NoFrames? || r.Remap?
      ensures r.NoFrames? ==> |old(free)| < 4 * (PageUp(newsz) - PageUp(oldsz))
      ensures r.Remap? ==> !Unmapped(old(mem), root, PageUp(oldsz), PageUp(newsz))
      ensures r.Done? ==> Ready() && Space(mem, free, kpdpt, root)
      ensures r.Done? ==> Added(old(mem), old(free), mem, free, root, PageUp(oldsz), PageUp(newsz))
    {
      var a := PageUp(oldsz);
      AddedNone(mem, free, root, a);
      while a * PGSIZE < newsz
        invariant PageUp(oldsz) <= a <= PageUp(newsz) <= USER_PAGES && |free| >= |old(free)| - 4 * (a - PageUp(oldsz))
        invariant Ready() && Space(mem, free, kpdpt, root)
        invariant Added(old(mem), old(free), mem, free, root, PageUp(oldsz), a)
      {
        var m := AddNext(root, a, old(mem), old(free), PageUp(oldsz));
        if m.NoFrames? { return NoFrames; }
        if m.Remap? { return Remap; }
        a := a + 1;
      }
      r := Done(newsz);
    }

    /** One turn of it. */
    method AddNext(root: Frame, a: nat, ghost mem0: Memory, ghost free0: seq<Frame>, ghost lo: nat) returns (r: Outcome<Frame>)
      requires Ready() && Space(mem, free, kpdpt, root) && lo <= a < USER_PAGES
      requires Added(mem0, free0, mem, free, root, lo, a)
      modifies this`mem, this`free, this`freelist
      ensures r.Done? || r.NoFrames? || r.Remap?
      ensures r.NoFrames? ==> |old(free)| < 4
      ensures r.Remap? ==> Translate(mem0, root, a).Some?
      ensures r.Done? ==> |free| >= |old(free)| - 4 && Ready() && Space(mem, free, kpdpt, root)
      ensures r.Done? ==> Added(mem0, free0, mem, free, root, lo, a + 1)
    {
      ghost var mem1, free1 := mem, free;
      OpenAdded(mem0, free0, mem1, free1, root, lo, a);
      assert SamePage(mem0, mem1, root, a);
      r := AddPage(root, a, Filled(0), PTE_W + PTE_U);
      if r.Done? { AddedOne(mem0, free0, mem1, free1, mem, free, root, lo, a); }
    }

    /** One turn of deallocuvm's loop. */
    method DropPage(root: Frame, v: nat)
      requires Ready() && Space(mem, free, kpdpt, root) && v < USER_PAGES
      modifies this`mem, this`free, this`freelist
      ensures Translate(mem, root, v).None? && SameOutside(old(mem), mem, root, v, v + 1)
      ensures SetOf(free) == old(SetOf(free)) + PageFrames(old(mem), root, v, v + 1)
      ensures Ready() && Space(mem, free, kpdpt, root)
      ensures Conserves(old(mem), old(free), {}, mem, free, {}, root)
    {
      OnePage(mem, root, v);
      var w := WalkPgdir(root, v, false);
      SameRefl(mem, root, v, v + 1);
      if w.Table? && Present(mem[w.frame][v % ENTRIES]) { Unmap(root, v, w.frame); }
    }

    /** The frame of page v, whose entry is in leaf table t, is freed and the entry cleared. */
    method Unmap(root: Frame, v: nat, t: Frame)
      requires Ready() && Space(mem, free, kpdpt, root) && v < USER_PAGES
      requires Walk(mem, root, PathOf(v)[..3]) == Some(t) && t in mem && Present(mem[t][v % ENTRIES])
      modifies this`mem, this`free, this`freelist
      ensures Translate(mem, root, v).None? && SameOutside(old(mem), mem, root, v, v + 1)
      ensures old(Translate(mem, root, v)).Some? && SetOf(free) == old(SetOf(free)) + {old(Translate(mem, root, v)).value.frame}
      ensures Ready() && Space(mem, free, kpdpt, root)
      ensures Conserves(old(mem), old(free), {}, mem, free, {}, root)
    {
      var z := FrameOf(mem[t][v % ENTRIES]);
      ghost var mem0 := mem;
      DropFacts(mem, root, v, t, Filled(JUNK)[0 := freelist]);
      assert z != 0;  // so the panic on frame 0 cannot happen
      Kfree(z);
      ghost var mem1 := mem;
      mem := Store(mem, t, v % ENTRIES, 0);
      StillListed(mem1, mem, free);
    }

    /** deallocuvm: exactly the pages from PGROUNDUP(newsz) up to oldsz become unmapped. */
    method DeallocUvm(root: Frame, oldsz: nat, newsz: nat) returns (r: nat)
      requires Ready() && Space(mem, free, kpdpt, root) && oldsz <= USER_TOP
      modifies this`mem, this`free, this`freelist
      ensures newsz >= oldsz ==> r == oldsz && mem == old(mem) && free == old(free)
      ensures newsz < oldsz ==> r == newsz && Unmapped(mem, root, PageUp(newsz), PageUp(oldsz))
      ensures newsz < oldsz ==> SetOf(free) == old(SetOf(free)) + PageFrames(old(mem), root, PageUp(newsz), PageUp(oldsz))
      ensures SameOutside(old(mem), mem, root, PageUp(newsz), PageUp(oldsz))
      ensures Ready() && Space(mem, free, kpdpt, root)
      ensures Conserves(old(mem), old(free), {}, mem, free, {}, root)
    {
      SameRefl(mem, root, PageUp(newsz), PageUp(oldsz));
      if newsz >= oldsz { return oldsz; }
      DropPages(root, oldsz, newsz);
      OpenDropped(old(mem), old(free), mem, free, root, PageUp(newsz), PageUp(oldsz));
      r := newsz;
    }

    /** The loop of deallocuvm. */
    method DropPages(root: Frame, oldsz: nat, newsz: nat)
      requires Ready() && Space(mem, free, kpdpt, root) && newsz < oldsz <= USER_TOP
      modifies this`mem, this`free, this`freelist
      ensures Ready() && Space(mem, free, kpdpt, root)
      ensures Dropped(old(mem), old(free), mem, free, root, PageUp(newsz), PageUp(oldsz))
    {
      var a := PageUp(newsz);
      DroppedNone(mem, free, root, a);
      while a * PGSIZE < oldsz
        invariant PageUp(newsz) <= a <= PageUp(oldsz) <= USER_PAGES
        invariant Ready() && Space(mem, free, kpdpt, root)
        invariant Dropped(old(mem), old(free), mem, free, root, PageUp(newsz), a)
      {
        DropNext(root, a, old(mem), old(free), PageUp(newsz));
        a := a + 1;
      }
    }

    /** One turn of it. */
    method DropNext(root: Frame, a: nat, ghost mem0: Memory, ghost free0: seq<Frame>, ghost lo: nat)
      requires Ready() && Space(mem, free, kpdpt, root) && lo <= a < USER_PAGES
      requires Dropped(mem0, free0, mem, free, root, lo, a)
      modifies this`mem, this`free, this`freelist
      ensures Ready() && Space(mem, free, kpdpt, root) && Dropped(mem0, free0, mem, free, root, lo, a + 1)
    {
      ghost var mem1, free1 := mem, free;
      DropPage(root, a);
      DroppedOne(mem0, free0, mem1, free1, mem, free, root, lo, a);
    }

    /** setupkvm: an address space with nothing in it but the shared kernel half. */
    method SetupKvm() returns (r: Option<Frame>)
      requires Ready()
      modifies this`mem, this`free, this`freelist
      ensures r.None? ==> old(free) == []
      ensures r.Some? ==>
                && old(free) != [] && r.value == old(free)[0] && free == old(free)[1..]
                && mem.Keys == old(mem.Keys) && (forall f :: f in mem && f != r.value ==> mem[f] == old(mem)[f])
                && Ready() && Space(mem, free, kpdpt, r.value)
                && Frames(mem, r.value) == {r.value} && Unmapped(mem, r.value, 0, USER_PAGES)
    {
      ghost var mem0 := mem;
      r := Kalloc();
      if r.None? { return; }
      mem := mem[r.value := Filled(0)];
      mem := Store(mem, r.value, KERNEL_SLOT, Entry(kpdpt, PTE_W));
      EmptyTree(mem, r.value);
      StillListed(mem0, mem, free);
    }

    /** One turn of copyuvm's loop. */
    method CopyPage(root: Frame, child: Frame, v: nat) returns (r: Outcome<()>)
      requires Ready() && Space(mem, free, kpdpt, root) && Space(mem, free, kpdpt, child)
      requires v < USER_PAGES && Frames(mem, child) !! Frames(mem, root) && Translate(mem, child, v).None?
      modifies this`mem, this`free, this`freelist
      ensures r.Done? || r.NoFrames? || r.NotPresent?
      ensures r.NoFrames? ==> |old(free)| < 4
      ensures r.Done? ==> |free| >= |old(free)| - 4
      ensures r.NotPresent? ==> old(Translate(mem, root, v).None?)
      ensures r.Done? ==> Copied(old(mem), mem, root, child, v)
      ensures r.Done? ==> SameOutside(old(mem), mem, child, v, v + 1) && SameOutside(old(mem), mem, root, 0, 0)
      ensures r.Done? ==> Ready() && Space(mem, free, kpdpt, root) && Space(mem, free, kpdpt, child)
      ensures r.Done? ==> Frames(mem, root) == old(Frames(mem, root)) && Frames(mem, child) !! Frames(mem, root)
      ensures r.Done? ==> Conserves(old(mem), old(free), {}, mem, free, {}, child)
    {
      var w := WalkPgdir(root, v, false);
      if w.Absent? { return NotPresent; }
      var e := mem[w.frame][v % ENTRIES];
      if !Present(e) { return NotPresent; }
      assert Translate(mem, root, v) == Some(Pte(FrameOf(e), FlagsOf(e)));
      FlagsPresent(e);
      MappedIsLeaf(mem, root, v);
      ghost var mem1, free1 := mem, free;
      var m := AddPage(child, v, mem[FrameOf(e)], FlagsOf(e));
      if m.NoFrames? { return NoFrames; }
      assert m.Done?;  // the child's page v was unmapped, so no remap
      Bystander(mem1, free1, mem, free, kpdpt, Frames(mem1, child) + SetOf(free1), root);
      r := Done(());
    }

    /**
     * copyuvm. The child sees the parent's bytes and flags on every page below sz, in frames
     * of its own, and nothing else; the parent's address space is untouched. sz is a 32-bit
     * parameter in the source, but a process cannot have more pages than there are frames, so
     * the child of a process of any size gets all of its pages.
     */
    method CopyUvm(root: Frame, size: nat) returns (r: Outcome<Frame>)
      requires Ready() && Space(mem, free, kpdpt, root)
      modifies this`mem, this`free, this`freelist
      ensures r.Done? || r.NoFrames? || r.NotPresent?
      ensures r.NoFrames? ==> |old(free)| < 1 + 4 * PageUp(size % WORD32)
      ensures r.NotPresent? ==> exists v :: 1 <= v < PageUp(size % WORD32) && old(Translate(mem, root, v).None?)
      ensures r.Done? ==>
                && Ready() && Space(mem, free, kpdpt, root) && Space(mem, free, kpdpt, r.value)
                && CopyOf(old(mem), mem, root, r.value, 1, PageUp(size % WORD32))
                && Unmapped(mem, r.value, 0, 1) && Unmapped(mem, r.value, PageUp(size % WORD32), USER_PAGES)
                && Frames(mem, r.value) !! Frames(mem, root)
                && Frames(mem, root) == old(Frames(mem, root)) && SameOutside(old(mem), mem, root, 0, 0)
                && Frames(mem, r.value) + SetOf(free) == old(SetOf(free))
      ensures old(Layout(mem, root, size)) ==> !r.NotPresent? && (r.Done? ==> Layout(mem, r.value, size))
    {
      NothingMissing(mem, free, kpdpt, root, size);
      var sz := size % WORD32;
      r := CopyPages(root, sz);
      if r.Done? { LayoutCopied(old(mem), mem, root, r.value, sz); }
    }

    /** The body of copyuvm, on the size it has received. */
    method CopyPages(root: Frame, sz: nat) returns (r: Outcome<Frame>)
      requires Ready() && Space(mem, free, kpdpt, root) && sz < WORD32
      modifies this`mem, this`free, this`freelist
      ensures r.Done? || r.NoFrames? || r.NotPresent?
      ensures r.NoFrames? ==> |old(free)| < 1 + 4 * PageUp(sz)
      ensures r.NotPresent? ==> exists v :: 1 <= v < PageUp(sz) && old(Translate(mem, root, v).None?)
      ensures r.Done? ==>
                && Ready() && Space(mem, free, kpdpt, root) && Space(mem, free, kpdpt, r.value)
                && CopyOf(old(mem), mem, root, r.value, 1, PageUp(sz))
                && Unmapped(mem, r.value, 0, 1) && Unmapped(mem, r.value, PageUp(sz), USER_PAGES)
                && Frames(mem, r.value) !! Frames(mem, root)
                && Frames(mem, root) == old(Frames(mem, root)) && SameOutside(old(mem), mem, root, 0, 0)
                && Frames(mem, r.value) + SetOf(free) == old(SetOf(free))
    {
      var d := SetupKvm();
      if d.None? { return NoFrames; }
      var child := d.value;
      PopSet(old(free));
      assert child in SetOf(old(free));
      Bystander(old(mem), old(free), mem, free, kpdpt, {child}, root);
      ghost var mem0, free0 := mem, free;
      SameRefl(mem, child, 1, 1);
      var v := 1;
      while v * PGSIZE < sz
        invariant 1 <= v && (v == 1 || v <= PageUp(sz)) && PageUp(sz) <= USER_PAGES && |free| >= |old(free)| - 1 - 4 * (v - 1)
        invariant Ready() && Space(mem, free, kpdpt, root) && Space(mem, free, kpdpt, child)
        invariant CopyOf(old(mem), mem, root, child, 1, v) && SameOutside(mem0, mem, child, 1, v)
        invariant Frames(mem, root) == old(Frames(mem, root)) && SameOutside(old(mem), mem, root, 0, 0)
        invariant Frames(mem, child) !! Frames(mem, root)
        invariant Conserves(mem0, free0, {}, mem, free, {}, child)
      {
        ghost var mem1, free1 := mem, free;
        assert SamePage(old(mem), mem, root, v) && SamePage(mem0, mem, child, v);
        var m := CopyPage(root, child, v);
        if m.NoFrames? { return NoFrames; }
        if m.NotPresent? { return NotPresent; }
        CopyStep(old(mem), mem1, mem, root, child, v);
        SameTrans(mem0, mem1, mem, child, 1, v, v + 1);
        SameTrans(old(mem), mem1, mem, root, 0, 0, 0);
        ConservesTrans(mem0, free0, {}, mem1, free1, {}, mem, free, {}, child);
        v := v + 1;
      }
      CopyRest(mem0, mem, child, v);
      r := Done(child);
    }

    /**
     * The nested loops of freevm, one call per level: everything below frame f is freed, then
     * f itself. mem0 is the memory when freevm began; only frames already freed differ from it.
     */
    method FreeLevel(f: Frame, level: nat, ghost root: Frame, ghost p: seq<nat>, ghost mem0: Memory)
      requires Tree(mem0, root) && At(mem0, root, p, f) && |p| == level && mem.Keys == mem0.Keys
      requires Ready() && kpdpt !in Below(mem0, root, p)
      requires Below(mem0, root, p) !! SetOf(free) && Agree(mem0, mem, Below(mem0, root, p))
      modifies this`mem, this`free, this`freelist
      ensures Ready() && mem.Keys == mem0.Keys
      ensures SetOf(free) == old(SetOf(free)) + Below(mem0, root, p)
      ensures Agree(old(mem), mem, mem0.Keys - Below(mem0, root, p))
      decreases 4 - level, 2
    {
      BelowSplit(mem0, root, p, f);
      if level < 4 { FreeEntries(f, level, root, p, mem0); }
      Kfree(f);
    }

    /** One of freevm's loops, over the entries of table f. */
    method FreeEntries(f: Frame, level: nat, ghost root: Frame, ghost p: seq<nat>, ghost mem0: Memory)
      requires Tree(mem0, root) && At(mem0, root, p, f) && |p| == level < 4 && mem.Keys == mem0.Keys
      requires Ready() && kpdpt !in Below(mem0, root, p)
      requires Below(mem0, root, p) !! SetOf(free) && Agree(mem0, mem, Below(mem0, root, p))
      modifies this`mem, this`free, this`freelist
      ensures Ready() && mem.Keys == mem0.Keys
      ensures SetOf(free) == old(SetOf(free)) + BelowTo(mem0, root, p, if level == 0 then USER_ENTRIES else ENTRIES)
      ensures Agree(old(mem), mem, mem0.Keys - BelowTo(mem0, root, p, if level == 0 then USER_ENTRIES else ENTRIES))
      decreases 4 - level, 1
    {
      var n := if level == 0 then USER_ENTRIES else ENTRIES;
      var i: nat := 0;
      BelowNone(mem0, root, p);
      BelowSplit(mem0, root, p, f);
      while i < n
        invariant i <= n && mem.Keys == mem0.Keys && Ready()
        invariant SetOf(free) == old(SetOf(free)) + BelowTo(mem0, root, p, i)
        invariant Agree(old(mem), mem, mem0.Keys - BelowTo(mem0, root, p, i))
      {
        BelowStep(mem0, root, p, f, i);
        ghost var mem1 := mem;
        FreeEntry(f, i, level, root, p, mem0);
        AgreeStep(old(mem), mem1, mem, mem0.Keys, BelowTo(mem0, root, p, i), Below(mem0, root, p + [i]));
        i := i + 1;
      }
    }

    /** The body of one of freevm's loops. */
    method FreeEntry(f: Frame, i: nat, level: nat, ghost root: Frame, ghost p: seq<nat>, ghost mem0: Memory)
      requires Tree(mem0, root) && At(mem0, root, p, f) && |p| == level < 4 && mem.Keys == mem0.Keys
      requires i < if |p| == 0 then USER_ENTRIES else ENTRIES
      requires Ready() && kpdpt !in Below(mem0, root, p + [i]) && f in mem && mem[f] == mem0[f]
      requires Below(mem0, root, p + [i]) !! SetOf(free) && Agree(mem0, mem, Below(mem0, root, p + [i]))
      modifies this`mem, this`free, this`freelist
      ensures Ready() && mem.Keys == mem0.Keys
      ensures SetOf(free) == old(SetOf(free)) + Below(mem0, root, p + [i])
      ensures Agree(old(mem), mem, mem0.Keys - Below(mem0, root, p + [i]))
      decreases 4 - level, 0
    {
      BelowStep(mem0, root, p, f, i);
      if Present(mem[f][i]) {
        ghost var q: seq<nat> := p + [i];
        FreeLevel(FrameOf(mem[f][i]), level + 1, root, q, mem0);
      }
    }

    /**
     * freevm: every frame of the address space, tables of all levels and data pages alike, goes
     * onto the free list exactly once, and nothing else does.
     */
    method FreeVm(root: Frame)
      requires Ready() && Space(mem, free, kpdpt, root)
      modifies this`mem, this`free, this`freelist
      ensures Ready() && mem.Keys == old(mem.Keys)
      ensures SetOf(free) == old(SetOf(free)) + old(Frames(mem, root))
      ensures |free| == |old(free)| + |old(Frames(mem, root))|
      ensures Agree(old(mem), mem, old(mem.Keys) - old(Frames(mem, root)))
    {
      assert At(mem, root, [], root);
      BelowAll(mem, root);
      FreeLevel(root, 0, root, [], mem);
      DistinctSize(free);
      DistinctSize(old(free));
    }

    /**
     * The life of a child: copied by fork, freed by wait. Every frame taken since setupkvm is
     * back on the free list and the parent has noticed nothing.
     */
    method ForkThenReap(root: Frame, size: nat) returns (done: bool)
      requires Ready() && Space(mem, free, kpdpt, root)
      modifies this`mem, this`free, this`freelist
      ensures done ==>
                && Ready() && Space(mem, free, kpdpt, root)
                && SetOf(free) == old(SetOf(free)) && |free| == |old(free)|
                && Frames(mem, root) == old(Frames(mem, root)) && SameOutside(old(mem), mem, root, 0, 0)
    {
      var child := CopyUvm(root, size);
      if !child.Done? { return false; }
      ghost var mem1, free1 := mem, free;
      FreeVm(child.value);
      ReapFacts(old(mem), old(free), mem1, free1, mem, free, kpdpt, root, Frames(mem1, child.value));
      done := true;
    }

    /**
     * growproc on a process of size sz whose pages are [PGSIZE, PGROUNDUP(sz)). The new size
     * again describes exactly the mapped pages, except when the process gives up its last byte:
     * then the pages go but the size stays.
     */
    method GrowProc(root: Frame, sz: nat, n: int) returns (r: Outcome<int>, sz': nat)
      requires Ready() && Space(mem, free, kpdpt, root) && Layout(mem, root, sz)
      requires sz + n <= USER_TOP || KERNBASE <= sz + n < WORD64
      requires -0x8000_0000_0000_0000 <= n
      modifies this`mem, this`free, this`freelist
      ensures r.NoFrames? ==> n > 0 && |old(free)| < 4 * (PageUp(sz + n) - PageUp(sz))
      ensures !r.NoFrames? ==> r == Done(0) || r == Done(-1)
      ensures r.Done? ==> Ready() && Space(mem, free, kpdpt, root)
      ensures r.Done? ==> Conserves(old(mem), old(free), {}, mem, free, {}, root)
      ensures r == Done(-1) ==> sz' == sz
      ensures r == Done(0) ==> sz' == if sz + n < 0 then sz else sz + n
      ensures r == Done(-1) <==> r.Done? && (sz + n == 0 || sz + n >= KERNBASE)
      ensures r.Done? ==> (Layout(mem, root, sz') <==> sz + n != 0 || sz <= PGSIZE)
    {
      sz' := sz;
      SameRefl(mem, root, 0, 0);
      if n > 0 {
        var m := AllocUvm(root, sz, sz + n);
        assert Unmapped(old(mem), root, PageUp(sz), PageUp(sz + n));
        if m.NoFrames? { return NoFrames, sz; }
        if sz + n < KERNBASE { LayoutGrown(old(mem), mem, root, sz, sz + n); }
        if m.value == 0 { return Done(-1), sz; }
        sz' := m.value;
      } else if n < 0 {
        var target := (sz + n) % WORD64;
        WrapFacts(sz, n);
        var m := DeallocUvm(root, sz, target);
        LayoutShrunk(old(mem), mem, root, sz, target);
        if m == 0 { return Done(-1), sz; }
        sz' := m;
      }
      r := Done(0);
    }
  }

  /** A process of two pages that gives up all its memory loses its page, is told of an error and keeps its size. */
  method ShrinkToNothing(m: Machine, root: Frame) returns (r: Outcome<int>, sz: nat)
    requires m.Ready() && Space(m.mem, m.free, m.kpdpt, root) && Layout(m.mem, root, 2 * PGSIZE)
    modifies m
    ensures r == Done(-1) && sz == 2 * PGSIZE && !Layout(m.mem, root, sz)
  {
    r, sz := m.GrowProc(root, 2 * PGSIZE, -2 * PGSIZE);
  }

  lemma PopSet(free: seq<Frame>)
    requires free != [] && Distinct(free)
    ensures SetOf(free[1..]) == SetOf(free) - {free[0]} && Distinct(free[1..])
  {
    assert free == [free[0]] + free[1..];
  }

  lemma FrameOfAddress(f: Frame)
    ensures (Address(f) - KERNBASE) / PGSIZE == f && Address(f) > 0
  {
  }

  lemma PopList(mem: Memory, free: seq<Frame>)
    requires Listed(mem, free) && free != []
    ensures Listed(mem, free[1..]) && SetOf(free[1..]) == SetOf(free) - {free[0]} && free[0] !in free[1..] && free[0] in SetOf(free)
  {
    PopSet(free);
    assert Seal((mem, free), 0);
    forall i | 0 <= i < |free[1..]| ensures mem[free[1..][i]][0] == Link(free[1..], i + 1) {
      assert free[1..][i] == free[i + 1] && mem[free[i + 1]][0] == Link(free, i + 2);
    }
  }

  lemma PushList(mem: Memory, free: seq<Frame>, f: Frame, page: Words)
    requires Listed(mem, free) && f in mem && f !in free && |page| == ENTRIES && page[0] == Link(free, 0)
    ensures Listed(mem[f := page], [f] + free) && SetOf([f] + free) == SetOf(free) + {f}
  {
    var mem', free' := mem[f := page], [f] + free;
    assert SetOf(free') == SetOf(free) + {f};
    PushLinks(mem, free, f, page, mem', free');
  }

  lemma PushLinks(mem: Memory, free: seq<Frame>, f: Frame, page: Words, mem': Memory, free': seq<Frame>)
    requires Chained(mem, free) && f !in free && |page| == ENTRIES && page[0] == Link(free, 0)
    requires mem' == mem[f := page] && free' == [f] + free
    ensures Chained(mem', free')
  {
    assert Seal((mem, free), 0);
    forall i | 0 <= i < |free'| ensures free'[i] in mem' && |mem'[free'[i]]| == ENTRIES && mem'[free'[i]][0] == Link(free', i + 1) {
      if i > 0 { assert free'[i] == free[i - 1] && mem[free[i - 1]][0] == Link(free, i); }
    }
  }

  lemma AttachFacts(mem: Memory, mem': Memory, root: Frame, p0: seq<nat>, i: nat, cur: Frame, z: Frame, kpdpt: Frame)
    requires Tree(mem, root) && UserPath(p0 + [i]) && |p0| < 3 && Walk(mem, root, p0) == Some(cur)
    requires cur in mem && i < ENTRIES && !Present(mem[cur][i])
    requires z in mem && z !in Frames(mem, root)
    requires cur != z && mem' == Store(mem[z := Filled(0)], cur, i, Entry(z, PTE_W + PTE_U))
    ensures Tree(mem', root) && Frames(mem', root) == Frames(mem, root) + {z}
    ensures Walk(mem', root, p0 + [i]) == Some(z)
    ensures SameOutside(mem, mem', root, 0, 0)
    ensures mem[root][KERNEL_SLOT] == Entry(kpdpt, PTE_W) ==> mem'[root][KERNEL_SLOT] == Entry(kpdpt, PTE_W)
  {
    ExtendUser(p0, i);
    TreeFrames(mem, root);
    assert At(mem, root, p0, cur) && At(mem, root, [], root);
    assert Grafts(mem, mem', root, p0, i, z);
    Graft(mem, mem', root, p0, i, z);
    GraftWalk(mem, mem', root, p0, i, z, p0 + [i]);
    AttachSame(mem, mem', root, p0, i, cur, z);
    AttachKernel(mem, mem', root, p0, i, cur, z);
  }

  /** A user path leaves the kernel's entry of the root table alone. */
  lemma AttachKernel(mem: Memory, mem': Memory, root: Frame, p0: seq<nat>, i: nat, cur: Frame, z: Frame)
    requires Tree(mem, root) && UserPath(p0 + [i]) && |p0| < 3 && Walk(mem, root, p0) == Some(cur)
    requires cur in mem && i < ENTRIES && z in mem && z !in Frames(mem, root) && cur != z
    requires mem' == Store(mem[z := Filled(0)], cur, i, Entry(z, PTE_W + PTE_U))
    ensures root in mem && root in mem' && mem'[root][KERNEL_SLOT] == mem[root][KERNEL_SLOT]
  {
    ExtendUser(p0, i);
    TreeFrames(mem, root);
    assert At(mem, root, p0, cur) && At(mem, root, [], root);
    assert p0 == [] ==> (p0 + [i])[0] == i;
  }

  lemma AttachSame(mem: Memory, mem': Memory, root: Frame, p0: seq<nat>, i: nat, cur: Frame, z: Frame)
    requires Grafts(mem, mem', root, p0, i, z) && |p0| < 3 && Walk(mem, root, p0) == Some(cur)
    requires forall f :: f in mem && f != cur && f != z ==> mem'[f] == mem[f]
    ensures SameOutside(mem, mem', root, 0, 0)
  {
    ExtendUser(p0, i);
    TreeFrames(mem, root);
    assert At(mem, root, p0, cur);
    forall v | 0 <= v < USER_PAGES ensures SamePage(mem, mem', root, v) {
      GraftTableTranslates(mem, mem', root, p0, i, z, v);
      StoreKeepsPage(mem, mem', root, {cur, z}, v);
    }
  }

  lemma GraftLeaf(mem: Memory, mem': Memory, root: Frame, p0: seq<nat>, i: nat, t: Frame, z: Frame, e: nat)
    requires Tree(mem, root) && UserPath(p0 + [i]) && |p0| == 3 && Walk(mem, root, p0) == Some(t)
    requires t in mem && i < ENTRIES && !Present(mem[t][i]) && Present(e) && FrameOf(e) == z
    requires z in mem && z !in Frames(mem, root) && mem' == Store(mem, t, i, e)
    ensures Grafts(mem, mem', root, p0, i, z) && mem'[t][i] == e && t in Frames(mem, root) && t != root
    ensures Tree(mem', root) && Frames(mem', root) == Frames(mem, root) + {z}
  {
    LeafStored(mem, mem', root, p0, i, t);
    Graft(mem, mem', root, p0, i, z);
  }

  lemma MapFacts(mem: Memory, mem': Memory, root: Frame, v: nat, t: Frame, z: Frame, e: nat)
    requires Tree(mem, root) && v < USER_PAGES && Walk(mem, root, PathOf(v)[..3]) == Some(t)
    requires t in mem && !Present(mem[t][v % ENTRIES]) && z in mem && z !in Frames(mem, root)
    requires Present(e) && FrameOf(e) == z && mem' == Store(mem, t, v % ENTRIES, e)
    ensures Tree(mem', root) && Frames(mem', root) == Frames(mem, root) + {z}
    ensures Translate(mem', root, v) == Some(Pte(z, FlagsOf(e)))
    ensures SameOutside(mem, mem', root, v, v + 1) && mem'[z] == mem[z] && t in Frames(mem, root)
    ensures mem'[root] == mem[root]
  {
    assert UserPath(PathOf(v)[..3] + [v % ENTRIES]) by { SplitPath(v); }
    GraftLeaf(mem, mem', root, PathOf(v)[..3], v % ENTRIES, t, z, e);
    GraftPageTranslates(mem, mem', root, v, z, v);
    LeafSame(mem, mem', root, v, t);
  }

  /** A store to a leaf table is a store to the tree, and never to the root. */
  lemma LeafStored(mem: Memory, mem': Memory, root: Frame, p0: seq<nat>, i: nat, t: Frame)
    requires Tree(mem, root) && Shape(mem') && mem'.Keys == mem.Keys
    requires UserPath(p0 + [i]) && |p0| == 3 && Walk(mem, root, p0) == Some(t)
    requires i < ENTRIES && t in mem && mem'[t] == mem[t][i := mem'[t][i]]
    requires forall p, f :: At(mem, root, p, f) && |p| < 4 && f != t ==> mem'[f] == mem[f]
    ensures Stored(mem, mem', root, p0, i) && t in Frames(mem, root) && t != root
  {
    ExtendUser(p0, i);
    TreeFrames(mem, root);
    assert At(mem, root, p0, t) && At(mem, root, [], root);
  }

  lemma LeafSame(mem: Memory, mem': Memory, root: Frame, v: nat, t: Frame)
    requires Tree(mem, root) && v < USER_PAGES && Walk(mem, root, PathOf(v)[..3]) == Some(t)
    requires Stored(mem, mem', root, PathOf(v)[..3], v % ENTRIES) && mem'.Keys == mem.Keys
    requires forall f :: f in mem && f != t && !At(mem, root, PathOf(v), f) ==> mem'[f] == mem[f]
    ensures SameOutside(mem, mem', root, v, v + 1)
  {
    SplitPath(v);
    PathRoundTrip(v);
    var z := Walk(mem, root, PathOf(v));
    forall u | 0 <= u < USER_PAGES && u != v ensures SamePage(mem, mem', root, u) {
      StoreTranslates(mem, mem', root, v, u);
      PathRoundTrip(u);
      assert At(mem, root, PathOf(v)[..3], t);
      var touched := if z.Some? then {t, z.value} else {t};
      forall f | f in touched ensures !At(mem, root, PathOf(u), f) {
        assert f == t || At(mem, root, PathOf(v), f);
      }
      StoreKeepsPage(mem, mem', root, touched, u);
    }
  }

  /** Page v is mapped with these flags, to a frame with these contents. */
  ghost predicate PageIs(mem: Memory, root: Frame, v: nat, flags: nat, contents: Words) {
    && Translate(mem, root, v).Some? && Translate(mem, root, v).value.flags == flags
    && Translate(mem, root, v).value.frame in mem && mem[Translate(mem, root, v).value.frame] == contents
  }

  /** Popping a frame and filling it leaves the address space alone. */
  lemma TakeFacts(mem: Memory, free: seq<Frame>, kpdpt: Frame, root: Frame, contents: Words)
    requires Pool(mem, free, kpdpt) && Space(mem, free, kpdpt, root) && free != [] && |contents| == ENTRIES
    ensures var z, mem', free' := free[0], mem[free[0] := contents], free[1..];
            && Pool(mem', free', kpdpt) && Space(mem', free', kpdpt, root)
            && z in mem' && z !in Frames(mem', root) && z !in free' && z != kpdpt
            && SameOutside(mem, mem', root, 0, 0)
            && Conserves(mem, free, {}, mem', free', {z}, root)
  {
    var z, mem', free' := free[0], mem[free[0] := contents], free[1..];
    PopList(mem, free);
    StillListed(mem, mem', free');
    TreeAgrees(mem, mem', root);
    TreeFrames(mem, root);
    OthersSame(mem, mem', root);
  }

  lemma OthersSame(mem: Memory, mem': Memory, root: Frame)
    requires Tree(mem, root) && mem'.Keys == mem.Keys
    requires forall f :: f in Frames(mem, root) ==> mem'[f] == mem[f]
    ensures SameOutside(mem, mem', root, 0, 0)
  {
    forall v | 0 <= v < USER_PAGES ensures SamePage(mem, mem', root, v) {
      TranslateAgrees(mem, mem', root, v);
      MappedIsLeaf(mem, root, v);
    }
  }

  ghost predicate PagesAre(mem: Memory, root: Frame, lo: nat, hi: nat, flags: nat, contents: Words) {
    forall v :: lo <= v < hi ==> PageIs(mem, root, v, flags, contents)
  }

  lemma PagesAreStep(mem: Memory, mem': Memory, root: Frame, lo: nat, a: nat, flags: nat, contents: Words)
    requires lo <= a < USER_PAGES
    requires PagesAre(mem, root, lo, a, flags, contents) && SameOutside(mem, mem', root, a, a + 1)
    requires PageIs(mem', root, a, flags, contents)
    ensures PagesAre(mem', root, lo, a + 1, flags, contents)
  {
    forall v | lo <= v < a ensures PageIs(mem', root, v, flags, contents) {
      assert PageIs(mem, root, v, flags, contents) && SamePage(mem, mem', root, v);
    }
  }

  ghost predicate Maps(mem: Memory, root: Frame, v: nat, f: Frame) {
    v < USER_PAGES && Translate(mem, root, v).Some? && Translate(mem, root, v).value.frame == f
  }

  /** The frames that pages [lo, hi) are mapped to. */
  ghost function PageFrames(mem: Memory, root: Frame, lo: nat, hi: nat): set<Frame> {
    set f | f in mem && (exists v :: lo <= v < hi && Maps(mem, root, v, f))
  }

  lemma OnePage(mem: Memory, root: Frame, v: nat)
    requires Tree(mem, root) && v < USER_PAGES
    ensures PageFrames(mem, root, v, v + 1) == match Translate(mem, root, v) case None => {} case Some(e) => {e.frame}
  {
    MappedIsLeaf(mem, root, v);
    if Translate(mem, root, v).Some? { assert Maps(mem, root, v, Translate(mem, root, v).value.frame); }
  }

  lemma PageFramesStep(mem: Memory, mem': Memory, root: Frame, lo: nat, a: nat)
    requires lo <= a && SamePage(mem, mem', root, a) && mem'.Keys == mem.Keys
    ensures PageFrames(mem, root, lo, a + 1) == PageFrames(mem, root, lo, a) + PageFrames(mem', root, a, a + 1)
  {
    var one, all := PageFrames(mem', root, a, a + 1), PageFrames(mem, root, lo, a + 1);
    forall f | f in one ensures f in all {
      assert Maps(mem, root, a, f);
    }
    forall f | f in all ensures f in PageFrames(mem, root, lo, a) + one {
      var v :| lo <= v < a + 1 && Maps(mem, root, v, f);
      if v == a { assert Maps(mem', root, a, f); }
    }
  }

  /** A walk has added nothing but tables since mem0. Folded. */
  ghost predicate Reached(mem0: Memory, free0: seq<Frame>, mem: Memory, free: seq<Frame>, root: Frame) {
    forall z: int {:trigger Seal((mem, free), z)} :: Seal((mem, free), z) ==>
      && Conserves(mem0, free0, {}, mem, free, {}, root) && SameOutside(mem0, mem, root, 0, 0)
      && Frames(mem, root) >= Frames(mem0, root)
  }

  lemma ReachedSame(mem: Memory, free: seq<Frame>, root: Frame)
    requires Tree(mem, root)
    ensures Reached(mem, free, mem, free, root)
  {
    SameRefl(mem, root, 0, 0);
  }

  lemma OpenReached(mem0: Memory, free0: seq<Frame>, mem: Memory, free: seq<Frame>, root: Frame)
    requires Reached(mem0, free0, mem, free, root)
    ensures Conserves(mem0, free0, {}, mem, free, {}, root) && SameOutside(mem0, mem, root, 0, 0)
    ensures Frames(mem, root) >= Frames(mem0, root)
  {
    assert Seal((mem, free), 0);
  }

  lemma ReachedMore(mem0: Memory, free0: seq<Frame>, mem1: Memory, free1: seq<Frame>, mem: Memory, free: seq<Frame>, root: Frame)
    requires Reached(mem0, free0, mem1, free1, root) && Conserves(mem1, free1, {}, mem, free, {}, root)
    requires SameOutside(mem1, mem, root, 0, 0) && Frames(mem, root) >= Frames(mem1, root)
    ensures Reached(mem0, free0, mem, free, root)
  {
    OpenReached(mem0, free0, mem1, free1, root);
    ConservesTrans(mem0, free0, {}, mem1, free1, {}, mem, free, {}, root);
    SameTrans(mem0, mem1, mem, root, 0, 0, 0);
  }

  /** Pages [lo, a) have been mapped to zeroed frames since mem0. Folded. */
  ghost predicate Added(mem0: Memory, free0: seq<Frame>, mem: Memory, free: seq<Frame>, root: Frame, lo: nat, a: nat) {
    forall z: int {:trigger Seal((mem, a), z)} :: Seal((mem, a), z) ==>
      && SameOutside(mem0, mem, root, lo, a) && PagesAre(mem, root, lo, a, PTE_P + PTE_W + PTE_U, Filled(0))
      && Conserves(mem0, free0, {}, mem, free, {}, root)
  }

  lemma AddedNone(mem: Memory, free: seq<Frame>, root: Frame, a: nat)
    requires Tree(mem, root)
    ensures Added(mem, free, mem, free, root, a, a)
  {
    SameRefl(mem, root, a, a);
  }

  lemma OpenAdded(mem0: Memory, free0: seq<Frame>, mem: Memory, free: seq<Frame>, root: Frame, lo: nat, a: nat)
    requires Added(mem0, free0, mem, free, root, lo, a)
    ensures SameOutside(mem0, mem, root, lo, a) && PagesAre(mem, root, lo, a, PTE_P + PTE_W + PTE_U, Filled(0))
    ensures Conserves(mem0, free0, {}, mem, free, {}, root)
  {
    assert Seal((mem, a), 0);
  }

  lemma AddedOne(mem0: Memory, free0: seq<Frame>, mem1: Memory, free1: seq<Frame>, mem: Memory, free: seq<Frame>,
                 root: Frame, lo: nat, a: nat)
    requires Added(mem0, free0, mem1, free1, root, lo, a) && lo <= a < USER_PAGES
    requires SameOutside(mem1, mem, root, a, a + 1) && PageIs(mem, root, a, PTE_P + PTE_W + PTE_U, Filled(0))
    requires Conserves(mem1, free1, {}, mem, free, {}, root)
    ensures Added(mem0, free0, mem, free, root, lo, a + 1)
  {
    OpenAdded(mem0, free0, mem1, free1, root, lo, a);
    SameTrans(mem0, mem1, mem, root, lo, a, a + 1);
    PagesAreStep(mem1, mem, root, lo, a, PTE_P + PTE_W + PTE_U, Filled(0));
    ConservesTrans(mem0, free0, {}, mem1, free1, {}, mem, free, {}, root);
  }

  /** Pages [lo, a) have been dropped since mem0, and their frames freed. */
  ghost predicate Dropped(mem0: Memory, free0: seq<Frame>, mem: Memory, free: seq<Frame>, root: Frame, lo: nat, a: nat) {
    forall z: int {:trigger Seal((mem, a), z)} :: Seal((mem, a), z) ==>
      && SameOutside(mem0, mem, root, lo, a) && Unmapped(mem, root, lo, a)
      && SetOf(free) == SetOf(free0) + PageFrames(mem0, root, lo, a)
      && Conserves(mem0, free0, {}, mem, free, {}, root)
  }

  lemma DroppedNone(mem: Memory, free: seq<Frame>, root: Frame, a: nat)
    requires Tree(mem, root)
    ensures Dropped(mem, free, mem, free, root, a, a)
  {
    assert PageFrames(mem, root, a, a) == {};
    SameRefl(mem, root, a, a);
  }

  lemma OpenDropped(mem0: Memory, free0: seq<Frame>, mem: Memory, free: seq<Frame>, root: Frame, lo: nat, a: nat)
    requires Dropped(mem0, free0, mem, free, root, lo, a)
    ensures SameOutside(mem0, mem, root, lo, a) && Unmapped(mem, root, lo, a)
    ensures SetOf(free) == SetOf(free0) + PageFrames(mem0, root, lo, a)
    ensures Conserves(mem0, free0, {}, mem, free, {}, root)
  {
    assert Seal((mem, a), 0);
  }

  lemma DroppedOne(mem0: Memory, free0: seq<Frame>, mem1: Memory, free1: seq<Frame>, mem: Memory, free: seq<Frame>,
                   root: Frame, lo: nat, a: nat)
    requires Dropped(mem0, free0, mem1, free1, root, lo, a) && lo <= a < USER_PAGES
    requires Translate(mem, root, a).None? && SameOutside(mem1, mem, root, a, a + 1)
    requires SetOf(free) == SetOf(free1) + PageFrames(mem1, root, a, a + 1)
    requires Conserves(mem1, free1, {}, mem, free, {}, root)
    ensures Dropped(mem0, free0, mem, free, root, lo, a + 1)
  {
    OpenDropped(mem0, free0, mem1, free1, root, lo, a);
    assert SamePage(mem0, mem1, root, a);
    PageFramesStep(mem0, mem1, root, lo, a);
    SameTrans(mem0, mem1, mem, root, lo, a, a + 1);
    UnmappedStep(mem1, mem, root, lo, a);
    ConservesTrans(mem0, free0, {}, mem1, free1, {}, mem, free, {}, root);
  }

  lemma UnmappedStep(mem: Memory, mem': Memory, root: Frame, lo: nat, a: nat)
    requires lo <= a < USER_PAGES && Unmapped(mem, root, lo, a)
    requires SameOutside(mem, mem', root, a, a + 1) && Translate(mem', root, a).None?
    ensures Unmapped(mem', root, lo, a + 1)
  {
    forall v | lo <= v < a ensures Translate(mem', root, v).None? {
      assert SamePage(mem, mem', root, v);
    }
  }

  /** Freeing the frame of a mapped page and clearing its entry. */
  lemma DropFacts(mem: Memory, root: Frame, v: nat, t: Frame, junk: Words)
    requires Tree(mem, root) && v < USER_PAGES && Walk(mem, root, PathOf(v)[..3]) == Some(t)
    requires t in mem && Present(mem[t][v % ENTRIES]) && |junk| == ENTRIES
    ensures var z := FrameOf(mem[t][v % ENTRIES]);
            && z in mem && z in Frames(mem, root) && t in Frames(mem, root) && z != t && t != root && z != root
            && var mem' := Store(mem[z := junk], t, v % ENTRIES, 0);
               && Tree(mem', root) && Frames(mem', root) == Frames(mem, root) - {z}
               && Translate(mem', root, v).None? && SameOutside(mem, mem', root, v, v + 1)
  {
    var p0, i := PathOf(v)[..3], v % ENTRIES;
    SplitPath(v);
    var z := FrameOf(mem[t][i]);
    TreeFrames(mem, root);
    assert At(mem, root, p0, t) && At(mem, root, PathOf(v), z) && At(mem, root, [], root);
    var mem' := Store(mem[z := junk], t, i, 0);
    LeafStored(mem, mem', root, p0, i, t);
    Prune(mem, mem', root, p0, i);
    PrunePageTranslates(mem, mem', root, v, v);
    LeafSame(mem, mem', root, v, t);
  }

  lemma EmptyTree(mem: Memory, root: Frame)
    requires Shape(mem) && root in mem && forall i :: 0 <= i < USER_ENTRIES ==> !Present(mem[root][i])
    ensures Tree(mem, root) && Frames(mem, root) == {root} && Unmapped(mem, root, 0, USER_PAGES)
  {
    forall p | UserPath(p) && p != [] ensures Walk(mem, root, p).None? {
      assert p[..1][..0] == [];
      WalkPrefix(mem, root, p[..1], p);
    }
    assert At(mem, root, [], root);
    forall v | 0 <= v < USER_PAGES ensures Translate(mem, root, v).None? {
      SplitPath(v);
    }
  }

  /** An address space none of whose frames is touched. */
  lemma Bystander(mem: Memory, free: seq<Frame>, mem': Memory, free': seq<Frame>, kpdpt: Frame, touched: set<Frame>, root: Frame)
    requires Space(mem, free, kpdpt, root) && Shape(mem') && mem'.Keys == mem.Keys
    requires forall f :: f in mem && f !in touched ==> mem'[f] == mem[f]
    requires touched !! Frames(mem, root) && SetOf(free') <= SetOf(free) + touched
    ensures Space(mem', free', kpdpt, root) && Frames(mem', root) == Frames(mem, root)
    ensures SameOutside(mem, mem', root, 0, 0)
  {
    TreeFrames(mem, root);
    TreeAgrees(mem, mem', root);
    OthersSame(mem, mem', root);
  }

  /** The frames fs of a child taken from free0 and given back: nothing is lost and the parent sees no change. */
  lemma ReapFacts(mem0: Memory, free0: seq<Frame>, mem1: Memory, free1: seq<Frame>, mem: Memory, free: seq<Frame>,
                  kpdpt: Frame, root: Frame, fs: set<Frame>)
    requires Space(mem1, free1, kpdpt, root) && SameOutside(mem0, mem1, root, 0, 0) && fs + SetOf(free1) == SetOf(free0)
    requires fs !! Frames(mem1, root) && Shape(mem) && mem.Keys == mem1.Keys && Agree(mem1, mem, mem1.Keys - fs)
    requires SetOf(free) == SetOf(free1) + fs && Distinct(free) && Distinct(free0)
    ensures Space(mem, free, kpdpt, root) && Frames(mem, root) == Frames(mem1, root)
    ensures SameOutside(mem0, mem, root, 0, 0) && SetOf(free) == SetOf(free0) && |free| == |free0|
  {
    Bystander(mem1, free1, mem, free, kpdpt, fs, root);
    SameTrans(mem0, mem1, mem, root, 0, 0, 0);
    DistinctSize(free);
    DistinctSize(free0);
  }

  /** On pages [lo, hi) the child has what the parent had: the flags and the contents, in some frame. */
  ghost predicate CopyOf(mem: Memory, mem': Memory, parent: Frame, child: Frame, lo: nat, hi: nat) {
    forall v :: lo <= v < hi ==> Copied(mem, mem', parent, child, v)
  }

  ghost predicate Copied(mem: Memory, mem': Memory, parent: Frame, child: Frame, v: nat) {
    && Translate(mem, parent, v).Some? && Translate(mem, parent, v).value.frame in mem
    && PageIs(mem', child, v, Translate(mem, parent, v).value.flags, mem[Translate(mem, parent, v).value.frame])
  }

  lemma FlagsPresent(e: nat)
    requires Present(e)
    ensures FlagsOf(e) % 2 == 1 && Permit(FlagsOf(e)) == FlagsOf(e)
  {
    assert e == e / PGSIZE * PGSIZE + e % PGSIZE;
    assert e / PGSIZE * PGSIZE == 2 * (e / PGSIZE * 2048);
  }

  lemma CopyStep(mem0: Memory, mem1: Memory, mem2: Memory, parent: Frame, child: Frame, v: nat)
    requires 1 <= v < USER_PAGES && CopyOf(mem0, mem1, parent, child, 1, v)
    requires SamePage(mem0, mem1, parent, v) && SameOutside(mem1, mem2, child, v, v + 1)
    requires Copied(mem1, mem2, parent, child, v)
    ensures CopyOf(mem0, mem2, parent, child, 1, v + 1)
  {
    forall u | 1 <= u < v ensures Copied(mem0, mem2, parent, child, u) {
      assert Copied(mem0, mem1, parent, child, u) && SamePage(mem1, mem2, child, u);
    }
    assert Copied(mem0, mem2, parent, child, v);
  }

  lemma CopyRest(mem: Memory, mem': Memory, child: Frame, hi: nat)
    requires Unmapped(mem, child, 0, USER_PAGES) && SameOutside(mem, mem', child, 1, hi)
    ensures Unmapped(mem', child, 0, 1) && Unmapped(mem', child, hi, USER_PAGES)
  {
    forall v | 0 <= v < USER_PAGES && !(1 <= v < hi) ensures Translate(mem', child, v).None? {
      assert SamePage(mem, mem', child, v);
    }
  }

  // ----- Freeing a tree -----

  ghost predicate Agree(mem: Memory, mem': Memory, fs: set<Frame>) {
    forall f :: f in fs ==> f in mem && f in mem' && mem'[f] == mem[f]
  }

  lemma AgreeStep(mem0: Memory, mem1: Memory, mem2: Memory, keys: set<Frame>, a: set<Frame>, b: set<Frame>)
    requires Agree(mem0, mem1, keys - a) && Agree(mem1, mem2, keys - b)
    ensures Agree(mem0, mem2, keys - (a + b))
  {
  }

  ghost predicate Under(mem: Memory, root: Frame, p: seq<nat>, q: seq<nat>, f: Frame) {
    p <= q && At(mem, root, q, f)
  }

  /** The frames reached along p and its extensions. */
  ghost function Below(mem: Memory, root: Frame, p: seq<nat>): set<Frame> {
    set f | f in mem && (exists q :: Under(mem, root, p, q, f))
  }

  ghost predicate UnderTo(mem: Memory, root: Frame, p: seq<nat>, i: nat, q: seq<nat>, f: Frame) {
    p < q && q[|p|] < i && At(mem, root, q, f)
  }

  /** Those reached through the first i entries of the table at p. */
  ghost function BelowTo(mem: Memory, root: Frame, p: seq<nat>, i: nat): set<Frame> {
    set f | f in mem && (exists q :: UnderTo(mem, root, p, i, q, f))
  }

  lemma BelowAll(mem: Memory, root: Frame)
    requires Tree(mem, root)
    ensures Below(mem, root, []) == Frames(mem, root)
  {
    forall f | f in Frames(mem, root) ensures f in Below(mem, root, []) {
      var p :| At(mem, root, p, f);
      assert Under(mem, root, [], p, f);
    }
  }

  lemma BelowNone(mem: Memory, root: Frame, p: seq<nat>)
    ensures BelowTo(mem, root, p, 0) == {}
  {
  }

  lemma BelowSplit(mem: Memory, root: Frame, p: seq<nat>, f: Frame)
    requires Tree(mem, root) && At(mem, root, p, f)
    ensures var n := if |p| == 0 then USER_ENTRIES else ENTRIES;
            && Below(mem, root, p) == {f} + BelowTo(mem, root, p, n)
            && f !in BelowTo(mem, root, p, n) && f in mem
            && (|p| == 4 ==> BelowTo(mem, root, p, n) == {})
  {
    var n := if |p| == 0 then USER_ENTRIES else ENTRIES;
    assert Under(mem, root, p, p, f);
    forall g | g in Below(mem, root, p) && g != f ensures g in BelowTo(mem, root, p, n) {
      var q :| Under(mem, root, p, q, g);
      assert q != p;
      assert UnderTo(mem, root, p, n, q, g);
    }
    forall g | g in BelowTo(mem, root, p, n) ensures g in Below(mem, root, p) {
      var q :| UnderTo(mem, root, p, n, q, g);
      assert Under(mem, root, p, q, g);
    }
  }

  /** Entry i contributes the frames below it, disjoint from those below earlier entries. */
  lemma BelowStep(mem: Memory, root: Frame, p: seq<nat>, f: Frame, i: nat)
    requires Tree(mem, root) && At(mem, root, p, f) && |p| < 4
    requires i < if |p| == 0 then USER_ENTRIES else ENTRIES
    ensures f in mem && f !in BelowTo(mem, root, p, i)
    ensures BelowTo(mem, root, p, i) <= Below(mem, root, p) && Below(mem, root, p + [i]) <= Below(mem, root, p)
    ensures BelowTo(mem, root, p, i + 1) == BelowTo(mem, root, p, i) + Below(mem, root, p + [i])
    ensures BelowTo(mem, root, p, i) !! Below(mem, root, p + [i])
    ensures if Present(mem[f][i]) then At(mem, root, p + [i], FrameOf(mem[f][i])) else Below(mem, root, p + [i]) == {}
  {
    assert (p + [i])[..|p|] == p;
    forall g | g in BelowTo(mem, root, p, i + 1) ensures g in BelowTo(mem, root, p, i) + Below(mem, root, p + [i]) {
      var q :| UnderTo(mem, root, p, i + 1, q, g);
      if q[|p|] < i { assert UnderTo(mem, root, p, i, q, g); } else { assert Under(mem, root, p + [i], q, g); }
    }
    forall g | g in BelowTo(mem, root, p, i) ensures g in BelowTo(mem, root, p, i + 1) && g in Below(mem, root, p) {
      var q :| UnderTo(mem, root, p, i, q, g);
      assert UnderTo(mem, root, p, i + 1, q, g) && Under(mem, root, p, q, g);
    }
    forall g | g in Below(mem, root, p + [i])
      ensures g in BelowTo(mem, root, p, i + 1) && g in Below(mem, root, p) && Present(mem[f][i])
    {
      var q :| Under(mem, root, p + [i], q, g);
      assert UnderTo(mem, root, p, i + 1, q, g) && Under(mem, root, p, q, g);
      if !Present(mem[f][i]) { WalkPrefix(mem, root, p + [i], q); }
    }
  }

  lemma {:induction false} DistinctSize(s: seq<Frame>)
    requires Distinct(s)
    ensures |SetOf(s)| == |s|
  {
    if s != [] {
      PopSet(s);
      DistinctSize(s[1..]);
    } else {
      assert SetOf(s) == {};
    }
  }

  // ----- The size of a process -----

  lemma WrapFacts(sz: nat, n: int)
    requires sz <= USER_TOP && -0x8000_0000_0000_0000 <= n < 0
    ensures (sz + n) % WORD64 == if sz + n < 0 then sz + n + WORD64 else sz + n
    ensures sz + n < 0 ==> (sz + n) % WORD64 > sz
  {
  }

  /** The mapped user pages are exactly [PGSIZE, PGROUNDUP(sz)). */
  ghost predicate Layout(mem: Memory, root: Frame, sz: nat) {
    && 0 < sz <= USER_TOP
    && forall v :: 0 <= v < USER_PAGES ==> (Translate(mem, root, v).Some? <==> 1 <= v < PageUp(sz))
  }

  lemma LayoutGrown(mem: Memory, mem': Memory, root: Frame, sz: nat, newsz: nat)
    requires Layout(mem, root, sz) && sz <= newsz <= USER_TOP
    requires SameOutside(mem, mem', root, PageUp(sz), PageUp(newsz))
    requires PagesAre(mem', root, PageUp(sz), PageUp(newsz), PTE_P + PTE_W + PTE_U, Filled(0))
    ensures Layout(mem', root, newsz)
  {
    forall v | 0 <= v < USER_PAGES ensures Translate(mem', root, v).Some? <==> 1 <= v < PageUp(newsz) {
      if PageUp(sz) <= v < PageUp(newsz) {
        assert PageIs(mem', root, v, PTE_P + PTE_W + PTE_U, Filled(0));
      } else {
        assert SamePage(mem, mem', root, v);
      }
    }
  }

  lemma LayoutShrunk(mem: Memory, mem': Memory, root: Frame, sz: nat, target: nat)
    requires Layout(mem, root, sz) && SameOutside(mem, mem', root, PageUp(target), PageUp(sz))
    requires target < sz ==> Unmapped(mem', root, PageUp(target), PageUp(sz))
    ensures target > 0 ==> Layout(mem', root, if target < sz then target else sz)
    ensures target == 0 ==> (Layout(mem', root, sz) <==> sz <= PGSIZE)
  {
    var top := if target < sz then target else sz;
    forall v | 0 <= v < USER_PAGES ensures Translate(mem', root, v).Some? <==> 1 <= v < PageUp(top) {
      if !(PageUp(target) <= v < PageUp(sz)) { assert SamePage(mem, mem', root, v); }
    }
    if target == 0 && sz > PGSIZE {
      assert Translate(mem', root, 1).None?;
    }
  }

  /** A copy of every page of a process is laid out as the process is. */
  /** A process has every page that copyuvm asks for, and a size that copyuvm receives unchanged. */
  lemma NothingMissing(mem: Memory, free: seq<Frame>, kpdpt: Frame, root: Frame, size: nat)
    requires Pool(mem, free, kpdpt) && Tree(mem, root)
    ensures Layout(mem, root, size) ==> size % WORD32 == size && !exists v :: 1 <= v < PageUp(size) && Translate(mem, root, v).None?
  {
    LayoutFits(mem, free, kpdpt, root, size);
  }

  lemma LayoutCopied(mem: Memory, mem': Memory, parent: Frame, child: Frame, sz: nat)
    requires CopyOf(mem, mem', parent, child, 1, PageUp(sz))
    requires Unmapped(mem', child, 0, 1) && Unmapped(mem', child, PageUp(sz), USER_PAGES)
    ensures Layout(mem, parent, sz) ==> Layout(mem', child, sz)
  {
    forall v | 1 <= v < PageUp(sz) ensures Translate(mem', child, v).Some? {
      assert Copied(mem, mem', parent, child, v);
    }
  }

  /** The pages of a process lie in distinct frames. */
  lemma {:induction false} PagesInjective(mem: Memory, root: Frame, hi: nat)
    requires Tree(mem, root) && 1 <= hi <= USER_PAGES && forall v :: 1 <= v < hi ==> Translate(mem, root, v).Some?
    ensures |PageFrames(mem, root, 1, hi)| == hi - 1
  {
    if hi == 1 {
      assert PageFrames(mem, root, 1, 1) == {};
    } else {
      var v := hi - 1;
      PagesInjective(mem, root, v);
      MappedIsLeaf(mem, root, v);
      var f := Translate(mem, root, v).value.frame;
      SameRefl(mem, root, 0, 0);
      assert SamePage(mem, mem, root, v);
      PageFramesStep(mem, mem, root, 1, v);
      OnePage(mem, root, v);
      if f in PageFrames(mem, root, 1, v) {
        var u :| 1 <= u < v && Maps(mem, root, u, f);
        MappedIsLeaf(mem, root, u);
        PathRoundTrip(u);
        PathRoundTrip(v);
      }
    }
  }

  lemma {:induction false} FewFrames(s: set<Frame>, n: nat)
    requires forall f :: f in s ==> 0 < f < n + 1
    ensures |s| <= n
  {
    if n > 0 {
      FewFrames(s - {n}, n - 1);
      assert |s| <= |s - {n}| + 1;
    } else {
      assert s == {};
    }
  }

  /** No process is larger than physical memory, so none has 2^32 bytes. */
  lemma LayoutFits(mem: Memory, free: seq<Frame>, kpdpt: Frame, root: Frame, sz: nat)
    requires Pool(mem, free, kpdpt) && Tree(mem, root)
    ensures Layout(mem, root, sz) ==> sz <= PHYS_FRAMES * PGSIZE < WORD32
  {
    if Layout(mem, root, sz) {
      PagesInjective(mem, root, PageUp(sz));
      FewFrames(PageFrames(mem, root, 1, PageUp(sz)), PHYS_FRAMES - 1);
    }
  }
}
