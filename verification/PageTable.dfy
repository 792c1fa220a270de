/**
 * Four-level page tables (section 4.5 of the Intel SDM, volume 3A) as they lie in physical
 * memory, and the finite map from pages to frames that they stand for.
 */
module PageTable {
  import opened Arithmetic
  import opened Common
  const PGSIZE: nat := 4096
  const ENTRIES: nat := 512
  const USER_ENTRIES: nat := 256                // NPDENTRIES / 2: the half that freevm walks
  const KERNEL_SLOT: nat := 256                 // PMX(KERNBASE)
  const USER_PAGES: nat := 0x8_0000_0000        // 2^47 / PGSIZE
  const KERNBASE: nat := 0xFFFF_8000_0000_0000
  const PTE_P: nat := 1
  const PTE_W: nat := 2
  const PTE_U: nat := 4

  /** A physical page, by number; its contents are 512 words of 64 bits. */
  type Frame = nat
  type Words = seq<nat>
  type Memory = map<Frame, Words>

  /** What a present leaf entry says: the frame, and the twelve flag bits. */
  datatype Pte = Pte(frame: Frame, flags: nat)

  function Filled(word: nat): (w: Words)
    ensures |w| == ENTRIES && forall i :: 0 <= i < ENTRIES ==> w[i] == word
  {
    seq(ENTRIES, _ => word)
  }

  ghost predicate Blank(w: Words) {
    |w| == ENTRIES && forall i :: 0 <= i < ENTRIES ==> w[i] == 0
  }

  // ----- Entries -----

  predicate Present(e: nat) { e % 2 == 1 }

  function FrameOf(e: nat): Frame { e / PGSIZE }

  function FlagsOf(e: nat): nat { e % PGSIZE }

  /** perm | PTE_P. */
  function Permit(perm: nat): (flags: nat)
    ensures flags % 2 == 1 && (perm < PGSIZE ==> flags < PGSIZE) && (perm % 2 == 1 ==> flags == perm)
  {
    perm - perm % 2 + PTE_P
  }

  /** pa | perm | PTE_P for an aligned pa and perm below PGSIZE. */
  function Entry(f: Frame, perm: nat): (e: nat)
    requires perm < PGSIZE
    ensures Present(e) && FrameOf(e) == f && FlagsOf(e) == Permit(perm)
  {
    EntryParts(f, Permit(perm));
    f * PGSIZE + Permit(perm)
  }

  lemma EntryParts(f: Frame, flags: nat)
    requires flags < PGSIZE
    ensures FrameOf(f * PGSIZE + flags) == f && FlagsOf(f * PGSIZE + flags) == flags
    ensures (f * PGSIZE + flags) % 2 == flags % 2
  {
    Quotient4096(f, flags);
    Parity4096(f, flags);
  }

  /** The memory after one word of one frame is overwritten. */
  function Store(mem: Memory, f: Frame, i: nat, e: nat): Memory
    requires f in mem && i < |mem[f]|
  {
    var w: Words := mem[f][i := e];
    mem[f := w]
  }

  // ----- Paths: the indices at each level -----

  /** At most four indices, the first in the user half. */
  ghost predicate UserPath(p: seq<nat>) {
    |p| <= 4 && (forall i :: 0 <= i < |p| ==> p[i] < ENTRIES) && (|p| > 0 ==> p[0] < USER_ENTRIES)
  }

  /** PMX, PDPX, PDX and PTX of page number v. */
  function PathOf(v: nat): (p: seq<nat>)
    ensures |p| == 4
  {
    [v / 0x800_0000 % ENTRIES, v / 0x4_0000 % ENTRIES, v / ENTRIES % ENTRIES, v % ENTRIES]
  }

  function PageOf(p: seq<nat>): nat
    requires |p| == 4
  {
    p[0] * 0x800_0000 + p[1] * 0x4_0000 + p[2] * ENTRIES + p[3]
  }

  /** Distinct pages below 2^47 have distinct paths, all of them user paths. */
  lemma PathRoundTrip(v: nat)
    requires v < USER_PAGES
    ensures UserPath(PathOf(v)) && PageOf(PathOf(v)) == v
  {
    assert v == v / ENTRIES * ENTRIES + v % ENTRIES;
    assert v / ENTRIES == v / 0x4_0000 * ENTRIES + v / ENTRIES % ENTRIES;
    assert v / 0x4_0000 == v / 0x800_0000 * ENTRIES + v / 0x4_0000 % ENTRIES;
  }

  lemma PageRoundTrip(p: seq<nat>)
    requires UserPath(p) && |p| == 4
    ensures PageOf(p) < USER_PAGES && PathOf(PageOf(p)) == p
  {
    var v := PageOf(p);
    assert v / ENTRIES == p[0] * 0x4_0000 + p[1] * ENTRIES + p[2];
    assert v / 0x4_0000 == p[0] * ENTRIES + p[1];
    assert v / 0x800_0000 == p[0];
  }

  // ----- The hardware's walk -----

  /** The frame that the entries along p lead to, if every one of them is present. */
  ghost function Walk(mem: Memory, root: Frame, p: seq<nat>): Option<Frame> {
    if p == [] then Some(root) else
      match Walk(mem, root, p[..|p| - 1])
      case None => None
      case Some(f) =>
        if f in mem && p[|p| - 1] < |mem[f]| && Present(mem[f][p[|p| - 1]])
        then Some(FrameOf(mem[f][p[|p| - 1]]))
        else None
  }

  /** The finite map a table stands for. */
  ghost function Translate(mem: Memory, root: Frame, v: nat): Option<Pte> {
    var p := PathOf(v);
    match Walk(mem, root, p[..3])
    case None => None
    case Some(t) =>
      if t in mem && |mem[t]| == ENTRIES && Present(mem[t][p[3]])
      then Some(Pte(FrameOf(mem[t][p[3]]), FlagsOf(mem[t][p[3]])))
      else None
  }

  ghost predicate Shape(mem: Memory) {
    forall f :: f in mem ==> |mem[f]| == ENTRIES
  }

  ghost predicate At(mem: Memory, root: Frame, p: seq<nat>, f: Frame) {
    UserPath(p) && Walk(mem, root, p) == Some(f)
  }

  /** A table whose user half is a tree: no frame is reached along two paths. */
  ghost predicate Tree(mem: Memory, root: Frame) {
    && Shape(mem) && root in mem
    && (forall p, f :: At(mem, root, p, f) ==> f in mem)
    && (forall p, q, f :: At(mem, root, p, f) && At(mem, root, q, f) ==> p == q)
  }

  /** Every frame of the user half: the root, the tables of all levels and the data pages. */
  ghost function Frames(mem: Memory, root: Frame): set<Frame> {
    set f | f in mem && (exists p :: At(mem, root, p, f))
  }

  lemma TreeFrames(mem: Memory, root: Frame)
    requires Tree(mem, root)
    ensures forall p, f :: At(mem, root, p, f) ==> f in Frames(mem, root)
    ensures root in Frames(mem, root)
  {
    assert At(mem, root, [], root);
  }

  // ----- How the walk changes -----

  lemma {:induction false} WalkPrefix(mem: Memory, root: Frame, p: seq<nat>, q: seq<nat>)
    requires p <= q && Walk(mem, root, p).None?
    ensures Walk(mem, root, q).None?
  {
    if |p| < |q| {
      assert p <= q[..|q| - 1];
      WalkPrefix(mem, root, p, q[..|q| - 1]);
    } else {
      assert p == q;
    }
  }

  lemma UserPrefix(p: seq<nat>, q: seq<nat>)
    requires p <= q && UserPath(q)
    ensures UserPath(p)
  {
    assert forall i :: 0 <= i < |p| ==> p[i] == q[i];
  }

  /** A memory that agrees on every frame of a tree translates alike. */
  lemma {:induction false} WalkAgrees(mem: Memory, mem': Memory, root: Frame, q: seq<nat>)
    requires UserPath(q)
    requires forall p, f :: At(mem, root, p, f) && |p| < 4 ==> f in mem && f in mem' && mem'[f] == mem[f]
    ensures Walk(mem', root, q) == Walk(mem, root, q)
  {
    if q != [] {
      var p := q[..|q| - 1];
      UserPrefix(p, q);
      WalkAgrees(mem, mem', root, p);
      if Walk(mem, root, p).Some? { assert At(mem, root, p, Walk(mem, root, p).value); }
    }
  }

  /** As far as the tables of the tree go, mem' differs from mem at most in entry i of table p0. */
  ghost predicate Stored(mem: Memory, mem': Memory, root: Frame, p0: seq<nat>, i: nat) {
    && UserPath(p0 + [i]) && Walk(mem, root, p0).Some?
    && (forall p, f :: At(mem, root, p, f) && |p| < 4 && p != p0 ==>
          f in mem && f in mem' && mem'[f] == mem[f])
    && var f := Walk(mem, root, p0).value;
       f in mem && f in mem' && i < |mem[f]| == |mem'[f]| && mem'[f] == mem[f][i := mem'[f][i]]
  }

  /** A store to one entry is felt only below that entry. */
  lemma {:induction false} WalkStore(mem: Memory, mem': Memory, root: Frame, p0: seq<nat>, i: nat, q: seq<nat>)
    requires Tree(mem, root) && Stored(mem, mem', root, p0, i)
    requires UserPath(q) && !(p0 + [i] <= q)
    ensures Walk(mem', root, q) == Walk(mem, root, q)
  {
    if q != [] {
      var p, j := q[..|q| - 1], q[|q| - 1];
      UserPrefix(p, q);
      assert q == p + [j];
      WalkStore(mem, mem', root, p0, i, p);
      if Walk(mem, root, p).Some? {
        assert At(mem, root, p, Walk(mem, root, p).value);
        assert p == p0 ==> j != i;
      }
    }
  }

  lemma ExtendUser(p0: seq<nat>, i: nat)
    requires UserPath(p0 + [i])
    ensures UserPath(p0) && |p0| < 4 && i < ENTRIES
  {
    UserPrefix(p0, p0 + [i]);
    assert (p0 + [i])[|p0|] == i;
  }

  /** The walk along the stored entry itself. */
  lemma WalkThrough(mem: Memory, mem': Memory, root: Frame, p0: seq<nat>, i: nat)
    requires Tree(mem, root) && Stored(mem, mem', root, p0, i)
    ensures var e := mem'[Walk(mem, root, p0).value][i];
            Walk(mem', root, p0 + [i]) == if Present(e) then Some(FrameOf(e)) else None
  {
    ExtendUser(p0, i);
    WalkStore(mem, mem', root, p0, i, p0);
    assert (p0 + [i])[..|p0|] == p0;
  }

  /** Nothing is mapped below an empty table, and a path has no fifth level. */
  lemma WalkBelow(mem: Memory, root: Frame, p: seq<nat>, z: Frame, q: seq<nat>)
    requires Walk(mem, root, p) == Some(z) && p < q && UserPath(q)
    requires |p| < 4 ==> z in mem && Blank(mem[z])
    ensures Walk(mem, root, q).None?
  {
    var i := q[|p|];
    assert mem[z][i] == 0;
    assert (p + [i])[..|p|] == p;
    assert p + [i] <= q;
    WalkPrefix(mem, root, p + [i], q);
  }

  /** Hanging frame z, empty if it is a table, on an absent entry. */
  ghost predicate Grafts(mem: Memory, mem': Memory, root: Frame, p0: seq<nat>, i: nat, z: Frame) {
    && Tree(mem, root) && Shape(mem') && mem'.Keys == mem.Keys && Stored(mem, mem', root, p0, i)
    && z in mem && z !in Frames(mem, root) && (|p0| < 3 ==> Blank(mem'[z]))
    && var f := Walk(mem, root, p0).value;
       !Present(mem[f][i]) && Present(mem'[f][i]) && FrameOf(mem'[f][i]) == z
  }

  lemma GraftWalk(mem: Memory, mem': Memory, root: Frame, p0: seq<nat>, i: nat, z: Frame, q: seq<nat>)
    requires Grafts(mem, mem', root, p0, i, z) && UserPath(q)
    ensures Walk(mem', root, q) == if q == p0 + [i] then Some(z) else Walk(mem, root, q)
  {
    if p0 + [i] <= q {
      WalkThrough(mem, mem', root, p0, i);
      assert (p0 + [i])[..|p0|] == p0;
      WalkPrefix(mem, root, p0 + [i], q);
      if q != p0 + [i] { WalkBelow(mem', root, p0 + [i], z, q); }
    } else {
      WalkStore(mem, mem', root, p0, i, q);
    }
  }

  lemma Graft(mem: Memory, mem': Memory, root: Frame, p0: seq<nat>, i: nat, z: Frame)
    requires Grafts(mem, mem', root, p0, i, z)
    ensures Tree(mem', root) && Frames(mem', root) == Frames(mem, root) + {z}
  {
    forall p, f | At(mem', root, p, f) ensures if p == p0 + [i] then f == z else At(mem, root, p, f) {
      GraftWalk(mem, mem', root, p0, i, z, p);
    }
    forall p, f | At(mem, root, p, f) ensures At(mem', root, p, f) {
      GraftWalk(mem, mem', root, p0, i, z, p);
      assert f in Frames(mem, root);
    }
    GraftWalk(mem, mem', root, p0, i, z, p0 + [i]);
    assert At(mem', root, p0 + [i], z);
    forall p, f | At(mem', root, p, f) && p != p0 + [i] ensures f != z {
      assert At(mem, root, p, f) ==> f in Frames(mem, root);
    }
  }

  /** Clearing a present leaf entry. */
  ghost predicate Prunes(mem: Memory, mem': Memory, root: Frame, p0: seq<nat>, i: nat) {
    && Tree(mem, root) && Shape(mem') && mem'.Keys == mem.Keys && Stored(mem, mem', root, p0, i)
    && |p0| == 3
    && var f := Walk(mem, root, p0).value;
       Present(mem[f][i]) && !Present(mem'[f][i])
  }

  lemma PruneWalk(mem: Memory, mem': Memory, root: Frame, p0: seq<nat>, i: nat, q: seq<nat>)
    requires Prunes(mem, mem', root, p0, i) && UserPath(q)
    ensures Walk(mem', root, q) == if q == p0 + [i] then None else Walk(mem, root, q)
  {
    if p0 + [i] <= q {
      assert q == p0 + [i];
      WalkThrough(mem, mem', root, p0, i);
    } else {
      WalkStore(mem, mem', root, p0, i, q);
    }
  }

  lemma Prune(mem: Memory, mem': Memory, root: Frame, p0: seq<nat>, i: nat)
    requires Prunes(mem, mem', root, p0, i)
    ensures Tree(mem', root)
    ensures Frames(mem', root) == Frames(mem, root) - {FrameOf(mem[Walk(mem, root, p0).value][i])}
  {
    var z := FrameOf(mem[Walk(mem, root, p0).value][i]);
    assert (p0 + [i])[..3] == p0;
    assert At(mem, root, p0 + [i], z);
    forall p, f | At(mem', root, p, f) ensures At(mem, root, p, f) && p != p0 + [i] {
      PruneWalk(mem, mem', root, p0, i, p);
    }
    forall p, f | At(mem, root, p, f) && p != p0 + [i] ensures At(mem', root, p, f) {
      PruneWalk(mem, mem', root, p0, i, p);
    }
  }

  // ----- The same facts about the finite map -----

  lemma SplitPath(v: nat)
    requires v < USER_PAGES
    ensures UserPath(PathOf(v)) && UserPath(PathOf(v)[..3]) && PathOf(v) == PathOf(v)[..3] + [v % ENTRIES]
  {
    PathRoundTrip(v);
    UserPrefix(PathOf(v)[..3], PathOf(v));
  }

  /** New tables are invisible to the map. */
  lemma GraftTableTranslates(mem: Memory, mem': Memory, root: Frame, p0: seq<nat>, i: nat, z: Frame, v: nat)
    requires Grafts(mem, mem', root, p0, i, z) && |p0| < 3 && v < USER_PAGES
    ensures Translate(mem', root, v) == Translate(mem, root, v)
  {
    SplitPath(v);
    var q := PathOf(v)[..3];
    GraftWalk(mem, mem', root, p0, i, z, q);
    if q == p0 + [i] {
      assert q[..2] == p0;
    } else if Walk(mem, root, q).Some? {
      assert At(mem, root, q, Walk(mem, root, q).value);
    }
  }

  /** Hanging a page on the table of page u maps u and nothing else. */
  lemma GraftPageTranslates(mem: Memory, mem': Memory, root: Frame, u: nat, z: Frame, v: nat)
    requires u < USER_PAGES && v < USER_PAGES
    requires Grafts(mem, mem', root, PathOf(u)[..3], u % ENTRIES, z)
    ensures Translate(mem', root, v) ==
            if v == u then Some(Pte(z, FlagsOf(mem'[Walk(mem, root, PathOf(u)[..3]).value][u % ENTRIES])))
            else Translate(mem, root, v)
  {
    StoreTranslates(mem, mem', root, u, v);
  }

  lemma PrunePageTranslates(mem: Memory, mem': Memory, root: Frame, u: nat, v: nat)
    requires u < USER_PAGES && v < USER_PAGES
    requires Prunes(mem, mem', root, PathOf(u)[..3], u % ENTRIES)
    ensures Translate(mem', root, v) == if v == u then None else Translate(mem, root, v)
  {
    StoreTranslates(mem, mem', root, u, v);
  }

  lemma StoreTranslates(mem: Memory, mem': Memory, root: Frame, u: nat, v: nat)
    requires u < USER_PAGES && v < USER_PAGES && Tree(mem, root)
    requires Stored(mem, mem', root, PathOf(u)[..3], u % ENTRIES)
    ensures var e := mem'[Walk(mem, root, PathOf(u)[..3]).value][u % ENTRIES];
            Translate(mem', root, v) ==
            if v == u then if Present(e) then Some(Pte(FrameOf(e), FlagsOf(e))) else None
            else Translate(mem, root, v)
  {
    SplitPath(u);
    SplitPath(v);
    PathRoundTrip(u);
    PathRoundTrip(v);
    var q := PathOf(v)[..3];
    WalkStore(mem, mem', root, PathOf(u)[..3], u % ENTRIES, q);
    if Walk(mem, root, q).Some? { assert At(mem, root, q, Walk(mem, root, q).value); }
  }

  /** A mapped page is a leaf of the tree, and distinct mapped pages lie in distinct frames. */
  lemma MappedIsLeaf(mem: Memory, root: Frame, v: nat)
    requires Tree(mem, root) && v < USER_PAGES
    ensures Translate(mem, root, v).Some? <==> Walk(mem, root, PathOf(v)).Some?
    ensures Translate(mem, root, v).Some? ==>
              At(mem, root, PathOf(v), Translate(mem, root, v).value.frame)
              && Translate(mem, root, v).value.frame in Frames(mem, root)
  {
    SplitPath(v);
    var t := Walk(mem, root, PathOf(v)[..3]);
    if t.Some? { assert At(mem, root, PathOf(v)[..3], t.value); }
    if Translate(mem, root, v).Some? {
      assert At(mem, root, PathOf(v), Translate(mem, root, v).value.frame);
    }
  }

  lemma TranslateAgrees(mem: Memory, mem': Memory, root: Frame, v: nat)
    requires Tree(mem, root) && v < USER_PAGES
    requires forall f :: f in Frames(mem, root) ==> f in mem' && mem'[f] == mem[f]
    ensures Translate(mem', root, v) == Translate(mem, root, v)
  {
    SplitPath(v);
    var q := PathOf(v)[..3];
    forall p, f | At(mem, root, p, f) ensures f in Frames(mem, root) {
    }
    WalkAgrees(mem, mem', root, q);
    if Walk(mem, root, q).Some? { assert At(mem, root, q, Walk(mem, root, q).value); }
  }

  /** Another process's table is untouched by what happens outside its own frames. */
  lemma TreeAgrees(mem: Memory, mem': Memory, root: Frame)
    requires Tree(mem, root) && Shape(mem') && mem'.Keys == mem.Keys
    requires forall f :: f in Frames(mem, root) ==> mem'[f] == mem[f]
    ensures Tree(mem', root) && Frames(mem', root) == Frames(mem, root)
  {
    forall p, f | At(mem, root, p, f) ensures f in Frames(mem, root) {
    }
    forall p, f ensures At(mem, root, p, f) <==> At(mem', root, p, f) {
      if UserPath(p) { WalkAgrees(mem, mem', root, p); }
    }
    assert At(mem, root, [], root);
  }
}
