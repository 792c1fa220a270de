/** The accounting behind itrunc: unlinking an inode's blocks and giving back their bits. */
module FsTrunc {
  import opened Common
  import opened FsImage
  import opened FsBytes

  /** Only bitmap blocks differ. */
  ghost predicate SameData(sb: Super, disk: Disk, disk': Disk) {
    disk'.Keys == disk.Keys && forall b :: b in disk && b >= sb.nmeta ==> disk'[b] == disk[b]
  }

  lemma FlipIsMeta(sb: Super, disk: Disk, inos: seq<Inode>, b: nat, on: bool)
    requires Shape(sb, disk, inos) && b < sb.size
    ensures BitmapBlock(sb, b) in disk && |disk[BitmapBlock(sb, b)]| == BSIZE && SameData(sb, disk, Flip(sb, disk, b, on))
  {
  }

  /** Accounted, unfolded only where a lemma mentions Seal. */
  ghost predicate Booked(sb: Super, disk: Disk, inos: seq<Inode>, held: set<nat>) {
    forall k: int {:trigger Seal((TheImage, disk, inos), k)} :: Seal((TheImage, disk, inos), k) ==> Accounted(sb, disk, inos, held)
  }

  lemma Unbook(sb: Super, disk: Disk, inos: seq<Inode>, held: set<nat>)
    requires Booked(sb, disk, inos, held)
    ensures Accounted(sb, disk, inos, held)
  {
    assert Seal((TheImage, disk, inos), 0);
  }

  /** What bfree(b) needs: a bitmap block to change and a set bit in it. */
  ghost predicate CanFree(sb: Super, disk: Disk, b: nat) {
    BitmapBlock(sb, b) in disk && IsBlock(disk[BitmapBlock(sb, b)]) && Used(sb, disk, b)
  }

  /** One turn of itrunc's first loop: bfree(addrs[k]); addrs[k] = 0. */
  lemma FreeBooked(sb: Super, disk: Disk, inos: seq<Inode>, i: nat, k: nat)
    requires Booked(sb, disk, inos, {}) && i < |inos| && i < sb.ninodes && k < NDIRECT && k < |inos[i].addrs| && inos[i].addrs[k] != 0
    ensures CanFree(sb, disk, inos[i].addrs[k])
    ensures SameData(sb, disk, Flip(sb, disk, inos[i].addrs[k], false))
    ensures Booked(sb, Flip(sb, disk, inos[i].addrs[k], false), SetAddr(inos, i, k, 0), {})
  {
    Unbook(sb, disk, inos, {});
    FreeEntry(sb, disk, inos, i, k);
  }

  lemma ReleaseBooked(sb: Super, disk: Disk, inos: seq<Inode>, held: set<nat>, b: nat)
    requires Booked(sb, disk, inos, held) && b in held
    ensures CanFree(sb, disk, b) && SameData(sb, disk, Flip(sb, disk, b, false))
    ensures Booked(sb, Flip(sb, disk, b, false), inos, held - {b})
  {
    Unbook(sb, disk, inos, held);
    Release(sb, disk, inos, held, b);
    FlipIsMeta(sb, disk, inos, b, false);
  }

  lemma FreeEntry(sb: Super, disk: Disk, inos: seq<Inode>, i: nat, k: nat)
    requires Accounted(sb, disk, inos, {}) && i < sb.ninodes && k < NDIRECT && inos[i].addrs[k] != 0
    ensures var b := inos[i].addrs[k];
            && b < sb.size && Used(sb, disk, b)
            && SameData(sb, disk, Flip(sb, disk, b, false))
            && Accounted(sb, Flip(sb, disk, b, false), SetAddr(inos, i, k, 0), {})
  {
    var b := inos[i].addrs[k];
    var inos' := SetAddr(inos, i, k, 0);
    assert SlotOk(sb, Direct(i, k)) && Addr(disk, inos, Direct(i, k)) == b;
    forall s | SlotOk(sb, s)
      ensures Addr(disk, inos', s) == if Addr(disk, inos, s) in {b} then 0 else Addr(disk, inos, s)
    {
    }
    Unlink(sb, disk, inos, {}, inos', {b});
    assert {} + {b} == {b};
    Release(sb, disk, inos', {b}, b);
    assert {b} - {b} == {};
    FlipIsMeta(sb, disk, inos, b, false);
  }

  /** The blocks the indirect block at a lists from entry j on. */
  ghost function ListedFrom(blk: Block, j: nat): set<nat>
    requires |blk| == BSIZE
  {
    set k | j <= k < NINDIRECT && Word(blk, k) > 0 :: Word(blk, k)
  }

  lemma ListedStep(blk: Block, j: nat)
    requires |blk| == BSIZE && j < NINDIRECT
    ensures ListedFrom(blk, j) == ListedFrom(blk, j + 1) + (if Word(blk, j) > 0 then {Word(blk, j)} else {})
  {
  }

  /** Dropping the indirect entry unlinks the indirect block and all it lists. */
  lemma DropIndirect(sb: Super, disk: Disk, inos: seq<Inode>, i: nat)
    requires Accounted(sb, disk, inos, {}) && i < sb.ninodes && inos[i].addrs[NDIRECT] != 0
    ensures var a := inos[i].addrs[NDIRECT];
            && a in disk && |disk[a]| == BSIZE && a >= sb.nmeta && a !in ListedFrom(disk[a], 0)
            && Accounted(sb, disk, SetAddr(inos, i, NDIRECT, 0), {a} + ListedFrom(disk[a], 0))
            && (forall j, k :: 0 <= j < k < NINDIRECT && Word(disk[a], j) == Word(disk[a], k) ==> Word(disk[a], j) == 0)
            && (forall j :: 0 <= j < NINDIRECT ==> Word(disk[a], j) >= 0)
  {
    var a := inos[i].addrs[NDIRECT];
    var inos' := SetAddr(inos, i, NDIRECT, 0);
    IndirectWords(sb, disk, inos, i, a);
    var freed := {a} + ListedFrom(disk[a], 0);
    IndirectOwned(sb, disk, inos, i, a, freed);
    forall s | SlotOk(sb, s)
      ensures Addr(disk, inos', s) == if Addr(disk, inos, s) in freed then 0 else Addr(disk, inos, s)
    {
      DropSlot(sb, disk, inos, i, s);
    }
    Unlink(sb, disk, inos, {}, inos', freed);
    assert {} + freed == freed;
  }

  /** The entries of an indirect block are slots, so they name distinct blocks. */
  lemma IndirectWords(sb: Super, disk: Disk, inos: seq<Inode>, i: nat, a: nat)
    requires Accounted(sb, disk, inos, {}) && i < sb.ninodes && a == inos[i].addrs[NDIRECT] != 0
    ensures a in disk && |disk[a]| == BSIZE && a >= sb.nmeta
    ensures forall j :: 0 <= j < NINDIRECT ==> Addr(disk, inos, Listed(i, j)) == Word(disk[a], j) >= 0
    ensures forall j, k :: 0 <= j < k < NINDIRECT && Word(disk[a], j) == Word(disk[a], k) ==> Word(disk[a], j) == 0
  {
    assert SlotOk(sb, Indirect(i)) && Addr(disk, inos, Indirect(i)) == a;
    var blk := disk[a];
    forall j | 0 <= j < NINDIRECT ensures SlotOk(sb, Listed(i, j)) && Addr(disk, inos, Listed(i, j)) == Word(blk, j) >= 0 {
      assert SlotOk(sb, Listed(i, j));
    }
    forall j, k | 0 <= j < k < NINDIRECT && Word(blk, j) == Word(blk, k) ensures Word(blk, j) == 0 {
      assert Addr(disk, inos, Listed(i, j)) == Addr(disk, inos, Listed(i, k));
    }
  }

  lemma IndirectOwned(sb: Super, disk: Disk, inos: seq<Inode>, i: nat, a: nat, freed: set<nat>)
    requires Accounted(sb, disk, inos, {}) && i < sb.ninodes && a == inos[i].addrs[NDIRECT] != 0
    requires a in disk && |disk[a]| == BSIZE && freed == {a} + ListedFrom(disk[a], 0)
    requires forall j :: 0 <= j < NINDIRECT ==> Addr(disk, inos, Listed(i, j)) == Word(disk[a], j) >= 0
    ensures a !in ListedFrom(disk[a], 0) && forall b :: b in freed ==> b >= sb.nmeta && Owned(sb, disk, inos, b)
  {
    assert SlotOk(sb, Indirect(i)) && Addr(disk, inos, Indirect(i)) == a;
    forall k | 0 <= k < NINDIRECT && Word(disk[a], k) > 0
      ensures Word(disk[a], k) != a && Word(disk[a], k) >= sb.nmeta && Owned(sb, disk, inos, Word(disk[a], k))
    {
      assert SlotOk(sb, Listed(i, k)) && Addr(disk, inos, Listed(i, k)) == Word(disk[a], k);
    }
  }

  lemma DropBooked(sb: Super, disk: Disk, inos: seq<Inode>, i: nat)
    requires Booked(sb, disk, inos, {}) && i < sb.ninodes && i < |inos| && |inos[i].addrs| == NDIRECT + 1
    requires inos[i].addrs[NDIRECT] != 0
    ensures var a := inos[i].addrs[NDIRECT];
            && a in disk && |disk[a]| == BSIZE && a !in ListedFrom(disk[a], 0)
            && Booked(sb, disk, SetAddr(inos, i, NDIRECT, 0), {a} + ListedFrom(disk[a], 0)) && NoRepeats(disk[a])
  {
    Unbook(sb, disk, inos, {});
    DropIndirect(sb, disk, inos, i);
  }

  /** An indirect block lists no block twice. */
  ghost predicate NoRepeats(blk: Block)
    requires |blk| == BSIZE
  {
    && (forall j :: 0 <= j < NINDIRECT ==> Word(blk, j) >= 0)
    && (forall j, k :: 0 <= j < k < NINDIRECT && Word(blk, j) == Word(blk, k) ==> Word(blk, j) == 0)
  }

  /** One turn of itrunc's second loop frees exactly the j-th listed block. */
  lemma ListedOnce(blk: Block, j: nat, a: nat)
    requires |blk| == BSIZE && j < NINDIRECT && NoRepeats(blk) && a !in ListedFrom(blk, j)
    ensures a !in ListedFrom(blk, j + 1)
    ensures Word(blk, j) == 0 ==> ListedFrom(blk, j + 1) == ListedFrom(blk, j)
    ensures Word(blk, j) != 0 ==>
              && Word(blk, j) > 0 && Word(blk, j) in {a} + ListedFrom(blk, j)
              && ({a} + ListedFrom(blk, j)) - {Word(blk, j)} == {a} + ListedFrom(blk, j + 1)
  {
    ListedStep(blk, j);
    assert Word(blk, j) !in ListedFrom(blk, j + 1);
    if Word(blk, j) != 0 { assert Word(blk, j) in ListedFrom(blk, j); }
  }

  lemma DropSlot(sb: Super, disk: Disk, inos: seq<Inode>, i: nat, s: Slot)
    requires Accounted(sb, disk, inos, {}) && i < sb.ninodes && inos[i].addrs[NDIRECT] != 0 && SlotOk(sb, s)
    requires inos[i].addrs[NDIRECT] in disk && |disk[inos[i].addrs[NDIRECT]]| == BSIZE
    ensures var a := inos[i].addrs[NDIRECT];
            Addr(disk, SetAddr(inos, i, NDIRECT, 0), s) ==
            if Addr(disk, inos, s) in {a} + ListedFrom(disk[a], 0) then 0 else Addr(disk, inos, s)
  {
    var a := inos[i].addrs[NDIRECT];
    var mine := s.inum == i && !s.Direct?;
    assert SlotOk(sb, Indirect(i)) && Addr(disk, inos, Indirect(i)) == a;
    if mine {
      if s.Listed? && Addr(disk, inos, s) != 0 { assert Word(disk[a], s.j) in ListedFrom(disk[a], 0); }
    } else {
      forall k | 0 <= k < NINDIRECT && Word(disk[a], k) > 0 ensures Word(disk[a], k) != Addr(disk, inos, s) {
        assert SlotOk(sb, Listed(i, k)) && Addr(disk, inos, Listed(i, k)) == Word(disk[a], k);
      }
    }
  }

  /** An inode with no block left is dense with none. */
  lemma TruncatedSettles(sb: Super, disk: Disk, inos: seq<Inode>, disk': Disk, inos': seq<Inode>, i: nat)
    requires Settled(sb, disk, inos) && i < sb.ninodes && Accounted(sb, disk', inos', {}) && SameData(sb, disk, disk')
    requires |inos'| == |inos| && (forall q :: 0 <= q < sb.ninodes && q != i ==> inos'[q] == inos[q])
    requires forall k :: 0 <= k <= NDIRECT ==> inos'[i].addrs[k] == 0
    ensures Settled(sb, disk', SetSize(inos', i, 0))
    ensures forall q :: 0 <= q < sb.ninodes && q != i ==>
              Content(disk', SetSize(inos', i, 0), q) == Content(disk, inos, q)
  {
    var inos'' := SetSize(inos', i, 0);
    forall s | SlotOk(sb, s) ensures Addr(disk', inos'', s) == Addr(disk', inos', s) {
      SizeIsNoSlot(disk', inos', i, 0, s);
    }
    Untouched(sb, disk', inos', {}, disk', inos'');
    forall q | 0 <= q < sb.ninodes ensures Dense(disk', inos'', q, BlocksFor(inos''[q].size)) {
      if q != i { KeptInode(sb, disk, inos, disk', inos'', q); }
    }
    forall q | 0 <= q < sb.ninodes && q != i ensures Content(disk', inos'', q) == Content(disk, inos, q) {
      KeptInode(sb, disk, inos, disk', inos'', q);
    }
  }

  /** An inode whose own fields and data blocks are unchanged keeps its blocks and its bytes. */
  lemma KeptInode(sb: Super, disk: Disk, inos: seq<Inode>, disk': Disk, inos': seq<Inode>, q: nat)
    requires Settled(sb, disk, inos) && q < sb.ninodes && q < |inos'| && inos'[q] == inos[q] && SameData(sb, disk, disk')
    ensures Dense(disk', inos', q, BlocksFor(inos[q].size)) && Content(disk', inos', q) == Content(disk, inos, q)
  {
    assert Dense(disk, inos, q, BlocksFor(inos[q].size));
    assert SlotOk(sb, Indirect(q)) && Addr(disk, inos, Indirect(q)) == inos[q].addrs[NDIRECT];
    forall c | 0 <= c < MAXFILE ensures BlockOf(disk', inos', q, c) == BlockOf(disk, inos, q, c) {
    }
    forall k | 0 <= k < inos[q].size ensures ByteAt(disk', inos', q, k) == ByteAt(disk, inos, q, k) {
      assert k / BSIZE < MAXFILE;
      assert SlotOk(sb, BlockSlot(q, k / BSIZE));
    }
  }

  // ----- Inodes coming and going -----

  /** Free inodes are empty, and no free inode is cached as valid. */
  ghost predicate Tidy(dinodes: seq<Inode>, icache: map<nat, Inode>) {
    && (forall i :: 0 <= i < |dinodes| && dinodes[i].kind == 0 ==> dinodes[i].size == 0)
    && (forall i :: i in icache ==> icache[i].kind != 0)
  }

  /** An empty inode may change its other fields freely. */
  lemma Refit(sb: Super, disk: Disk, inos: seq<Inode>, i: nat, ino: Inode)
    requires Sound(sb, disk, inos) && i < sb.ninodes && i < |inos| && inos[i].size == 0 && ino.size == 0
    requires |ino.addrs| == NDIRECT + 1 && forall k :: 0 <= k <= NDIRECT ==> ino.addrs[k] == 0
    ensures Sound(sb, disk, inos[i := ino])
    ensures forall q :: 0 <= q < |inos| ==> Content(disk, inos[i := ino], q) == Content(disk, inos, q)
  {
    OpenSound(sb, disk, inos);
    var inos' := inos[i := ino];
    EmptyInode(sb, disk, inos, i);
    forall s | SlotOk(sb, s) ensures Addr(disk, inos', s) == Addr(disk, inos, s) {
    }
    Untouched(sb, disk, inos, {}, disk, inos');
    forall q | 0 <= q < sb.ninodes ensures Dense(disk, inos', q, BlocksFor(inos'[q].size)) {
      if q != i { KeptInode(sb, disk, inos, disk, inos', q); }
    }
    forall q | 0 <= q < |inos| ensures Content(disk, inos', q) == Content(disk, inos, q) {
      if q != i { KeptInode(sb, disk, inos, disk, inos', q); }
    }
  }

  lemma EmptyInode(sb: Super, disk: Disk, inos: seq<Inode>, i: nat)
    requires Settled(sb, disk, inos) && i < sb.ninodes && inos[i].size == 0
    ensures forall k :: 0 <= k <= NDIRECT ==> inos[i].addrs[k] == 0
  {
    assert Dense(disk, inos, i, BlocksFor(inos[i].size));
    forall k | 0 <= k < NDIRECT ensures inos[i].addrs[k] == 0 {
      assert BlockOf(disk, inos, i, k) == inos[i].addrs[k];
    }
  }

  // ----- How much a chunk logs -----

  ghost function BlockSet(disk: Disk, inos: seq<Inode>, i: nat, lo: nat, hi: nat): set<int> {
    set bn | lo <= bn < hi :: BlockOf(disk, inos, i, bn)
  }

  lemma BlockSetStep(disk: Disk, inos: seq<Inode>, i: nat, lo: nat, hi: nat)
    requires lo < hi
    ensures BlockSet(disk, inos, i, lo, hi) == BlockSet(disk, inos, i, lo, hi - 1) + {BlockOf(disk, inos, i, hi - 1)}
  {
    var s, t := BlockSet(disk, inos, i, lo, hi), BlockSet(disk, inos, i, lo, hi - 1);
    forall b | b in s ensures b in t + {BlockOf(disk, inos, i, hi - 1)} {
      var bn :| lo <= bn < hi && b == BlockOf(disk, inos, i, bn);
    }
    assert BlockOf(disk, inos, i, hi - 1) in s;
    forall b | b in t ensures b in s {
      var bn :| lo <= bn < hi - 1 && b == BlockOf(disk, inos, i, bn);
    }
  }

  lemma {:induction false} BlockSetSize(disk: Disk, inos: seq<Inode>, i: nat, lo: nat, hi: nat)
    requires lo <= hi
    ensures |BlockSet(disk, inos, i, lo, hi)| <= hi - lo
    decreases hi
  {
    if lo == hi {
      assert BlockSet(disk, inos, i, lo, hi) == {};
    } else {
      BlockSetSize(disk, inos, i, lo, hi - 1);
      BlockSetStep(disk, inos, i, lo, hi);
    }
  }

  /**
   * With a one-block bitmap, a write of n bytes logs at most BlocksFor(n) + 1 data blocks, the
   * indirect block, the bitmap block and the inode block b.
   */
  lemma LogBound(sb: Super, before: set<nat>, after: set<nat>, disk: Disk, inos: seq<Inode>, i: nat, off: nat, n: nat, b: nat)
    requires LogsOnly(sb, before, after, Touched(disk, inos, i, off / BSIZE, BlocksFor(off + n)) + {b})
    requires sb.size < BPB && n > 0
    ensures |after - before| <= BlocksFor(n) + 4
  {
    var lo, hi := off / BSIZE, BlocksFor(off + n);
    assert lo <= hi <= lo + BlocksFor(n) + 1;
    var t := BlockSet(disk, inos, i, lo, hi);
    BlockSetSize(disk, inos, i, lo, hi);
    var cover: set<int> := t + {Entry(inos, i, NDIRECT), b, sb.bmapstart};
    var added: set<int> := after - before;
    Covered(added, cover);
    AtMostThree(t, Entry(inos, i, NDIRECT), b, sb.bmapstart);
  }

  lemma Covered(a: set<int>, b: set<int>)
    requires a <= b
    ensures |a| <= |b|
  {
    assert |b| == |a| + |b - a|;
  }

  lemma AtMostThree(t: set<int>, x: int, y: int, z: int)
    ensures |t + {x, y, z}| <= |t| + 3
  {
    assert |t + {x, y, z}| <= |t| + |{x, y, z}|;
  }
}
