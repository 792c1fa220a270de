/** How block-level changes show in the byte sequences of the inodes. */
module FsBytes {
  import opened Common
  import opened FsImage

  /** Every slot of every inode but i names what it named. */
  ghost predicate OthersKept(sb: Super, disk: Disk, inos: seq<Inode>, disk': Disk, inos': seq<Inode>, i: nat) {
    && |inos| == |inos'| == sb.ninodes
    && (forall q :: 0 <= q < sb.ninodes && q != i ==> inos'[q] == inos[q])
    && (forall s :: SlotOk(sb, s) && s.inum != i ==> Addr(disk', inos', s) == Addr(disk, inos, s))
  }

  /** What bmap(i, bn) did: block bn exists and no other block of i came or went. */
  ghost predicate Mapped(sb: Super, disk: Disk, inos: seq<Inode>, disk': Disk, inos': seq<Inode>, i: nat, bn: nat) {
    && Extends(sb, disk, inos, disk', inos')
    && OthersKept(sb, disk, inos, disk', inos', i)
    && BlockOf(disk', inos', i, bn) != 0
    && (forall c :: 0 <= c < MAXFILE && c != bn ==> BlockOf(disk', inos', i, c) == BlockOf(disk, inos, i, c))
    && (Entry(inos', i, NDIRECT) != 0 <==> Entry(inos, i, NDIRECT) != 0 || bn >= NDIRECT)
  }

  /** Mapped, folded. */
  ghost predicate Mapping(sb: Super, disk: Disk, inos: seq<Inode>, disk': Disk, inos': seq<Inode>, i: nat, bn: nat) {
    forall z: int {:trigger Seal((TheMap, disk', inos'), z)} :: Seal((TheMap, disk', inos'), z) ==> Mapped(sb, disk, inos, disk', inos', i, bn)
  }

  lemma OpenMapping(sb: Super, disk: Disk, inos: seq<Inode>, disk': Disk, inos': seq<Inode>, i: nat, bn: nat)
    requires Mapping(sb, disk, inos, disk', inos', i, bn)
    ensures Mapped(sb, disk, inos, disk', inos', i, bn)
  {
    assert Seal((TheMap, disk', inos'), 0);
  }

  function Max(a: nat, b: nat): nat { if a < b then b else a }

  lemma MappedDense(sb: Super, disk: Disk, inos: seq<Inode>, disk': Disk, inos': seq<Inode>, i: nat, bn: nat, n: nat)
    requires i < sb.ninodes && bn < MAXFILE && Mapped(sb, disk, inos, disk', inos', i, bn)
    requires Dense(disk, inos, i, n) && bn <= n
    ensures Dense(disk', inos', i, Max(n, bn + 1))
  {
    forall c | 0 <= c < MAXFILE
      ensures BlockOf(disk', inos', i, c) != 0 <==> c < Max(n, bn + 1)
    {
      assert BlockOf(disk, inos, i, c) != 0 <==> c < n;
    }
  }

  lemma OthersDense(sb: Super, disk: Disk, inos: seq<Inode>, disk': Disk, inos': seq<Inode>, i: nat, q: nat, n: nat)
    requires Shape(sb, disk, inos) && Shape(sb, disk', inos') && OthersKept(sb, disk, inos, disk', inos', i)
    requires q < sb.ninodes && q != i && Dense(disk, inos, q, n)
    ensures Dense(disk', inos', q, n)
  {
    forall c | 0 <= c < MAXFILE ensures BlockOf(disk', inos', q, c) == BlockOf(disk, inos, q, c) {
    }
  }

  /** Bytes [at, at + |data|) of a block replaced. */
  function Splice(b: Block, at: nat, data: seq<Byte>): (r: Block)
    requires |b| == BSIZE && at + |data| <= BSIZE
    ensures |r| == BSIZE
    ensures forall k :: 0 <= k < BSIZE ==> r[k] == if at <= k < at + |data| then data[k - at] else b[k]
  {
    b[..at] + data + b[at + |data|..]
  }

  lemma SpliceIsBlock(b: Block, at: nat, data: seq<Byte>)
    requires IsBlock(b) && at + |data| <= BSIZE && forall k :: 0 <= k < |data| ==> 0 <= data[k] < 256
    ensures IsBlock(Splice(b, at, data))
  {
  }

  /** Storing into a data block changes no slot. */
  lemma StoreAccounted(sb: Super, disk: Disk, inos: seq<Inode>, i: nat, bn: nat, blk: Block)
    requires Accounted(sb, disk, inos, {}) && i < sb.ninodes && bn < MAXFILE
    requires BlockOf(disk, inos, i, bn) != 0 && IsBlock(blk)
    ensures var a := BlockOf(disk, inos, i, bn);
            && sb.nmeta <= a < sb.size && a in disk
            && Accounted(sb, disk[a := blk], inos, {})
            && forall s :: SlotOk(sb, s) ==> Addr(disk[a := blk], inos, s) == Addr(disk, inos, s)
  {
    var a: nat := BlockOf(disk, inos, i, bn);
    assert SlotOk(sb, BlockSlot(i, bn));
    var disk' := disk[a := blk];
    forall s | SlotOk(sb, s) ensures Addr(disk', inos, s) == Addr(disk, inos, s) {
      if s.Listed? {
        assert SlotOk(sb, Indirect(s.inum));
        assert Addr(disk, inos, Indirect(s.inum)) == inos[s.inum].addrs[NDIRECT];
      }
    }
    Untouched(sb, disk, inos, {}, disk', inos);
  }

  lemma StoreByte(sb: Super, disk: Disk, inos: seq<Inode>, i: nat, bn: nat, blk: Block, q: nat, k: nat)
    requires Accounted(sb, disk, inos, {}) && i < sb.ninodes && bn < MAXFILE
    requires BlockOf(disk, inos, i, bn) != 0 && IsBlock(blk)
    requires q < sb.ninodes && k < MAXFILE * BSIZE
    ensures var disk' := disk[BlockOf(disk, inos, i, bn) := blk];
            && Shape(sb, disk', inos)
            && ByteAt(disk', inos, q, k) ==
               if q == i && k / BSIZE == bn then blk[k % BSIZE] else ByteAt(disk, inos, q, k)
  {
    StoreAccounted(sb, disk, inos, i, bn, blk);
    var s, t := BlockSlot(i, bn), BlockSlot(q, k / BSIZE);
    assert SlotOk(sb, s) && SlotOk(sb, t);
    assert s == t ==> q == i && k / BSIZE == bn;
  }

  /** writei has copied up to `end`: blocks are there for the bytes, and no other inode is concerned. */
  ghost predicate Grown(sb: Super, disk: Disk, inos: seq<Inode>, disk': Disk, inos': seq<Inode>, i: nat, end: nat) {
    && i < sb.ninodes && Settled(sb, disk, inos) && Accounted(sb, disk', inos', {}) && disk'.Keys == disk.Keys
    && inos[i].size <= MAXFILE * BSIZE && end <= MAXFILE * BSIZE
    && OthersKept(sb, disk, inos, disk', inos', i)
    && inos'[i] == inos[i].(addrs := inos'[i].addrs)
    && Dense(disk', inos', i, BlocksFor(Max(inos[i].size, end)))
    && (end <= inos[i].size ==> inos' == inos)
  }

  /**
   * The state of writei after `data` has been copied to offset off of inode i: those bytes are
   * in place, and every other byte of every inode is as it was.
   */
  ghost predicate Written(sb: Super, disk: Disk, inos: seq<Inode>, disk': Disk, inos': seq<Inode>,
                          i: nat, off: nat, data: seq<Byte>) {
    && Grown(sb, disk, inos, disk', inos', i, off + |data|) && off <= inos[i].size
    && OtherBytes(sb, disk, inos, disk', inos', i)
    && OwnBytes(disk, inos, disk', inos', i, inos[i].size, off, data)
  }

  lemma WrittenNothing(sb: Super, disk: Disk, inos: seq<Inode>, i: nat, off: nat)
    requires Settled(sb, disk, inos) && i < sb.ninodes && off <= inos[i].size <= MAXFILE * BSIZE
    ensures Written(sb, disk, inos, disk, inos, i, off, [])
  {
  }

  lemma BlockArithmetic(size: nat, pos: nat, m: nat)
    requires 0 < m <= BSIZE - pos % BSIZE
    ensures pos / BSIZE <= BlocksFor(Max(size, pos))
    ensures Max(BlocksFor(Max(size, pos)), pos / BSIZE + 1) == BlocksFor(Max(size, pos + m))
    ensures pos + m <= size ==> pos / BSIZE < BlocksFor(size)
  {
    assert pos == pos / BSIZE * BSIZE + pos % BSIZE;
    assert BlocksFor(pos + m) == pos / BSIZE + 1;
    if size < pos {
    } else if size < pos + m {
    }
  }

  /** One turn of writei's loop, at position pos: its block is mapped, at a, and will receive `more`. */
  ghost predicate Turn(sb: Super, disk1: Disk, inos1: seq<Inode>, disk2: Disk, inos2: seq<Inode>,
                       i: nat, pos: nat, more: seq<Byte>, a: nat) {
    && 0 < |more| <= BSIZE - pos % BSIZE && pos + |more| <= MAXFILE * BSIZE && pos / BSIZE < MAXFILE
    && Mapped(sb, disk1, inos1, disk2, inos2, i, pos / BSIZE)
    && (BlockOf(disk1, inos1, i, pos / BSIZE) != 0 ==> disk2 == disk1 && inos2 == inos1)
    && a == BlockOf(disk2, inos2, i, pos / BSIZE) && a in disk2 && IsBlock(disk2[a])
    && IsBlock(Splice(disk2[a], pos % BSIZE, more))
  }

  /** The byte q, k after block bn of inode i is mapped and overwritten by blk, if its block existed before. */
  lemma TurnByte(sb: Super, disk1: Disk, inos1: seq<Inode>, disk2: Disk, inos2: seq<Inode>,
                 i: nat, bn: nat, a: nat, blk: Block, q: nat, k: nat)
    requires Mapped(sb, disk1, inos1, disk2, inos2, i, bn) && i < sb.ninodes && bn < MAXFILE
    requires a == BlockOf(disk2, inos2, i, bn) && IsBlock(blk)
    requires q < sb.ninodes && k < MAXFILE * BSIZE
    ensures q == i && k / BSIZE == bn ==> ByteAt(disk2[a := blk], inos2, q, k) == blk[k % BSIZE]
    ensures !(q == i && k / BSIZE == bn) && BlockOf(disk1, inos1, q, k / BSIZE) != 0 ==>
              ByteAt(disk2[a := blk], inos2, q, k) == ByteAt(disk1, inos1, q, k)
  {
    StoreByte(sb, disk2, inos2, i, bn, blk, q, k);
    if BlockOf(disk1, inos1, q, k / BSIZE) != 0 { ExtendsByte(sb, disk1, inos1, disk2, inos2, q, k); }
  }

  lemma TurnOthers(sb: Super, disk0: Disk, inos0: seq<Inode>, disk1: Disk, inos1: seq<Inode>,
                   disk2: Disk, inos2: seq<Inode>, disk3: Disk, i: nat, bn: nat, a: nat, blk: Block)
    requires disk3 == disk2[a := blk]
    requires Settled(sb, disk0, inos0) && OthersKept(sb, disk0, inos0, disk1, inos1, i) && Shape(sb, disk1, inos1)
    requires OtherBytes(sb, disk0, inos0, disk1, inos1, i)
    requires Mapped(sb, disk1, inos1, disk2, inos2, i, bn) && i < sb.ninodes && bn < MAXFILE
    requires a == BlockOf(disk2, inos2, i, bn) && IsBlock(blk)
    ensures OtherBytes(sb, disk0, inos0, disk3, inos2, i)
  {
    forall q, k | 0 <= q < sb.ninodes && q != i && 0 <= k < inos0[q].size && k < MAXFILE * BSIZE
      ensures ByteAt(disk3, inos2, q, k) == ByteAt(disk0, inos0, q, k)
    {
      OthersDense(sb, disk0, inos0, disk1, inos1, i, q, BlocksFor(inos0[q].size));
      assert BlockOf(disk1, inos1, q, k / BSIZE) != 0;
      TurnByte(sb, disk1, inos1, disk2, inos2, i, bn, a, blk, q, k);
    }
  }

  lemma TurnOwn(sb: Super, disk0: Disk, inos0: seq<Inode>, disk1: Disk, inos1: seq<Inode>, disk2: Disk, inos2: seq<Inode>,
                disk3: Disk, i: nat, size: nat, off: nat, data: seq<Byte>, more: seq<Byte>, a: nat)
    requires OwnBytes(disk0, inos0, disk1, inos1, i, size, off, data)
    requires Dense(disk1, inos1, i, BlocksFor(Max(size, off + |data|)))
    requires size <= MAXFILE * BSIZE && i < sb.ninodes && Turn(sb, disk1, inos1, disk2, inos2, i, off + |data|, more, a)
    requires disk3 == disk2[a := Splice(disk2[a], (off + |data|) % BSIZE, more)]
    ensures OwnBytes(disk0, inos0, disk3, inos2, i, size, off, data + more)
  {
    forall k | 0 <= k < Max(size, off + |data + more|)
      ensures ByteAt(disk3, inos2, i, k) ==
              if off <= k < off + |data + more| then (data + more)[k - off] else ByteAt(disk0, inos0, i, k)
    {
      TurnSelf(sb, disk0, inos0, disk1, inos1, disk2, inos2, disk3, i, size, off, data, more, a, k);
    }
  }

  lemma TurnSelf(sb: Super, disk0: Disk, inos0: seq<Inode>, disk1: Disk, inos1: seq<Inode>, disk2: Disk, inos2: seq<Inode>,
                 disk3: Disk, i: nat, size: nat, off: nat, data: seq<Byte>, more: seq<Byte>, a: nat, k: nat)
    requires k < Max(size, off + |data|) ==>
               ByteAt(disk1, inos1, i, k) == if off <= k < off + |data| then data[k - off] else ByteAt(disk0, inos0, i, k)
    requires Dense(disk1, inos1, i, BlocksFor(Max(size, off + |data|)))
    requires size <= MAXFILE * BSIZE && i < sb.ninodes && Turn(sb, disk1, inos1, disk2, inos2, i, off + |data|, more, a)
    requires disk3 == disk2[a := Splice(disk2[a], (off + |data|) % BSIZE, more)]
    requires k < Max(size, off + |data| + |more|)
    ensures ByteAt(disk3, inos2, i, k) ==
            if off <= k < off + |data| + |more| then (data + more)[k - off] else ByteAt(disk0, inos0, i, k)
  {
    var pos := off + |data|;
    SameBlock(pos, k, |more|);
    TurnByte(sb, disk1, inos1, disk2, inos2, i, pos / BSIZE, a, Splice(disk2[a], pos % BSIZE, more), i, k);
    if k < Max(size, pos) {
      assert k / BSIZE < BlocksFor(Max(size, pos));
      assert BlockOf(disk1, inos1, i, k / BSIZE) != 0;
      ExtendsByte(sb, disk1, inos1, disk2, inos2, i, k);
    }
  }

  lemma SameBlock(pos: nat, k: nat, m: nat)
    requires pos % BSIZE + m <= BSIZE
    ensures k / BSIZE == pos / BSIZE ==> k - pos == k % BSIZE - pos % BSIZE
    ensures pos <= k < pos + m ==> k / BSIZE == pos / BSIZE
  {
  }

  lemma TurnGrown(sb: Super, disk0: Disk, inos0: seq<Inode>, disk1: Disk, inos1: seq<Inode>,
                  disk2: Disk, inos2: seq<Inode>, disk3: Disk, a: nat, blk: Block, i: nat, pos: nat, m: nat)
    requires a == BlockOf(disk2, inos2, i, pos / BSIZE) && disk3 == disk2[a := blk]
    requires Grown(sb, disk0, inos0, disk1, inos1, i, pos) && 0 < m <= BSIZE - pos % BSIZE && pos + m <= MAXFILE * BSIZE
    requires pos / BSIZE < MAXFILE && Mapped(sb, disk1, inos1, disk2, inos2, i, pos / BSIZE) && IsBlock(blk)
    requires BlockOf(disk1, inos1, i, pos / BSIZE) != 0 ==> disk2 == disk1 && inos2 == inos1
    ensures Grown(sb, disk0, inos0, disk3, inos2, i, pos + m)
  {
    var size, bn := inos0[i].size, pos / BSIZE;
    BlockArithmetic(size, pos, m);
    StoreAccounted(sb, disk2, inos2, i, bn, blk);
    MappedDense(sb, disk1, inos1, disk2, inos2, i, bn, BlocksFor(Max(size, pos)));
    TurnDense(sb, disk2, disk3, inos2, i, BlocksFor(Max(size, pos + m)));
    if pos + m <= size {
      assert BlockOf(disk1, inos1, i, bn) != 0;
    }
  }

  ghost predicate OtherBytes(sb: Super, disk: Disk, inos: seq<Inode>, disk': Disk, inos': seq<Inode>, i: nat) {
    && |inos| == sb.ninodes
    && forall q, k :: 0 <= q < sb.ninodes && q != i && 0 <= k < inos[q].size && k < MAXFILE * BSIZE ==>
         ByteAt(disk', inos', q, k) == ByteAt(disk, inos, q, k)
  }

  ghost predicate OwnBytes(disk: Disk, inos: seq<Inode>, disk': Disk, inos': seq<Inode>,
                           i: nat, size: nat, off: nat, data: seq<Byte>) {
    forall k :: 0 <= k < Max(size, off + |data|) ==>
      ByteAt(disk', inos', i, k) ==
      if off <= k < off + |data| then data[k - off] else ByteAt(disk, inos, i, k)
  }

  /** Every newly logged block is in `blocks` or is a block of the bitmap. */
  ghost predicate LogsOnly(sb: Super, before: set<nat>, after: set<nat>, blocks: set<int>) {
    && before <= after
    && forall b :: b in after && b !in before ==>
         b != 0 && (b in blocks || sb.bmapstart <= b <= sb.bmapstart + sb.size / BPB)
  }

  lemma LogsAlloc(sb: Super, before: set<nat>, b: nat)
    requires 0 < sb.bmapstart && 0 < b < sb.size
    ensures LogsOnly(sb, before, before + {BitmapBlock(sb, b), b}, {b})
  {
  }

  lemma LogsTrans(sb: Super, logged0: set<nat>, logged1: set<nat>, logged2: set<nat>, s1: set<int>, s2: set<int>, all: set<int>)
    requires LogsOnly(sb, logged0, logged1, s1) && LogsOnly(sb, logged1, logged2, s2) && s1 <= all && s2 <= all
    ensures LogsOnly(sb, logged0, logged2, all)
  {
  }

  /** Every block that has changed was passed to log_write. Folded. */
  ghost predicate Confined(disk0: Disk, logged0: set<nat>, disk: Disk, logged: set<nat>) {
    forall z: int {:trigger Seal((TheLog, disk, logged), z)} :: Seal((TheLog, disk, logged), z) ==>
      && logged0 <= logged && disk.Keys == disk0.Keys
      && forall b :: b in disk && b !in logged ==> disk[b] == disk0[b]
  }

  lemma OpenConfined(disk0: Disk, logged0: set<nat>, disk: Disk, logged: set<nat>)
    requires Confined(disk0, logged0, disk, logged)
    ensures logged0 <= logged && disk.Keys == disk0.Keys
    ensures forall b :: b in disk && b !in logged ==> disk[b] == disk0[b]
  {
    assert Seal((TheLog, disk, logged), 0);
  }

  lemma NothingChanged(disk: Disk, logged: set<nat>, more: set<nat>)
    ensures Confined(disk, logged, disk, logged + more) && Confined(disk, logged, disk, logged)
  {
  }

  lemma OneChanged(disk0: Disk, logged0: set<nat>, disk: Disk, logged: set<nat>, b: nat, data: Block)
    requires Confined(disk0, logged0, disk, logged) && b in disk
    ensures Confined(disk0, logged0, disk[b := data], logged + {b})
  {
    OpenConfined(disk0, logged0, disk, logged);
  }

  lemma ConfinedTwice(disk0: Disk, logged0: set<nat>, disk1: Disk, logged1: set<nat>, disk: Disk, logged: set<nat>)
    requires Confined(disk0, logged0, disk1, logged1) && Confined(disk1, logged1, disk, logged)
    ensures Confined(disk0, logged0, disk, logged)
  {
    OpenConfined(disk0, logged0, disk1, logged1);
    OpenConfined(disk1, logged1, disk, logged);
  }

  lemma AllocConfined(sb: Super, disk: Disk, logged: set<nat>, b: nat)
    requires BitmapBlock(sb, b) in disk && |disk[BitmapBlock(sb, b)]| == BSIZE && b in disk
    ensures Confined(disk, logged, Flip(sb, disk, b, true)[b := Zero()], logged + {BitmapBlock(sb, b), b})
  {
    NothingChanged(disk, logged, {});
    var bb := BitmapBlock(sb, b);
    var disk1 := Flip(sb, disk, b, true);
    OneChanged(disk, logged, disk, logged, bb, disk1[bb]);
    OneChanged(disk, logged, disk1, logged + {bb}, b, Zero());
    assert logged + {bb} + {b} == logged + {bb, b};
  }

  /** Blocks [lo, hi) of inode i, and its indirect block. */
  ghost function Touched(disk: Disk, inos: seq<Inode>, i: nat, lo: nat, hi: nat): set<int> {
    (set bn | lo <= bn < hi :: BlockOf(disk, inos, i, bn)) + {Entry(inos, i, NDIRECT)}
  }

  lemma LogsTurn(sb: Super, logged0: set<nat>, logged1: set<nat>, logged2: set<nat>, disk1: Disk, inos1: seq<Inode>,
                 disk2: Disk, inos2: seq<Inode>, disk3: Disk, i: nat, lo: nat, hi: nat, bn: nat, hi': nat, a: nat)
    requires i < sb.ninodes && lo <= bn < hi' <= MAXFILE && hi <= hi' && Mapped(sb, disk1, inos1, disk2, inos2, i, bn)
    requires a == BlockOf(disk2, inos2, i, bn) != 0
    requires forall s :: SlotOk(sb, s) ==> Addr(disk3, inos2, s) == Addr(disk2, inos2, s)
    requires LogsOnly(sb, logged0, logged1, Touched(disk1, inos1, i, lo, hi))
    requires LogsOnly(sb, logged1, logged2, {a, Entry(inos2, i, NDIRECT)})
    ensures LogsOnly(sb, logged0, logged2, Touched(disk3, inos2, i, lo, hi'))
  {
    var t1, t3 := Touched(disk1, inos1, i, lo, hi), Touched(disk3, inos2, i, lo, hi');
    forall c | lo <= c < hi' ensures BlockOf(disk3, inos2, i, c) in t3 && BlockOf(disk3, inos2, i, c) == BlockOf(disk2, inos2, i, c) {
      assert SlotOk(sb, BlockSlot(i, c));
    }
    assert SlotOk(sb, Indirect(i));
    forall b | b in t1 && b != 0 ensures b in t3 {
      if b != Entry(inos1, i, NDIRECT) {
        var c :| lo <= c < hi && b == BlockOf(disk1, inos1, i, c);
        assert SlotOk(sb, BlockSlot(i, c));
        assert BlockOf(disk3, inos2, i, c) in t3;
      } else {
        assert Addr(disk1, inos1, Indirect(i)) == b;
      }
    }
    assert BlockOf(disk3, inos2, i, bn) in t3;
  }

  lemma CopyLogs(sb: Super, logged0: set<nat>, logged1: set<nat>, logged2: set<nat>, disk1: Disk, inos1: seq<Inode>,
                 disk2: Disk, inos2: seq<Inode>, disk3: Disk, i: nat, off: nat, pos: nat, more: seq<Byte>, a: nat)
    requires i < sb.ninodes && off <= pos && Turn(sb, disk1, inos1, disk2, inos2, i, pos, more, a)
    requires disk3 == disk2[a := Splice(disk2[a], pos % BSIZE, more)]
    requires LogsOnly(sb, logged0, logged1, Touched(disk1, inos1, i, off / BSIZE, BlocksFor(pos)))
    requires LogsOnly(sb, logged1, logged2, {a, Entry(inos2, i, NDIRECT)})
    ensures LogsOnly(sb, logged0, logged2, Touched(disk3, inos2, i, off / BSIZE, BlocksFor(pos + |more|)))
  {
    StoreAccounted(sb, disk2, inos2, i, pos / BSIZE, Splice(disk2[a], pos % BSIZE, more));
    BlockArithmetic(0, pos, |more|);
    LogsTurn(sb, logged0, logged1, logged2, disk1, inos1, disk2, inos2, disk3, i,
             off / BSIZE, BlocksFor(pos), pos / BSIZE, BlocksFor(pos + |more|), a);
  }

  /** What bmap returns is what a turn of writei's loop needs. */
  lemma TurnReady(sb: Super, disk1: Disk, inos1: seq<Inode>, disk2: Disk, inos2: seq<Inode>, i: nat, pos: nat, more: seq<Byte>)
    requires i < sb.ninodes && 0 < |more| <= BSIZE - pos % BSIZE && pos + |more| <= MAXFILE * BSIZE
    requires forall k :: 0 <= k < |more| ==> 0 <= more[k] < 256
    requires Mapped(sb, disk1, inos1, disk2, inos2, i, pos / BSIZE)
    requires BlockOf(disk1, inos1, i, pos / BSIZE) != 0 ==> disk2 == disk1 && inos2 == inos1
    ensures BlockOf(disk2, inos2, i, pos / BSIZE) >= 0
    ensures Turn(sb, disk1, inos1, disk2, inos2, i, pos, more, BlockOf(disk2, inos2, i, pos / BSIZE))
  {
    BlockFacts(sb, disk2, inos2, i, pos / BSIZE);
    SpliceIsBlock(disk2[BlockOf(disk2, inos2, i, pos / BSIZE)], pos % BSIZE, more);
  }

  lemma BlockFacts(sb: Super, disk: Disk, inos: seq<Inode>, i: nat, bn: nat)
    requires Accounted(sb, disk, inos, {}) && i < sb.ninodes && bn < MAXFILE && BlockOf(disk, inos, i, bn) != 0
    ensures sb.nmeta <= BlockOf(disk, inos, i, bn) < sb.size
    ensures BlockOf(disk, inos, i, bn) in disk && IsBlock(disk[BlockOf(disk, inos, i, bn)])
  {
    assert SlotOk(sb, BlockSlot(i, bn));
  }

  /** What the sealed facts below are about. */
  datatype Folded = TheImage | TheGrowth | TheTurn | TheMap | TheLog

  /** A write in progress, with its proof: where it started, where it is, what it copied and logged. */
  datatype Write = Write(sb: Super, disk0: Disk, inos0: seq<Inode>, logged0: set<nat>,
                         disk: Disk, inos: seq<Inode>, logged: set<nat>, i: nat, off: nat, data: seq<Byte>)
  {
    ghost predicate Is(sb: Super, disk: Disk, inos: seq<Inode>, logged: set<nat>, i: nat, pos: nat) {
      this.sb == sb && this.disk == disk && this.inos == inos && this.logged == logged && this.i == i && off + |data| == pos
    }

    /** The proof itself. It is stated so that it unfolds only where a lemma mentions Seal. */
    ghost predicate Good() {
      forall k: int {:trigger Seal((TheImage, disk, inos), k)} :: Seal((TheImage, disk, inos), k) ==> Facts()
    }

    ghost predicate Facts() {
      && Written(sb, disk0, inos0, disk, inos, i, off, data)
      && LogsOnly(sb, logged0, logged, Touched(disk, inos, i, off / BSIZE, BlocksFor(off + |data|)))
    }
  }

  datatype MaybeWrite = NoWrite | Writing(w: Write)

  type Progress = m: MaybeWrite | m.Writing? ==> m.w.Good() witness NoWrite

  /** A settled image, unfolded only where a lemma mentions Seal. */
  ghost predicate Sound(sb: Super, disk: Disk, inos: seq<Inode>) {
    forall k: int {:trigger Seal((TheImage, disk, inos), k)} :: Seal((TheImage, disk, inos), k) ==> Settled(sb, disk, inos)
  }

  lemma OpenSound(sb: Super, disk: Disk, inos: seq<Inode>)
    requires Sound(sb, disk, inos)
    ensures Settled(sb, disk, inos)
  {
    assert Seal((TheImage, disk, inos), 0);
  }

  lemma StartWrite(sb: Super, disk: Disk, inos: seq<Inode>, logged: set<nat>, i: nat, off: nat) returns (m: Progress)
    requires Sound(sb, disk, inos) && i < sb.ninodes && i < |inos| && off <= inos[i].size
    ensures m == Writing(Write(sb, disk, inos, logged, disk, inos, logged, i, off, []))
  {
    OpenSound(sb, disk, inos);
    assert Dense(disk, inos, i, BlocksFor(inos[i].size));
    WrittenNothing(sb, disk, inos, i, off);
    m := Writing(Write(sb, disk, inos, logged, disk, inos, logged, i, off, []));
  }

  lemma WritingAccounted(m: Progress)
    requires m.Writing?
    ensures Accounted(m.w.sb, m.w.disk, m.w.inos, {}) && m.w.i < m.w.sb.ninodes
  {
    assert Seal((TheImage, m.w.disk, m.w.inos), 0);
  }

  /** Grown, kept folded in the same way. */
  ghost predicate GrownSealed(sb: Super, disk: Disk, inos: seq<Inode>, disk': Disk, inos': seq<Inode>, i: nat, end: nat) {
    forall k: int {:trigger Seal((TheGrowth, disk', inos'), k)} :: Seal((TheGrowth, disk', inos'), k) ==> Grown(sb, disk, inos, disk', inos', i, end)
  }

  lemma FoldGrown(m: Progress)
    requires m.Writing?
    ensures GrownSealed(m.w.sb, m.w.disk0, m.w.inos0, m.w.disk, m.w.inos, m.w.i, m.w.off + |m.w.data|)
    ensures m.w.i < |m.w.inos0| && m.w.off <= m.w.inos0[m.w.i].size
  {
    OpenGrown(m);
  }

  lemma OpenGrown(m: Progress)
    requires m.Writing?
    ensures Grown(m.w.sb, m.w.disk0, m.w.inos0, m.w.disk, m.w.inos, m.w.i, m.w.off + |m.w.data|)
    ensures m.w.i < |m.w.inos0| && m.w.off <= m.w.inos0[m.w.i].size
  {
    assert Seal((TheImage, m.w.disk, m.w.inos), 0);
  }

  lemma OpenOthers(m: Progress)
    requires m.Writing?
    ensures Settled(m.w.sb, m.w.disk0, m.w.inos0) && Shape(m.w.sb, m.w.disk, m.w.inos) && m.w.i < m.w.sb.ninodes
    ensures OthersKept(m.w.sb, m.w.disk0, m.w.inos0, m.w.disk, m.w.inos, m.w.i)
    ensures OtherBytes(m.w.sb, m.w.disk0, m.w.inos0, m.w.disk, m.w.inos, m.w.i)
  {
    assert Seal((TheImage, m.w.disk, m.w.inos), 0);
  }

  lemma OpenOwn(m: Progress)
    requires m.Writing?
    ensures m.w.i < |m.w.inos0| == m.w.sb.ninodes && m.w.inos0[m.w.i].size <= MAXFILE * BSIZE
    ensures OwnBytes(m.w.disk0, m.w.inos0, m.w.disk, m.w.inos, m.w.i, m.w.inos0[m.w.i].size, m.w.off, m.w.data)
    ensures Dense(m.w.disk, m.w.inos, m.w.i, BlocksFor(Max(m.w.inos0[m.w.i].size, m.w.off + |m.w.data|)))
  {
    assert Seal((TheImage, m.w.disk, m.w.inos), 0);
  }

  lemma OpenBytes(m: Progress, q: nat)
    requires m.Writing? && q < m.w.sb.ninodes
    ensures m.w.i < |m.w.inos0| == |m.w.inos| == m.w.sb.ninodes
    ensures m.w.inos0[q].size <= MAXFILE * BSIZE && m.w.inos[q].size == m.w.inos0[q].size
    ensures OtherBytes(m.w.sb, m.w.disk0, m.w.inos0, m.w.disk, m.w.inos, m.w.i)
    ensures OwnBytes(m.w.disk0, m.w.inos0, m.w.disk, m.w.inos, m.w.i, m.w.inos0[m.w.i].size, m.w.off, m.w.data)
  {
    assert Seal((TheImage, m.w.disk, m.w.inos), 0);
    assert Dense(m.w.disk0, m.w.inos0, q, BlocksFor(m.w.inos0[q].size));
  }

  lemma OpenLogs(m: Progress)
    requires m.Writing?
    ensures m.w.i < m.w.sb.ninodes
    ensures LogsOnly(m.w.sb, m.w.logged0, m.w.logged,
                     Touched(m.w.disk, m.w.inos, m.w.i, m.w.off / BSIZE, BlocksFor(m.w.off + |m.w.data|)))
  {
    assert Seal((TheImage, m.w.disk, m.w.inos), 0);
  }

  /** Turn, folded, with what is needed to name its result. */
  ghost predicate Turning(sb: Super, disk1: Disk, inos1: seq<Inode>, disk2: Disk, inos2: seq<Inode>,
                          i: nat, pos: nat, more: seq<Byte>, a: nat) {
    && a in disk2 && |disk2[a]| == BSIZE && pos % BSIZE + |more| <= BSIZE
    && forall k: int {:trigger Seal((TheTurn, disk2, inos2), k)} :: Seal((TheTurn, disk2, inos2), k) ==> Turn(sb, disk1, inos1, disk2, inos2, i, pos, more, a)
  }

  /** The record of a write after one more turn of writei's loop. */
  ghost function Advanced(w: Write, disk2: Disk, inos2: seq<Inode>, logged2: set<nat>, more: seq<Byte>, a: nat): Write
    requires a in disk2 && |disk2[a]| == BSIZE && (w.off + |w.data|) % BSIZE + |more| <= BSIZE
  {
    w.(disk := disk2[a := Splice(disk2[a], (w.off + |w.data|) % BSIZE, more)],
       inos := inos2, logged := logged2, data := w.data + more)
  }

  lemma AdvanceGrown(m: Progress, disk2: Disk, inos2: seq<Inode>, logged2: set<nat>, more: seq<Byte>, a: nat, w': Write)
    requires m.Writing? && Turning(m.w.sb, m.w.disk, m.w.inos, disk2, inos2, m.w.i, m.w.off + |m.w.data|, more, a)
    requires w' == Advanced(m.w, disk2, inos2, logged2, more, a)
    ensures GrownSealed(w'.sb, w'.disk0, w'.inos0, w'.disk, w'.inos, w'.i, w'.off + |w'.data|)
    ensures w'.i < |w'.inos0| && w'.off <= w'.inos0[w'.i].size
  {
    FoldGrown(m);
    var w := m.w;
    var pos := w.off + |w.data|;
    assert w'.off + |w'.data| == pos + |more|;
    GrownTurn(w.sb, w.disk0, w.inos0, w.disk, w.inos, disk2, inos2, w'.disk, w.i, pos, more, a);
  }

  lemma GrownTurn(sb: Super, disk0: Disk, inos0: seq<Inode>, disk1: Disk, inos1: seq<Inode>,
                  disk2: Disk, inos2: seq<Inode>, disk3: Disk, i: nat, pos: nat, more: seq<Byte>, a: nat)
    requires GrownSealed(sb, disk0, inos0, disk1, inos1, i, pos) && Turning(sb, disk1, inos1, disk2, inos2, i, pos, more, a)
    requires disk3 == disk2[a := Splice(disk2[a], pos % BSIZE, more)]
    ensures GrownSealed(sb, disk0, inos0, disk3, inos2, i, pos + |more|)
  {
    assert Seal((TheGrowth, disk1, inos1), 0) && Seal((TheTurn, disk2, inos2), 0);
    TurnGrown(sb, disk0, inos0, disk1, inos1, disk2, inos2, disk3, a, Splice(disk2[a], pos % BSIZE, more), i, pos, |more|);
  }

  lemma AdvanceOthers(m: Progress, disk2: Disk, inos2: seq<Inode>, logged2: set<nat>, more: seq<Byte>, a: nat, w': Write)
    requires m.Writing? && Turning(m.w.sb, m.w.disk, m.w.inos, disk2, inos2, m.w.i, m.w.off + |m.w.data|, more, a)
    requires w' == Advanced(m.w, disk2, inos2, logged2, more, a)
    ensures OtherBytes(w'.sb, w'.disk0, w'.inos0, w'.disk, w'.inos, w'.i)
  {
    OpenOthers(m);
    var w := m.w;
    FoldedOthers(w.sb, w.disk0, w.inos0, w.disk, w.inos, disk2, inos2, w'.disk, w.i, w.off + |w.data|, more, a);
  }

  lemma FoldedOthers(sb: Super, disk0: Disk, inos0: seq<Inode>, disk1: Disk, inos1: seq<Inode>,
                     disk2: Disk, inos2: seq<Inode>, disk3: Disk, i: nat, pos: nat, more: seq<Byte>, a: nat)
    requires i < sb.ninodes && Turning(sb, disk1, inos1, disk2, inos2, i, pos, more, a)
    requires disk3 == disk2[a := Splice(disk2[a], pos % BSIZE, more)] && OtherBytes(sb, disk0, inos0, disk1, inos1, i)
    requires Settled(sb, disk0, inos0) && OthersKept(sb, disk0, inos0, disk1, inos1, i)
    ensures OtherBytes(sb, disk0, inos0, disk3, inos2, i)
  {
    assert Seal((TheTurn, disk2, inos2), 0);
    TurnOthers(sb, disk0, inos0, disk1, inos1, disk2, inos2, disk3, i, pos / BSIZE, a, Splice(disk2[a], pos % BSIZE, more));
  }

  lemma AdvanceOwn(m: Progress, disk2: Disk, inos2: seq<Inode>, logged2: set<nat>, more: seq<Byte>, a: nat, w': Write)
    requires m.Writing? && Turning(m.w.sb, m.w.disk, m.w.inos, disk2, inos2, m.w.i, m.w.off + |m.w.data|, more, a)
    requires w' == Advanced(m.w, disk2, inos2, logged2, more, a)
    requires w'.i < |w'.inos0|
    ensures OwnBytes(w'.disk0, w'.inos0, w'.disk, w'.inos, w'.i, w'.inos0[w'.i].size, w'.off, w'.data)
  {
    OpenOwn(m);
    assert Seal((TheTurn, disk2, inos2), 0);
    var w := m.w;
    TurnOwn(w.sb, w.disk0, w.inos0, w.disk, w.inos, disk2, inos2, w'.disk, w.i, w.inos0[w.i].size, w.off, w.data, more, a);
  }

  lemma AdvanceLogs(m: Progress, disk2: Disk, inos2: seq<Inode>, logged2: set<nat>, more: seq<Byte>, a: nat, w': Write)
    requires m.Writing? && Turning(m.w.sb, m.w.disk, m.w.inos, disk2, inos2, m.w.i, m.w.off + |m.w.data|, more, a)
    requires w' == Advanced(m.w, disk2, inos2, logged2, more, a)
    requires LogsOnly(m.w.sb, m.w.logged, logged2, {a, Entry(inos2, m.w.i, NDIRECT)})
    ensures LogsOnly(w'.sb, w'.logged0, w'.logged,
                     Touched(w'.disk, w'.inos, w'.i, w'.off / BSIZE, BlocksFor(w'.off + |w'.data|)))
  {
    OpenLogs(m);
    var w := m.w;
    assert w'.off + |w'.data| == w.off + |w.data| + |more|;
    FoldedLogs(w.sb, w.logged0, w.logged, logged2, w.disk, w.inos, disk2, inos2, w'.disk, w.i, w.off, w.off + |w.data|, more, a);
  }

  lemma FoldedLogs(sb: Super, logged0: set<nat>, logged1: set<nat>, logged2: set<nat>, disk1: Disk, inos1: seq<Inode>,
                   disk2: Disk, inos2: seq<Inode>, disk3: Disk, i: nat, off: nat, pos: nat, more: seq<Byte>, a: nat)
    requires i < sb.ninodes && off <= pos && Turning(sb, disk1, inos1, disk2, inos2, i, pos, more, a)
    requires disk3 == disk2[a := Splice(disk2[a], pos % BSIZE, more)]
    requires LogsOnly(sb, logged0, logged1, Touched(disk1, inos1, i, off / BSIZE, BlocksFor(pos)))
    requires LogsOnly(sb, logged1, logged2, {a, Entry(inos2, i, NDIRECT)})
    ensures LogsOnly(sb, logged0, logged2, Touched(disk3, inos2, i, off / BSIZE, BlocksFor(pos + |more|)))
  {
    assert Seal((TheTurn, disk2, inos2), 0);
    CopyLogs(sb, logged0, logged1, logged2, disk1, inos1, disk2, inos2, disk3, i, off, pos, more, a);
  }

  /** One more turn of writei's loop. */
  lemma Advance(m: Progress, disk2: Disk, inos2: seq<Inode>, logged2: set<nat>, more: seq<Byte>, a: nat) returns (m': Progress)
    requires m.Writing? && Turning(m.w.sb, m.w.disk, m.w.inos, disk2, inos2, m.w.i, m.w.off + |m.w.data|, more, a)
    requires LogsOnly(m.w.sb, m.w.logged, logged2, {a, Entry(inos2, m.w.i, NDIRECT)})
    ensures m' == Writing(Advanced(m.w, disk2, inos2, logged2, more, a))
  {
    var w' := Advanced(m.w, disk2, inos2, logged2, more, a);
    AdvanceGrown(m, disk2, inos2, logged2, more, a, w');
    AdvanceOthers(m, disk2, inos2, logged2, more, a, w');
    AdvanceOwn(m, disk2, inos2, logged2, more, a, w');
    AdvanceLogs(m, disk2, inos2, logged2, more, a, w');
    m' := Assemble(w', w'.off + |w'.data|);
  }

  /** A turn of writei's loop, from what bmap left (disk2, inos2, logged2) to what the copy leaves. */
  lemma Turned(m: Progress, disk2: Disk, inos2: seq<Inode>, logged2: set<nat>, pos: nat, more: seq<Byte>, a: nat) returns (m': Progress)
    requires m.Writing? && m.w.i < m.w.sb.ninodes && pos == m.w.off + |m.w.data|
    requires 0 < |more| <= BSIZE - pos % BSIZE && pos + |more| <= MAXFILE * BSIZE && forall k :: 0 <= k < |more| ==> 0 <= more[k] < 256
    requires Mapping(m.w.sb, m.w.disk, m.w.inos, disk2, inos2, m.w.i, pos / BSIZE) && a == BlockOf(disk2, inos2, m.w.i, pos / BSIZE)
    requires BlockOf(m.w.disk, m.w.inos, m.w.i, pos / BSIZE) != 0 ==> disk2 == m.w.disk && inos2 == m.w.inos
    requires LogsOnly(m.w.sb, m.w.logged, logged2, {a, Entry(inos2, m.w.i, NDIRECT)})
    ensures a in disk2 && |disk2[a]| == BSIZE && a != 0
    ensures m' == Writing(m.w.(disk := disk2[a := Splice(disk2[a], pos % BSIZE, more)], inos := inos2, logged := logged2 + {a}, data := m.w.data + more))
  {
    OpenMapping(m.w.sb, m.w.disk, m.w.inos, disk2, inos2, m.w.i, pos / BSIZE);
    TurnReady(m.w.sb, m.w.disk, m.w.inos, disk2, inos2, m.w.i, pos, more);
    BlockFacts(m.w.sb, disk2, inos2, m.w.i, pos / BSIZE);
    m' := Advance(m, disk2, inos2, logged2 + {a}, more, a);
  }

  lemma Assemble(w: Write, end: nat) returns (m: Progress)
    requires GrownSealed(w.sb, w.disk0, w.inos0, w.disk, w.inos, w.i, end) && end == w.off + |w.data|
    requires w.i < |w.inos0| && w.off <= w.inos0[w.i].size
    requires OtherBytes(w.sb, w.disk0, w.inos0, w.disk, w.inos, w.i)
    requires OwnBytes(w.disk0, w.inos0, w.disk, w.inos, w.i, w.inos0[w.i].size, w.off, w.data)
    requires LogsOnly(w.sb, w.logged0, w.logged, Touched(w.disk, w.inos, w.i, w.off / BSIZE, BlocksFor(end)))
    ensures m == Writing(w)
  {
    assert Seal((TheGrowth, w.disk, w.inos), 0);
    m := Writing(w);
  }

  lemma TurnDense(sb: Super, disk: Disk, disk': Disk, inos: seq<Inode>, i: nat, n: nat)
    requires Shape(sb, disk, inos) && Shape(sb, disk', inos) && i < sb.ninodes && Dense(disk, inos, i, n)
    requires forall s :: SlotOk(sb, s) ==> Addr(disk', inos, s) == Addr(disk, inos, s)
    ensures Dense(disk', inos, i, n)
  {
    forall c | 0 <= c < MAXFILE ensures BlockOf(disk', inos, i, c) == BlockOf(disk, inos, i, c) {
      assert SlotOk(sb, BlockSlot(i, c));
    }
  }

  // ----- From slots to blocks -----

  lemma ExtendsTrans(sb: Super, disk0: Disk, inos0: seq<Inode>, disk1: Disk, inos1: seq<Inode>, disk2: Disk, inos2: seq<Inode>)
    requires Extends(sb, disk0, inos0, disk1, inos1) && Extends(sb, disk1, inos1, disk2, inos2)
    ensures Extends(sb, disk0, inos0, disk2, inos2)
  {
  }

  lemma MappedRefl(sb: Super, disk: Disk, inos: seq<Inode>, i: nat, bn: nat)
    requires Accounted(sb, disk, inos, {}) && i < sb.ninodes && bn < MAXFILE && BlockOf(disk, inos, i, bn) != 0
    ensures Mapping(sb, disk, inos, disk, inos, i, bn)
  {
  }

  lemma MappedOnly(sb: Super, disk: Disk, inos: seq<Inode>, disk': Disk, inos': seq<Inode>, i: nat, bn: nat, b: nat)
    requires Extends(sb, disk, inos, disk', inos') && i < sb.ninodes && bn < MAXFILE && b != 0
    requires Only(sb, disk, inos, disk', inos', BlockSlot(i, bn), b)
    requires forall q :: 0 <= q < sb.ninodes && q != i ==> inos'[q] == inos[q]
    requires bn >= NDIRECT ==> Entry(inos, i, NDIRECT) != 0
    ensures Mapping(sb, disk, inos, disk', inos', i, bn)
  {
    assert SlotOk(sb, BlockSlot(i, bn)) && SlotOk(sb, Indirect(i));
    assert Addr(disk', inos', Indirect(i)) == Addr(disk, inos, Indirect(i));
    forall c | 0 <= c < MAXFILE && c != bn ensures BlockOf(disk', inos', i, c) == BlockOf(disk, inos, i, c) {
      assert SlotOk(sb, BlockSlot(i, c)) && BlockSlot(i, c) != BlockSlot(i, bn);
    }
  }

  /** The indirect block first, then the listed one. */
  lemma MappedTwice(sb: Super, disk0: Disk, inos0: seq<Inode>, disk1: Disk, inos1: seq<Inode>,
                    disk2: Disk, inos2: seq<Inode>, i: nat, bn: nat, b: nat)
    requires Extends(sb, disk0, inos0, disk1, inos1) && Only(sb, disk0, inos0, disk1, inos1, Indirect(i), b) && b != 0
    requires forall q :: 0 <= q < sb.ninodes && q != i ==> inos1[q] == inos0[q]
    requires i < sb.ninodes && NDIRECT <= bn < MAXFILE && Mapping(sb, disk1, inos1, disk2, inos2, i, bn)
    ensures Mapping(sb, disk0, inos0, disk2, inos2, i, bn)
  {
    OpenMapping(sb, disk1, inos1, disk2, inos2, i, bn);
    ExtendsTrans(sb, disk0, inos0, disk1, inos1, disk2, inos2);
    forall c | 0 <= c < MAXFILE && c != bn ensures BlockOf(disk2, inos2, i, c) == BlockOf(disk0, inos0, i, c) {
      assert SlotOk(sb, BlockSlot(i, c));
    }
    forall s | SlotOk(sb, s) && s.inum != i ensures Addr(disk2, inos2, s) == Addr(disk0, inos0, s) {
      assert Addr(disk1, inos1, s) == Addr(disk0, inos0, s);
    }
  }

  // ----- What a whole write amounts to -----

  /** A byte sequence with d written at offset off, growing it if need be. */
  function Overwrite(c: seq<Byte>, off: nat, d: seq<Byte>): (r: seq<Byte>)
    requires off <= |c|
    ensures |r| == Max(|c|, off + |d|)
    ensures forall k :: 0 <= k < |r| ==> r[k] == if off <= k < off + |d| then d[k - off] else c[k]
  {
    c[..off] + d + (if off + |d| < |c| then c[off + |d|..] else [])
  }

  function SetSize(inos: seq<Inode>, i: nat, size: nat): seq<Inode>
    requires i < |inos|
  {
    inos[i := inos[i].(size := size)]
  }

  lemma SizeIsNoSlot(disk: Disk, inos: seq<Inode>, i: nat, size: nat, s: Slot)
    requires i < |inos|
    ensures Addr(disk, SetSize(inos, i, size), s) == Addr(disk, inos, s)
  {
  }

  lemma SizedDense(disk: Disk, inos: seq<Inode>, i: nat, size: nat, q: nat, n: nat)
    requires i < |inos| && Dense(disk, inos, q, n)
    ensures Dense(disk, SetSize(inos, i, size), q, n)
  {
    forall c | 0 <= c < MAXFILE ensures BlockOf(disk, SetSize(inos, i, size), q, c) == BlockOf(disk, inos, q, c) {
      SizeIsNoSlot(disk, inos, i, size, BlockSlot(q, c));
    }
  }

  /** After the size is set the image is settled again. */
  lemma WriteSettles(sb: Super, disk: Disk, inos: seq<Inode>, disk': Disk, inos': seq<Inode>, i: nat, end: nat)
    requires Grown(sb, disk, inos, disk', inos', i, end)
    ensures Settled(sb, disk', SetSize(inos', i, Max(inos[i].size, end)))
  {
    var size := Max(inos[i].size, end);
    var inos'' := SetSize(inos', i, size);
    forall s | SlotOk(sb, s) ensures Addr(disk', inos'', s) == Addr(disk', inos', s) {
      SizeIsNoSlot(disk', inos', i, size, s);
    }
    Untouched(sb, disk', inos', {}, disk', inos'');
    forall q | 0 <= q < sb.ninodes ensures Dense(disk', inos'', q, BlocksFor(inos''[q].size)) {
      if q != i { OthersDense(sb, disk, inos, disk', inos', i, q, BlocksFor(inos[q].size)); }
      SizedDense(disk', inos', i, size, q, BlocksFor(inos''[q].size));
    }
  }

  lemma SizedByte(disk: Disk, inos: seq<Inode>, i: nat, size: nat, q: nat, k: nat)
    requires i < |inos|
    ensures ByteAt(disk, SetSize(inos, i, size), q, k) == ByteAt(disk, inos, q, k)
  {
    SizeIsNoSlot(disk, inos, i, size, BlockSlot(q, k / BSIZE));
  }

  /** The written inode holds the spliced bytes and every other inode what it held. */
  lemma WriteContents(sb: Super, disk: Disk, inos: seq<Inode>, disk': Disk, inos': seq<Inode>,
                      i: nat, off: nat, data: seq<Byte>, q: nat)
    requires i < |inos| == |inos'| == sb.ninodes && q < sb.ninodes && off <= inos[i].size
    requires inos[q].size <= MAXFILE * BSIZE && inos'[q].size == inos[q].size
    requires OtherBytes(sb, disk, inos, disk', inos', i)
    requires OwnBytes(disk, inos, disk', inos', i, inos[i].size, off, data)
    ensures var inos'' := SetSize(inos', i, Max(inos[i].size, off + |data|));
            Content(disk', inos'', q) ==
            if q == i then Overwrite(Content(disk, inos, i), off, data) else Content(disk, inos, q)
  {
    var size := Max(inos[i].size, off + |data|);
    var inos'' := SetSize(inos', i, size);
    var c := Content(disk', inos'', q);
    forall k | 0 <= k < |c|
      ensures c[k] == if q == i then Overwrite(Content(disk, inos, i), off, data)[k] else Content(disk, inos, q)[k]
    {
      SizedByte(disk', inos', i, size, q, k);
    }
  }

  lemma TouchedSized(disk: Disk, inos: seq<Inode>, i: nat, size: nat, lo: nat, hi: nat)
    requires i < |inos|
    ensures Touched(disk, SetSize(inos, i, size), i, lo, hi) == Touched(disk, inos, i, lo, hi)
  {
    forall bn | lo <= bn < hi ensures BlockOf(disk, SetSize(inos, i, size), i, bn) == BlockOf(disk, inos, i, bn) {
      SizeIsNoSlot(disk, inos, i, size, BlockSlot(i, bn));
    }
  }

  ghost predicate ContentsAfter(sb: Super, disk0: Disk, inos0: seq<Inode>, disk: Disk, inos: seq<Inode>,
                                i: nat, off: nat, data: seq<Byte>) {
    && |inos0| == |inos| == sb.ninodes && i < sb.ninodes && off <= inos0[i].size
    && (forall q :: 0 <= q < sb.ninodes && q != i ==>
          inos[q] == inos0[q] && Content(disk, inos, q) == Content(disk0, inos0, q))
    && inos[i] == inos0[i].(size := Max(inos0[i].size, off + |data|), addrs := inos[i].addrs)
    && Content(disk, inos, i) == Overwrite(Content(disk0, inos0, i), off, data)
  }

  /** The size writei leaves behind. */
  ghost predicate Sized(m: Progress, inos: seq<Inode>) {
    && m.Writing? && m.w.i < |m.w.inos| == |m.w.inos0| == m.w.sb.ninodes && m.w.off <= m.w.inos0[m.w.i].size
    && inos == SetSize(m.w.inos, m.w.i, Max(m.w.inos0[m.w.i].size, m.w.off + |m.w.data|))
  }

  lemma FinishSound(m: Progress, inos: seq<Inode>)
    requires Sized(m, inos)
    ensures Sound(m.w.sb, m.w.disk, inos)
  {
    FoldGrown(m);
    FoldedSettles(m.w.sb, m.w.disk0, m.w.inos0, m.w.disk, m.w.inos, m.w.i, m.w.off + |m.w.data|, inos);
  }

  lemma FoldedSettles(sb: Super, disk: Disk, inos: seq<Inode>, disk': Disk, inos': seq<Inode>, i: nat, end: nat, inos'': seq<Inode>)
    requires GrownSealed(sb, disk, inos, disk', inos', i, end) && i < |inos'| && i < |inos|
    requires inos'' == SetSize(inos', i, Max(inos[i].size, end))
    ensures Sound(sb, disk', inos'')
  {
    assert Seal((TheGrowth, disk', inos'), 0);
    WriteSettles(sb, disk, inos, disk', inos', i, end);
  }

  lemma FinishLogs(m: Progress, inos: seq<Inode>)
    requires Sized(m, inos)
    ensures LogsOnly(m.w.sb, m.w.logged0, m.w.logged,
                     Touched(m.w.disk, inos, m.w.i, m.w.off / BSIZE, BlocksFor(m.w.off + |m.w.data|)))
  {
    OpenLogs(m);
    TouchedSized(m.w.disk, m.w.inos, m.w.i, inos[m.w.i].size, m.w.off / BSIZE, BlocksFor(m.w.off + |m.w.data|));
  }

  lemma FinishContents(m: Progress, inos: seq<Inode>)
    requires Sized(m, inos)
    ensures ContentsAfter(m.w.sb, m.w.disk0, m.w.inos0, m.w.disk, inos, m.w.i, m.w.off, m.w.data)
  {
    FinishFields(m, inos);
    forall q | 0 <= q < m.w.sb.ninodes
      ensures Content(m.w.disk, inos, q) ==
              if q == m.w.i then Overwrite(Content(m.w.disk0, m.w.inos0, m.w.i), m.w.off, m.w.data)
              else Content(m.w.disk0, m.w.inos0, q)
    {
      FinishContent(m, inos, q);
    }
  }

  lemma FinishFields(m: Progress, inos: seq<Inode>)
    requires Sized(m, inos)
    ensures forall q :: 0 <= q < m.w.sb.ninodes && q != m.w.i ==> inos[q] == m.w.inos0[q]
    ensures inos[m.w.i] == m.w.inos0[m.w.i].(size := Max(m.w.inos0[m.w.i].size, m.w.off + |m.w.data|), addrs := inos[m.w.i].addrs)
    ensures m.w.off + |m.w.data| <= m.w.inos0[m.w.i].size ==> m.w.inos == m.w.inos0
  {
    OpenGrown(m);
  }

  lemma FinishContent(m: Progress, inos: seq<Inode>, q: nat)
    requires Sized(m, inos) && q < m.w.sb.ninodes
    ensures Content(m.w.disk, inos, q) ==
            if q == m.w.i then Overwrite(Content(m.w.disk0, m.w.inos0, m.w.i), m.w.off, m.w.data)
            else Content(m.w.disk0, m.w.inos0, q)
  {
    OpenBytes(m, q);
    WriteContents(m.w.sb, m.w.disk0, m.w.inos0, m.w.disk, m.w.inos, m.w.i, m.w.off, m.w.data, q);
  }

  lemma WritingFields(m: Progress)
    requires m.Writing?
    ensures m.w.i < |m.w.inos| == |m.w.inos0| == m.w.sb.ninodes && m.w.off <= m.w.inos0[m.w.i].size
    ensures m.w.inos[m.w.i].size == m.w.inos0[m.w.i].size
    ensures forall q :: 0 <= q < m.w.sb.ninodes && q != m.w.i ==> m.w.inos[q] == m.w.inos0[q]
    ensures m.w.off + |m.w.data| <= m.w.inos0[m.w.i].size ==> m.w.inos == m.w.inos0
  {
    OpenGrown(m);
  }

  /** All that is known at the end of writei, once the size is right and the inode block b perhaps logged. */
  lemma FinishWrite(m: Progress, sb: Super, disk0: Disk, inos0: seq<Inode>, logged0: set<nat>,
                    disk: Disk, inos: seq<Inode>, logged: set<nat>, i: nat, off: nat, data: seq<Byte>, b: nat)
    requires Sized(m, inos) && m.w == Write(sb, disk0, inos0, logged0, disk, m.w.inos, m.w.logged, i, off, data)
    requires b > 0 && (logged == m.w.logged || logged == m.w.logged + {b})
    ensures Sound(sb, disk, inos)
    ensures ContentsAfter(sb, disk0, inos0, disk, inos, i, off, data)
    ensures LogsOnly(sb, logged0, logged, Touched(disk, inos, i, off / BSIZE, BlocksFor(off + |data|)) + {b})
  {
    FinishSound(m, inos);
    FinishContents(m, inos);
    FinishLogs(m, inos);
  }
}
