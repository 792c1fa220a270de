/**
 * The file system's blocks as src/fs.c reads them through the cache: the free bitmap, the
 * block lists of the inodes, and the byte sequence each inode stands for.
 */
module FsImage {
  import opened Arithmetic
  const BSIZE: nat := 512
  const NDIRECT: nat := 12
  const NINDIRECT: nat := 128
  const MAXFILE: nat := 140
  const BPB: nat := 4096
  const WORD: nat := 0x1_0000_0000

  type Byte = int
  type Block = seq<Byte>
  type Disk = map<nat, Block>

  /** The parts of the superblock that fs.c uses; nmeta is the first data block. */
  datatype Super = Super(size: nat, nmeta: nat, inodestart: nat, bmapstart: nat, ninodes: nat)

  datatype Inode = Inode(kind: int, major: int, minor: int, nlink: int, size: nat, addrs: seq<nat>)

  // ----- Bytes, bits and words -----

  ghost predicate IsBlock(b: Block) {
    |b| == BSIZE && forall i :: 0 <= i < BSIZE ==> 0 <= b[i] < 256
  }

  function Zero(): (b: Block)
    ensures IsBlock(b) && forall i :: 0 <= i < BSIZE ==> b[i] == 0
  {
    seq(BSIZE, _ => 0)
  }

  /** 1 << k. */
  function Mask(k: nat): nat { if k == 0 then 1 else 2 * Mask(k - 1) }

  /** Whether x & (1 << k) is nonzero. */
  predicate Bit(x: nat, k: nat) { if k == 0 then x % 2 == 1 else Bit(x / 2, k - 1) }

  /** Setting a clear bit, or clearing a set one, changes that bit and no other. */
  lemma {:induction false} FlipBit(x: nat, width: nat, k: nat, j: nat)
    requires x < Mask(width) && k < width && j < width
    ensures !Bit(x, k) ==> x + Mask(k) < Mask(width) && (Bit(x + Mask(k), j) <==> j == k || Bit(x, j))
    ensures Bit(x, k) ==> x >= Mask(k) && (Bit(x - Mask(k), j) <==> j != k && Bit(x, j))
  {
    if k > 0 {
      FlipBit(x / 2, width - 1, k - 1, if j == 0 then 0 else j - 1);
      assert (x + Mask(k)) / 2 == x / 2 + Mask(k - 1);
    }
  }

  lemma ByteMask()
    ensures Mask(8) == 256
  {
    assert Mask(4) == 16;
  }

  /** The j-th 32-bit little-endian word of a block. */
  function Word(b: Block, j: nat): (w: int)
    requires |b| == BSIZE && j < NINDIRECT
  {
    b[4 * j] + 256 * (b[4 * j + 1] + 256 * (b[4 * j + 2] + 256 * b[4 * j + 3]))
  }

  function SetWord(b: Block, j: nat, w: nat): (r: Block)
    requires |b| == BSIZE && j < NINDIRECT && w < WORD
    ensures |r| == BSIZE
  {
    b[4 * j := w % 256][4 * j + 1 := w / 256 % 256][4 * j + 2 := w / 65536 % 256][4 * j + 3 := w / 16777216]
  }

  lemma WordSet(b: Block, j: nat, w: nat, i: nat)
    requires IsBlock(b) && j < NINDIRECT && w < WORD && i < NINDIRECT
    ensures IsBlock(SetWord(b, j, w))
    ensures Word(SetWord(b, j, w), i) == if i == j then w else Word(b, i)
  {
    var r := SetWord(b, j, w);
    FourBytes(w);
    if i != j {
      assert r[4 * i] == b[4 * i] && r[4 * i + 1] == b[4 * i + 1] && r[4 * i + 2] == b[4 * i + 2] && r[4 * i + 3] == b[4 * i + 3];
    }
  }

  // ----- Who owns a block -----

  /** The places that can name a block: a direct entry, the indirect entry, an entry of the indirect block. */
  datatype Slot = Direct(inum: nat, k: nat) | Indirect(inum: nat) | Listed(inum: nat, j: nat)

  ghost predicate SlotOk(sb: Super, s: Slot) {
    s.inum < sb.ninodes && (s.Direct? ==> s.k < NDIRECT) && (s.Listed? ==> s.j < NINDIRECT)
  }

  ghost predicate Shape(sb: Super, disk: Disk, inos: seq<Inode>) {
    && |inos| == sb.ninodes
    && 0 < sb.inodestart && 0 < sb.bmapstart && sb.bmapstart + sb.size / BPB < sb.nmeta <= sb.size < WORD
    && (forall b: nat :: b < sb.size ==> b in disk)
    && (forall b :: b in disk ==> IsBlock(disk[b]))
    && (forall i :: 0 <= i < |inos| ==> |inos[i].addrs| == NDIRECT + 1)
  }

  /** The block number a slot holds; 0 if none. */
  ghost function Addr(disk: Disk, inos: seq<Inode>, s: Slot): int {
    match s
    case Direct(i, k) => Entry(inos, i, k)
    case Indirect(i) => Entry(inos, i, NDIRECT)
    case Listed(i, j) =>
      var a := Entry(inos, i, NDIRECT);
      if a != 0 && a in disk && |disk[a]| == BSIZE && j < NINDIRECT then Word(disk[a], j) else 0
  }

  ghost function Entry(inos: seq<Inode>, i: nat, k: nat): nat {
    if i < |inos| && k < |inos[i].addrs| then inos[i].addrs[k] else 0
  }

  ghost predicate Owned(sb: Super, disk: Disk, inos: seq<Inode>, b: int) {
    exists s :: SlotOk(sb, s) && Addr(disk, inos, s) == b
  }

  /** Whether block b's bit is set in the free bitmap. */
  ghost predicate Used(sb: Super, disk: Disk, b: nat) {
    && sb.bmapstart + b / BPB in disk && IsBlock(disk[sb.bmapstart + b / BPB])
    && Bit(disk[sb.bmapstart + b / BPB][b % BPB / 8], b % 8)
  }

  /**
   * The set bits are exactly the metadata blocks, the blocks some slot names, and the blocks
   * in `held`, which an operation in progress has allocated but not yet linked or unlinked but
   * not yet freed; and no block is named twice.
   */
  ghost predicate Accounted(sb: Super, disk: Disk, inos: seq<Inode>, held: set<nat>) {
    && Shape(sb, disk, inos)
    && (forall b :: b in held ==> sb.nmeta <= b < sb.size)
    && (forall s :: SlotOk(sb, s) && Addr(disk, inos, s) != 0 ==>
          sb.nmeta <= Addr(disk, inos, s) < sb.size && Addr(disk, inos, s) !in held)
    && (forall s, t :: SlotOk(sb, s) && SlotOk(sb, t) && Addr(disk, inos, s) == Addr(disk, inos, t) != 0 ==>
          s == t)
    && (forall b: nat :: b < sb.size ==>
          (Used(sb, disk, b) <==> b < sb.nmeta || b in held || Owned(sb, disk, inos, b)))
  }

  ghost predicate SameUsed(sb: Super, disk: Disk, disk': Disk) {
    forall b: nat :: b < sb.size ==> (Used(sb, disk', b) <==> Used(sb, disk, b))
  }

  /** Linking a held block into an empty slot. */
  lemma Link(sb: Super, disk: Disk, inos: seq<Inode>, held: set<nat>, disk': Disk, inos': seq<Inode>, s0: Slot, b: nat)
    requires Accounted(sb, disk, inos, held) && b in held && SlotOk(sb, s0) && Addr(disk, inos, s0) == 0
    requires Shape(sb, disk', inos') && SameUsed(sb, disk, disk')
    requires forall s :: SlotOk(sb, s) ==>
               Addr(disk', inos', s) == if s == s0 then b else Addr(disk, inos, s)
    ensures Accounted(sb, disk', inos', held - {b})
  {
    forall c: nat | c < sb.size
      ensures Used(sb, disk', c) <==> c < sb.nmeta || c in held - {b} || Owned(sb, disk', inos', c)
    {
      if c == b {
        assert Addr(disk', inos', s0) == b;
      } else if Owned(sb, disk, inos, c) && c >= sb.nmeta {
        var s :| SlotOk(sb, s) && Addr(disk, inos, s) == c;
        assert Addr(disk', inos', s) == c;
      }
    }
  }

  /** Emptying some slots: the blocks they named become held. */
  lemma Unlink(sb: Super, disk: Disk, inos: seq<Inode>, held: set<nat>, inos': seq<Inode>, freed: set<nat>)
    requires Accounted(sb, disk, inos, held) && Shape(sb, disk, inos')
    requires forall s :: SlotOk(sb, s) ==>
               Addr(disk, inos', s) == if Addr(disk, inos, s) in freed then 0 else Addr(disk, inos, s)
    requires forall b :: b in freed ==> b >= sb.nmeta && Owned(sb, disk, inos, b)
    ensures Accounted(sb, disk, inos', held + freed)
  {
    forall c: nat | c < sb.size
      ensures Used(sb, disk, c) <==> c < sb.nmeta || c in held + freed || Owned(sb, disk, inos', c)
    {
      if Owned(sb, disk, inos, c) && c >= sb.nmeta && c !in freed {
        var s :| SlotOk(sb, s) && Addr(disk, inos, s) == c;
        assert Addr(disk, inos', s) == c;
      }
    }
  }

  /** A write that leaves every slot and the bitmap alone. */
  lemma Untouched(sb: Super, disk: Disk, inos: seq<Inode>, held: set<nat>, disk': Disk, inos': seq<Inode>)
    requires Accounted(sb, disk, inos, held) && Shape(sb, disk', inos') && SameUsed(sb, disk, disk')
    requires forall s :: SlotOk(sb, s) ==> Addr(disk', inos', s) == Addr(disk, inos, s)
    ensures Accounted(sb, disk', inos', held)
  {
    forall c: nat | c < sb.size ensures Owned(sb, disk', inos', c) <==> Owned(sb, disk, inos, c) {
      OwnedSame(sb, disk, inos, disk', inos', c);
    }
  }

  // ----- The bitmap -----

  function BitmapBlock(sb: Super, b: nat): nat { sb.bmapstart + b / BPB }

  /** The disk after bit b of the bitmap is set or cleared by adding or subtracting its mask. */
  function Flip(sb: Super, disk: Disk, b: nat, on: bool): Disk
    requires BitmapBlock(sb, b) in disk && |disk[BitmapBlock(sb, b)]| == BSIZE
  {
    var i, m := b % BPB / 8, Mask(b % 8);
    var data := disk[BitmapBlock(sb, b)];
    var data': Block := data[i := if on then data[i] + m else data[i] - m];
    disk[BitmapBlock(sb, b) := data']
  }

  /** Bit b of the bitmap is clear in disk', and every other bit is as it was in disk. */
  ghost predicate ClearsOnly(sb: Super, disk: Disk, disk': Disk, b: nat) {
    forall c: nat :: Used(sb, disk', c) <==> c != b && Used(sb, disk, c)
  }

  lemma FlipOff(sb: Super, disk: Disk, b: nat)
    requires Used(sb, disk, b)
    ensures ClearsOnly(sb, disk, Flip(sb, disk, b, false), b)
  {
    ByteMask();
    var data := disk[BitmapBlock(sb, b)];
    FlipBit(data[b % BPB / 8], 8, b % 8, b % 8);
    forall c: nat ensures Used(sb, Flip(sb, disk, b, false), c) <==> c != b && Used(sb, disk, c) {
      if c / BPB == b / BPB && c % BPB / 8 == b % BPB / 8 {
        FlipBit(data[b % BPB / 8], 8, b % 8, c % 8);
        SameBit(b, c);
      }
    }
  }

  lemma FlipShape(sb: Super, disk: Disk, inos: seq<Inode>, b: nat, on: bool)
    requires Shape(sb, disk, inos) && b < sb.size && Used(sb, disk, b) == !on
    ensures IsBlock(Flip(sb, disk, b, on)[BitmapBlock(sb, b)]) && Shape(sb, Flip(sb, disk, b, on), inos)
  {
    ByteMask();
    FlipBit(disk[BitmapBlock(sb, b)][b % BPB / 8], 8, b % 8, b % 8);
  }

  lemma FlipUsed(sb: Super, disk: Disk, inos: seq<Inode>, b: nat, on: bool, c: nat)
    requires Shape(sb, disk, inos) && b < sb.size && c < sb.size && Used(sb, disk, b) == !on
    ensures Shape(sb, Flip(sb, disk, b, on), inos)
    ensures Used(sb, Flip(sb, disk, b, on), c) <==> if c == b then on else Used(sb, disk, c)
  {
    ByteMask();
    FlipShape(sb, disk, inos, b, on);
    if BitmapBlock(sb, c) == BitmapBlock(sb, b) && c % BPB / 8 == b % BPB / 8 {
      FlipBit(disk[BitmapBlock(sb, b)][b % BPB / 8], 8, b % 8, c % 8);
      SameBit(b, c);
    }
  }

  lemma SameBit(b: nat, c: nat)
    requires c / BPB == b / BPB && c % BPB / 8 == b % BPB / 8
    ensures c % 8 == b % 8 <==> c == b
  {
    assert b == b / BPB * BPB + b % BPB && c == c / BPB * BPB + c % BPB;
    assert b % 8 == b % BPB % 8 && c % 8 == c % BPB % 8;
  }

  /** A slot's block number depends on the inode and, for a listed slot, on the indirect block only. */
  lemma AddrSame(sb: Super, disk: Disk, disk': Disk, inos: seq<Inode>, held: set<nat>, s: Slot, b: nat)
    requires Accounted(sb, disk, inos, held) && Shape(sb, disk', inos) && SlotOk(sb, s)
    requires b < sb.nmeta || !Owned(sb, disk, inos, b)
    requires disk'.Keys == disk.Keys && forall c :: c in disk && c != b ==> disk'[c] == disk[c]
    ensures Addr(disk', inos, s) == Addr(disk, inos, s)
  {
    if s.Listed? {
      assert SlotOk(sb, Indirect(s.inum));
      assert Addr(disk, inos, Indirect(s.inum)) == inos[s.inum].addrs[NDIRECT];
    }
  }

  /** balloc: a clear bit is set and its block zeroed. */
  lemma Allocate(sb: Super, disk: Disk, inos: seq<Inode>, held: set<nat>, b: nat)
    requires Accounted(sb, disk, inos, held) && b < sb.size && !Used(sb, disk, b)
    ensures b >= sb.nmeta && b !in held && !Owned(sb, disk, inos, b)
    ensures var disk' := Flip(sb, disk, b, true)[b := Zero()];
            && Accounted(sb, disk', inos, held + {b})
            && forall s :: SlotOk(sb, s) ==> Addr(disk', inos, s) == Addr(disk, inos, s)
  {
    var disk1 := Flip(sb, disk, b, true);
    var disk2 := disk1[b := Zero()];
    FlipUsed(sb, disk, inos, b, true, b);
    forall s | SlotOk(sb, s) ensures Addr(disk2, inos, s) == Addr(disk, inos, s) {
      AddrSame(sb, disk, disk1, inos, held, s, BitmapBlock(sb, b));
      if s.Listed? {
        assert SlotOk(sb, Indirect(s.inum));
        assert Addr(disk, inos, Indirect(s.inum)) == inos[s.inum].addrs[NDIRECT];
      }
    }
    forall c: nat | c < sb.size
      ensures Used(sb, disk2, c) <==> c < sb.nmeta || c in held + {b} || Owned(sb, disk2, inos, c)
    {
      FlipUsed(sb, disk, inos, b, true, c);
      OwnedSame(sb, disk, inos, disk2, inos, c);
    }
  }

  /** bfree of a block that nobody names any more; its bit is set, so the panic cannot happen. */
  lemma Release(sb: Super, disk: Disk, inos: seq<Inode>, held: set<nat>, b: nat)
    requires Accounted(sb, disk, inos, held) && b in held
    ensures Used(sb, disk, b) && Accounted(sb, Flip(sb, disk, b, false), inos, held - {b})
    ensures forall s :: SlotOk(sb, s) ==> Addr(Flip(sb, disk, b, false), inos, s) == Addr(disk, inos, s)
  {
    var disk1 := Flip(sb, disk, b, false);
    FlipUsed(sb, disk, inos, b, false, b);
    forall s | SlotOk(sb, s) ensures Addr(disk1, inos, s) == Addr(disk, inos, s) {
      AddrSame(sb, disk, disk1, inos, held, s, BitmapBlock(sb, b));
    }
    forall c: nat | c < sb.size
      ensures Used(sb, disk1, c) <==> c < sb.nmeta || c in held - {b} || Owned(sb, disk1, inos, c)
    {
      FlipUsed(sb, disk, inos, b, false, c);
      OwnedSame(sb, disk, inos, disk1, inos, c);
    }
  }

  lemma OwnedSame(sb: Super, disk: Disk, inos: seq<Inode>, disk': Disk, inos': seq<Inode>, c: int)
    requires Shape(sb, disk, inos) && Shape(sb, disk', inos')
    requires forall s :: SlotOk(sb, s) ==> Addr(disk', inos', s) == Addr(disk, inos, s)
    ensures Owned(sb, disk', inos', c) <==> Owned(sb, disk, inos, c)
  {
    if Owned(sb, disk, inos, c) {
      var s :| SlotOk(sb, s) && Addr(disk, inos, s) == c;
      assert Addr(disk', inos', s) == c;
    }
  }

  // ----- Block lists -----

  function BlockSlot(i: nat, bn: nat): Slot { if bn < NDIRECT then Direct(i, bn) else Listed(i, bn - NDIRECT) }

  /** The disk block holding block bn of inode i, or 0. */
  ghost function BlockOf(disk: Disk, inos: seq<Inode>, i: nat, bn: nat): int {
    Addr(disk, inos, BlockSlot(i, bn))
  }

  function SetAddr(inos: seq<Inode>, i: nat, k: nat, b: nat): seq<Inode>
    requires i < |inos| && k < |inos[i].addrs|
  {
    inos[i := inos[i].(addrs := inos[i].addrs[k := b])]
  }

  /** What bmap may do: fill empty slots, and leave every linked slot and every data block alone. */
  ghost predicate Extends(sb: Super, disk: Disk, inos: seq<Inode>, disk': Disk, inos': seq<Inode>) {
    && Accounted(sb, disk, inos, {}) && Accounted(sb, disk', inos', {})
    && disk'.Keys == disk.Keys
    && (forall i :: 0 <= i < |inos| ==> inos'[i] == inos[i].(addrs := inos'[i].addrs))
    && (forall s :: SlotOk(sb, s) && Addr(disk, inos, s) != 0 ==>
          Addr(disk', inos', s) == Addr(disk, inos, s))
    && (forall s :: SlotOk(sb, s) && Addr(disk, inos, s) != 0 && !s.Indirect? ==>
          Addr(disk, inos, s) in disk && disk'[Addr(disk, inos, s)] == disk[Addr(disk, inos, s)])
  }

  /** Exactly slot s0 changed, to b. */
  ghost predicate Only(sb: Super, disk: Disk, inos: seq<Inode>, disk': Disk, inos': seq<Inode>, s0: Slot, b: int) {
    forall s :: SlotOk(sb, s) ==> Addr(disk', inos', s) == if s == s0 then b else Addr(disk, inos, s)
  }

  lemma LinkInode(sb: Super, disk: Disk, inos: seq<Inode>, i: nat, k: nat, b: nat)
    requires Accounted(sb, disk, inos, {b}) && i < sb.ninodes && k <= NDIRECT && inos[i].addrs[k] == 0
    requires disk[b] == Zero()
    ensures Accounted(sb, disk, SetAddr(inos, i, k, b), {})
    ensures Only(sb, disk, inos, disk, SetAddr(inos, i, k, b), if k < NDIRECT then Direct(i, k) else Indirect(i), b)
  {
    var inos' := SetAddr(inos, i, k, b);
    var s0 := if k < NDIRECT then Direct(i, k) else Indirect(i);
    assert Addr(disk, inos, s0) == 0;
    forall s | SlotOk(sb, s) ensures Addr(disk, inos', s) == if s == s0 then b else Addr(disk, inos, s) {
      if s.Listed? && s.inum == i && k == NDIRECT {
        assert Word(Zero(), s.j) == 0;
      }
    }
    Link(sb, disk, inos, {b}, disk, inos', s0, b);
    assert {b} - {b} == {};
  }

  lemma LinkListed(sb: Super, disk: Disk, inos: seq<Inode>, i: nat, j: nat, b: nat)
    requires Accounted(sb, disk, inos, {b}) && i < sb.ninodes && j < NINDIRECT
    requires inos[i].addrs[NDIRECT] != 0 && Addr(disk, inos, Listed(i, j)) == 0
    ensures var a := inos[i].addrs[NDIRECT];
            && sb.nmeta <= a < sb.size && a in disk && b < WORD
            && var disk' := disk[a := SetWord(disk[a], j, b)];
               && Accounted(sb, disk', inos, {}) && Only(sb, disk, inos, disk', inos, Listed(i, j), b)
  {
    var a := inos[i].addrs[NDIRECT];
    assert Addr(disk, inos, Indirect(i)) == a;
    var disk' := disk[a := SetWord(disk[a], j, b)];
    WordSet(disk[a], j, b, j);
    forall s | SlotOk(sb, s)
      ensures Addr(disk', inos, s) == if s == Listed(i, j) then b else Addr(disk, inos, s)
    {
      if s.Listed? {
        assert SlotOk(sb, Indirect(s.inum));
        assert Addr(disk, inos, Indirect(s.inum)) == inos[s.inum].addrs[NDIRECT];
        if s.inum == i { WordSet(disk[a], j, b, s.j); }
      }
    }
    Link(sb, disk, inos, {b}, disk', inos, Listed(i, j), b);
    assert {b} - {b} == {};
  }

  // ----- Contents -----

  function BlocksFor(size: nat): nat { (size + BSIZE - 1) / BSIZE }

  /** Inode i has exactly its first n blocks. */
  ghost predicate Dense(disk: Disk, inos: seq<Inode>, i: nat, n: nat) {
    && n <= MAXFILE
    && (forall bn :: 0 <= bn < MAXFILE ==> (BlockOf(disk, inos, i, bn) != 0 <==> bn < n))
    && (Entry(inos, i, NDIRECT) != 0 <==> n > NDIRECT)
  }

  /** The image between operations: blocks accounted for, and no inode has holes or blocks to spare. */
  ghost predicate Settled(sb: Super, disk: Disk, inos: seq<Inode>) {
    && Accounted(sb, disk, inos, {})
    && (forall i :: 0 <= i < sb.ninodes ==> Dense(disk, inos, i, BlocksFor(inos[i].size)))
  }

  ghost function ByteAt(disk: Disk, inos: seq<Inode>, i: nat, k: nat): Byte {
    var a := BlockOf(disk, inos, i, k / BSIZE);
    if a in disk && |disk[a]| == BSIZE then disk[a][k % BSIZE] else 0
  }

  /** The byte sequence inode i stands for. */
  ghost function Content(disk: Disk, inos: seq<Inode>, i: nat): (c: seq<Byte>)
    requires i < |inos|
    ensures |c| == inos[i].size
  {
    seq(inos[i].size, k requires 0 <= k < inos[i].size => ByteAt(disk, inos, i, k))
  }

  lemma ExtendsByte(sb: Super, disk: Disk, inos: seq<Inode>, disk': Disk, inos': seq<Inode>, i: nat, k: nat)
    requires Extends(sb, disk, inos, disk', inos') && i < sb.ninodes && k < MAXFILE * BSIZE
    requires BlockOf(disk, inos, i, k / BSIZE) != 0
    ensures ByteAt(disk', inos', i, k) == ByteAt(disk, inos, i, k)
  {
    assert SlotOk(sb, BlockSlot(i, k / BSIZE));
  }

  /** An image as mkfs starts from: metadata marked, every inode free. */
  lemma EmptyImage(sb: Super, disk: Disk, inos: seq<Inode>)
    requires Shape(sb, disk, inos)
    requires forall b: nat :: b < sb.size ==> (Used(sb, disk, b) <==> b < sb.nmeta)
    requires forall i :: 0 <= i < |inos| ==> inos[i].size == 0 && forall k :: 0 <= k <= NDIRECT ==> inos[i].addrs[k] == 0
    ensures Settled(sb, disk, inos)
  {
    forall s | SlotOk(sb, s) ensures Addr(disk, inos, s) == 0 {
    }
  }
}
