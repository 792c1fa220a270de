/**
 * The image builder, src/mkfs.c. It hands out blocks in order and writes the bitmap last; the ghost
 * image `planned` is the disk as it would be with the bitmap up to date, so that the invariants of the
 * running file system can be stated of it from the start.
 */
module Mkfs {
  import opened Common
  import opened FsImage
  import opened FsBytes
  import opened FsTrunc
  import opened Fs

  // ----- The planned image -----

  /** planned is disk with a bitmap block in which the first f blocks are marked; the others are still zero. */
  ghost predicate PlanFacts(sb: Super, disk: Disk, planned: Disk, f: nat) {
    && sb.size < BPB && f <= sb.size && planned.Keys == disk.Keys
    && (forall b: nat :: b < sb.size ==> b in disk)
    && (forall b :: b in disk && b != sb.bmapstart ==> planned[b] == disk[b])
    && (forall b: nat :: b < sb.size ==> (Used(sb, planned, b) <==> b < f))
    && (forall b: nat :: f <= b < sb.size ==> disk[b] == Zero())
  }

  /** The same, folded. */
  ghost predicate Plans(sb: Super, disk: Disk, planned: Disk, f: nat) {
    f <= sb.size < BPB && forall z: int {:trigger Seal((disk, planned), z)} :: Seal((disk, planned), z) ==> PlanFacts(sb, disk, planned, f)
  }

  lemma OpenPlans(sb: Super, disk: Disk, planned: Disk, f: nat)
    requires Plans(sb, disk, planned, f)
    ensures PlanFacts(sb, disk, planned, f)
  {
    assert Seal((disk, planned), 0);
  }

  /** freeblock++ is what balloc would do in the planned image. */
  ghost function Reserved(sb: Super, planned: Disk, f: nat): Disk
    requires BitmapBlock(sb, f) in planned && |planned[BitmapBlock(sb, f)]| == BSIZE
  {
    Flip(sb, planned, f, true)[f := Zero()]
  }

  lemma ReserveKeeps(sb: Super, disk: Disk, planned: Disk, inos: seq<Inode>, f: nat)
    requires Plans(sb, disk, planned, f) && Shape(sb, planned, inos) && f < sb.size && sb.nmeta <= f
    ensures BitmapBlock(sb, f) in planned && |planned[BitmapBlock(sb, f)]| == BSIZE && !Used(sb, planned, f)
    ensures Plans(sb, disk, Reserved(sb, planned, f), f + 1)
  {
    OpenPlans(sb, disk, planned, f);
    assert f / BPB == 0;
    var planned' := Reserved(sb, planned, f);
    forall b: nat | b < sb.size ensures Used(sb, planned', b) <==> b < f + 1 {
      FlipUsed(sb, planned, inos, f, true, b);
      assert b / BPB == 0;
    }
    assert planned'.Keys == planned.Keys;
  }

  lemma EntryExtends(sb: Super, disk: Disk, inos: seq<Inode>, i: nat, k: nat, b: nat)
    requires Accounted(sb, disk, inos, {}) && b < sb.size && !Used(sb, disk, b)
    requires i < sb.ninodes && k <= NDIRECT && inos[i].addrs[k] == 0
    ensures b >= sb.nmeta && BitmapBlock(sb, b) in disk && |disk[BitmapBlock(sb, b)]| == BSIZE
    ensures var disk', inos' := Reserved(sb, disk, b), SetAddr(inos, i, k, b);
            && Extends(sb, disk, inos, disk', inos')
            && Only(sb, disk, inos, disk', inos', if k < NDIRECT then Direct(i, k) else Indirect(i), b)
  {
    Allocate(sb, disk, inos, {}, b);
    assert {} + {b} == {b};
    var disk', inos' := Reserved(sb, disk, b), SetAddr(inos, i, k, b);
    LinkInode(sb, disk', inos, i, k, b);
    DataKept(sb, disk, inos, b);
    assert disk'.Keys == disk.Keys;
  }

  /** A store to a block that is not the bitmap, in both images. */
  lemma StorePlans(sb: Super, disk: Disk, planned: Disk, f: nat, a: nat, blk: Block)
    requires Plans(sb, disk, planned, f) && a in disk && sb.nmeta <= a < f && sb.bmapstart + sb.size / BPB < sb.nmeta
    ensures Plans(sb, disk[a := blk], planned[a := blk], f)
  {
    OpenPlans(sb, disk, planned, f);
    var planned' := planned[a := blk];
    forall b: nat | b < sb.size ensures Used(sb, planned', b) <==> b < f {
      assert b / BPB == 0;
      assert Used(sb, planned', b) <==> Used(sb, planned, b);
    }
  }

  // ----- The builder -----

  class Builder {
    const sb: Super
    var disk: Disk
    var dinodes: seq<Inode>
    var freeinode: nat
    var freeblock: nat
    ghost var planned: Disk

    ghost predicate Valid() reads this {
      && Plans(sb, disk, planned, freeblock) && sb.nmeta <= freeblock && Sound(sb, planned, dinodes) && |dinodes| == sb.ninodes
      && (forall i :: freeinode <= i < |dinodes| ==> dinodes[i].size == 0) && Tidy(dinodes, map[])
      && forall i :: 1 <= i < freeinode && i < |dinodes| ==> dinodes[i].kind != 0
    }

    /** An image of zeroes, with room for its metadata. */
    constructor (sb: Super)
      requires 0 < sb.inodestart && 0 < sb.bmapstart < sb.nmeta <= sb.size < BPB
      ensures Valid() && this.sb == sb && freeinode == 1 && freeblock == sb.nmeta
      ensures forall i :: 0 <= i < |dinodes| ==> dinodes[i].kind == 0 && dinodes[i].size == 0
    {
      this.sb := sb;
      var zeroes: Disk := map[];
      for i := 0 to sb.size
        invariant (forall b: nat :: b < i ==> b in zeroes) && (forall b :: b in zeroes ==> b < i && zeroes[b] == Zero())
      {
        zeroes := zeroes[i := Zero()];
      }
      disk := zeroes;
      dinodes := seq(sb.ninodes, _ => Inode(0, 0, 0, 0, 0, seq(NDIRECT + 1, _ => 0)));
      freeinode, freeblock := 1, sb.nmeta;
      planned := zeroes[sb.bmapstart := FirstBits(sb.nmeta)];
      new;
      StartPlans(sb, disk, planned, dinodes);
    }

    /** The loop of iappend is at inode `din`, not written back yet. */
    ghost predicate Open(inum: nat, din: Inode) reads this {
      && Plans(sb, disk, planned, freeblock) && sb.nmeta <= freeblock && inum < |dinodes| == sb.ninodes
      && |din.addrs| == NDIRECT + 1 && Accounted(sb, planned, dinodes[inum := din], {})
    }

    /** din.addrs[k] = freeblock++ */
    method AssignEntry(inum: nat, din: Inode, k: nat) returns (ok: bool, din': Inode)
      requires Open(inum, din) && k <= NDIRECT && k < |din.addrs| && din.addrs[k] == 0
      modifies this`freeblock, this`planned
      ensures ok <==> old(freeblock) < sb.size
      ensures !ok ==> freeblock == sb.size
      ensures ok ==>
        && Open(inum, din') && din' == din.(addrs := din.addrs[k := old(freeblock)]) && freeblock == old(freeblock) + 1
        && Extends(sb, old(planned), dinodes[inum := din], planned, dinodes[inum := din'])
        && Only(sb, old(planned), dinodes[inum := din], planned, dinodes[inum := din'],
                if k < NDIRECT then Direct(inum, k) else Indirect(inum), old(freeblock))
    {
      din' := din;
      if freeblock == sb.size { return false, din; }
      ghost var inos := dinodes[inum := din];
      ReserveKeeps(sb, disk, planned, inos, freeblock);
      EntryExtends(sb, planned, inos, inum, k, freeblock);
      din' := din.(addrs := din.addrs[k := freeblock]);
      assert SetAddr(inos, inum, k, freeblock) == dinodes[inum := din'];
      planned := Reserved(sb, planned, freeblock);
      freeblock := freeblock + 1;
      ok := true;
    }

    /** indirect[j] = freeblock++, written back at once. */
    method AssignListed(inum: nat, din: Inode, j: nat) returns (ok: bool)
      requires Open(inum, din) && j < NINDIRECT && NDIRECT < |din.addrs| && din.addrs[NDIRECT] != 0
      requires Addr(planned, dinodes[inum := din], Listed(inum, j)) == 0
      modifies this`freeblock, this`disk, this`planned
      ensures ok <==> old(freeblock) < sb.size
      ensures !ok ==> freeblock == sb.size
      ensures ok ==>
        && Open(inum, din) && freeblock == old(freeblock) + 1
        && Extends(sb, old(planned), dinodes[inum := din], planned, dinodes[inum := din])
        && Only(sb, old(planned), dinodes[inum := din], planned, dinodes[inum := din], Listed(inum, j), old(freeblock))
    {
      if freeblock == sb.size { return false; }
      ghost var inos := dinodes[inum := din];
      var a := din.addrs[NDIRECT];
      ghost var planned' := ListedPlans(sb, disk, planned, inos, freeblock, inum, j);
      disk := disk[a := SetWord(disk[a], j, freeblock)];
      planned := planned';
      freeblock := freeblock + 1;
      ok := true;
    }

    /** The block of number fbn, found or handed out; false when the image has no block left. */
    method MapBlock(inum: nat, din: Inode, fbn: nat) returns (ok: bool, din': Inode, x: nat)
      requires Open(inum, din) && fbn < MAXFILE
      modifies this`freeblock, this`disk, this`planned
      ensures !ok ==> freeblock == sb.size
      ensures ok ==>
        && Open(inum, din') && Mapping(sb, old(planned), dinodes[inum := din], planned, dinodes[inum := din'], inum, fbn)
        && x == BlockOf(planned, dinodes[inum := din'], inum, fbn)
        && (BlockOf(old(planned), dinodes[inum := din], inum, fbn) != 0 ==> planned == old(planned) && din' == din)
    {
      if fbn < NDIRECT {
        ok, din', x := MapDirect(inum, din, fbn);
      } else if din.addrs[NDIRECT] == 0 {
        ok, din', x := MapFirstListed(inum, din, fbn);
      } else {
        din' := din;
        ok, x := MapListed(inum, din, fbn);
      }
    }

    /** The indirect block first, then the block itself. */
    method MapFirstListed(inum: nat, din: Inode, fbn: nat) returns (ok: bool, din': Inode, x: nat)
      requires Open(inum, din) && NDIRECT <= fbn < MAXFILE && din.addrs[NDIRECT] == 0
      modifies this`freeblock, this`disk, this`planned
      ensures BlockOf(old(planned), dinodes[inum := din], inum, fbn) == 0
      ensures !ok ==> freeblock == sb.size
      ensures ok ==>
        && Open(inum, din') && Mapping(sb, old(planned), dinodes[inum := din], planned, dinodes[inum := din'], inum, fbn)
        && x == BlockOf(planned, dinodes[inum := din'], inum, fbn)
    {
      x := 0;
      ok, din' := AssignEntry(inum, din, NDIRECT);
      if !ok { return; }
      ghost var planned1 := planned;
      ok, x := MapListed(inum, din', fbn);
      if ok {
        MappedTwice(sb, old(planned), dinodes[inum := din], planned1, dinodes[inum := din'], planned, dinodes[inum := din'],
                    inum, fbn, old(freeblock));
      }
    }

    method MapDirect(inum: nat, din: Inode, fbn: nat) returns (ok: bool, din': Inode, x: nat)
      requires Open(inum, din) && fbn < NDIRECT
      modifies this`freeblock, this`planned
      ensures !ok ==> freeblock == sb.size
      ensures ok ==>
        && Open(inum, din') && Mapping(sb, old(planned), dinodes[inum := din], planned, dinodes[inum := din'], inum, fbn)
        && x == BlockOf(planned, dinodes[inum := din'], inum, fbn)
        && (BlockOf(old(planned), dinodes[inum := din], inum, fbn) != 0 ==> planned == old(planned) && din' == din)
    {
      din', x := din, din.addrs[fbn];
      ok := true;
      if x == 0 {
        x := freeblock;
        ok, din' := AssignEntry(inum, din, fbn);
        if ok { MappedOnly(sb, old(planned), dinodes[inum := din], planned, dinodes[inum := din'], inum, fbn, x); }
      } else {
        MappedRefl(sb, planned, dinodes[inum := din], inum, fbn);
      }
    }

    method MapListed(inum: nat, din: Inode, fbn: nat) returns (ok: bool, x: nat)
      requires Open(inum, din) && NDIRECT <= fbn < MAXFILE && din.addrs[NDIRECT] != 0
      modifies this`freeblock, this`disk, this`planned
      ensures !ok ==> freeblock == sb.size
      ensures ok ==>
        && Open(inum, din) && Mapping(sb, old(planned), dinodes[inum := din], planned, dinodes[inum := din], inum, fbn)
        && x == BlockOf(planned, dinodes[inum := din], inum, fbn)
        && (BlockOf(old(planned), dinodes[inum := din], inum, fbn) != 0 ==> planned == old(planned))
    {
      ghost var inos := dinodes[inum := din];
      IndirectPlace(sb, disk, planned, inos, freeblock, inum);
      var w := Word(disk[din.addrs[NDIRECT]], fbn - NDIRECT);
      assert SlotOk(sb, BlockSlot(inum, fbn)) && w == BlockOf(planned, inos, inum, fbn);
      if w == 0 {
        x := freeblock;
        ok := AssignListed(inum, din, fbn - NDIRECT);
        if ok { MappedOnly(sb, old(planned), inos, planned, inos, inum, fbn, x); }
      } else {
        MappedRefl(sb, planned, inos, inum, fbn);
        ok, x := true, w;
      }
    }

    /** One turn of iappend's loop. */
    method AppendBlock(inum: nat, din: Inode, off: nat, more: seq<Byte>, ghost m: Progress)
        returns (ok: bool, din': Inode, ghost m': Progress)
      requires Plans(sb, disk, planned, freeblock) && sb.nmeta <= freeblock && inum < |dinodes| == sb.ninodes
      requires m.Writing? && m.w.Is(sb, planned, dinodes[inum := din], m.w.logged, inum, off)
      requires 0 < |more| <= BSIZE - off % BSIZE && off + |more| <= MAXFILE * BSIZE
      requires forall k :: 0 <= k < |more| ==> 0 <= more[k] < 256
      modifies this`freeblock, this`disk, this`planned
      ensures !ok ==> freeblock == sb.size
      ensures ok ==>
        && Plans(sb, disk, planned, freeblock) && sb.nmeta <= freeblock
        && m'.Writing? && m' == Writing(m.w.(disk := planned, inos := dinodes[inum := din'], logged := m'.w.logged, data := m.w.data + more))
    {
      WritingAccounted(m);
      assert dinodes[inum := din][inum] == din;
      m' := m;
      var x;
      ok, din', x := MapBlock(inum, din, off / BSIZE);
      if !ok { return; }
      ghost var inos := dinodes[inum := din'];
      m' := Turned(m, planned, inos, m.w.logged, off, more, x);
      DataPlace(sb, disk, planned, inos, freeblock, inum, off / BSIZE);
      var blk := Splice(disk[x], off % BSIZE, more);
      StorePlans(sb, disk, planned, freeblock, x, blk);
      disk := disk[x := blk];
      planned := planned[x := blk];
    }

    /** iappend: the bytes go after those the inode has, and no other inode changes. */
    method Iappend(inum: nat, data: seq<Byte>) returns (ok: bool)
      requires Valid() && 0 < inum < freeinode && inum < |dinodes|
      requires forall k :: 0 <= k < |data| ==> 0 <= data[k] < 256
      modifies this`freeblock, this`disk, this`dinodes, this`planned
      ensures !ok ==> freeblock == sb.size || old(dinodes[inum].size) + |data| > MAXFILE * BSIZE
      ensures ok ==> Valid() && ContentsAfter(sb, old(planned), old(dinodes), planned, dinodes, inum, old(dinodes[inum].size), data)
    {
      var din := dinodes[inum];
      var off0 := din.size;
      assert dinodes[inum := din] == dinodes;
      ghost var start := StartWrite(sb, planned, dinodes, {}, inum, off0);
      ghost var m := start;
      var tot := 0;
      while tot < |data|
        invariant tot <= |data| && Plans(sb, disk, planned, freeblock) && sb.nmeta <= freeblock && m.Writing? && dinodes == old(dinodes)
        invariant m.w == start.w.(disk := planned, inos := dinodes[inum := din], logged := m.w.logged, data := data[..tot])
      {
        var off := off0 + tot;
        if off / BSIZE >= MAXFILE { return false; }
        var n1 := if |data| - tot < (off / BSIZE + 1) * BSIZE - off then |data| - tot else (off / BSIZE + 1) * BSIZE - off;
        TurnSize(off, n1, |data| - tot);
        ok, din, m := AppendBlock(inum, din, off, data[tot..tot + n1], m);
        if !ok { return; }
        assert data[..tot] + data[tot..tot + n1] == data[..tot + n1];
        tot := tot + n1;
      }
      assert data[..tot] == data;
      WritingFields(m);
      dinodes := dinodes[inum := din.(size := off0 + tot)];
      assert dinodes == SetSize(m.w.inos, inum, off0 + tot);
      FinishWrite(m, sb, old(planned), old(dinodes), {}, planned, dinodes, m.w.logged, inum, off0, data, 1);
      ok := true;
    }

    /** ialloc: the next inode, empty; None past the last one, where the source writes outside its inode blocks. */
    method Ialloc(kind: int) returns (r: Option<nat>)
      requires Valid() && kind != 0
      modifies this`freeinode, this`dinodes
      ensures Valid() && (r.None? <==> old(freeinode) >= sb.ninodes)
      ensures r.None? ==> dinodes == old(dinodes) && freeinode == old(freeinode)
      ensures r.Some? ==>
        && r.value == old(freeinode) && freeinode == r.value + 1 && r.value < |old(dinodes)|
        && dinodes == old(dinodes)[r.value := Inode(kind, 0, 0, 1, 0, seq(NDIRECT + 1, _ => 0))]
        && forall q :: 0 <= q < |dinodes| ==> Content(planned, dinodes, q) == Content(planned, old(dinodes), q)
    {
      if freeinode >= sb.ninodes { return None; }
      var inum, din := freeinode, Inode(kind, 0, 0, 1, 0, seq(NDIRECT + 1, _ => 0));
      Refit(sb, planned, dinodes, inum, din);
      dinodes := dinodes[inum := din];
      freeinode := freeinode + 1;
      r := Some(inum);
    }

    /** balloc: the bitmap is written, and the image on disk is a settled file system with the bytes appended. */
    method Balloc()
      requires Valid()
      modifies this`disk
      ensures Sound(sb, disk, dinodes) && |dinodes| == sb.ninodes && Tidy(dinodes, map[])
      ensures forall q :: 0 <= q < sb.ninodes ==> Content(disk, dinodes, q) == Content(planned, dinodes, q)
    {
      var buf := Zero();
      ZeroBits();
      for i := 0 to freeblock
        invariant disk == old(disk) && Marks(buf, i)
      {
        MarkOne(buf, i);
        buf := buf[i / 8 := SetBit(buf[i / 8], i % 8)];
      }
      BitmapWritten(sb, disk, planned, dinodes, freeblock, buf);
      disk := disk[sb.bmapstart := buf];
    }
  }

  /** A turn stays within one block and within the largest file. */
  lemma TurnSize(off: nat, n1: nat, left: nat)
    requires off / BSIZE < MAXFILE && 0 < left
    requires n1 == if left < (off / BSIZE + 1) * BSIZE - off then left else (off / BSIZE + 1) * BSIZE - off
    ensures 0 < n1 <= BSIZE - off % BSIZE && off + n1 <= MAXFILE * BSIZE && n1 <= left
  {
    assert off == off / BSIZE * BSIZE + off % BSIZE;
  }

  // ----- The bitmap -----

  /** x | (1 << k) */
  function SetBit(x: nat, k: nat): nat { if Bit(x, k) then x else x + Mask(k) }

  /** Exactly the first n bits of the block are set. */
  ghost predicate Marks(buf: Block, n: nat) {
    IsBlock(buf) && forall c: nat :: c < BPB ==> (BitOf(buf, c) <==> c < n)
  }

  ghost predicate BitOf(buf: Block, c: nat) {
    |buf| == BSIZE && c / 8 < BSIZE && buf[c / 8] >= 0 && Bit(buf[c / 8], c % 8)
  }

  lemma ZeroBits()
    ensures Marks(Zero(), 0)
  {
    forall c: nat | c < BPB ensures !BitOf(Zero(), c) { NoBit(c % 8); }
  }

  lemma {:induction false} NoBit(k: nat)
    ensures !Bit(0, k)
  {
    if k > 0 { NoBit(k - 1); }
  }

  lemma MarkOne(buf: Block, i: nat)
    requires Marks(buf, i) && i < BPB
    ensures i / 8 < BSIZE && buf[i / 8] >= 0 && Marks(buf[i / 8 := SetBit(buf[i / 8], i % 8)], i + 1)
  {
    ByteMask();
    var x, buf' := buf[i / 8], buf[i / 8 := SetBit(buf[i / 8], i % 8)];
    assert !BitOf(buf, i);
    FlipBit(x, 8, i % 8, i % 8);
    forall c: nat | c < BPB ensures BitOf(buf', c) <==> c < i + 1 {
      assert BitOf(buf, c) <==> c < i;
      if c / 8 == i / 8 { FlipBit(x, 8, i % 8, c % 8); }
    }
  }

  ghost function FirstBits(n: nat): (buf: Block)
    requires n < BPB
    ensures Marks(buf, n)
  {
    if n == 0 then ZeroBits(); Zero()
    else
      var b := FirstBits(n - 1);
      MarkOne(b, n - 1);
      b[(n - 1) / 8 := SetBit(b[(n - 1) / 8], (n - 1) % 8)]
  }

  lemma StartPlans(sb: Super, disk: Disk, planned: Disk, inos: seq<Inode>)
    requires 0 < sb.inodestart && 0 < sb.bmapstart < sb.nmeta <= sb.size < BPB && |inos| == sb.ninodes
    requires (forall b: nat :: b < sb.size ==> b in disk) && (forall b :: b in disk ==> b < sb.size && disk[b] == Zero())
    requires planned == disk[sb.bmapstart := FirstBits(sb.nmeta)]
    requires forall i :: 0 <= i < |inos| ==> inos[i].size == 0 && |inos[i].addrs| == NDIRECT + 1 && forall k :: 0 <= k <= NDIRECT ==> inos[i].addrs[k] == 0
    ensures Plans(sb, disk, planned, sb.nmeta) && Sound(sb, planned, inos)
  {
    assert planned.Keys == disk.Keys;
    forall b: nat | b < sb.size ensures Used(sb, planned, b) <==> b < sb.nmeta {
      assert b / BPB == 0 && b % BPB == b;
      assert BitOf(FirstBits(sb.nmeta), b) <==> b < sb.nmeta;
    }
    EmptyImage(sb, planned, inos);
  }

  lemma BitmapWritten(sb: Super, disk: Disk, planned: Disk, inos: seq<Inode>, f: nat, buf: Block)
    requires Plans(sb, disk, planned, f) && Sound(sb, planned, inos) && Marks(buf, f)
    ensures Sound(sb, disk[sb.bmapstart := buf], inos)
    ensures |inos| == sb.ninodes && forall q :: 0 <= q < sb.ninodes ==> Content(disk[sb.bmapstart := buf], inos, q) == Content(planned, inos, q)
  {
    OpenPlans(sb, disk, planned, f);
    OpenSound(sb, planned, inos);
    var disk' := disk[sb.bmapstart := buf];
    forall b: nat | b < sb.size ensures Used(sb, disk', b) <==> Used(sb, planned, b) {
      assert b / BPB == 0 && b % BPB == b;
      assert BitOf(buf, b) <==> b < f;
    }
    assert disk'.Keys == planned.Keys;
    forall s | SlotOk(sb, s) ensures Addr(disk', inos, s) == Addr(planned, inos, s) {
      AddrSame(sb, planned, disk', inos, {}, s, sb.bmapstart);
    }
    Untouched(sb, planned, inos, {}, disk', inos);
    forall q | 0 <= q < sb.ninodes
      ensures Dense(disk', inos, q, BlocksFor(inos[q].size)) && Content(disk', inos, q) == Content(planned, inos, q)
    {
      KeptInode(sb, planned, inos, disk', inos, q);
    }
  }

  // ----- Directory sizes -----

  /** What main does to the size of every directory. */
  function Rounded(size: nat): nat { (size / BSIZE + 1) * BSIZE }

  /**
   * Rounding a directory's size keeps the image settled exactly when the size is not a multiple of
   * the block size: otherwise the last block of the directory is one that was never handed out.
   */
  lemma RoundingSettles(sb: Super, disk: Disk, inos: seq<Inode>, i: nat)
    requires Settled(sb, disk, inos) && i < sb.ninodes
    ensures Settled(sb, disk, SetSize(inos, i, Rounded(inos[i].size))) <==> inos[i].size % BSIZE != 0
  {
    var size := inos[i].size;
    var inos' := SetSize(inos, i, Rounded(size));
    assert Dense(disk, inos, i, BlocksFor(size));
    forall s ensures Addr(disk, inos', s) == Addr(disk, inos, s) { SizeIsNoSlot(disk, inos, i, Rounded(size), s); }
    Untouched(sb, disk, inos, {}, disk, inos');
    RoundedBlocks(size);
    if size % BSIZE == 0 {
      var n := BlocksFor(size);
      if n < MAXFILE { assert BlockOf(disk, inos', i, n) == BlockOf(disk, inos, i, n) == 0; }
      assert !Dense(disk, inos', i, n + 1);
    } else {
      forall q | 0 <= q < sb.ninodes ensures Dense(disk, inos', q, BlocksFor(inos'[q].size)) {
        SizedDense(disk, inos, i, Rounded(size), q, BlocksFor(inos[q].size));
      }
    }
  }

  /** The smallest directory mkfs spoils: 32 entries of 16 bytes. */
  lemma DirectoryOf32(sb: Super, disk: Disk, inos: seq<Inode>, i: nat)
    requires Settled(sb, disk, inos) && i < sb.ninodes && inos[i].size == 32 * 16
    ensures !Settled(sb, disk, SetSize(inos, i, Rounded(inos[i].size))) && Rounded(inos[i].size) == 2 * BSIZE
  {
    RoundingSettles(sb, disk, inos, i);
  }

  lemma RoundedBlocks(size: nat)
    ensures BlocksFor(Rounded(size)) == BlocksFor(size) + (if size % BSIZE == 0 then 1 else 0)
  {
    var q, r := size / BSIZE, size % BSIZE;
    assert size == q * BSIZE + r;
  }

  /** The kernel mounts what mkfs has built, and every inode has the bytes mkfs appended to it. */
  method Mount(b: Builder) returns (fs: FileSystem)
    requires b.Valid()
    modifies b`disk
    ensures fresh(fs) && fs.Valid() && Tidy(fs.dinodes, fs.icache) && fs.dinodes == b.dinodes && fs.sb == b.sb
    ensures forall q :: 0 <= q < b.sb.ninodes ==> Content(fs.disk, fs.dinodes, q) == Content(b.planned, b.dinodes, q)
  {
    b.Balloc();
    fs := new FileSystem(b.sb, b.disk, b.dinodes);
  }

  /** A mapped block is a data block already handed out, the same in both images. */
  lemma DataPlace(sb: Super, disk: Disk, planned: Disk, inos: seq<Inode>, f: nat, i: nat, bn: nat)
    requires Plans(sb, disk, planned, f) && Accounted(sb, planned, inos, {}) && i < sb.ninodes && bn < MAXFILE
    requires BlockOf(planned, inos, i, bn) != 0
    ensures var a := BlockOf(planned, inos, i, bn);
      sb.nmeta <= a < f && a in disk && planned[a] == disk[a] && |disk[a]| == BSIZE && sb.bmapstart + sb.size / BPB < sb.nmeta
  {
    OpenPlans(sb, disk, planned, f);
    assert SlotOk(sb, BlockSlot(i, bn));
    var a := BlockOf(planned, inos, i, bn);
    assert Owned(sb, planned, inos, a);
    assert Used(sb, planned, a);
  }

  /** The indirect block is a data block already handed out, the same in both images. */
  lemma IndirectPlace(sb: Super, disk: Disk, planned: Disk, inos: seq<Inode>, f: nat, i: nat)
    requires Plans(sb, disk, planned, f) && Accounted(sb, planned, inos, {}) && i < sb.ninodes && inos[i].addrs[NDIRECT] != 0
    ensures var a := inos[i].addrs[NDIRECT];
      sb.nmeta <= a < f && a in disk && a != sb.bmapstart && planned[a] == disk[a] && |disk[a]| == BSIZE
  {
    OpenPlans(sb, disk, planned, f);
    assert SlotOk(sb, Indirect(i)) && Addr(planned, inos, Indirect(i)) == inos[i].addrs[NDIRECT];
    var a := inos[i].addrs[NDIRECT];
    assert Owned(sb, planned, inos, a);
    assert Used(sb, planned, a);
  }

  lemma ListedPlans(sb: Super, disk: Disk, planned: Disk, inos: seq<Inode>, f: nat, i: nat, j: nat) returns (planned': Disk)
    requires Plans(sb, disk, planned, f) && Accounted(sb, planned, inos, {}) && sb.nmeta <= f < sb.size
    requires i < sb.ninodes && j < NINDIRECT && inos[i].addrs[NDIRECT] != 0 && Addr(planned, inos, Listed(i, j)) == 0
    ensures var a := inos[i].addrs[NDIRECT];
      && a in disk && |disk[a]| == BSIZE && f < WORD
      && Plans(sb, disk[a := SetWord(disk[a], j, f)], planned', f + 1)
    ensures Extends(sb, planned, inos, planned', inos) && Only(sb, planned, inos, planned', inos, Listed(i, j), f)
  {
    OpenPlans(sb, disk, planned, f);
    var a := inos[i].addrs[NDIRECT];
    IndirectPlace(sb, disk, planned, inos, f, i);
    ReserveKeeps(sb, disk, planned, inos, f);
    ListedExtends(sb, planned, inos, i, j, f);
    var reserved := Reserved(sb, planned, f);
    assert reserved[a] == disk[a];
    StorePlans(sb, disk, reserved, f + 1, a, SetWord(disk[a], j, f));
    planned' := reserved[a := SetWord(reserved[a], j, f)];
  }
}
