/**
 * The code of src/fs.c over an image: the bitmap allocator, the block map, truncation, and
 * reading and writing an inode's bytes. Each log_write is remembered in `logged`.
 */
module Fs {
  import opened Arithmetic
  import opened Common
  import opened FsImage
  import opened FsBytes
  import opened FsTrunc

  const IPB: nat := 8      // BSIZE / sizeof(struct dinode)
  const T_DEV: int := 3

  /** The inode table as the kernel sees it: the cached copy where there is a valid one. */
  ghost function View(dinodes: seq<Inode>, icache: map<nat, Inode>): (inos: seq<Inode>)
    ensures |inos| == |dinodes|
    ensures forall i :: 0 <= i < |inos| ==> inos[i] == if i in icache then icache[i] else dinodes[i]
  {
    seq(|dinodes|, i requires 0 <= i < |dinodes| => if i in icache then icache[i] else dinodes[i])
  }

  lemma ViewSet(dinodes: seq<Inode>, icache: map<nat, Inode>, i: nat, ino: Inode)
    requires i < |dinodes|
    ensures View(dinodes, icache[i := ino]) == View(dinodes, icache)[i := ino]
  {
  }

  /** No free block: where balloc panics. */
  ghost predicate Full(sb: Super, disk: Disk) {
    forall b: nat :: b < sb.size ==> Used(sb, disk, b)
  }

  /** Every block that has changed was passed to log_write, the inode's own block included. */
  ghost predicate Logs(disk0: Disk, dinodes0: seq<Inode>, logged0: set<nat>, disk: Disk, dinodes: seq<Inode>, logged: set<nat>, inum: nat, block: nat) {
    && Confined(disk0, logged0, disk, logged)
    && (dinodes == dinodes0 || (block in logged && inum < |dinodes0| == |dinodes| && dinodes == dinodes0[inum := dinodes[inum]]))
  }

  lemma LogInode(disk0: Disk, logged0: set<nat>, disk: Disk, logged: set<nat>, block: nat)
    requires Confined(disk0, logged0, disk, logged)
    ensures Confined(disk0, logged0, disk, logged + {block})
  {
    NothingChanged(disk, logged, {block});
    ConfinedTwice(disk0, logged0, disk, logged, disk, logged + {block});
  }

  class FileSystem {
    const sb: Super
    var disk: Disk
    var dinodes: seq<Inode>         // the dinodes in the inode blocks
    var icache: map<nat, Inode>     // cached inodes with I_VALID set
    ghost var logged: set<nat>      // blocks passed to log_write

    /** A kernel that has just mounted a settled image, such as mkfs leaves, with no inode cached yet. */
    constructor (sb: Super, disk: Disk, dinodes: seq<Inode>)
      requires Sound(sb, disk, dinodes) && |dinodes| == sb.ninodes && Tidy(dinodes, map[])
      ensures Valid() && Tidy(this.dinodes, icache) && icache == map[] && logged == {}
      ensures this.sb == sb && this.disk == disk && this.dinodes == dinodes
    {
      this.sb, this.disk, this.dinodes, icache, logged := sb, disk, dinodes, map[], {};
      ClosedView(dinodes, map[]);
    }

    /** balloc: the lowest free block, marked and zeroed; None where the source panics. */
    method Balloc() returns (r: Option<nat>)
      requires Shape(sb, disk, View(dinodes, icache))
      modifies this`disk, this`logged
      ensures r.None? ==> disk == old(disk) && Full(sb, disk)
      ensures r.Some? ==>
                && r.value < sb.size && !Used(sb, old(disk), r.value)
                && (forall c: nat :: c < r.value ==> Used(sb, old(disk), c))
                && disk == Flip(sb, old(disk), r.value, true)[r.value := Zero()]
                && logged == old(logged) + {BitmapBlock(sb, r.value), r.value}
    {
      var b := 0;
      while b < sb.size
        invariant b % BPB == 0 && disk == old(disk) && logged == old(logged)
        invariant forall c: nat :: c < b && c < sb.size ==> Used(sb, disk, c)
      {
        var bp := disk[BitmapBlock(sb, b)];
        var bi := 0;
        while bi < BPB && b + bi < sb.size
          invariant 0 <= bi <= BPB && disk == old(disk) && logged == old(logged)
          invariant forall c: nat :: c < b + bi && c < sb.size ==> Used(sb, disk, c)
        {
          BitmapIndex(b, bi);
          if !Bit(bp[bi / 8], bi % 8) {
            disk := Flip(sb, disk, b + bi, true);
            disk := disk[b + bi := Zero()];
            logged := logged + {BitmapBlock(sb, b + bi), b + bi};
            return Some(b + bi);
          }
          bi := bi + 1;
        }
        b := b + BPB;
      }
      r := None;
    }

    /** bfree: the block is no longer in use and no other block's bit changes; false where the source panics. */
    method Bfree(b: nat) returns (ok: bool)
      requires BitmapBlock(sb, b) in disk && IsBlock(disk[BitmapBlock(sb, b)])
      modifies this`disk, this`logged
      ensures ok <==> Used(sb, old(disk), b)
      ensures ok ==> ClearsOnly(sb, old(disk), disk, b) && disk == Flip(sb, old(disk), b, false)
      ensures ok ==> logged == old(logged) + {BitmapBlock(sb, b)}
      ensures !ok ==> disk == old(disk) && logged == old(logged)
    {
      var bp := disk[BitmapBlock(sb, b)];
      var bi := b % BPB;
      BitmapIndex(b - bi, bi);
      if !Bit(bp[bi / 8], bi % 8) { return false; }
      FlipOff(sb, disk, b);
      disk := Flip(sb, disk, b, false);
      logged := logged + {BitmapBlock(sb, b)};
      return true;
    }

    /** addrs[k] = balloc(), for a direct or the indirect entry of a cached inode. */
    method AllocEntry(inum: nat, k: nat) returns (r: Option<nat>)
      requires Accounted(sb, disk, View(dinodes, icache), {}) && inum in icache && inum < sb.ninodes && k <= NDIRECT
      requires icache[inum].addrs[k] == 0
      modifies this`disk, this`logged, this`icache
      ensures r.None? ==> Full(sb, disk)
      ensures r.Some? ==>
                && r.value != 0 && Extends(sb, old(disk), old(View(dinodes, icache)), disk, View(dinodes, icache))
                && Only(sb, old(disk), old(View(dinodes, icache)), disk, View(dinodes, icache), if k < NDIRECT then Direct(inum, k) else Indirect(inum), r.value)
                && KeepsCache(old(icache), icache, inum) && View(dinodes, icache) == SetAddr(old(View(dinodes, icache)), inum, k, r.value)
                && LogsOnly(sb, old(logged), logged, {r.value}) && r.value < sb.size
                && Confined(old(disk), old(logged), disk, logged)
    {
      ghost var disk0, inos0 := disk, View(dinodes, icache);
      r := Balloc();
      if r.None? { return; }
      AllocConfined(sb, disk0, old(logged), r.value);
      Allocate(sb, disk0, inos0, {}, r.value);
      assert {} + {r.value} == {r.value};
      LinkInode(sb, disk, inos0, inum, k, r.value);
      var ino := icache[inum];
      ViewSet(dinodes, icache, inum, ino.(addrs := ino.addrs[k := r.value]));
      icache := icache[inum := ino.(addrs := ino.addrs[k := r.value])];
      assert View(dinodes, icache) == SetAddr(inos0, inum, k, r.value);
      DataKept(sb, disk0, inos0, r.value);
      LogsAlloc(sb, old(logged), r.value);
    }

    /** a[j] = balloc(), in the indirect block of a cached inode. */
    method AllocListed(inum: nat, j: nat) returns (r: Option<nat>)
      requires Accounted(sb, disk, View(dinodes, icache), {}) && inum in icache && inum < sb.ninodes && j < NINDIRECT
      requires icache[inum].addrs[NDIRECT] != 0 && Addr(disk, View(dinodes, icache), Listed(inum, j)) == 0
      modifies this`disk, this`logged
      ensures r.None? ==> Full(sb, disk)
      ensures r.Some? ==>
                && r.value != 0 && Extends(sb, old(disk), old(View(dinodes, icache)), disk, View(dinodes, icache))
                && Only(sb, old(disk), old(View(dinodes, icache)), disk, View(dinodes, icache), Listed(inum, j), r.value)
                && LogsOnly(sb, old(logged), logged, {r.value, icache[inum].addrs[NDIRECT]}) && r.value < sb.size
                && Confined(old(disk), old(logged), disk, logged)
    {
      ghost var disk0, inos := disk, View(dinodes, icache);
      r := Balloc();
      if r.None? { return; }
      AllocConfined(sb, disk0, old(logged), r.value);
      ListedExtends(sb, disk0, inos, inum, j, r.value);
      var a := icache[inum].addrs[NDIRECT];
      OneChanged(old(disk), old(logged), disk, logged, a, SetWord(disk[a], j, r.value));
      disk := disk[a := SetWord(disk[a], j, r.value)];
      LogsAlloc(sb, old(logged), r.value);
      logged := logged + {a};
    }

    method BmapDirect(inum: nat, bn: nat) returns (r: Option<nat>)
      requires Accounted(sb, disk, View(dinodes, icache), {}) && inum in icache && inum < sb.ninodes && bn < NDIRECT
      modifies this`disk, this`logged, this`icache
      ensures r.None? ==> Full(sb, disk) && BlockOf(old(disk), old(View(dinodes, icache)), inum, bn) == 0
      ensures r.Some? ==>
                && Mapping(sb, old(disk), old(View(dinodes, icache)), disk, View(dinodes, icache), inum, bn)
                && r.value == BlockOf(disk, View(dinodes, icache), inum, bn) && KeepsCache(old(icache), icache, inum)
                && (BlockOf(old(disk), old(View(dinodes, icache)), inum, bn) != 0 ==>
                      disk == old(disk) && icache == old(icache) && logged == old(logged))
                && LogsOnly(sb, old(logged), logged, {r.value}) && Confined(old(disk), old(logged), disk, logged)
    {
      NothingChanged(disk, logged, {});
      var addr := icache[inum].addrs[bn];
      if addr == 0 {
        r := AllocEntry(inum, bn);
        if r.Some? { MappedOnly(sb, old(disk), old(View(dinodes, icache)), disk, View(dinodes, icache), inum, bn, r.value); }
      } else {
        MappedRefl(sb, disk, View(dinodes, icache), inum, bn);
        r := Some(addr);
      }
    }

    method BmapListed(inum: nat, bn: nat) returns (r: Option<nat>)
      requires Accounted(sb, disk, View(dinodes, icache), {}) && inum in icache && inum < sb.ninodes && NDIRECT <= bn < MAXFILE
      requires icache[inum].addrs[NDIRECT] != 0
      modifies this`disk, this`logged
      ensures r.None? ==> Full(sb, disk) && BlockOf(old(disk), old(View(dinodes, icache)), inum, bn) == 0
      ensures r.Some? ==>
                && Mapping(sb, old(disk), View(dinodes, icache), disk, View(dinodes, icache), inum, bn)
                && r.value == BlockOf(disk, View(dinodes, icache), inum, bn)
                && (BlockOf(old(disk), View(dinodes, icache), inum, bn) != 0 ==> disk == old(disk) && logged == old(logged))
                && LogsOnly(sb, old(logged), logged, {r.value, icache[inum].addrs[NDIRECT]})
                && Confined(old(disk), old(logged), disk, logged)
    {
      NothingChanged(disk, logged, {});
      var ind := icache[inum].addrs[NDIRECT];
      assert SlotOk(sb, Indirect(inum)) && Addr(disk, View(dinodes, icache), Indirect(inum)) == ind;
      var addr := Word(disk[ind], bn - NDIRECT);
      assert addr == BlockOf(disk, View(dinodes, icache), inum, bn);
      if addr == 0 {
        r := AllocListed(inum, bn - NDIRECT);
        if r.Some? { MappedOnly(sb, old(disk), View(dinodes, icache), disk, View(dinodes, icache), inum, bn, r.value); }
      } else {
        assert SlotOk(sb, BlockSlot(inum, bn));
        MappedRefl(sb, disk, View(dinodes, icache), inum, bn);
        r := Some(addr);
      }
    }

    /**
     * bmap: the disk block of block bn of a cached inode, allocated if it was missing. All it
     * logs is the bitmap, the new blocks and the indirect block.
     */
    method Bmap(inum: nat, bn: nat) returns (r: Option<nat>)
      requires Accounted(sb, disk, View(dinodes, icache), {}) && inum in icache && inum < sb.ninodes && bn < MAXFILE
      modifies this`disk, this`logged, this`icache
      ensures r.None? ==> Full(sb, disk) && BlockOf(old(disk), old(View(dinodes, icache)), inum, bn) == 0
      ensures r.Some? ==>
                && Mapping(sb, old(disk), old(View(dinodes, icache)), disk, View(dinodes, icache), inum, bn)
                && r.value == BlockOf(disk, View(dinodes, icache), inum, bn) && KeepsCache(old(icache), icache, inum)
                && (BlockOf(old(disk), old(View(dinodes, icache)), inum, bn) != 0 ==>
                      disk == old(disk) && icache == old(icache) && logged == old(logged))
                && LogsOnly(sb, old(logged), logged, {r.value, Entry(View(dinodes, icache), inum, NDIRECT)})
                && Confined(old(disk), old(logged), disk, logged)
    {
      if bn < NDIRECT {
        r := BmapDirect(inum, bn);
      } else if icache[inum].addrs[NDIRECT] == 0 {
        ghost var disk0, inos0 := disk, View(dinodes, icache);
        var ind := AllocEntry(inum, NDIRECT);
        if ind.None? { return None; }
        ghost var disk1, inos1, logged1 := disk, View(dinodes, icache), logged;
        r := BmapListed(inum, bn);
        if r.None? { return; }
        MappedTwice(sb, disk0, inos0, disk1, inos1, disk, View(dinodes, icache), inum, bn, ind.value);
        ConfinedTwice(old(disk), old(logged), disk1, logged1, disk, logged);
        LogsTrans(sb, old(logged), logged1, logged, {ind.value}, {r.value, ind.value}, {r.value, ind.value});
      } else {
        r := BmapListed(inum, bn);
      }
    }

    /** Between operations: the image settled, and every cached inode equal to the one on disk. */
    ghost predicate Valid()
      reads this
    {
      && Sound(sb, disk, View(dinodes, icache)) && |dinodes| == sb.ninodes
      && forall i :: i in icache ==> i < sb.ninodes && icache[i] == dinodes[i]
    }

    function InodeBlock(inum: nat): nat { inum / IPB + sb.inodestart }

    /** iupdate: the cached inode is copied to its inode block. */
    method Iupdate(inum: nat)
      requires inum in icache && inum < |dinodes|
      modifies this`dinodes, this`logged
      ensures dinodes == old(dinodes)[inum := icache[inum]] && View(dinodes, icache) == old(View(dinodes, icache))
      ensures logged == old(logged) + {InodeBlock(inum)}
    {
      dinodes := dinodes[inum := icache[inum]];
      logged := logged + {InodeBlock(inum)};
      assert View(dinodes, icache) == old(View(dinodes, icache));
    }

    /** One turn of writei's loop. */
    method CopyBlock(inum: nat, pos: nat, more: seq<Byte>, ghost m: Progress) returns (ok: bool, ghost m': Progress)
      requires inum in icache && m.Writing? && m.w.Is(sb, disk, View(dinodes, icache), logged, inum, pos)
      requires 0 < |more| <= BSIZE - pos % BSIZE && pos + |more| <= MAXFILE * BSIZE
      requires forall k :: 0 <= k < |more| ==> 0 <= more[k] < 256
      modifies this`disk, this`logged, this`icache
      ensures !ok ==> Full(sb, disk)
      ensures ok ==>
                && m' == Writing(m.w.(disk := disk, inos := View(dinodes, icache), logged := logged, data := m.w.data + more))
                && KeepsCache(old(icache), icache, inum) && Confined(old(disk), old(logged), disk, logged)
    {
      WritingAccounted(m);
      var a := Bmap(inum, pos / BSIZE);
      if a.None? { return false, m; }
      m' := Turned(m, disk, View(dinodes, icache), logged, pos, more, a.value);
      OneChanged(old(disk), old(logged), disk, logged, a.value, Splice(disk[a.value], pos % BSIZE, more));
      disk := disk[a.value := Splice(disk[a.value], pos % BSIZE, more)];
      logged := logged + {a.value};
      ok := true;
    }

    /** The loop of writei. */
    method CopyIn(inum: nat, src: seq<Byte>, off: nat) returns (ok: bool, ghost m: Progress)
      requires Sound(sb, disk, View(dinodes, icache)) && inum in icache && inum < sb.ninodes && inum < |dinodes|
      requires forall k :: 0 <= k < |src| ==> 0 <= src[k] < 256
      requires off <= icache[inum].size && off + |src| <= MAXFILE * BSIZE
      modifies this`disk, this`logged, this`icache
      ensures !ok ==> Full(sb, disk)
      ensures ok ==> m == Writing(Write(sb, old(disk), old(View(dinodes, icache)), old(logged),
                                        disk, View(dinodes, icache), logged, inum, off, src))
      ensures ok ==> KeepsCache(old(icache), icache, inum) && Confined(old(disk), old(logged), disk, logged)
    {
      NothingChanged(disk, logged, {});
      ghost var start := StartWrite(sb, disk, View(dinodes, icache), logged, inum, off);
      m := start;
      var tot := 0;
      while tot < |src|
        invariant tot <= |src| && KeepsCache(old(icache), icache, inum) && m.Writing?
        invariant m.w == start.w.(disk := disk, inos := View(dinodes, icache), logged := logged, data := src[..tot])
        invariant Confined(old(disk), old(logged), disk, logged)
      {
        ghost var disk1, logged1 := disk, logged;
        var pos := off + tot;
        var n := if |src| - tot < BSIZE - pos % BSIZE then |src| - tot else BSIZE - pos % BSIZE;
        ok, m := CopyBlock(inum, pos, src[tot..tot + n], m);
        if !ok { return; }
        ConfinedTwice(old(disk), old(logged), disk1, logged1, disk, logged);
        assert src[..tot] + src[tot..tot + n] == src[..tot + n];
        tot := tot + n;
      }
      assert src[..tot] == src;
      ok := true;
    }

    /**
     * writei. Refuses devices, offsets past the end and files that would be too large;
     * otherwise exactly bytes [off, off + |src|) of the inode are replaced, the size grows only
     * if it must, no other inode changes, and the inode on disk is again the cached one.
     */
    method WriteI(inum: nat, src: seq<Byte>, off: nat) returns (r: Option<int>)
      requires Valid() && inum in icache && off < WORD && |src| < WORD
      requires forall k :: 0 <= k < |src| ==> 0 <= src[k] < 256
      modifies this
      ensures r.None? ==> Full(sb, disk)
      ensures r.Some? ==> Valid() && icache.Keys == old(icache.Keys)
      ensures r.Some? && old(Tidy(dinodes, icache)) ==> Tidy(dinodes, icache)
      ensures r == Some(-1) <==> RefusesWrite(old(icache[inum]), off, |src|)
      ensures r == Some(-1) ==> disk == old(disk) && dinodes == old(dinodes) && logged == old(logged)
      ensures r.Some? && r.value != -1 ==>
                && r.value == |src|
                && ContentsAfter(sb, old(disk), old(dinodes), disk, dinodes, inum, off, src)
                && Logs(old(disk), old(dinodes), old(logged), disk, dinodes, logged, inum, InodeBlock(inum))
                && LogsOnly(sb, old(logged), logged,
                            Touched(disk, dinodes, inum, off / BSIZE, BlocksFor(off + |src|)) + {InodeBlock(inum)})
    {
      ClosedView(dinodes, icache);
      var ip := icache[inum];
      if ip.kind == T_DEV { return Some(-1); }
      if off > ip.size || (off + |src|) % WORD < off { return Some(-1); }
      if off + |src| > MAXFILE * BSIZE { return Some(-1); }
      var ok := WriteBytes(inum, src, off);
      r := if ok then Some(|src|) else None;
    }

    /** ip->size = size; iupdate(ip); */
    method Resize(inum: nat, size: nat)
      requires inum in icache && inum < |dinodes|
      modifies this`icache, this`dinodes, this`logged
      ensures icache == old(icache)[inum := old(icache[inum]).(size := size)]
      ensures dinodes == old(dinodes)[inum := old(icache[inum]).(size := size)] && logged == old(logged) + {InodeBlock(inum)}
    {
      icache := icache[inum := icache[inum].(size := size)];
      Iupdate(inum);
    }

    /** writei past its tests. */
    method WriteBytes(inum: nat, src: seq<Byte>, off: nat) returns (ok: bool)
      requires Valid() && inum in icache && off <= icache[inum].size && off + |src| <= MAXFILE * BSIZE
      requires forall k :: 0 <= k < |src| ==> 0 <= src[k] < 256
      modifies this
      ensures !ok ==> Full(sb, disk)
      ensures ok ==> Valid() && icache.Keys == old(icache.Keys)
      ensures ok ==> ContentsAfter(sb, old(disk), old(dinodes), disk, dinodes, inum, off, src)
      ensures ok ==> Logs(old(disk), old(dinodes), old(logged), disk, dinodes, logged, inum, InodeBlock(inum))
      ensures ok ==> LogsOnly(sb, old(logged), logged,
                              Touched(disk, dinodes, inum, off / BSIZE, BlocksFor(off + |src|)) + {InodeBlock(inum)})
    {
      ClosedView(dinodes, icache);
      SoundSuper(sb, disk, dinodes);
      ghost var m;
      ok, m := CopyIn(inum, src, off);
      if !ok { return; }
      ghost var cache := icache;
      LogInode(old(disk), old(logged), disk, logged, InodeBlock(inum));
      WritingFields(m);
      ViewSet(dinodes, icache, inum, icache[inum].(size := off + |src|));
      if |src| > 0 && off + |src| > icache[inum].size { Resize(inum, off + |src|); }
      SizedNow(m, old(dinodes), old(icache), cache, inum, off + |src|, dinodes);
      CleanAgain(old(dinodes), old(icache), dinodes, icache, inum);
      FinishWrite(m, sb, old(disk), old(dinodes), old(logged), disk, dinodes, logged, inum, off, src, InodeBlock(inum));
    }

    /**
     * readi: the slice of the inode's bytes from off, cut at the size. Although it goes through
     * bmap it never allocates, because an inode has no holes.
     */
    method ReadI(inum: nat, off: nat, count: nat) returns (r: int, dst: seq<Byte>)
      requires Valid() && inum in icache && off < WORD && count < WORD
      modifies this`disk, this`logged, this`icache
      ensures disk == old(disk) && logged == old(logged) && icache == old(icache)
      ensures r == -1 <==> icache[inum].kind == T_DEV || off > icache[inum].size || off + count >= WORD
      ensures r != -1 ==>
                && r == |dst| == (if off + count > icache[inum].size then icache[inum].size - off else count)
                && dst == Content(disk, dinodes, inum)[off..off + |dst|]
    {
      dst := [];
      if icache[inum].kind == T_DEV { return -1, dst; }
      if off > icache[inum].size || (off + count) % WORD < off { return -1, dst; }
      var n := if off + count > icache[inum].size then icache[inum].size - off else count;
      ClosedView(dinodes, icache);
      dst := CopyOut(inum, off, n);
      r := n;
    }

    /** The loop of readi. */
    method CopyOut(inum: nat, off: nat, n: nat) returns (dst: seq<Byte>)
      requires Valid() && inum in icache && off + n <= icache[inum].size
      modifies this`disk, this`logged, this`icache
      ensures disk == old(disk) && logged == old(logged) && icache == old(icache)
      ensures inum < |dinodes| && off + n <= dinodes[inum].size && dst == Content(disk, dinodes, inum)[off..off + n]
    {
      ghost var c := Content(disk, dinodes, inum);
      dst := [];
      var tot := 0;
      while tot < n
        invariant tot <= n && disk == old(disk) && logged == old(logged) && icache == old(icache) && dst == c[off..off + tot]
      {
        var pos := off + tot;
        var m := if n - tot < BSIZE - pos % BSIZE then n - tot else BSIZE - pos % BSIZE;
        var part := ReadBlock(inum, pos, m);
        assert c[off..off + tot] + c[pos..pos + m] == c[off..off + tot + m];
        dst := dst + part;
        tot := tot + m;
      }
    }

    /** One turn of readi's loop. */
    method ReadBlock(inum: nat, pos: nat, m: nat) returns (part: seq<Byte>)
      requires Valid() && inum in icache && 0 < m <= BSIZE - pos % BSIZE && pos + m <= icache[inum].size
      modifies this`disk, this`logged, this`icache
      ensures disk == old(disk) && logged == old(logged) && icache == old(icache)
      ensures part == Content(disk, dinodes, inum)[pos..pos + m]
    {
      ClosedView(dinodes, icache);
      ReadFacts(sb, disk, dinodes, inum, pos, m);
      var a := Bmap(inum, pos / BSIZE);
      assert a.Some?;
      part := disk[a.value][pos % BSIZE..pos % BSIZE + m];
    }

    /** The first loop of itrunc: the direct blocks. */
    method FreeDirect(inum: nat)
      requires Booked(sb, disk, View(dinodes, icache), {}) && inum in icache && inum < |dinodes| == sb.ninodes
      requires |icache[inum].addrs| == NDIRECT + 1
      modifies this`disk, this`logged, this`icache
      ensures Booked(sb, disk, View(dinodes, icache), {}) && KeepsCache(old(icache), icache, inum)
      ensures SameData(sb, old(disk), disk)
      ensures icache[inum] == old(icache[inum]).(addrs := icache[inum].addrs) && |icache[inum].addrs| == NDIRECT + 1
      ensures forall k :: 0 <= k < NDIRECT ==> icache[inum].addrs[k] == 0
    {
      var k := 0;
      while k < NDIRECT
        invariant k <= NDIRECT && Booked(sb, disk, View(dinodes, icache), {}) && KeepsCache(old(icache), icache, inum)
        invariant SameData(sb, old(disk), disk) && icache[inum] == old(icache[inum]).(addrs := icache[inum].addrs)
        invariant |icache[inum].addrs| == NDIRECT + 1 && forall j :: 0 <= j < k ==> icache[inum].addrs[j] == 0
      {
        var ip := icache[inum];
        if ip.addrs[k] != 0 {
          FreeBooked(sb, disk, View(dinodes, icache), inum, k);
          var freed := Bfree(ip.addrs[k]);
          assert freed;
          ViewSet(dinodes, icache, inum, ip.(addrs := ip.addrs[k := 0]));
          icache := icache[inum := ip.(addrs := ip.addrs[k := 0])];
        }
        k := k + 1;
      }
    }

    /** The second loop of itrunc: the listed blocks, then the indirect block. */
    method FreeIndirect(inum: nat)
      requires Booked(sb, disk, View(dinodes, icache), {}) && inum in icache && inum < |dinodes| == sb.ninodes
      requires |icache[inum].addrs| == NDIRECT + 1 && icache[inum].addrs[NDIRECT] != 0
      modifies this`disk, this`logged, this`icache
      ensures Booked(sb, disk, View(dinodes, icache), {}) && SameData(sb, old(disk), disk)
      ensures icache == old(icache)[inum := old(icache[inum]).(addrs := old(icache[inum].addrs)[NDIRECT := 0])]
    {
      var ip := icache[inum];
      var a := ip.addrs[NDIRECT];
      ghost var inos := SetAddr(View(dinodes, icache), inum, NDIRECT, 0);
      DropBooked(sb, disk, View(dinodes, icache), inum);
      var blk := disk[a];
      var j := 0;
      while j < NINDIRECT
        invariant j <= NINDIRECT && SameData(sb, old(disk), disk) && icache == old(icache)
        invariant a !in ListedFrom(blk, j) && Booked(sb, disk, inos, {a} + ListedFrom(blk, j))
      {
        ListedOnce(blk, j, a);
        if Word(blk, j) != 0 {
          ReleaseBooked(sb, disk, inos, {a} + ListedFrom(blk, j), Word(blk, j));
          var freed := Bfree(Word(blk, j));
          assert freed;
        }
        j := j + 1;
      }
      assert {a} + ListedFrom(blk, NINDIRECT) == {a} && {a} - {a} == {};
      ReleaseBooked(sb, disk, inos, {a}, a);
      var freed := Bfree(a);
      assert freed;
      ViewSet(dinodes, icache, inum, ip.(addrs := ip.addrs[NDIRECT := 0]));
      icache := icache[inum := ip.(addrs := ip.addrs[NDIRECT := 0])];
    }

    /** Both loops of itrunc; `inos` is what the inodes are then. */
    method FreeBlocks(inum: nat) returns (ghost inos: seq<Inode>)
      requires Valid() && inum in icache
      modifies this`disk, this`logged, this`icache
      ensures KeepsCache(old(icache), icache, inum) && inos == dinodes[inum := icache[inum]] && inum < |dinodes|
      ensures icache[inum] == old(icache[inum]).(addrs := icache[inum].addrs)
      ensures |icache[inum].addrs| == NDIRECT + 1 && forall k :: 0 <= k <= NDIRECT ==> icache[inum].addrs[k] == 0
      ensures Booked(sb, disk, inos, {}) && SameData(sb, old(disk), disk) && Sound(sb, old(disk), dinodes)
    {
      ClosedView(dinodes, icache);
      SoundBooked(sb, disk, dinodes, inum);
      FreeDirect(inum);
      ghost var cache1 := icache;
      if icache[inum].addrs[NDIRECT] != 0 { FreeIndirect(inum); }
      KeepsTrans(old(icache), cache1, icache, inum);
      ChangedView(dinodes, old(icache), icache, inum);
      inos := View(dinodes, icache);
    }

    /**
     * itrunc: the inode becomes empty and its blocks free again, and every other inode keeps
     * its bytes. All the bfree calls are of blocks in use, so bfree never panics.
     */
    method Itrunc(inum: nat)
      requires Valid() && inum in icache
      modifies this
      ensures Valid() && icache.Keys == old(icache.Keys) && (old(Tidy(dinodes, icache)) ==> Tidy(dinodes, icache))
      ensures dinodes[inum] == old(dinodes[inum]).(size := 0, addrs := dinodes[inum].addrs)
      ensures forall q :: 0 <= q < sb.ninodes && q != inum ==>
                dinodes[q] == old(dinodes[q]) && Content(disk, dinodes, q) == Content(old(disk), old(dinodes), q)
    {
      ghost var inos := FreeBlocks(inum);
      ghost var cache := icache;
      icache := icache[inum := icache[inum].(size := 0)];
      KeepsTrans(old(icache), cache, icache, inum);
      Iupdate(inum);
      CleanAgain(old(dinodes), old(icache), dinodes, icache, inum);
      Truncated(sb, old(disk), old(dinodes), disk, inos, inum, dinodes);
    }

    /** ialloc: the first free inode from 1 on becomes an empty inode of the given kind. */
    method Ialloc(kind: int) returns (r: Option<nat>)
      requires Valid() && Tidy(dinodes, icache) && kind != 0
      modifies this`dinodes, this`logged
      ensures Valid() && Tidy(dinodes, icache)
      ensures r.None? ==> dinodes == old(dinodes) && forall i :: 1 <= i < sb.ninodes ==> dinodes[i].kind != 0
      ensures r.Some? ==>
                && 1 <= r.value < sb.ninodes && old(dinodes[r.value].kind) == 0 && r.value !in icache
                && (forall i :: 1 <= i < r.value ==> old(dinodes[i].kind) != 0)
                && dinodes == old(dinodes)[r.value := Inode(kind, 0, 0, 0, 0, seq(NDIRECT + 1, _ => 0))]
                && logged == old(logged) + {InodeBlock(r.value)}
                && forall q :: 0 <= q < sb.ninodes ==> Content(disk, dinodes, q) == Content(disk, old(dinodes), q)
    {
      ClosedView(dinodes, icache);
      var inum := 1;
      while inum < sb.ninodes
        invariant 1 <= inum && dinodes == old(dinodes) && logged == old(logged)
        invariant forall i :: 1 <= i < inum && i < sb.ninodes ==> dinodes[i].kind != 0
      {
        if dinodes[inum].kind == 0 {
          var ino := Inode(kind, 0, 0, 0, 0, seq(NDIRECT + 1, _ => 0));
          Refit(sb, disk, dinodes, inum, ino);
          dinodes := dinodes[inum := ino];
          logged := logged + {InodeBlock(inum)};
          ClosedView(dinodes, icache);
          return Some(inum);
        }
        inum := inum + 1;
      }
      r := None;
    }

    /** The part of ilock that fills the cache; false where the source panics. */
    method Ilock(inum: nat) returns (ok: bool)
      requires Valid() && Tidy(dinodes, icache) && inum < sb.ninodes
      modifies this`icache
      ensures ok <==> dinodes[inum].kind != 0
      ensures ok ==> Valid() && Tidy(dinodes, icache) && inum in icache && icache.Keys == old(icache.Keys) + {inum}
      ensures !ok ==> icache == old(icache)
    {
      ClosedView(dinodes, icache);
      if inum !in icache {
        if dinodes[inum].kind == 0 { return false; }
        icache := icache[inum := dinodes[inum]];
        ClosedView(dinodes, icache);
      }
      ok := true;
    }

    /**
     * iput of a cached inode; `last` says that this is its only reference. If it has no links
     * either, its blocks and the inode itself become free.
     */
    method Iput(inum: nat, last: bool)
      requires Valid() && Tidy(dinodes, icache) && inum in icache
      modifies this
      ensures Valid() && Tidy(dinodes, icache)
      ensures !(last && old(icache[inum].nlink) == 0) ==> disk == old(disk) && dinodes == old(dinodes) && icache == old(icache)
      ensures last && old(icache[inum].nlink) == 0 ==>
                dinodes[inum].kind == 0 && dinodes[inum].size == 0 && inum !in icache
      ensures forall q :: 0 <= q < sb.ninodes && q != inum ==>
                dinodes[q] == old(dinodes[q]) && Content(disk, dinodes, q) == Content(old(disk), old(dinodes), q)
    {
      if last && icache[inum].nlink == 0 {
        Itrunc(inum);
        Discard(inum);
      }
    }

    /** An empty inode becomes free, on disk and in the cache. */
    method Discard(inum: nat)
      requires Valid() && Tidy(dinodes, icache) && inum in icache && dinodes[inum].size == 0
      modifies this`dinodes, this`icache, this`logged
      ensures Valid() && Tidy(dinodes, icache) && dinodes == old(dinodes)[inum := old(dinodes[inum]).(kind := 0)]
      ensures icache == old(icache) - {inum}
      ensures forall q :: 0 <= q < sb.ninodes ==> Content(disk, dinodes, q) == Content(disk, old(dinodes), q)
    {
      ClosedView(dinodes, icache);
      EmptySound(sb, disk, dinodes, inum);
      Refit(sb, disk, dinodes, inum, dinodes[inum].(kind := 0));
      icache := icache[inum := icache[inum].(kind := 0)];
      Iupdate(inum);
      icache := icache - {inum};
      ClosedView(dinodes, icache);
    }
  }

  /** With a clean cache before, only inode i differs from the disk after. */
  lemma ChangedView(dinodes: seq<Inode>, c0: map<nat, Inode>, c1: map<nat, Inode>, i: nat)
    requires (forall j :: j in c0 ==> j < |dinodes| && c0[j] == dinodes[j]) && i in c0 && KeepsCache(c0, c1, i)
    ensures View(dinodes, c1) == dinodes[i := c1[i]]
  {
  }

  /** What the size test of writei leaves on disk. */
  lemma SizedNow(m: Progress, dinodes: seq<Inode>, c0: map<nat, Inode>, c1: map<nat, Inode>, i: nat, end: nat, dinodes': seq<Inode>)
    requires (forall j :: j in c0 ==> j < |dinodes| && c0[j] == dinodes[j]) && i in c0 && KeepsCache(c0, c1, i)
    requires m.Writing? && m.w.i == i && m.w.inos0 == dinodes && m.w.inos == View(dinodes, c1) && end == m.w.off + |m.w.data|
    requires dinodes' == if |m.w.data| > 0 && end > c1[i].size then dinodes[i := c1[i].(size := end)] else dinodes
    ensures Sized(m, dinodes')
  {
    WritingFields(m);
    ChangedView(dinodes, c0, c1, i);
  }

  lemma KeepsTrans(c0: map<nat, Inode>, c1: map<nat, Inode>, c2: map<nat, Inode>, i: nat)
    requires KeepsCache(c0, c1, i) && i in c2 && c2 == c1[i := c2[i]]
    ensures KeepsCache(c0, c2, i)
  {
  }

  lemma EmptySound(sb: Super, disk: Disk, inos: seq<Inode>, i: nat)
    requires Sound(sb, disk, inos) && i < sb.ninodes && i < |inos| && inos[i].size == 0
    ensures |inos[i].addrs| == NDIRECT + 1 && forall k :: 0 <= k <= NDIRECT ==> inos[i].addrs[k] == 0
  {
    OpenSound(sb, disk, inos);
    EmptyInode(sb, disk, inos, i);
  }

  lemma SoundBooked(sb: Super, disk: Disk, inos: seq<Inode>, i: nat)
    requires Sound(sb, disk, inos) && i < sb.ninodes
    ensures Booked(sb, disk, inos, {}) && i < |inos| && |inos[i].addrs| == NDIRECT + 1
  {
    OpenSound(sb, disk, inos);
  }

  lemma Truncated(sb: Super, disk: Disk, inos: seq<Inode>, disk': Disk, inos': seq<Inode>, i: nat, inos'': seq<Inode>)
    requires Sound(sb, disk, inos) && i < sb.ninodes && Booked(sb, disk', inos', {}) && SameData(sb, disk, disk')
    requires i < |inos'| == |inos| == sb.ninodes && (forall q :: 0 <= q < sb.ninodes && q != i ==> inos'[q] == inos[q])
    requires |inos'[i].addrs| == NDIRECT + 1 && forall k :: 0 <= k <= NDIRECT ==> inos'[i].addrs[k] == 0
    requires inos'' == SetSize(inos', i, 0)
    ensures Sound(sb, disk', inos'')
    ensures forall q :: 0 <= q < sb.ninodes && q != i ==> Content(disk', inos'', q) == Content(disk, inos, q)
  {
    OpenSound(sb, disk, inos);
    Unbook(sb, disk', inos', {});
    TruncatedSettles(sb, disk, inos, disk', inos', i);
  }

  lemma ReadFacts(sb: Super, disk: Disk, inos: seq<Inode>, i: nat, pos: nat, m: nat)
    requires Sound(sb, disk, inos) && i < sb.ninodes && i < |inos| && 0 < m <= BSIZE - pos % BSIZE && pos + m <= inos[i].size
    ensures Accounted(sb, disk, inos, {}) && pos / BSIZE < MAXFILE
    ensures var a := BlockOf(disk, inos, i, pos / BSIZE);
            && a > 0 && a in disk && |disk[a]| == BSIZE
            && disk[a][pos % BSIZE..pos % BSIZE + m] == Content(disk, inos, i)[pos..pos + m]
  {
    OpenSound(sb, disk, inos);
    assert Dense(disk, inos, i, BlocksFor(inos[i].size));
    BlockArithmetic(inos[i].size, pos, m);
    BlockFacts(sb, disk, inos, i, pos / BSIZE);
    var a := BlockOf(disk, inos, i, pos / BSIZE);
    forall k | pos <= k < pos + m ensures disk[a][k - pos + pos % BSIZE] == Content(disk, inos, i)[k] {
      SameBlock(pos, k, m);
    }
  }

  lemma SoundSuper(sb: Super, disk: Disk, inos: seq<Inode>)
    requires Sound(sb, disk, inos)
    ensures 0 < sb.inodestart
  {
    OpenSound(sb, disk, inos);
  }

  predicate RefusesWrite(ip: Inode, off: nat, n: nat) {
    ip.kind == T_DEV || off > ip.size || off + n >= WORD || off + n > MAXFILE * BSIZE
  }

  /** With a clean cache the kernel's view of the inodes is what is on disk. */
  lemma ClosedView(dinodes: seq<Inode>, icache: map<nat, Inode>)
    requires forall i :: i in icache ==> i < |dinodes| && icache[i] == dinodes[i]
    ensures View(dinodes, icache) == dinodes
  {
  }

  lemma CleanAgain(dinodes0: seq<Inode>, icache0: map<nat, Inode>, dinodes: seq<Inode>, icache: map<nat, Inode>, i: nat)
    requires forall j :: j in icache0 ==> j < |dinodes0| && icache0[j] == dinodes0[j]
    requires i in icache0 && KeepsCache(icache0, icache, i) && |dinodes| == |dinodes0|
    requires forall j :: 0 <= j < |dinodes| && j != i ==> dinodes[j] == dinodes0[j]
    requires icache[i] == dinodes[i]
    ensures forall j :: j in icache ==> j < |dinodes| && icache[j] == dinodes[j]
    ensures View(dinodes, icache) == dinodes && icache.Keys == icache0.Keys
  {
  }

  /** Only inode i's cached copy may have changed. */
  ghost predicate KeepsCache(before: map<nat, Inode>, after: map<nat, Inode>, i: nat) {
    i in after && after == before[i := after[i]]
  }

  lemma BitmapIndex(b: nat, bi: nat)
    requires b % BPB == 0 && bi < BPB
    ensures (b + bi) / BPB == b / BPB && (b + bi) % BPB == bi && (b + bi) % 8 == bi % 8
  {
    Aligned4096(b, bi);
    Aligned8(b, bi);
  }

  /** Allocating a block leaves every named block's contents alone. */
  lemma DataKept(sb: Super, disk: Disk, inos: seq<Inode>, b: nat)
    requires Accounted(sb, disk, inos, {}) && b < sb.size && !Used(sb, disk, b)
    ensures var disk' := Flip(sb, disk, b, true)[b := Zero()];
            forall s :: SlotOk(sb, s) && Addr(disk, inos, s) != 0 ==>
              Addr(disk, inos, s) in disk && disk'[Addr(disk, inos, s)] == disk[Addr(disk, inos, s)]
  {
  }

  lemma ListedExtends(sb: Super, disk: Disk, inos: seq<Inode>, i: nat, j: nat, b: nat)
    requires Accounted(sb, disk, inos, {}) && b < sb.size && !Used(sb, disk, b)
    requires i < sb.ninodes && j < NINDIRECT && inos[i].addrs[NDIRECT] != 0
    requires Addr(disk, inos, Listed(i, j)) == 0
    ensures var a, disk1 := inos[i].addrs[NDIRECT], Flip(sb, disk, b, true)[b := Zero()];
            && a in disk1 && |disk1[a]| == BSIZE && 0 < b < WORD
            && var disk2 := disk1[a := SetWord(disk1[a], j, b)];
               Extends(sb, disk, inos, disk2, inos) && Only(sb, disk, inos, disk2, inos, Listed(i, j), b)
  {
    var a, disk1 := inos[i].addrs[NDIRECT], Flip(sb, disk, b, true)[b := Zero()];
    Allocate(sb, disk, inos, {}, b);
    assert {} + {b} == {b};
    LinkListed(sb, disk1, inos, i, j, b);
    DataKept(sb, disk, inos, b);
    ListedKept(sb, disk, inos, i);
    var disk2 := disk1[a := SetWord(disk1[a], j, b)];
    OnlyExtends(sb, disk, inos, disk2, inos, Listed(i, j), b);
  }

  lemma ListedKept(sb: Super, disk: Disk, inos: seq<Inode>, i: nat)
    requires Accounted(sb, disk, inos, {}) && i < sb.ninodes && inos[i].addrs[NDIRECT] != 0
    ensures forall s :: SlotOk(sb, s) && Addr(disk, inos, s) != 0 && !s.Indirect? ==>
              Addr(disk, inos, s) != inos[i].addrs[NDIRECT]
  {
    assert SlotOk(sb, Indirect(i)) && Addr(disk, inos, Indirect(i)) == inos[i].addrs[NDIRECT];
  }

  lemma OnlyExtends(sb: Super, disk: Disk, inos: seq<Inode>, disk': Disk, inos': seq<Inode>, s0: Slot, b: nat)
    requires Accounted(sb, disk, inos, {}) && Accounted(sb, disk', inos', {}) && disk'.Keys == disk.Keys
    requires SlotOk(sb, s0) && Only(sb, disk, inos, disk', inos', s0, b) && Addr(disk, inos, s0) == 0
    requires forall i :: 0 <= i < |inos| ==> inos'[i] == inos[i].(addrs := inos'[i].addrs)
    requires forall s :: SlotOk(sb, s) && Addr(disk, inos, s) != 0 && !s.Indirect? ==>
               Addr(disk, inos, s) in disk && disk'[Addr(disk, inos, s)] == disk[Addr(disk, inos, s)]
    ensures Extends(sb, disk, inos, disk', inos')
  {
  }
}
