/** The buffer cache of src/bio.c over a disk of blocks (src/memide.c). */
module Bcache {
  import opened BufRing

  type Data = seq<int>
  type Key = (int, int)

  datatype Buf = Buf(dev: int, block: int, valid: bool, dirty: bool, refcnt: nat, data: Data)

  /** The one device there is. */
  const DISK := 1

  function KeyOf(b: Buf): Key { (b.dev, b.block) }

  function At(m: map<Key, Data>, k: Key): Data { if k in m then m[k] else [] }

  ghost predicate Cached(bufs: seq<Buf>, k: Key) { exists i :: 0 <= i < |bufs| && KeyOf(bufs[i]) == k }

  /** No block of a real device is in two buffers. */
  ghost predicate Unique(bufs: seq<Buf>) {
    forall i, j :: 0 <= i < j < |bufs| && bufs[i].dev != 0 ==> KeyOf(bufs[i]) != KeyOf(bufs[j])
  }

  /**
   * Only the disk's blocks are read, and only what has been read is marked dirty. Buffer b agrees with the last content stored
   * in its block, and the disk does when it may be recycled.
   */
  ghost predicate CoherentBuf(b: Buf, locked: bool, disk: map<Key, Data>, latest: map<Key, Data>) {
    && (b.dirty ==> b.valid) && (b.valid ==> b.dev == DISK)
    && (b.dev != 0 ==>
      && (b.valid ==> b.data == At(latest, KeyOf(b)))
      && (!b.valid || (!locked && !b.dirty) ==> At(disk, KeyOf(b)) == At(latest, KeyOf(b))))
  }

  ghost predicate Coherent(bufs: seq<Buf>, held: set<int>, disk: map<Key, Data>, latest: map<Key, Data>) {
    && (forall i :: 0 <= i < |bufs| ==> CoherentBuf(bufs[i], i in held, disk, latest))
    && (forall k: Key :: k.0 != 0 && !Cached(bufs, k) ==> At(disk, k) == At(latest, k))
  }

  /**
   * A reference is held by the owner of the sleep lock, by a process still waiting for it, or by one
   * that has released it and has not yet taken bcache.lock.
   */
  ghost predicate Counted(bufs: seq<Buf>, held: set<int>, waiting: seq<nat>, leaving: seq<nat>) {
    && |waiting| == |bufs| == |leaving|
    && forall i :: 0 <= i < |bufs| ==> bufs[i].refcnt == waiting[i] + leaving[i] + (if i in held then 1 else 0)
  }

  function Recyclable(b: Buf): bool { b.refcnt == 0 && !b.dirty }

  lemma StillCached(bufs: seq<Buf>, bufs': seq<Buf>, i: int, k: Key)
    requires 0 <= i < |bufs| == |bufs'| && bufs' == bufs[i := bufs'[i]] && Cached(bufs, k)
    requires KeyOf(bufs[i]) == k ==> KeyOf(bufs'[i]) == k
    ensures Cached(bufs', k)
  {
    var j :| 0 <= j < |bufs| && KeyOf(bufs[j]) == k;
    assert KeyOf(bufs'[j]) == k;
  }

  lemma RecycleKeeps(bufs: seq<Buf>, held: set<int>, disk: map<Key, Data>, latest: map<Key, Data>, i: int, k: Key, bufs': seq<Buf>)
    requires Unique(bufs) && Coherent(bufs, held, disk, latest) && 0 <= i < |bufs| && i !in held
    requires Recyclable(bufs[i]) && !Cached(bufs, k) && bufs' == bufs[i := Buf(k.0, k.1, false, false, 1, bufs[i].data)]
    ensures Unique(bufs') && Coherent(bufs', held, disk, latest)
  {
    forall j | 0 <= j < |bufs| ensures KeyOf(bufs[j]) != k { assert bufs[j] == bufs[j]; }
    assert CoherentBuf(bufs[i], false, disk, latest);
    forall j | 0 <= j < |bufs'| ensures CoherentBuf(bufs'[j], j in held, disk, latest) {
      assert CoherentBuf(bufs[j], j in held, disk, latest);
    }
    forall q: Key | q.0 != 0 && !Cached(bufs', q) ensures At(disk, q) == At(latest, q) {
      if Cached(bufs, q) && KeyOf(bufs[i]) != q { StillCached(bufs, bufs', i, q); }
    }
  }

  /** Changing buffer i, the disk and the last content, all at its own key, concerns no other buffer. */
  lemma UpdateKeeps(bufs: seq<Buf>, held: set<int>, disk: map<Key, Data>, latest: map<Key, Data>, i: int,
                    b: Buf, held': set<int>, disk': map<Key, Data>, latest': map<Key, Data>)
    requires Unique(bufs) && Coherent(bufs, held, disk, latest) && 0 <= i < |bufs|
    requires KeyOf(b) == KeyOf(bufs[i]) && b.dev != 0
    requires forall j :: j in held' <==> if j == i then i in held' else j in held
    requires forall q: Key {:trigger At(disk', q)} {:trigger At(latest', q)} :: q != KeyOf(b) ==> At(disk', q) == At(disk, q) && At(latest', q) == At(latest, q)
    requires CoherentBuf(b, i in held', disk', latest')
    ensures Unique(bufs[i := b]) && Coherent(bufs[i := b], held', disk', latest')
  {
    var bufs' := bufs[i := b];
    forall j | 0 <= j < |bufs'| ensures KeyOf(bufs'[j]) == KeyOf(bufs[j]) {}
    forall j | 0 <= j < |bufs'| ensures CoherentBuf(bufs'[j], j in held', disk', latest') {
      if j != i { assert CoherentBuf(bufs[j], j in held, disk, latest); }
    }
    forall q: Key | q.0 != 0 && !Cached(bufs', q) ensures At(disk', q) == At(latest', q) {
      assert KeyOf(bufs'[i]) == KeyOf(b);
      if Cached(bufs, q) { StillCached(bufs, bufs', i, q); }
    }
  }

  /** No buffer released before b, in the list's order, may be recycled. */
  ghost predicate LeastRecent(bufs: seq<Buf>, ring: seq<int>, b: int) {
    exists i :: 0 <= i < |ring| && ring[i] == b &&
      forall j :: i < j < |ring| && 0 <= ring[j] < |bufs| ==> !Recyclable(bufs[ring[j]])
  }

  /** The list is the head and then buffers 0 to n - 1, each once. */
  ghost predicate Complete(ring: seq<int>, head: int, n: nat) {
    && |ring| == n + 1 && ring[0] == head && (forall i {:trigger ring[i]} :: 1 <= i <= n ==> 0 <= ring[i] < n)
    && (forall b :: 0 <= b < n ==> b in ring)
  }

  lemma CompleteGrown(ring: seq<int>, ring': seq<int>, head: int, n: nat)
    requires Complete(ring, head, n) && ring' == [head, n] + ring[1..]
    ensures Complete(ring', head, n + 1)
  {
    assert ring'[1] == n;
    forall b | 0 <= b < n ensures b in ring' {
      assert b in ring;
      var i :| 0 <= i < |ring| && ring[i] == b;
      assert if i == 0 then ring'[0] == b else ring'[i + 1] == b;
    }
  }

  lemma CompleteMoved(ring: seq<int>, ring': seq<int>, n: nat)
    requires Complete(ring, n, n) && multiset(ring) == multiset(ring') && |ring'| > 0 && ring'[0] == n && Distinct(ring')
    ensures Complete(ring', n, n)
  {
    assert |ring'| == |multiset(ring')| == |multiset(ring)| == |ring|;
    forall i | 1 <= i <= n ensures 0 <= ring'[i] < n {
      assert ring'[i] in multiset(ring') && ring'[i] in multiset(ring) && ring'[i] in ring;
      var j :| 0 <= j < |ring| && ring[j] == ring'[i];
      assert ring'[0] != ring'[i];
    }
    forall b | 0 <= b < n ensures b in ring' {
      assert b in ring && b in multiset(ring) && b in multiset(ring');
    }
  }

  class Cache {
    const nbuf: nat
    const disksize: nat
    var bufs: seq<Buf>
    var next: Links
    var prev: Links
    var disk: map<Key, Data>
    /** The head, then every buffer from most to least recently released. */
    ghost var ring: seq<int>
    /** Buffers whose sleep lock is taken. */
    ghost var held: set<int>
    ghost var waiting: seq<nat>
    ghost var leaving: seq<nat>
    /** The content last stored in each block. */
    ghost var latest: map<Key, Data>

    ghost predicate Listed() reads this {
      |bufs| == nbuf && Complete(ring, nbuf, nbuf) && Linked(ring, next, prev)
    }

    ghost predicate Valid() reads this {
      && Listed() && Unique(bufs) && Coherent(bufs, held, disk, latest) && Counted(bufs, held, waiting, leaving)
      && forall i :: i in held ==> 0 <= i < nbuf
    }

    constructor (nbuf: nat, disksize: nat, disk: map<Key, Data>)
      ensures Valid() && this.nbuf == nbuf && this.disksize == disksize && this.disk == disk && latest == disk && held == {}
    {
      this.nbuf, this.disksize, this.disk := nbuf, disksize, disk;
      var nx, pv: Links := map[nbuf := nbuf], map[nbuf := nbuf];
      ghost var rg := [nbuf];
      assert LinkAt(rg, nx, pv, 0);
      for b := 0 to nbuf
        invariant Linked(rg, nx, pv) && Complete(rg, nbuf, b)
      {
        Neighbours(rg, nx, pv, 0);
        var first := nx[nbuf];
        ghost var rg' := [nbuf, b] + rg[1..];
        LinkFirst(rg, rg', nx, pv, b, nx[b := first][nbuf := b], pv[b := nbuf][first := b]);
        nx, pv := nx[b := first], pv[b := nbuf];
        pv := pv[first := b];
        nx := nx[nbuf := b];
        CompleteGrown(rg, rg', nbuf, b);
        rg := rg';
      }
      next, prev, ring := nx, pv, rg;
      bufs := seq(nbuf, _ => Buf(0, 0, false, false, 0, []));
      held, waiting, leaving, latest := {}, seq(nbuf, _ => 0), seq(nbuf, _ => 0), disk;
    }

    /** The most recently used buffer with this identity, or the head. */
    method FindCached(dev: int, block: int) returns (b: int)
      requires Listed()
      ensures 0 <= b <= nbuf && (b < nbuf ==> KeyOf(bufs[b]) == (dev, block))
      ensures b == nbuf <==> !Cached(bufs, (dev, block))
    {
      ghost var i := After(0, |ring|);
      Neighbours(ring, next, prev, 0);
      b := next[nbuf];
      while b != nbuf
        invariant 0 <= i < |ring| && b == ring[i]
        invariant forall j :: (if i == 0 then 1 <= j < |ring| else 1 <= j < i) ==> KeyOf(bufs[ring[j]]) != (dev, block)
        decreases if i == 0 then 0 else |ring| - i
      {
        if bufs[b].dev == dev && bufs[b].block == block { return; }
        Neighbours(ring, next, prev, i);
        b, i := next[b], After(i, |ring|);
      }
      forall k | 0 <= k < nbuf ensures KeyOf(bufs[k]) != (dev, block) {
        assert k in ring;
      }
    }

    /** The least recently used buffer that may be recycled, or the head. */
    method FindFree() returns (b: int, ghost i: int)
      requires Listed()
      ensures 0 <= i < |ring| && b == ring[i] && 0 <= b <= nbuf && (b < nbuf ==> Recyclable(bufs[b]))
      ensures forall j :: i < j < |ring| ==> !Recyclable(bufs[ring[j]])
    {
      i := |ring| - 1;
      Neighbours(ring, next, prev, 0);
      b := prev[nbuf];
      while b != nbuf
        invariant 0 <= i < |ring| && b == ring[i]
        invariant forall j :: i < j < |ring| ==> !Recyclable(bufs[ring[j]])
        decreases i
      {
        if bufs[b].refcnt == 0 && !bufs[b].dirty { return; }
        Neighbours(ring, next, prev, i);
        b, i := prev[b], i - 1;
      }
    }

    /** bget up to the release of bcache.lock: a cached buffer, a recycled one, or the head when it panics. */
    method Bget(dev: int, block: int) returns (b: int)
      requires Valid()
      modifies this`bufs, this`waiting
      ensures Valid() && 0 <= b <= nbuf
      ensures b == nbuf <==> !old(Cached(bufs, (dev, block))) && forall i :: 0 <= i < nbuf ==> !Recyclable(old(bufs)[i])
      ensures b == nbuf ==> bufs == old(bufs) && waiting == old(waiting)
      ensures b < nbuf ==> KeyOf(bufs[b]) == (dev, block) && waiting == old(waiting)[b := old(waiting)[b] + 1]
      ensures b < nbuf ==> bufs == old(bufs)[b := bufs[b]]
      ensures b < nbuf && old(Cached(bufs, (dev, block))) ==> bufs[b] == old(bufs)[b].(refcnt := old(bufs)[b].refcnt + 1)
      ensures b < nbuf && !old(Cached(bufs, (dev, block))) ==>
        Recyclable(old(bufs)[b]) && LeastRecent(old(bufs), ring, b) && bufs[b] == Buf(dev, block, false, false, 1, old(bufs)[b].data)
    {
      b := FindCached(dev, block);
      if b < nbuf {
        Reference(b, bufs[b].(refcnt := bufs[b].refcnt + 1));
        return;
      }
      ghost var i;
      b, i := FindFree();
      if b < nbuf {
        assert LeastRecent(bufs, ring, b);
        RecycleKeeps(bufs, held, disk, latest, b, (dev, block), bufs[b := Buf(dev, block, false, false, 1, bufs[b].data)]);
        bufs := bufs[b := Buf(dev, block, false, false, 1, bufs[b].data)];
        waiting := waiting[b := waiting[b] + 1];
      } else {
        forall k | 0 <= k < nbuf ensures !Recyclable(bufs[k]) {
          assert k in ring;
        }
      }
    }

    method Reference(b: int, buf: Buf)
      requires Valid() && 0 <= b < nbuf && buf == bufs[b].(refcnt := bufs[b].refcnt + 1)
      modifies this`bufs, this`waiting
      ensures Valid() && bufs == old(bufs)[b := buf] && waiting == old(waiting)[b := old(waiting)[b] + 1]
    {
      CountKeeps(bufs, held, disk, latest, b, buf);
      bufs := bufs[b := buf];
      waiting := waiting[b := waiting[b] + 1];
    }

    /** acquiresleep: the waiting process becomes the owner. */
    ghost method Acquire(b: int)
      requires Valid() && 0 <= b < nbuf && b !in held && waiting[b] > 0
      modifies this`held, this`waiting
      ensures Valid() && held == old(held) + {b} && waiting == old(waiting)[b := old(waiting)[b] - 1]
    {
      LockKeeps(bufs, held, disk, latest, b);
      held := held + {b};
      waiting := waiting[b := waiting[b] - 1];
    }

    /** iderw: a dirty buffer goes to the disk, another one is read from it; or it panics and nothing changes. */
    method Iderw(b: int) returns (ok: bool)
      requires Valid() && b in held && (bufs[b].dirty || !bufs[b].valid)
      modifies this`bufs, this`disk
      ensures Valid() && (ok <==> old(bufs)[b].dev == DISK && old(bufs)[b].block < disksize)
      ensures !ok ==> bufs == old(bufs) && disk == old(disk)
      ensures ok ==> bufs == old(bufs)[b := old(bufs)[b].(valid := true, dirty := false, data := bufs[b].data)]
      ensures ok ==> bufs[b].data == At(latest, KeyOf(bufs[b])) == At(disk, KeyOf(bufs[b]))
      ensures forall k: Key :: k != KeyOf(bufs[b]) ==> At(disk, k) == At(old(disk), k)
      ensures !old(bufs[b].dirty) ==> disk == old(disk)
      ensures old(bufs[b].dirty) ==> bufs[b].data == old(bufs[b].data)
    {
      var x := bufs[b];
      if x.dev != DISK || x.block >= disksize { return false; }
      assert CoherentBuf(x, true, disk, latest);
      if x.dirty {
        var disk' := disk[KeyOf(x) := x.data];
        UpdateKeeps(bufs, held, disk, latest, b, x.(valid := true, dirty := false), held, disk', latest);
        disk := disk';
        bufs := bufs[b := x.(valid := true, dirty := false)];
      } else {
        var y := x.(valid := true, data := At(disk, KeyOf(x)));
        UpdateKeeps(bufs, held, disk, latest, b, y, held, disk, latest);
        bufs := bufs[b := y];
      }
      return true;
    }

    /** bread once bget has the lock: the buffer holds the content last stored in its block. */
    method Bread(b: int) returns (ok: bool)
      requires Valid() && b in held
      modifies this`bufs, this`disk
      ensures Valid() && disk == old(disk)
      ensures ok <==> old(bufs)[b].valid || (old(bufs)[b].dev == DISK && old(bufs)[b].block < disksize)
      ensures ok ==> bufs == old(bufs)[b := old(bufs)[b].(valid := true, data := bufs[b].data)]
      ensures ok ==> bufs[b].data == At(latest, KeyOf(bufs[b]))
    {
      assert CoherentBuf(bufs[b], true, disk, latest);
      ok := true;
      if !bufs[b].valid { ok := Iderw(b); }
    }

    /** The lock's owner changes the buffer's bytes. */
    method Store(b: int, data: Data)
      requires Valid() && b in held && bufs[b].valid
      modifies this`bufs, this`latest
      ensures Valid() && bufs == old(bufs)[b := old(bufs)[b].(data := data)]
      ensures latest == old(latest)[KeyOf(bufs[b]) := data]
    {
      assert CoherentBuf(bufs[b], true, disk, latest);
      ghost var latest' := latest[KeyOf(bufs[b]) := data];
      UpdateKeeps(bufs, held, disk, latest, b, bufs[b].(data := data), held, disk, latest');
      bufs := bufs[b := bufs[b].(data := data)];
      latest := latest';
    }

    /** log_write's mark: the buffer stays until it is written. */
    method Pin(b: int)
      requires Valid() && b in held && bufs[b].valid
      modifies this`bufs
      ensures Valid() && bufs == old(bufs)[b := old(bufs)[b].(dirty := true)]
    {
      assert CoherentBuf(bufs[b], true, disk, latest);
      UpdateKeeps(bufs, held, disk, latest, b, bufs[b].(dirty := true), held, disk, latest);
      bufs := bufs[b := bufs[b].(dirty := true)];
    }

    method Bwrite(b: int) returns (ok: bool)
      requires Valid() && b in held && bufs[b].valid
      modifies this`bufs, this`disk
      ensures Valid() && (ok <==> bufs[b].block < disksize)
      ensures ok ==> At(disk, KeyOf(bufs[b])) == At(latest, KeyOf(bufs[b])) == bufs[b].data
      ensures bufs == old(bufs)[b := old(bufs)[b].(dirty := !ok)]
      ensures forall k: Key :: k != KeyOf(bufs[b]) ==> At(disk, k) == At(old(disk), k)
    {
      assert CoherentBuf(bufs[b], true, disk, latest);
      Pin(b);
      ok := Iderw(b);
    }

    /** brelse up to releasesleep: the owner has written what it changed, or marked it. */
    ghost method ReleaseLock(b: int)
      requires Valid() && b in held && bufs[b].valid
      requires bufs[b].dirty || At(disk, KeyOf(bufs[b])) == bufs[b].data
      modifies this`held, this`leaving
      ensures Valid() && held == old(held) - {b} && leaving == old(leaving)[b := old(leaving)[b] + 1]
    {
      assert CoherentBuf(bufs[b], true, disk, latest);
      assert bufs == bufs[b := bufs[b]];
      UpdateKeeps(bufs, held, disk, latest, b, bufs[b], held - {b}, disk, latest);
      held := held - {b};
      leaving := leaving[b := leaving[b] + 1];
    }

    /** The rest of brelse, under bcache.lock: a buffer nobody refers to any more goes first in the list. */
    method Unreference(b: int)
      requires Valid() && 0 <= b < nbuf && leaving[b] > 0
      modifies this`bufs, this`leaving, this`next, this`prev, this`ring
      ensures Valid() && leaving == old(leaving)[b := old(leaving)[b] - 1]
      ensures bufs == old(bufs)[b := old(bufs)[b].(refcnt := old(bufs)[b].refcnt - 1)]
      ensures bufs[b].refcnt == 0 ==>
        exists k :: 1 <= k <= nbuf && old(ring)[k] == b && ring == [nbuf, b] + old(ring)[1..k] + old(ring)[k + 1..]
      ensures bufs[b].refcnt > 0 ==> ring == old(ring)
      ensures multiset(ring) == multiset(old(ring))
    {
      var x := bufs[b].(refcnt := bufs[b].refcnt - 1);
      CountKeeps(bufs, held, disk, latest, b, x);
      bufs := bufs[b := x];
      leaving := leaving[b := leaving[b] - 1];
      if x.refcnt == 0 { MoveToFront(b); }
    }

    method MoveToFront(b: int)
      requires Listed() && 0 <= b < nbuf
      modifies this`next, this`prev, this`ring
      ensures Listed() && multiset(ring) == multiset(old(ring))
      ensures exists k :: 1 <= k <= nbuf && old(ring)[k] == b && ring == [nbuf, b] + old(ring)[1..k] + old(ring)[k + 1..]
    {
      assert b in ring;
      ghost var k :| 0 <= k < |ring| && ring[k] == b;
      Neighbours(ring, next, prev, k);
      ghost var ring' := MoveFirst(ring, next, prev, k);
      Neighbours(ring, next, prev, 0);
      ghost var nx, pv := next, prev;
      var after, before := next[b], prev[b];
      prev := prev[after := before];
      next := next[before := after];
      var first := next[nbuf];
      next := next[b := first];
      prev := prev[b := nbuf];
      prev := prev[first := b];
      next := next[nbuf := b];
      assert (next, prev) == MovedFirst(nx, pv, nbuf, b);
      CompleteMoved(ring, ring', nbuf);
      ring := ring';
    }
  }

  lemma CountKeeps(bufs: seq<Buf>, held: set<int>, disk: map<Key, Data>, latest: map<Key, Data>, b: int, buf: Buf)
    requires Unique(bufs) && Coherent(bufs, held, disk, latest) && 0 <= b < |bufs| && buf == bufs[b].(refcnt := buf.refcnt)
    ensures Unique(bufs[b := buf]) && Coherent(bufs[b := buf], held, disk, latest)
  {
    var bufs' := bufs[b := buf];
    forall j | 0 <= j < |bufs'| ensures KeyOf(bufs'[j]) == KeyOf(bufs[j]) && CoherentBuf(bufs'[j], j in held, disk, latest) {
      assert CoherentBuf(bufs[j], j in held, disk, latest);
    }
    forall q: Key | q.0 != 0 && !Cached(bufs', q) ensures At(disk, q) == At(latest, q) {
      if Cached(bufs, q) { StillCached(bufs, bufs', b, q); }
    }
  }

  lemma LockKeeps(bufs: seq<Buf>, held: set<int>, disk: map<Key, Data>, latest: map<Key, Data>, b: int)
    requires Coherent(bufs, held, disk, latest) && 0 <= b < |bufs|
    ensures Coherent(bufs, held + {b}, disk, latest)
  {
    forall j | 0 <= j < |bufs| ensures CoherentBuf(bufs[j], j in held + {b}, disk, latest) {
      assert CoherentBuf(bufs[j], j in held, disk, latest);
    }
  }
}
