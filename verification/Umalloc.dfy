/** The user heap of src/umalloc.c: malloc, free and morecore over one ring of free blocks. */
module Umalloc {
  import opened FreeRing

  /** sbrk's answer: no memory, or the address of the new memory. */
  datatype Grant = Failed | At(hp: int)

  const HEADER := 16
  const CORE := 4096

  /** The fewest units that hold a header and nbytes bytes. */
  function UnitsFor(nbytes: nat): (n: nat)
    ensures (n - 1) * HEADER >= nbytes && (n - 2) * HEADER < nbytes
  {
    (nbytes + HEADER - 1) / HEADER + 1
  }

  /** What morecore asks sbrk for: what is wanted, and at least 4096 units. */
  function CoreUnits(nu: nat): (n: nat)
    ensures n >= nu && n >= 4096 && (n == nu || n == 4096)
  {
    if nu < CORE then CORE else nu
  }

  /** Steps along a ring of n from index i to index s. */
  ghost function Distance(i: int, s: int, n: int): int { if i <= s then s - i else s - i + n }

  /** free()'s loop stops exactly in the gap where bp belongs. */
  lemma StopsInGap(base: int, fl: seq<int>, ptr: Links, size: Sizes, bp: int, g: nat, i: nat)
    requires LooseRing(base, fl, ptr, size) && Gap(fl, g, bp) && i < |fl| && fl[i] in ptr && bp !in fl
    ensures var p, nx := fl[i], ptr[fl[i]];
            (bp > p && bp < nx) || (p >= nx && (bp > p || bp < nx)) <==> i == g
  {
    assert LinkAt(fl, ptr, i);
    if i < g { assert fl[i] < fl[i + 1] <= fl[g]; }
  }

  /** The blocks from just after index s up to index i, exclusive, are too small. */
  ghost predicate Scanned(fl: seq<int>, size: Sizes, n: int, s: int, i: int) {
    forall k {:trigger fl[k]} :: 0 <= k < |fl| && Distance(k, s, |fl|) > Distance(i, s, |fl|) ==> fl[k] in size && size[fl[k]] < n
  }

  lemma RingNode(base: int, fl: seq<int>, ptr: Links, size: Sizes, i: nat)
    requires LooseRing(base, fl, ptr, size) && i < |fl|
    ensures fl[i] in ptr && fl[i] in size && ptr[fl[i]] == fl[After(i, |fl|)] && ptr[fl[i]] in ptr && ptr[fl[i]] in size
    ensures size[fl[i]] >= 1 ==> 0 < i
  {
    assert LinkAt(fl, ptr, i) && SpaceAt(fl, size, i);
    assert LinkAt(fl, ptr, After(i, |fl|)) && SpaceAt(fl, size, After(i, |fl|));
  }

  /** malloc's scan stands at p, index i, having started after freep, index s. */
  ghost predicate Scan(fl: seq<int>, size: Sizes, n: int, freep: int, prevp: int, p: int, s: int, i: int) {
    && 0 <= s < |fl| && fl[s] == freep && 0 <= i < |fl| && fl[i] == p && (0 < i ==> prevp == fl[i - 1])
    && Scanned(fl, size, n, s, i)
  }

  lemma ScanStart(base: int, fl: seq<int>, ptr: Links, size: Sizes, n: int, freep: int) returns (s: int, i: int)
    requires LooseRing(base, fl, ptr, size) && freep in fl
    ensures freep in ptr && Scan(fl, size, n, freep, freep, ptr[freep], s, i)
  {
    s :| 0 <= s < |fl| && fl[s] == freep;
    RingNode(base, fl, ptr, size, s);
    i := After(s, |fl|);
  }

  lemma ScanNode(base: int, fl: seq<int>, ptr: Links, size: Sizes, n: int, freep: int, prevp: int, p: int, s: int, i: int)
    requires LooseRing(base, fl, ptr, size) && Scan(fl, size, n, freep, prevp, p, s, i) && n >= 1
    ensures p in ptr && p in size && (size[p] >= n ==> 0 < i && HasFit(fl, size, n))
    ensures size[p] < n && p != freep ==>
      && Scan(fl, size, n, freep, p, ptr[p], s, After(i, |fl|))
      && Distance(After(i, |fl|), s, |fl|) < Distance(i, s, |fl|)
    ensures size[p] < n && p == freep ==> !HasFit(fl, size, n)
  {
    RingNode(base, fl, ptr, size, i);
    if size[p] >= n { assert fl[i] in size; }
  }

  class Allocator {
    const base: int
    var ptr: Links
    var size: Sizes
    var freep: int
    /** The headers of the ring in address order. */
    ghost var fl: seq<int>
    /** Blocks handed out, by header address, with their sizes. */
    ghost var live: Sizes
    /** Every unit ever obtained from sbrk. */
    ghost var arena: set<int>
    /** Calls of morecore. */
    ghost var cores: nat

    ghost predicate Valid() reads this {
      base > 0 &&
      if freep == 0 then live == map[] && arena == {} else Heap(base, fl, ptr, size, live, arena) && freep in fl
    }

    ghost predicate Fits(nbytes: nat) reads this {
      freep != 0 && HasFit(fl, size, UnitsFor(nbytes))
    }

    constructor (base: int)
      requires base > 0
      ensures Valid() && live == map[] && arena == {} && cores == 0 && this.base == base && freep == 0
    {
      this.base := base;
      ptr, size, freep, fl, live, arena, cores := map[], map[], 0, [], map[], {}, 0;
    }

    /** The header after which bp belongs. */
    method FindPlace(bp: int) returns (p: int, ghost g: nat)
      requires Valid() && bp in live
      ensures Gap(fl, g, bp) && fl[g] == p
    {
      LiveFits(base, fl, ptr, size, live, arena, bp);
      g := FindGap(fl, bp, |fl|);
      ghost var i: nat :| i < |fl| && fl[i] == freep;
      p := freep;
      RingNode(base, fl, ptr, size, i);
      while !(bp > p && bp < ptr[p])
        invariant i < |fl| && fl[i] == p && p in ptr
        decreases Distance(i, g, |fl|)
      {
        if p >= ptr[p] && (bp > p || bp < ptr[p]) { break; }
        StopsInGap(base, fl, ptr, size, bp, g, i);
        RingNode(base, fl, ptr, size, i);
        p, i := ptr[p], After(i, |fl|);
      }
      StopsInGap(base, fl, ptr, size, bp, g, i);
    }

    method Splice(p: int, bp: int)
      requires p in ptr && p in size && bp in size && ptr[p] in ptr && ptr[p] in size && p != bp
      modifies this`ptr, this`size
      ensures var (ptr1, size1) := JoinNext(old(ptr), old(size), bp, old(ptr)[p]);
              (ptr, size) == JoinPrev(ptr1, size1, p, bp)
    {
      if bp + size[bp] == ptr[p] {
        size := size[bp := size[bp] + size[ptr[p]]];
        ptr := ptr[bp := ptr[ptr[p]]];
      } else {
        ptr := ptr[bp := ptr[p]];
      }
      if p + size[p] == bp {
        size := size[p := size[p] + size[bp]];
        ptr := ptr[p := ptr[bp]];
      } else {
        ptr := ptr[p := bp];
      }
    }

    method Free(bp: int)
      requires Valid() && bp in live
      modifies this
      ensures Valid() && freep != 0 && live == old(live) - {bp} && arena == old(arena) && cores == old(cores)
      ensures HasFit(fl, size, old(live)[bp])
    {
      var p, g := FindPlace(bp);
      RingNode(base, fl, ptr, size, g);
      ghost var fl' := FreeKeeps(base, fl, ptr, size, live, arena, g, bp);
      Splice(p, bp);
      freep := p;
      fl, live := fl', live - {bp};
    }

    method Morecore(nu: nat, grant: Grant) returns (p: int)
      requires Valid() && freep != 0 && nu >= 1
      requires grant.At? ==> Unused(base, arena, grant.hp, CoreUnits(nu))
      modifies this
      ensures Valid() && freep != 0 && live == old(live) && cores == old(cores) + 1
      ensures grant.Failed? ==> p == 0 && ptr == old(ptr) && size == old(size) && freep == old(freep) && fl == old(fl) && arena == old(arena)
      ensures grant.At? ==> p == freep && arena == old(arena) + Units(grant.hp, CoreUnits(nu)) && HasFit(fl, size, nu)
    {
      cores := cores + 1;
      match grant
      case Failed => p := 0;
      case At(hp) =>
        var n := CoreUnits(nu);
        ObtainKeeps(base, fl, ptr, size, live, arena, hp, n);
        size, live, arena := size[hp := n], live[hp := n], arena + Units(hp, n);
        Free(hp);
        assert live == old(live);
        p := freep;
    }

    /** The first call starts with a ring of one empty block. */
    method Init()
      requires Valid() && freep == 0
      modifies this`ptr, this`size, this`freep, this`fl
      ensures Valid() && freep == base && forall n :: n > 0 ==> !HasFit(fl, size, n)
    {
      ptr, size := ptr[base := base], size[base := 0];
      freep, fl := base, [base];
      assert LinkAt(fl, ptr, 0) && SpaceAt(fl, size, 0) && ApartAt(fl, size, 0);
      assert Heap(base, fl, ptr, size, live, arena);
    }

    /** Hands out n units of block p, the one at index k: all of it, or its tail. */
    method Take(prevp: int, p: int, n: nat, ghost k: nat) returns (r: int)
      requires Valid() && freep != 0 && 0 < k < |fl| && fl[k] == p && prevp == fl[k - 1]
      requires p in size && p in ptr && 1 <= n <= size[p]
      modifies this
      ensures Valid() && freep == prevp && arena == old(arena) && cores == old(cores)
      ensures r > 0 && r - 1 !in old(live) && live == old(live)[r - 1 := n]
      ensures InFree(old(fl), old(size), r - 1)
    {
      var h := p;
      if size[p] == n {
        TakeWhole(base, fl, ptr, size, live, arena, k, ptr[prevp := ptr[p]]);
        ptr := ptr[prevp := ptr[p]];
        fl := Removed(fl, k);
      } else {
        h := p + size[p] - n;
        TakeTail(base, fl, ptr, size, live, arena, k, n, h, size[p := size[p] - n][h := n]);
        size := size[p := size[p] - n][h := n];
      }
      freep, live := prevp, live[h := n];
      assert InBlock(old(fl)[k], old(size)[p], h);
      assert freep in fl;
      return h + 1;
    }

    /**
     * Asks for memory at most once, and only when no free block fits; fails only when that is refused.
     * A block handed out is new and holds nbytes; every other block stays as it was.
     */
    method Malloc(nbytes: nat, grant: Grant) returns (r: int)
      requires Valid() && (grant.At? ==> Unused(base, arena, grant.hp, CoreUnits(UnitsFor(nbytes))))
      modifies this
      ensures Valid() && freep != 0
      ensures cores == old(cores) + (if old(Fits(nbytes)) then 0 else 1)
      ensures if old(Fits(nbytes)) || grant.Failed? then arena == old(arena)
              else arena == old(arena) + Units(grant.hp, CoreUnits(UnitsFor(nbytes)))
      ensures r == 0 <==> !old(Fits(nbytes)) && grant.Failed?
      ensures r == 0 ==> live == old(live)
      ensures r != 0 ==> r - 1 !in old(live) && live == old(live)[r - 1 := UnitsFor(nbytes)]
    {
      var n := UnitsFor(nbytes);
      var prevp := freep;
      if prevp == 0 {
        Init();
        prevp := freep;
      }
      ghost var grown := false;
      ghost var s, i := ScanStart(base, fl, ptr, size, n, freep);
      var p := ptr[prevp];
      while true
        invariant Valid() && freep != 0 && Scan(fl, size, n, freep, prevp, p, s, i) && live == old(live)
        invariant cores == old(cores) + (if grown then 1 else 0)
        invariant if grown then grant.At? && !old(Fits(nbytes)) && HasFit(fl, size, n) else old(Fits(nbytes)) == HasFit(fl, size, n)
        invariant arena == if grown then old(arena) + Units(grant.hp, CoreUnits(n)) else old(arena)
        decreases if grown then 0 else 1, Distance(i, s, |fl|)
      {
        ScanNode(base, fl, ptr, size, n, freep, prevp, p, s, i);
        if size[p] >= n {
          r := Take(prevp, p, n, i);
          return;
        }
        if p == freep {
          p := Morecore(n, grant);
          if p == 0 { return 0; }
          grown := true;
          s, i := ScanStart(base, fl, ptr, size, n, freep);
        } else {
          i := After(i, |fl|);
        }
        prevp, p := p, ptr[p];
      }
    }

    /** When a free block fits, malloc followed by free gives back the same list of free blocks. */
    method MallocThenFree(nbytes: nat)
      requires Valid() && Fits(nbytes)
      modifies this
      ensures Valid() && fl == old(fl) && live == old(live) && arena == old(arena)
      ensures forall a :: a in fl ==> a in size && a in old(size) && size[a] == old(size)[a]
      ensures forall a :: a in fl ==> a in ptr && a in old(ptr) && ptr[a] == old(ptr)[a]
    {
      var r := Malloc(nbytes, Failed);
      Free(r - 1);
      assert live == old(live);
      Canonical(base, old(fl), old(ptr), old(size), fl, ptr, size, live, arena);
    }
  }
}
