/**
 * The free list of src/umalloc.c: a circular list of headers in address order. Addresses count
 * header-sized units; a block at a with size s covers units [a, a + s), its header first.
 */
module FreeRing {
  type Links = map<int, int>
  type Sizes = map<int, int>

  /** The headers of the ring, from `base` up in address order. */
  ghost predicate Sorted(fl: seq<int>) {
    forall i, j :: 0 <= i < j < |fl| ==> fl[i] < fl[j]
  }

  /** The index after i in a ring of n. */
  ghost function After(i: int, n: int): int { if i == n - 1 then 0 else i + 1 }

  ghost predicate LinkAt(fl: seq<int>, ptr: Links, i: int) {
    0 <= i < |fl| ==> fl[i] in ptr && ptr[fl[i]] == fl[After(i, |fl|)]
  }

  /** The links close the ring with a single wrap, at its highest header. */
  ghost predicate Linked(fl: seq<int>, ptr: Links) {
    forall i :: 0 <= i < |fl| ==> LinkAt(fl, ptr, i)
  }

  /** Free block i is not empty unless it is `base`, and ends before the next one starts. */
  ghost predicate SpaceAt(fl: seq<int>, size: Sizes, i: int) {
    && (0 <= i < |fl| ==> fl[i] in size && if i == 0 then size[fl[i]] == 0 else size[fl[i]] >= 1)
    && (0 <= i < |fl| - 1 ==> fl[i] + size[fl[i]] <= fl[i + 1])
  }

  ghost predicate Spaced(fl: seq<int>, size: Sizes) {
    forall i :: 0 <= i < |fl| ==> SpaceAt(fl, size, i)
  }

  /** Free block i does not touch the next one. */
  ghost predicate ApartAt(fl: seq<int>, size: Sizes, i: int) {
    0 <= i < |fl| - 1 && fl[i] in size ==> fl[i] + size[fl[i]] != fl[i + 1]
  }

  ghost predicate Apart(fl: seq<int>, size: Sizes, except: set<int>) {
    forall i :: 0 <= i < |fl| && i !in except ==> ApartAt(fl, size, i)
  }

  /** A ring that may still hold blocks to be merged. */
  ghost predicate LooseRing(base: int, fl: seq<int>, ptr: Links, size: Sizes) {
    |fl| > 0 && fl[0] == base && Sorted(fl) && Linked(fl, ptr) && Spaced(fl, size)
  }

  ghost predicate Ring(base: int, fl: seq<int>, ptr: Links, size: Sizes) {
    LooseRing(base, fl, ptr, size) && Apart(fl, size, {})
  }

  ghost predicate InBlock(a: int, s: int, u: int) { a <= u < a + s }

  ghost predicate InFree(fl: seq<int>, size: Sizes, u: int) {
    exists i :: 0 <= i < |fl| && fl[i] in size && InBlock(fl[i], size[fl[i]], u)
  }

  ghost predicate InLive(live: Sizes, u: int) {
    exists a :: a in live && InBlock(a, live[a], u)
  }

  /** Free and live blocks partition the arena, and live blocks do not overlap. */
  ghost predicate Partition(base: int, fl: seq<int>, size: Sizes, live: Sizes, arena: set<int>) {
    && (forall u :: u in arena ==> base < u)
    && (forall u :: u in arena <==> InFree(fl, size, u) || InLive(live, u))
    && (forall u :: !(InFree(fl, size, u) && InLive(live, u)))
    && (forall a :: a in live ==> live[a] >= 1 && a in size && size[a] == live[a])
    && (forall a, b :: a in live && b in live && a < b ==> a + live[a] <= b)
  }

  ghost predicate Heap(base: int, fl: seq<int>, ptr: Links, size: Sizes, live: Sizes, arena: set<int>) {
    Ring(base, fl, ptr, size) && Partition(base, fl, size, live, arena)
  }

  // ----- Where a block belongs -----

  /** fl[g] is the last header below bp. */
  ghost predicate Gap(fl: seq<int>, g: nat, bp: int) {
    g < |fl| && fl[g] < bp && (g + 1 < |fl| ==> bp < fl[g + 1])
  }

  lemma {:induction false} FindGap(fl: seq<int>, bp: int, n: nat) returns (g: nat)
    requires Sorted(fl) && 0 < n <= |fl| && fl[0] < bp && bp !in fl && (n < |fl| ==> bp < fl[n])
    ensures Gap(fl, g, bp)
  {
    if fl[n - 1] < bp { g := n - 1; } else { g := FindGap(fl, bp, n - 1); }
  }

  lemma LiveUnit(live: Sizes, a: int, u: int)
    requires a in live && a <= u < a + live[a]
    ensures InLive(live, u)
  {
    assert InBlock(a, live[a], u);
  }

  /** A live block lies strictly between its neighbours in the ring. */
  lemma LiveFits(base: int, fl: seq<int>, ptr: Links, size: Sizes, live: Sizes, arena: set<int>, bp: int)
    requires Heap(base, fl, ptr, size, live, arena) && bp in live
    ensures base < bp && bp !in fl
    ensures forall i :: 0 <= i < |fl| && fl[i] < bp ==> fl[i] in size && fl[i] + size[fl[i]] <= bp
    ensures forall i :: 0 <= i < |fl| && bp < fl[i] ==> bp + live[bp] <= fl[i]
  {
    assert InBlock(bp, live[bp], bp);
    assert InLive(live, bp) && bp in arena;
    forall i | 0 <= i < |fl| && fl[i] < bp ensures fl[i] in size && fl[i] + size[fl[i]] <= bp {
      assert SpaceAt(fl, size, i);
      if bp < fl[i] + size[fl[i]] {
        assert InBlock(fl[i], size[fl[i]], bp);
        assert InFree(fl, size, bp);
      }
    }
    forall i | 0 <= i < |fl| && bp <= fl[i] ensures bp + live[bp] <= fl[i] {
      assert i > 0 && SpaceAt(fl, size, i);
      assert InBlock(fl[i], size[fl[i]], fl[i]);
      assert InFree(fl, size, fl[i]);
      if fl[i] < bp + live[bp] { LiveUnit(live, bp, fl[i]); }
    }
  }

  // ----- Inserting and merging -----

  /** fl' is fl with bp after index g. */
  ghost predicate InsertedAt(fl: seq<int>, fl': seq<int>, g: nat, bp: int) {
    && g < |fl| && |fl'| == |fl| + 1 && fl'[g + 1] == bp
    && (forall i :: 0 <= i <= g ==> fl'[i] == fl[i])
    && (forall i {:trigger fl'[i]} :: g + 1 < i < |fl'| ==> fl'[i] == fl[i - 1])
  }

  /** fl' is fl without index k. */
  ghost predicate RemovedAt(fl: seq<int>, fl': seq<int>, k: nat) {
    && k < |fl| && |fl'| == |fl| - 1
    && (forall i :: 0 <= i < k ==> fl'[i] == fl[i])
    && (forall i {:trigger fl'[i]} :: k <= i < |fl'| ==> fl'[i] == fl[i + 1])
  }

  lemma InsertRing(base: int, fl: seq<int>, fl': seq<int>, ptr: Links, size: Sizes, g: nat, bp: int)
    requires Ring(base, fl, ptr, size) && Gap(fl, g, bp) && bp in size && size[bp] >= 1
    requires fl[g] in size && fl[g] + size[fl[g]] <= bp && (g + 1 < |fl| ==> bp + size[bp] <= fl[g + 1])
    requires InsertedAt(fl, fl', g, bp) && fl[g] in ptr
    ensures LooseRing(base, fl', ptr[bp := ptr[fl[g]]][fl[g] := bp], size) && Apart(fl', size, {g, g + 1})
  {
    var ptr' := ptr[bp := ptr[fl[g]]][fl[g] := bp];
    assert Sorted(fl');
    forall i | 0 <= i < |fl'|
      ensures LinkAt(fl', ptr', i) && SpaceAt(fl', size, i)
      ensures i != g && i != g + 1 ==> ApartAt(fl', size, i)
    {
      InsertNode(fl, fl', ptr, size, g, bp, i);
    }
  }

  lemma InsertNode(fl: seq<int>, fl': seq<int>, ptr: Links, size: Sizes, g: nat, bp: int, i: int)
    requires Sorted(fl) && Linked(fl, ptr) && Spaced(fl, size) && Apart(fl, size, {})
    requires Gap(fl, g, bp) && bp in size && size[bp] >= 1
    requires fl[g] in size && fl[g] + size[fl[g]] <= bp && (g + 1 < |fl| ==> bp + size[bp] <= fl[g + 1])
    requires InsertedAt(fl, fl', g, bp) && 0 <= i < |fl'| && fl[g] in ptr
    ensures LinkAt(fl', ptr[bp := ptr[fl[g]]][fl[g] := bp], i) && SpaceAt(fl', size, i)
    ensures i != g && i != g + 1 ==> ApartAt(fl', size, i)
  {
    var j := if i <= g then i else i - 1;
    assert LinkAt(fl, ptr, j) && SpaceAt(fl, size, j) && ApartAt(fl, size, j);
  }

  lemma InsertUnits(fl: seq<int>, fl': seq<int>, size: Sizes, g: nat, bp: int, u: int)
    requires InsertedAt(fl, fl', g, bp) && bp in size
    ensures InFree(fl', size, u) <==> InFree(fl, size, u) || InBlock(bp, size[bp], u)
  {
    if InFree(fl, size, u) {
      var i :| 0 <= i < |fl| && fl[i] in size && InBlock(fl[i], size[fl[i]], u);
      assert fl'[if i <= g then i else i + 1] == fl[i];
    }
    if InFree(fl', size, u) {
      var i :| 0 <= i < |fl'| && fl'[i] in size && InBlock(fl'[i], size[fl'[i]], u);
      if i != g + 1 { assert fl[if i <= g then i else i - 1] == fl'[i]; }
    }
  }

  /** Block k swallows the one after it, which it touches. */
  ghost predicate Touching(base: int, fl: seq<int>, ptr: Links, size: Sizes, k: nat) {
    && LooseRing(base, fl, ptr, size) && 0 < k && k + 1 < |fl|
    && LinkAt(fl, ptr, k) && LinkAt(fl, ptr, k + 1) && SpaceAt(fl, size, k) && SpaceAt(fl, size, k + 1)
    && fl[k] + size[fl[k]] == fl[k + 1]
  }

  lemma MergeNode(base: int, fl: seq<int>, fl': seq<int>, ptr: Links, size: Sizes, k: nat, i: int)
    requires Touching(base, fl, ptr, size, k) && RemovedAt(fl, fl', k + 1) && 0 <= i < |fl'|
    ensures var size' := size[fl[k] := size[fl[k]] + size[fl[k + 1]]];
      && LinkAt(fl', ptr[fl[k] := ptr[fl[k + 1]]], i) && SpaceAt(fl', size', i)
      && (ApartAt(fl, size, if i < k then i else i + 1) ==> ApartAt(fl', size', i))
  {
    var j := if i < k then i else i + 1;
    assert LinkAt(fl, ptr, j) && SpaceAt(fl, size, j) && SpaceAt(fl, size, k);
  }

  lemma MergeRing(base: int, fl: seq<int>, fl': seq<int>, ptr: Links, size: Sizes, ptr': Links, size': Sizes, k: nat, except: set<int>)
    requires Touching(base, fl, ptr, size, k) && RemovedAt(fl, fl', k + 1)
    requires Apart(fl, size, except) && forall i :: i in except ==> i <= k
    requires ptr' == ptr[fl[k] := ptr[fl[k + 1]]] && size' == size[fl[k] := size[fl[k]] + size[fl[k + 1]]]
    ensures LooseRing(base, fl', ptr', size') && Apart(fl', size', except - {k})
  {
    assert Sorted(fl');
    forall i | 0 <= i < |fl'|
      ensures LinkAt(fl', ptr', i) && SpaceAt(fl', size', i) && (i !in except - {k} ==> ApartAt(fl', size', i))
    {
      MergeNode(base, fl, fl', ptr, size, k, i);
    }
  }

  lemma MergeUnits(base: int, fl: seq<int>, fl': seq<int>, ptr: Links, size: Sizes, k: nat, u: int)
    requires Touching(base, fl, ptr, size, k) && RemovedAt(fl, fl', k + 1)
    ensures InFree(fl', size[fl[k] := size[fl[k]] + size[fl[k + 1]]], u) <==> InFree(fl, size, u)
  {
    var size' := size[fl[k] := size[fl[k]] + size[fl[k + 1]]];
    if InFree(fl, size, u) {
      var i :| 0 <= i < |fl| && fl[i] in size && InBlock(fl[i], size[fl[i]], u);
      if i == k || i == k + 1 {
        assert InBlock(fl'[k], size'[fl'[k]], u);
      } else {
        assert fl'[if i < k then i else i - 1] == fl[i];
      }
    }
    if InFree(fl', size', u) {
      var i :| 0 <= i < |fl'| && fl'[i] in size' && InBlock(fl'[i], size'[fl'[i]], u);
      if i == k {
        assert InBlock(fl[k], size[fl[k]], u) || InBlock(fl[k + 1], size[fl[k + 1]], u);
      } else {
        assert fl[if i < k then i else i + 1] == fl'[i];
      }
    }
  }

  // ----- free -----

  ghost function Inserted(fl: seq<int>, g: nat, bp: int): (r: seq<int>)
    requires g < |fl|
    ensures InsertedAt(fl, r, g, bp)
  {
    fl[..g + 1] + [bp] + fl[g + 1..]
  }

  ghost function Removed(fl: seq<int>, k: nat): (r: seq<int>)
    requires k < |fl|
    ensures RemovedAt(fl, r, k)
  {
    fl[..k] + fl[k + 1..]
  }

  /** bp takes over its right neighbour nx, or links to it. */
  function JoinNext(ptr: Links, size: Sizes, bp: int, nx: int): (Links, Sizes)
    requires bp in size && nx in size && nx in ptr
  {
    if bp + size[bp] == nx then (ptr[bp := ptr[nx]], size[bp := size[bp] + size[nx]]) else (ptr[bp := nx], size)
  }

  /** p takes over its right neighbour bp, or links to it. */
  function JoinPrev(ptr: Links, size: Sizes, p: int, bp: int): (Links, Sizes)
    requires p in size && bp in size && bp in ptr
  {
    if p + size[p] == bp then (ptr[p := ptr[bp]], size[p := size[p] + size[bp]]) else (ptr[p := bp], size)
  }

  /** Some free block has n units or more. */
  ghost predicate HasFit(fl: seq<int>, size: Sizes, n: int) {
    exists k :: 0 <= k < |fl| && fl[k] in size && size[fl[k]] >= n
  }

  /** The same ring units, in a ring with fewer contacts left to merge. */
  ghost predicate SameUnits(fl: seq<int>, size: Sizes, fl': seq<int>, size': Sizes) {
    forall u :: InFree(fl, size, u) <==> InFree(fl', size', u)
  }

  lemma {:induction false} MergeBoth(base: int, fl: seq<int>, ptr: Links, size: Sizes, k: nat, except: set<int>)
      returns (fl': seq<int>, ptr': Links, size': Sizes)
    requires LooseRing(base, fl, ptr, size) && Apart(fl, size, except) && forall i :: i in except ==> i <= k
    requires 0 <= k < |fl| && fl[k] in size && (k == 0 ==> 1 < |fl|)
    requires fl[After(k, |fl|)] in size && fl[After(k, |fl|)] in ptr && (k == |fl| - 1 ==> size[fl[k]] >= 1)
    ensures LooseRing(base, fl', ptr', size') && Apart(fl', size', except - {k}) && SameUnits(fl, size, fl', size')
    ensures |fl'| > k && fl'[..k + 1] == fl[..k + 1]
    ensures var nx := fl[After(k, |fl|)];
            if fl[k] + size[fl[k]] == nx
            then ptr' == ptr[fl[k] := ptr[nx]] && size' == size[fl[k] := size[fl[k]] + size[nx]]
            else ptr' == ptr && size' == size && fl' == fl
  {
    var nx := fl[After(k, |fl|)];
    assert LinkAt(fl, ptr, k) && SpaceAt(fl, size, k);
    if fl[k] + size[fl[k]] == nx {
      assert k + 1 < |fl|;
      assert LinkAt(fl, ptr, k + 1) && SpaceAt(fl, size, k + 1);
      fl', ptr', size' := Removed(fl, k + 1), ptr[fl[k] := ptr[nx]], size[fl[k] := size[fl[k]] + size[nx]];
      MergeRing(base, fl, fl', ptr, size, ptr', size', k, except);
      forall u ensures InFree(fl, size, u) <==> InFree(fl', size', u) { MergeUnits(base, fl, fl', ptr, size, k, u); }
    } else {
      fl', ptr', size' := fl, ptr, size;
    }
  }

  /** bp sits after index g, joined to its right neighbour if they touch. */
  lemma JoinedNext(base: int, fl: seq<int>, ptr: Links, size: Sizes, g: nat, bp: int, ptr1: Links, size1: Sizes)
      returns (fl': seq<int>)
    requires Ring(base, fl, ptr, size) && Gap(fl, g, bp) && bp in size && size[bp] >= 1
    requires fl[g] in size && fl[g] in ptr && ptr[fl[g]] in size && ptr[fl[g]] in ptr
    requires fl[g] + size[fl[g]] <= bp && (g + 1 < |fl| ==> bp + size[bp] <= fl[g + 1])
    requires (ptr1, size1) == JoinNext(ptr, size, bp, ptr[fl[g]])
    ensures LooseRing(base, fl', ptr1[fl[g] := bp], size1) && Apart(fl', size1, {g})
    ensures SameUnits(Inserted(fl, g, bp), size, fl', size1)
    ensures g + 1 < |fl'| && fl'[g] == fl[g] && fl'[g + 1] == bp && bp in size1 && size1[bp] >= size[bp]
  {
    InsertRing(base, fl, Inserted(fl, g, bp), ptr, size, g, bp);
    NextOfInserted(base, fl, ptr, size, g, bp);
    fl' := MergedNext(base, Inserted(fl, g, bp), ptr, size, g, fl[g], bp, ptr[fl[g]], ptr1, size1);
  }

  /** The block after bp, once bp is in, is the one after fl[g]. */
  lemma NextOfInserted(base: int, fl: seq<int>, ptr: Links, size: Sizes, g: nat, bp: int)
    requires Ring(base, fl, ptr, size) && g < |fl| && fl[g] in ptr && ptr[fl[g]] in size
    ensures var flI := Inserted(fl, g, bp); flI[After(g + 1, |flI|)] == ptr[fl[g]] && flI[g] == fl[g] && flI[g + 1] == bp
    ensures size[ptr[fl[g]]] >= 0
  {
    assert LinkAt(fl, ptr, g) && SpaceAt(fl, size, After(g, |fl|));
  }

  lemma MergedNext(base: int, flI: seq<int>, ptr: Links, size: Sizes, g: nat, p: int, bp: int, nx: int, ptr1: Links, size1: Sizes)
      returns (fl': seq<int>)
    requires LooseRing(base, flI, ptr[bp := nx][p := bp], size) && Apart(flI, size, {g, g + 1})
    requires g + 1 < |flI| && flI[g] == p && flI[g + 1] == bp && flI[After(g + 1, |flI|)] == nx
    requires bp in size && size[bp] >= 1 && nx in size && size[nx] >= 0 && nx in ptr && p != bp
    requires (ptr1, size1) == JoinNext(ptr, size, bp, nx)
    ensures LooseRing(base, fl', ptr1[p := bp], size1) && Apart(fl', size1, {g}) && SameUnits(flI, size, fl', size1)
    ensures g + 1 < |fl'| && fl'[g] == p && fl'[g + 1] == bp && bp in size1 && size1[bp] >= size[bp]
  {
    var ptrI := ptr[bp := nx][p := bp];
    var flM, ptrM, sizeM := MergeBoth(base, flI, ptrI, size, g + 1, {g, g + 1});
    assert bp + size[bp] == nx ==> nx != p && nx != bp;
    assert ptrM == ptr1[p := bp] && sizeM == size1;
    assert {g, g + 1} - {g + 1} == {g};
    assert flM[..g + 2][g] == flI[..g + 2][g] && flM[..g + 2][g + 1] == flI[..g + 2][g + 1];
    fl' := flM;
  }

  /** What both joins leave, from a ring with bp put in after index g. */
  lemma JoinedBoth(base: int, fl: seq<int>, ptr: Links, size: Sizes, g: nat, p: int, bp: int, ptr2: Links, size2: Sizes)
      returns (fl': seq<int>)
    requires LooseRing(base, fl, ptr[p := bp], size) && Apart(fl, size, {g})
    requires g + 1 < |fl| && fl[g] == p && fl[g + 1] == bp && p in size && bp in size && bp in ptr
    requires (ptr2, size2) == JoinPrev(ptr, size, p, bp)
    ensures Ring(base, fl', ptr2, size2) && SameUnits(fl, size, fl', size2) && g < |fl'| && fl'[g] == p
    ensures HasFit(fl', size2, size[bp])
  {
    var ptrM := ptr[p := bp];
    var flR, ptrR, sizeR := MergeBoth(base, fl, ptrM, size, g, {g});
    assert ptrR == ptr2 && sizeR == size2;
    assert {g} - {g} == {};
    assert flR[..g + 1][g] == fl[..g + 1][g];
    assert SpaceAt(fl, size, g);
    assert if p + size[p] == bp then size2[flR[g]] >= size[bp] else flR[g + 1] == bp;
    fl' := flR;
  }

  /** Freeing a live block keeps the heap's invariant: the block's units move to the free list. */
  lemma FreeKeeps(base: int, fl: seq<int>, ptr: Links, size: Sizes, live: Sizes, arena: set<int>, g: nat, bp: int)
      returns (fl': seq<int>)
    requires Heap(base, fl, ptr, size, live, arena) && bp in live && Gap(fl, g, bp)
    requires fl[g] in size && fl[g] in ptr && bp in size && ptr[fl[g]] in size && ptr[fl[g]] in ptr
    ensures var (ptr1, size1) := JoinNext(ptr, size, bp, ptr[fl[g]]);
            var (ptr2, size2) := JoinPrev(ptr1, size1, fl[g], bp);
            Heap(base, fl', ptr2, size2, live - {bp}, arena)
            && (forall u :: InFree(fl', size2, u) <==> InFree(fl, size, u) || InBlock(bp, live[bp], u))
            && g < |fl'| && fl'[g] == fl[g] && HasFit(fl', size2, live[bp])
  {
    LiveFits(base, fl, ptr, size, live, arena, bp);
    var (ptr1, size1) := JoinNext(ptr, size, bp, ptr[fl[g]]);
    var (ptr2, size2) := JoinPrev(ptr1, size1, fl[g], bp);
    var fl1 := JoinedNext(base, fl, ptr, size, g, bp, ptr1, size1);
    fl' := JoinedBoth(base, fl1, ptr1, size1, g, fl[g], bp, ptr2, size2);
    if fl[g] in live { LiveFits(base, fl, ptr, size, live, arena, fl[g]); }
    forall u ensures InFree(fl', size2, u) <==> InFree(fl, size, u) || InBlock(bp, live[bp], u) {
      InsertUnits(fl, Inserted(fl, g, bp), size, g, bp, u);
    }
    Release(base, fl, size, live, arena, bp, fl', size2);
  }

  lemma Release(base: int, fl: seq<int>, size: Sizes, live: Sizes, arena: set<int>, bp: int, fl': seq<int>, size': Sizes)
    requires Partition(base, fl, size, live, arena) && bp in live
    requires forall u :: InFree(fl', size', u) <==> InFree(fl, size, u) || InBlock(bp, live[bp], u)
    requires forall a :: a in live && a != bp ==> a in size' && size'[a] == size[a]
    ensures Partition(base, fl', size', live - {bp}, arena)
  {
    forall u ensures InLive(live, u) <==> InLive(live - {bp}, u) || InBlock(bp, live[bp], u) {
      if InLive(live, u) {
        var a :| a in live && InBlock(a, live[a], u);
        assert a != bp ==> a in live - {bp} && (live - {bp})[a] == live[a];
      }
      if InLive(live - {bp}, u) {
        var a :| a in live - {bp} && InBlock(a, (live - {bp})[a], u);
        assert InBlock(a, live[a], u);
      }
    }
    forall u ensures !(InLive(live - {bp}, u) && InBlock(bp, live[bp], u)) {
      if InLive(live - {bp}, u) {
        var a :| a in live - {bp} && InBlock(a, (live - {bp})[a], u);
        assert a in live && a != bp && (a < bp || bp < a);
      }
    }
  }

  // ----- morecore and malloc -----

  ghost predicate Unused(base: int, arena: set<int>, hp: int, nu: int) {
    base < hp && forall u :: InBlock(hp, nu, u) ==> u !in arena
  }

  ghost function Units(hp: int, nu: int): set<int> { set u | hp <= u < hp + nu && InBlock(hp, nu, u) }

  /** Memory just obtained is one more live block, which free() then puts in the ring. */
  lemma ObtainKeeps(base: int, fl: seq<int>, ptr: Links, size: Sizes, live: Sizes, arena: set<int>, hp: int, nu: int)
    requires Heap(base, fl, ptr, size, live, arena) && Unused(base, arena, hp, nu) && nu >= 1
    ensures Heap(base, fl, ptr, size[hp := nu], live[hp := nu], arena + Units(hp, nu))
    ensures hp !in live && hp !in fl
  {
    assert InBlock(hp, nu, hp);
    if hp in live { LiveUnit(live, hp, hp); }
    forall i | 0 <= i < |fl| ensures fl[i] != hp && SpaceAt(fl, size[hp := nu], i) && ApartAt(fl, size[hp := nu], i) {
      assert SpaceAt(fl, size, i) && ApartAt(fl, size, i);
      if i > 0 { assert InBlock(fl[i], size[fl[i]], fl[i]) && InFree(fl, size, fl[i]); }
    }
    Obtained(base, fl, size, live, arena, hp, nu);
  }

  lemma LiveGrows(live: Sizes, h: int, n: int, u: int)
    requires h !in live
    ensures InLive(live[h := n], u) <==> InLive(live, u) || InBlock(h, n, u)
  {
    if InLive(live, u) {
      var a :| a in live && InBlock(a, live[a], u);
      assert a in live[h := n] && live[h := n][a] == live[a];
    }
    if InLive(live[h := n], u) {
      var a :| a in live[h := n] && InBlock(a, live[h := n][a], u);
      assert a != h ==> a in live && InBlock(a, live[a], u);
    }
    if InBlock(h, n, u) { assert h in live[h := n] && InBlock(h, live[h := n][h], u); }
  }

  lemma Obtained(base: int, fl: seq<int>, size: Sizes, live: Sizes, arena: set<int>, hp: int, nu: int)
    requires Partition(base, fl, size, live, arena) && Unused(base, arena, hp, nu) && nu >= 1
    requires hp !in fl && hp !in live
    ensures Partition(base, fl, size[hp := nu], live[hp := nu], arena + Units(hp, nu))
  {
    forall u
      ensures InFree(fl, size[hp := nu], u) <==> InFree(fl, size, u)
      ensures InLive(live[hp := nu], u) <==> InLive(live, u) || InBlock(hp, nu, u)
      ensures u in arena + Units(hp, nu) <==> u in arena || InBlock(hp, nu, u)
    {
      SizeElsewhere(fl, size, hp, nu, u);
      LiveGrows(live, hp, nu, u);
    }
    forall a | a in live ensures a < hp ==> a + live[a] <= hp
      ensures hp < a ==> hp + nu <= a
    {
      if a < hp < a + live[a] { LiveUnit(live, a, hp); assert InBlock(hp, nu, hp); }
      LiveUnit(live, a, a);
      assert a in arena && !InBlock(hp, nu, a);
    }
    var size', live', arena' := size[hp := nu], live[hp := nu], arena + Units(hp, nu);
    assert forall u :: u in arena' ==> base < u;
    assert forall u :: u in arena' <==> InFree(fl, size', u) || InLive(live', u);
    assert forall u :: !(InFree(fl, size', u) && InLive(live', u));
    assert forall a :: a in live' ==> live'[a] >= 1 && a in size' && size'[a] == live'[a];
    assert forall a, b :: a in live' && b in live' && a < b ==> a + live'[a] <= b;
  }

  lemma SizeElsewhere(fl: seq<int>, size: Sizes, h: int, n: int, u: int)
    requires h !in fl
    ensures InFree(fl, size[h := n], u) <==> InFree(fl, size, u)
  {
    if InFree(fl, size, u) {
      var i :| 0 <= i < |fl| && fl[i] in size && InBlock(fl[i], size[fl[i]], u);
      assert InBlock(fl[i], size[h := n][fl[i]], u);
    }
    if InFree(fl, size[h := n], u) {
      var i :| 0 <= i < |fl| && fl[i] in size[h := n] && InBlock(fl[i], size[h := n][fl[i]], u);
      assert fl[i] in size && InBlock(fl[i], size[fl[i]], u);
    }
  }

  /** Units move from the free blocks to a new live block. */
  lemma Claim(base: int, fl: seq<int>, size: Sizes, live: Sizes, arena: set<int>, h: int, n: int, fl': seq<int>, size': Sizes)
    requires Partition(base, fl, size, live, arena) && n >= 1 && h !in live
    requires forall u :: InFree(fl, size, u) <==> InFree(fl', size', u) || InBlock(h, n, u)
    requires forall u :: !(InFree(fl', size', u) && InBlock(h, n, u))
    requires h in size' && size'[h] == n && forall a :: a in live ==> a in size' && size'[a] == size[a]
    ensures Partition(base, fl', size', live[h := n], arena)
  {
    forall u ensures InLive(live[h := n], u) <==> InLive(live, u) || InBlock(h, n, u) { LiveGrows(live, h, n, u); }
    forall a | a in live ensures a < h ==> a + live[a] <= h
      ensures h < a ==> h + n <= a
    {
      if a < h < a + live[a] { LiveUnit(live, a, h); assert InBlock(h, n, h); }
      LiveUnit(live, a, a);
      assert !InBlock(h, n, a);
    }
  }

  /** Exact fit: block k leaves the ring whole. */
  lemma TakeWhole(base: int, fl: seq<int>, ptr: Links, size: Sizes, live: Sizes, arena: set<int>, k: nat, ptr': Links)
    requires Heap(base, fl, ptr, size, live, arena) && 0 < k < |fl|
    requires fl[k] in ptr && fl[k] in size && ptr' == ptr[fl[k - 1] := ptr[fl[k]]]
    ensures Heap(base, Removed(fl, k), ptr', size, live[fl[k] := size[fl[k]]], arena) && fl[k] !in live
  {
    var fl' := Removed(fl, k);
    assert Sorted(fl');
    forall i | 0 <= i < |fl'| ensures LinkAt(fl', ptr', i) && SpaceAt(fl', size, i) && ApartAt(fl', size, i) {
      RemoveNode(fl, fl', ptr, size, k, i);
    }
    if fl[k] in live { LiveFits(base, fl, ptr, size, live, arena, fl[k]); }
    assert SpaceAt(fl, size, k);
    forall u
      ensures InFree(fl, size, u) <==> InFree(fl', size, u) || InBlock(fl[k], size[fl[k]], u)
      ensures !(InFree(fl', size, u) && InBlock(fl[k], size[fl[k]], u))
    {
      RemoveUnits(fl, fl', size, k, u);
    }
    Claim(base, fl, size, live, arena, fl[k], size[fl[k]], fl', size);
  }

  lemma RemoveNode(fl: seq<int>, fl': seq<int>, ptr: Links, size: Sizes, k: nat, i: int)
    requires Sorted(fl) && Linked(fl, ptr) && Spaced(fl, size) && Apart(fl, size, {}) && 0 < k < |fl|
    requires RemovedAt(fl, fl', k) && 0 <= i < |fl'| && fl[k] in ptr && fl[k] in size
    ensures LinkAt(fl', ptr[fl[k - 1] := ptr[fl[k]]], i) && SpaceAt(fl', size, i) && ApartAt(fl', size, i)
  {
    var j := if i < k then i else i + 1;
    assert LinkAt(fl, ptr, j) && SpaceAt(fl, size, j) && ApartAt(fl, size, j);
    assert LinkAt(fl, ptr, k) && SpaceAt(fl, size, k) && ApartAt(fl, size, k);
  }

  /** Blocks of a ring are disjoint. */
  lemma {:induction false} BlocksDisjoint(fl: seq<int>, size: Sizes, i: int, j: int)
    requires Sorted(fl) && Spaced(fl, size) && 0 <= i < j < |fl| && fl[i] in size
    ensures fl[i] + size[fl[i]] <= fl[j]
  {
    assert SpaceAt(fl, size, i);
  }

  lemma RemoveUnits(fl: seq<int>, fl': seq<int>, size: Sizes, k: nat, u: int)
    requires Sorted(fl) && Spaced(fl, size) && RemovedAt(fl, fl', k) && fl[k] in size
    ensures InFree(fl, size, u) <==> InFree(fl', size, u) || InBlock(fl[k], size[fl[k]], u)
    ensures !(InFree(fl', size, u) && InBlock(fl[k], size[fl[k]], u))
  {
    if InFree(fl', size, u) {
      var i :| 0 <= i < |fl'| && fl'[i] in size && InBlock(fl'[i], size[fl'[i]], u);
      var j := if i < k then i else i + 1;
      assert fl[j] == fl'[i];
      if j < k { BlocksDisjoint(fl, size, j, k); } else { BlocksDisjoint(fl, size, k, j); }
    }
    if InFree(fl, size, u) {
      var i :| 0 <= i < |fl| && fl[i] in size && InBlock(fl[i], size[fl[i]], u);
      if i != k { assert fl'[if i < k then i else i - 1] == fl[i]; }
    }
  }

  /** Larger block: its last n units leave, and the ring keeps its links. */
  lemma TakeTail(base: int, fl: seq<int>, ptr: Links, size: Sizes, live: Sizes, arena: set<int>, k: nat, n: int, h: int, size': Sizes)
    requires Heap(base, fl, ptr, size, live, arena) && 0 < k < |fl| && fl[k] in size && 1 <= n < size[fl[k]]
    requires h == fl[k] + size[fl[k]] - n && size' == size[fl[k] := size[fl[k]] - n][h := n]
    ensures Heap(base, fl, ptr, size', live[h := n], arena) && h !in live
  {
    forall i | 0 <= i < |fl|
      ensures fl[i] != h && SpaceAt(fl, size', i) && ApartAt(fl, size', i)
    {
      assert SpaceAt(fl, size, i) && ApartAt(fl, size, i) && SpaceAt(fl, size, k);
    }
    assert InBlock(fl[k], size[fl[k]], h) && InFree(fl, size, h);
    if h in live { LiveUnit(live, h, h); }
    if fl[k] in live { LiveFits(base, fl, ptr, size, live, arena, fl[k]); }
    forall u
      ensures InFree(fl, size, u) <==> InFree(fl, size', u) || InBlock(h, n, u)
      ensures !(InFree(fl, size', u) && InBlock(h, n, u))
    {
      TailUnits(fl, size, size', k, h, n, u);
    }
    Claim(base, fl, size, live, arena, h, n, fl, size');
  }

  lemma TailUnits(fl: seq<int>, size: Sizes, size': Sizes, k: nat, h: int, n: int, u: int)
    requires Sorted(fl) && Spaced(fl, size) && k < |fl| && fl[k] in size && 1 <= n < size[fl[k]]
    requires h == fl[k] + size[fl[k]] - n && size' == size[fl[k] := size[fl[k]] - n][h := n] && h !in fl
    ensures InFree(fl, size, u) <==> InFree(fl, size', u) || InBlock(h, n, u)
    ensures !(InFree(fl, size', u) && InBlock(h, n, u))
  {
    if InFree(fl, size', u) {
      var i :| 0 <= i < |fl| && fl[i] in size' && InBlock(fl[i], size'[fl[i]], u);
      assert fl[i] in size && InBlock(fl[i], size[fl[i]], u);
      if i < k { BlocksDisjoint(fl, size, i, k); } else if k < i { BlocksDisjoint(fl, size, k, i); }
    }
    if InFree(fl, size, u) {
      var i :| 0 <= i < |fl| && fl[i] in size && InBlock(fl[i], size[fl[i]], u);
      assert i != k ==> InBlock(fl[i], size'[fl[i]], u);
      assert i == k && !InBlock(h, n, u) ==> InBlock(fl[k], size'[fl[k]], u);
    }
    if InBlock(h, n, u) { assert InBlock(fl[k], size[fl[k]], u); }
  }

  // ----- The ring is determined by the free units -----

  ghost predicate SamePrefix(fl: seq<int>, size: Sizes, fl': seq<int>, size': Sizes, m: nat) {
    && m <= |fl| && m <= |fl'|
    && forall i :: 0 <= i < m ==> fl[i] == fl'[i] && fl[i] in size && fl[i] in size' && size[fl[i]] == size'[fl[i]]
  }

  /** A block of the first ring starts no earlier than the second ring's block at that index. */
  lemma NoEarlier(fl: seq<int>, size: Sizes, fl': seq<int>, size': Sizes, m: nat)
    requires Sorted(fl) && Spaced(fl, size) && Sorted(fl') && Spaced(fl', size') && SameUnits(fl, size, fl', size')
    requires 0 < m < |fl| && SamePrefix(fl, size, fl', size', m)
    ensures m < |fl'| && fl'[m] <= fl[m]
  {
    assert SpaceAt(fl, size, m) && InBlock(fl[m], size[fl[m]], fl[m]);
    assert InFree(fl, size, fl[m]);
    assert InFree(fl', size', fl[m]);
    var j :| 0 <= j < |fl'| && fl'[j] in size' && InBlock(fl'[j], size'[fl'[j]], fl[m]);
    if j < m { BlocksDisjoint(fl, size, j, m); }
  }

  /** Blocks that start together end together, since the unit after a block is not free. */
  lemma NoLonger(fl: seq<int>, size: Sizes, fl': seq<int>, size': Sizes, m: nat)
    requires Sorted(fl) && Spaced(fl, size) && Apart(fl, size, {}) && Spaced(fl', size') && SameUnits(fl, size, fl', size')
    requires m < |fl| && m < |fl'| && fl[m] == fl'[m] && fl[m] in size && fl[m] in size'
    ensures size'[fl[m]] <= size[fl[m]]
  {
    assert SpaceAt(fl, size, m) && ApartAt(fl, size, m);
    var u := fl[m] + size[fl[m]];
    if size'[fl[m]] > size[fl[m]] {
      assert InBlock(fl'[m], size'[fl'[m]], u) && InFree(fl', size', u) && InFree(fl, size, u);
      var j :| 0 <= j < |fl| && fl[j] in size && InBlock(fl[j], size[fl[j]], u);
      if j < m { BlocksDisjoint(fl, size, j, m); }
    }
  }

  lemma {:induction false} CanonicalPrefix(base: int, fl: seq<int>, ptr: Links, size: Sizes, fl': seq<int>, ptr': Links, size': Sizes, m: nat)
    requires Ring(base, fl, ptr, size) && Ring(base, fl', ptr', size') && SameUnits(fl, size, fl', size') && m <= |fl|
    ensures SamePrefix(fl, size, fl', size', m)
  {
    if m == 1 {
      assert SpaceAt(fl, size, 0) && SpaceAt(fl', size', 0);
    } else if m > 1 {
      CanonicalPrefix(base, fl, ptr, size, fl', ptr', size', m - 1);
      NoEarlier(fl, size, fl', size', m - 1);
      assert SamePrefix(fl', size', fl, size, m - 1);
      NoEarlier(fl', size', fl, size, m - 1);
      assert SpaceAt(fl, size, m - 1) && SpaceAt(fl', size', m - 1);
      NoLonger(fl, size, fl', size', m - 1);
      NoLonger(fl', size', fl, size, m - 1);
    }
  }

  /** Two heaps with the same memory and the same live blocks have the same free list, link for link. */
  lemma Canonical(base: int, fl: seq<int>, ptr: Links, size: Sizes, fl': seq<int>, ptr': Links, size': Sizes, live: Sizes, arena: set<int>)
    requires Heap(base, fl, ptr, size, live, arena) && Heap(base, fl', ptr', size', live, arena)
    ensures fl == fl'
    ensures forall i :: 0 <= i < |fl| ==>
      && fl[i] in size && fl[i] in size' && size[fl[i]] == size'[fl[i]]
      && fl[i] in ptr && fl[i] in ptr' && ptr[fl[i]] == ptr'[fl[i]]
  {
    assert SameUnits(fl, size, fl', size') && SameUnits(fl', size', fl, size);
    CanonicalPrefix(base, fl, ptr, size, fl', ptr', size', |fl|);
    CanonicalPrefix(base, fl', ptr', size', fl, ptr, size, |fl'|);
    assert fl == fl';
    forall i | 0 <= i < |fl| ensures fl[i] in ptr && fl[i] in ptr' && ptr[fl[i]] == ptr'[fl[i]] {
      assert LinkAt(fl, ptr, i) && LinkAt(fl', ptr', i);
    }
  }
}
