/** The buffer cache's circular list, src/bio.c: every buffer and the head, linked both ways. */
module BufRing {
  type Links = map<int, int>

  ghost function After(i: int, n: int): int { if i == n - 1 then 0 else i + 1 }

  ghost predicate Distinct(ring: seq<int>) { forall i, j :: 0 <= i < j < |ring| ==> ring[i] != ring[j] }

  ghost predicate LinkAt(ring: seq<int>, next: Links, prev: Links, i: int) {
    0 <= i < |ring| ==>
      && ring[i] in next && next[ring[i]] == ring[After(i, |ring|)]
      && ring[After(i, |ring|)] in prev && prev[ring[After(i, |ring|)]] == ring[i]
  }

  /** next leads once around the ring and prev leads back. */
  ghost predicate Linked(ring: seq<int>, next: Links, prev: Links) {
    |ring| > 0 && Distinct(ring) && forall i :: 0 <= i < |ring| ==> LinkAt(ring, next, prev, i)
  }

  lemma Neighbours(ring: seq<int>, next: Links, prev: Links, i: int)
    requires Linked(ring, next, prev) && 0 <= i < |ring|
    ensures ring[i] in next && next[ring[i]] == ring[After(i, |ring|)]
    ensures ring[i] in prev && prev[ring[i]] == ring[if i == 0 then |ring| - 1 else i - 1]
  {
    assert LinkAt(ring, next, prev, i) && LinkAt(ring, next, prev, if i == 0 then |ring| - 1 else i - 1);
  }

  /** Buffer b = ring[k] leaves the ring. */
  lemma Unlink(ring: seq<int>, ring': seq<int>, next: Links, prev: Links, k: int, next': Links, prev': Links)
    requires Linked(ring, next, prev) && 0 < k < |ring| && ring' == ring[..k] + ring[k + 1..]
    requires ring[k] in next && ring[k] in prev
    requires next' == next[prev[ring[k]] := next[ring[k]]] && prev' == prev[next[ring[k]] := prev[ring[k]]]
    ensures Linked(ring', next', prev') && ring[k] !in ring' && ring'[0] == ring[0]
  {
    Neighbours(ring, next, prev, k);
    forall i | 0 <= i < |ring'| ensures LinkAt(ring', next', prev', i) {
      var j := if i < k then i else i + 1;
      assert LinkAt(ring, next, prev, j) && LinkAt(ring, next, prev, k);
    }
  }

  /** b enters the ring just after its head. */
  lemma LinkFirst(ring: seq<int>, ring': seq<int>, next: Links, prev: Links, b: int, next': Links, prev': Links)
    requires Linked(ring, next, prev) && b !in ring && ring' == [ring[0], b] + ring[1..] && ring[0] in next
    requires next' == next[b := next[ring[0]]][ring[0] := b]
    requires prev' == prev[b := ring[0]][next[ring[0]] := b]
    ensures Linked(ring', next', prev')
  {
    Neighbours(ring, next, prev, 0);
    assert Distinct(ring');
    forall i | 0 <= i < |ring'| ensures LinkAt(ring', next', prev', i) {
      var j := if i == 0 then 0 else i - 1;
      assert LinkAt(ring, next, prev, j) && LinkAt(ring, next, prev, 0);
    }
  }

  /** brelse's six assignments move ring[k] to the front and keep the rest in order. */
  lemma MoveFirst(ring: seq<int>, next: Links, prev: Links, k: int) returns (ring': seq<int>)
    requires Linked(ring, next, prev) && 0 < k < |ring| && ring[k] in next && ring[k] in prev
    ensures ring' == [ring[0], ring[k]] + ring[1..k] + ring[k + 1..] && multiset(ring') == multiset(ring)
    ensures var (next', prev') := MovedFirst(next, prev, ring[0], ring[k]); Linked(ring', next', prev')
  {
    var b, h := ring[k], ring[0];
    Neighbours(ring, next, prev, k);
    var rest := ring[..k] + ring[k + 1..];
    var n1, p1 := next[prev[b] := next[b]], prev[next[b] := prev[b]];
    Unlink(ring, rest, next, prev, k, n1, p1);
    Neighbours(rest, n1, p1, 0);
    ring' := [h, b] + rest[1..];
    var n2, p2 := n1[b := n1[h]][h := b], p1[b := h][n1[h] := b];
    LinkFirst(rest, ring', n1, p1, b, n2, p2);
    assert ring' == [h, b] + ring[1..k] + ring[k + 1..];
    assert ring == [h] + ring[1..k] + [b] + ring[k + 1..];
    assert (n2, p2) == MovedFirst(next, prev, h, b);
  }

  function MovedFirst(next: Links, prev: Links, h: int, b: int): (Links, Links) {
    if b in next && b in prev then
      var p1 := prev[next[b] := prev[b]];
      var n1 := next[prev[b] := next[b]];
      if h in n1 then (n1[b := n1[h]][h := b], p1[b := h][n1[h] := b]) else (n1, p1)
    else (next, prev)
  }
}
