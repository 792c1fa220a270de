/** The console of src/console.c: a 128-byte ring with four counters, echoed on the screen. */
module Console {
  import opened Common
  import opened ConsoleLine
  import opened ConsoleScreen

  // ----- Bytes in the ring -----

  lemma SlotsApart(m: int, k: int)
    requires 0 < m - k < CAP || 0 < k - m < CAP
    ensures m % CAP != k % CAP
  {
  }

  /** 128 divides 2^32: a counter that has wrapped still names the same slot. */
  lemma SlotWraps(b: seq<Byte>, k: int)
    ensures Slot(b, k - WORD) == Slot(b, k) && Slot(b, k + WORD) == Slot(b, k)
  {
  }

  lemma MatchWraps(b: seq<Byte>, i: int, t: seq<Byte>)
    requires Matches(b, i, t)
    ensures Matches(b, i - WORD, t) && Matches(b, i + WORD, t)
  {
    forall k | 0 <= k < |t| ensures Slot(b, i - WORD + k) == t[k] && Slot(b, i + WORD + k) == t[k] { SlotWraps(b, i + k); }
  }

  /** Storing c as byte k changes that byte alone among the 128 from lo on. */
  ghost predicate OnlySlot(b: seq<Byte>, b': seq<Byte>, k: int, c: Byte, lo: int) {
    forall m {:trigger Slot(b', m)} :: lo <= m < lo + CAP ==> Slot(b', m) == if m == k then c else Slot(b, m)
  }

  /** b' has bytes i + 1 to j of b one place lower, and the rest as in b. */
  ghost predicate Down(b: seq<Byte>, b': seq<Byte>, lo: int, i: int, j: int) {
    forall m {:trigger Slot(b', m)} :: lo <= m < lo + CAP ==> Slot(b', m) == if i <= m < j then Slot(b, m + 1) else Slot(b, m)
  }

  /** b' has bytes i to j - 1 of b one place higher, and the rest as in b. */
  ghost predicate Up(b: seq<Byte>, b': seq<Byte>, lo: int, i: int, j: int) {
    forall m {:trigger Slot(b', m)} :: lo <= m < lo + CAP ==> Slot(b', m) == if i < m <= j then Slot(b, m - 1) else Slot(b, m)
  }

  lemma MatchParts(b: seq<Byte>, i: int, t: seq<Byte>, n: nat)
    requires Matches(b, i, t) && n <= |t|
    ensures Matches(b, i, t[..n]) && Matches(b, i + n, t[n..])
  {
    forall k | 0 <= k < |t[n..]| ensures Slot(b, i + n + k) == t[n..][k] { assert t[n..][k] == t[n + k]; }
  }

  lemma MatchJoin(b: seq<Byte>, i: int, s: seq<Byte>, t: seq<Byte>)
    requires Matches(b, i, s) && Matches(b, i + |s|, t)
    ensures Matches(b, i, s + t)
  {
    forall k | 0 <= k < |s + t| ensures Slot(b, i + k) == (s + t)[k] {
      if k >= |s| { assert (s + t)[k] == t[k - |s|]; }
    }
  }

  /** Bytes away from the stored one stay, and the stored one may follow them. */
  lemma MatchStored(b: seq<Byte>, b': seq<Byte>, k: int, c: Byte, lo: int, i: int, t: seq<Byte>)
    requires OnlySlot(b, b', k, c, lo) && Matches(b, i, t) && lo <= i <= i + |t| <= lo + CAP && !(i <= k < i + |t|)
    ensures Matches(b', i, t)
    ensures k == i + |t| < lo + CAP ==> Matches(b', i, t + [c])
    ensures k == i - 1 >= lo ==> Matches(b', k, [c] + t)
  {
    forall m | 0 <= m < |t| ensures Slot(b', i + m) == t[m] {}
    if k == i + |t| < lo + CAP { MatchJoin(b', i, t, [c]); }
    if k == i - 1 >= lo { MatchJoin(b', k, [c], t); }
  }

  lemma MatchDown(b: seq<Byte>, b': seq<Byte>, lo: int, i: int, j: int, a: int, t: seq<Byte>)
    requires Down(b, b', lo, i, j) && Matches(b, a, t) && lo <= i && j < lo + CAP
    ensures a == i + 1 && j == i + |t| ==> Matches(b', i, t)
    ensures lo <= a && a + |t| <= i && a + |t| <= lo + CAP ==> Matches(b', a, t)
  {
    forall k | 0 <= k < |t| && a == i + 1 && j == i + |t| ensures Slot(b', i + k) == t[k] {
      assert Slot(b, a + k) == t[k];
    }
    forall k | 0 <= k < |t| && lo <= a && a + |t| <= i && a + |t| <= lo + CAP ensures Slot(b', a + k) == t[k] {}
  }

  lemma MatchUp(b: seq<Byte>, b': seq<Byte>, lo: int, i: int, j: int, a: int, t: seq<Byte>)
    requires Up(b, b', lo, i, j) && Matches(b, a, t) && lo <= i && j < lo + CAP
    ensures a == i && j == i + |t| ==> Matches(b', i + 1, t)
    ensures lo <= a && a + |t| <= i && a + |t| <= lo + CAP ==> Matches(b', a, t)
  {
    forall k | 0 <= k < |t| && a == i && j == i + |t| ensures Slot(b', i + 1 + k) == t[k] {
      assert Slot(b, a + k) == t[k];
    }
    forall k | 0 <= k < |t| && lo <= a && a + |t| <= i && a + |t| <= lo + CAP ensures Slot(b', a + k) == t[k] {}
  }

  // ----- The ready bytes and the text in the ring -----

  /** The ready bytes end and the text starts at counter w. Folded. */
  ghost predicate InRing(b: seq<Byte>, w: int, ready: seq<Byte>, text: seq<Byte>) {
    forall z: int {:trigger Seal((b, w, text), z)} :: Seal((b, w, text), z) ==>
      Matches(b, w - |ready|, ready) && Matches(b, w, text)
  }

  lemma Laying(b: seq<Byte>, w: int, ready: seq<Byte>, text: seq<Byte>)
    requires InRing(b, w, ready, text)
    ensures Matches(b, w - |ready|, ready) && Matches(b, w, text)
  {
    assert Seal<(seq<Byte>, int, seq<Byte>)>((b, w, text), 0);
  }

  lemma RingByte(b: seq<Byte>, w: Word, ready: seq<Byte>, text: seq<Byte>, k: nat)
    requires InRing(b, w, ready, text) && k < |text| <= CAP
    ensures Slot(b, Ahead(w, k)) == text[k]
  {
    Laying(b, w, ready, text);
    SlotWraps(b, w + k);
  }

  lemma RingFirst(b: seq<Byte>, w: Word, ready: seq<Byte>, text: seq<Byte>)
    requires InRing(b, w, ready, text) && 0 < |ready| <= CAP
    ensures Slot(b, Back(w, |ready|)) == ready[0] && InRing(b, w, ready[1..], text)
  {
    Laying(b, w, ready, text);
    SlotWraps(b, w - |ready|);
    MatchParts(b, w - |ready|, ready, 1);
  }

  lemma RingTail(b: seq<Byte>, w: Word, ready: seq<Byte>, text: seq<Byte>, n: nat)
    requires InRing(b, w, ready, text) && n <= |text| <= CAP
    ensures Found(b, Ahead(w, n), text[n..]) && InRing(b, w, ready, text[..n])
  {
    Laying(b, w, ready, text);
    MatchParts(b, w, text, n);
    MatchWraps(b, w + n, text[n..]);
  }

  lemma RingHandIn(b: seq<Byte>, w: Word, ready: seq<Byte>, text: seq<Byte>)
    requires InRing(b, w, ready, text) && |text| <= CAP
    ensures InRing(b, Ahead(w, |text|), ready + text, [])
  {
    Laying(b, w, ready, text);
    MatchJoin(b, w - |ready|, ready, text);
    MatchWraps(b, w - |ready|, ready + text);
  }

  lemma RingAppend(b: seq<Byte>, b': seq<Byte>, w: Word, ready: seq<Byte>, text: seq<Byte>, c: Byte)
    requires InRing(b, w, ready, text) && |ready| + |text| < CAP && OnlySlot(b, b', w + |text|, c, w - |ready|)
    ensures InRing(b', w, ready, text + [c])
  {
    Laying(b, w, ready, text);
    MatchStored(b, b', w + |text|, c, w - |ready|, w - |ready|, ready);
    MatchStored(b, b', w + |text|, c, w - |ready|, w, text);
  }

  /** Without text[at - 1], once the bytes after it have moved down. */
  lemma RingRemove(b: seq<Byte>, b': seq<Byte>, w: Word, ready: seq<Byte>, text: seq<Byte>, at: nat)
    requires InRing(b, w, ready, text) && |ready| + |text| <= CAP && 0 < at <= |text|
    requires Down(b, b', w - |ready|, w + at - 1, w + |text| - 1)
    ensures InRing(b', w, ready, text[..at - 1] + text[at..])
  {
    Laying(b, w, ready, text);
    var lo, front, back := w - |ready|, text[..at - 1], text[at..];
    MatchParts(b, w, text, at - 1);
    MatchParts(b, w, text, at);
    MatchDown(b, b', lo, w + at - 1, w + |text| - 1, lo, ready);
    MatchDown(b, b', lo, w + at - 1, w + |text| - 1, w, front);
    MatchDown(b, b', lo, w + at - 1, w + |text| - 1, w + at, back);
    MatchJoin(b', w, front, back);
  }

  /** The bytes from text[at] on have moved up. */
  lemma RingUp(b: seq<Byte>, b1: seq<Byte>, w: Word, ready: seq<Byte>, text: seq<Byte>, at: nat)
    requires InRing(b, w, ready, text) && |ready| + |text| < CAP && at < |text|
    requires Up(b, b1, w - |ready|, w + at, w + |text|)
    ensures Found(b1, w - |ready|, ready) && Found(b1, w, text[..at]) && Found(b1, w + at + 1, text[at..])
  {
    Laying(b, w, ready, text);
    MatchParts(b, w, text, at);
    MatchUp(b, b1, w - |ready|, w + at, w + |text|, w - |ready|, ready);
    MatchUp(b, b1, w - |ready|, w + at, w + |text|, w, text[..at]);
    MatchUp(b, b1, w - |ready|, w + at, w + |text|, w + at, text[at..]);
  }

  lemma Unseal(b: seq<Byte>, i: int, t: seq<Byte>)
    requires Found(b, i, t)
    ensures Matches(b, i, t)
  {
    assert Seal<(seq<Byte>, int)>((b, i), 0);
  }

  /** And c takes the place before them. */
  lemma RingPlace(b1: seq<Byte>, b2: seq<Byte>, w: Word, ready: seq<Byte>, front: seq<Byte>, back: seq<Byte>, c: Byte)
    requires |ready| + |front| + |back| < CAP && OnlySlot(b1, b2, w + |front|, c, w - |ready|)
    requires Found(b1, w - |ready|, ready) && Found(b1, w, front) && Found(b1, w + |front| + 1, back)
    ensures InRing(b2, w, ready, front + [c] + back)
  {
    var lo, i := w - |ready|, w + |front|;
    Unseal(b1, lo, ready);
    Unseal(b1, w, front);
    Unseal(b1, i + 1, back);
    MatchStored(b1, b2, i, c, lo, lo, ready);
    MatchStored(b1, b2, i, c, lo, w, front);
    MatchStored(b1, b2, i, c, lo, i + 1, back);
    MatchJoin(b2, w, front + [c], back);
  }

  /** c overwrites text[at], and the byte after the text joins it. */
  lemma RingOver(b: seq<Byte>, b': seq<Byte>, w: Word, ready: seq<Byte>, text: seq<Byte>, at: nat, c: Byte)
    requires InRing(b, w, ready, text) && |ready| + |text| < CAP && at < |text|
    requires OnlySlot(b, b', w + at, c, w - |ready|)
    ensures InRing(b', w, ready, text[at := c] + [Slot(b, Ahead(w, |text|))])
  {
    Laying(b, w, ready, text);
    SlotWraps(b, w + |text|);
    MatchStored(b, b', w + at, c, w - |ready|, w - |ready|, ready);
    var t := text[at := c] + [Slot(b, w + |text|)];
    forall k | 0 <= k < |t| ensures Slot(b', w + k) == t[k] {}
  }

  /** s is t without some bytes at the end, none of them a newline. */
  ghost predicate Trims(s: seq<Byte>, t: seq<Byte>) { s <= t && NoNewline(t[|s|..]) }

  lemma TrimStep(s: seq<Byte>, t: seq<Byte>)
    requires Trims(s, t) && s != [] && s[|s| - 1] != NEWLINE
    ensures Trims(s[..|s| - 1], t)
  {
    assert t[|s| - 1..] == [s[|s| - 1]] + t[|s|..];
  }

  lemma TrimIs(s: seq<Byte>, t: seq<Byte>)
    requires Trims(s, t) && (s == [] || s[|s| - 1] == NEWLINE)
    ensures s == ThroughNewline(t)
  {
    var u := ThroughNewline(t);
    forall k | |u| <= k < |t| ensures t[k] != NEWLINE { assert t[k] == t[|u|..][k - |u|]; }
    forall k | |s| <= k < |t| ensures t[k] != NEWLINE { assert t[k] == t[|s|..][k - |s|]; }
  }

  // ----- What a read delivers -----

  /** After `got`, what is left of delivery `whole` is d. */
  ghost predicate Continues(whole: Delivery, got: seq<Byte>, d: Delivery) { whole == d.(got := got + d.got) }

  lemma NextByte(whole: Delivery, got: seq<Byte>, q: seq<Byte>, target: nat, left: nat, raw: bool)
    requires left > 0 && q != [] && q[0] != CTRL_D && Continues(whole, got, Deliver(q, target, left, raw))
    ensures if raw || q[0] == NEWLINE then whole == Delivery(got + [q[0]], q[1..], true)
            else Continues(whole, got + [q[0]], Deliver(q[1..], target, left - 1, raw))
  {
  }

  lemma EndMark(whole: Delivery, got: seq<Byte>, q: seq<Byte>, target: nat, left: nat, raw: bool)
    requires Continues(whole, got, Deliver(q, target, left, raw))
    ensures left > 0 && q != [] && q[0] == CTRL_D ==> whole == Delivery(got, if left < target then q else q[1..], true)
    ensures left == 0 || q == [] ==> whole == Delivery(got, q, left == 0)
  {
  }

  /** Fits, folded. */
  ghost predicate Fine(l: Line) { forall z: int {:trigger Seal(l, z)} :: Seal(l, z) ==> Fits(l) }

  lemma FineMoves(l: Line, n: nat)
    requires Fine(l)
    ensures Fine(Left(l)) && Fine(Right(l)) && Fine(l.(drafting := false)) && (n <= 2 ==> Fine(l.(esc := n)))
  {
    assert Seal(l, 0);
  }

  lemma FineClear(l: Line)
    requires Fine(l)
    ensures Fine(Clear(l))
  {
    assert Seal(l, 0);
    ClearKeeps(l, true);
    Unfold(l, Clear(l), true);
  }

  lemma FineSave(l: Line)
    requires Fine(l)
    ensures Fine(SaveDraft(l))
  {
    assert Seal(l, 0);
    ClearKeeps(l, true);
    Unfold(l, SaveDraft(l), true);
  }

  lemma FineDelete(l: Line, slip: bool)
    requires Fine(l)
    ensures Fine(DeleteW(l, slip))
  {
    assert Seal(l, 0);
    DeleteKeeps(l, slip, true);
    Unfold(l, DeleteW(l, slip), true);
  }

  lemma FineCommit(l: Line, c: Byte)
    requires Fine(l)
    ensures Fine(CommitIfRoom(l, c))
  {
    assert Seal(l, 0);
    CommitKeeps(l, c, true);
    Unfold(l, CommitIfRoom(l, c), true);
  }

  lemma FineInsert(l: Line, c: Byte, s: Slip)
    requires Fine(l) && Room(l) && c != 0
    ensures Fine(HandOver(InsertW(l, c, s)))
  {
    assert Seal(l, 0);
    InsertKeeps(l, c, s);
    Unfold(l, HandOver(InsertW(l, c, s)), !s.right);
  }

  lemma FineReplace(l: Line, s: seq<Byte>)
    requires Fine(l) && NoNul(s)
    ensures Fine(Replace(l, s))
  {
    assert Seal(l, 0);
    ReplaceKeeps(l, s);
  }

  lemma FineTake(l: Line)
    requires Fine(l) && l.ready != []
    ensures Fine(l.(ready := l.ready[1..]))
  {
    assert Seal(l, 0);
  }

  /** Committing does not depend on where the cursor was. */
  lemma FineEnd(l: Line)
    requires Fine(l)
    ensures Fine(l.(at := |l.text|))
  {
    assert Seal(l, 0);
  }

  /** The key took l to l', and the cursor is inside the text still, or is not. Folded. */
  ghost predicate Edited(l: Line, raw: bool, c: Byte, s: Slip, l': Line, docked: bool) {
    forall z: int {:trigger Seal((l, l'), z)} :: Seal((l, l'), z) ==>
      l' == EditW(l, raw, c, s) && (docked <==> !Strands(l, raw, c, s))
  }

  lemma PressOf(l: Line, raw: bool, c: Byte, s: Slip, l': Line, docked: bool)
    requires match Meaning(l.esc, c)
      case EditKey(k) => Edited(l.(esc := NextEsc(l.esc, c)), raw, k, s, l', docked)
      case a => l' == MoveW(l.(esc := NextEsc(l.esc, c)), a, s) && docked
    ensures l' == PressW(l, raw, c, s) && (docked <==> !KeyStrands(l, raw, c, s))
  {
    assert Seal((l.(esc := NextEsc(l.esc, c)), l'), 0);
  }

  class Tty {
    const buf: array<Byte>
    const raw: bool
    const screen: Screen
    var r: Word
    var w: Word
    var e: Word
    var cur: Word
    var esc: nat
    var draft: seq<Byte>
    var drafting: bool
    /** What buf holds. */
    ghost var ring: seq<Byte>
    /** Its bytes r to w. */
    ghost var ready: seq<Byte>
    /** Its bytes w to e. */
    ghost var text: seq<Byte>
    /** Where in the text the cursor is. */
    ghost var at: nat
    /** The cell where the typed text starts. */
    ghost var base: int
    /** The screen has followed the text, and no newline was put into it, since it was last empty. */
    ghost var plain: bool

    /** The ring holds the ready bytes and then the text, and three counters delimit them. */
    ghost predicate Laid() reads this {
      && at <= |text| && |ready| + |text| <= CAP && InRing(ring, w, ready, text)
      && r == Back(w, |ready|) && e == Ahead(w, |text|)
    }

    ghost predicate Shape() reads this, buf, screen {
      Holds(buf, ring) && buf != screen.crt && screen.Valid() && Laid()
    }

    ghost predicate Docked() reads this { at <= CAP && cur == Ahead(w, at) }

    ghost function View(): Line reads this { Line(ready, text, at, esc, draft, drafting) }

    /** The comparisons that the counters get wrong now. */
    ghost function Slips(): Slip
      requires Laid()
      reads this
    {
      SlipAt(w, at, |text|, Slot(ring, e))
    }

    /** The screen shows the typed text from cell `base` on, with the cursor at its index n. Folded. */
    ghost predicate Shown(n: int) reads this, screen, screen.crt {
      plain ==> forall z: int {:trigger Seal((base, text, n), z)} :: Seal((base, text, n), z) ==>
        NoNewline(text) && screen.Shows(base, text, n)
    }

    lemma Look(n: int)
      requires Shown(n) && plain
      ensures NoNewline(text) && screen.Shows(base, text, n)
    {
      assert Seal<(int, seq<Byte>, int)>((base, text, n), 0);
    }

    /** All but the place of the cursor's counter. */
    ghost predicate Sound() reads this, buf, screen, screen.crt { Shape() && Fine(View()) && Shown(at) }

    ghost predicate Valid() reads this, buf, screen, screen.crt { Sound() && Docked() }

    /** No counter is about to wrap. */
    ghost predicate Level() reads this { w + |text| + 1 < WORD }

    constructor (raw: bool)
      ensures Valid() && plain && View() == Line([], [], 0, 0, [], false) && w == 0
      ensures fresh(buf) && fresh(screen) && fresh(screen.crt)
    {
      this.raw := raw;
      buf := new Byte[CAP](_ => 0);
      screen := new Screen();
      r, w, e, cur, esc, draft, drafting := 0, 0, 0, 0, 0, [], false;
      ring, ready, text, at, base, plain := seq(CAP, _ => 0), [], [], 0, 0, true;
    }

    /** buf[k % INPUT_BUF] = c, where k is counter n, touches no other byte of the 128 from lo on. */
    method Put(k: Word, c: Byte, ghost n: int, ghost lo: int)
      requires Holds(buf, ring) && lo <= n < lo + CAP && (k == n || k == n - WORD || k == n + WORD)
      modifies this`ring, buf
      ensures Holds(buf, ring) && OnlySlot(old(ring), ring, n, c, lo)
    {
      buf[k % CAP] := c;
      ring := ring[k % CAP := c];
      SlotWraps(ring, n);
      forall m | lo <= m < lo + CAP ensures Slot(ring, m) == if m == n then c else old(Slot(ring, m)) {
        if m != n { SlotsApart(m, n); }
      }
    }

    /** buf[k % INPUT_BUF] */
    method Get(k: Word) returns (c: Byte)
      requires Holds(buf, ring)
      ensures c == Slot(ring, k)
    {
      c := buf[k % CAP];
    }

    method MoveLeft()
      requires Valid()
      modifies this`cur, this`at, screen`pos
      ensures Valid() && View() == if old(cur < w) then old(View()) else Left(old(View()))
    {
      FineMoves(View(), 0);
      if cur > w {
        if plain { Look(at); }
        cur := Back(cur, 1);
        at := at - 1;
        screen.Lefts(1);
      }
    }

    method MoveRight()
      requires Valid()
      modifies this`cur, this`at, screen, screen.crt
      ensures Valid() && View() == if old(e < cur) then old(View()) else Right(old(View()))
    {
      FineMoves(View(), 0);
      if cur < e { StepRight(); }
    }

    /** consputc(buf[cur++ % INPUT_BUF]) */
    method StepRight()
      requires Shape() && Docked() && Shown(at) && cur < e
      modifies this`cur, this`at, screen, screen.crt
      ensures Shape() && Docked() && Shown(at) && at == old(at) + 1
    {
      if plain { Look(at); }
      var c := Get(cur);
      RingByte(ring, w, ready, text, at);
      screen.Putc(c);
      cur := Ahead(cur, 1);
      at := at + 1;
    }

    /** The cursor goes to the end of the text, rewriting what it passes; or nowhere. */
    method Flush()
      requires Shape() && Docked() && Shown(at)
      modifies this`cur, this`at, screen, screen.crt
      ensures Shape() && Docked() && Shown(at)
      ensures at == if old(e < cur) then old(at) else |text|
    {
      if cur < e {
        ghost var s := text[at..];
        RingTail(ring, w, ready, text, at);
        if plain { Look(at); }
        screen.PutSlots(buf, cur, e, ring, s);
        if plain {
          forall k | 0 <= k < |text| ensures screen.Cell(base + k) == text[k] {
            if k >= at { assert text[k] == s[k - at]; }
          }
        }
        cur := e;
        at := |text|;
      }
    }

    /** The last byte of the text goes, from the ring and from the screen. */
    method EraseLast(ghost level: bool)
      requires Shape() && text != [] && at == 0 && (level ==> Shown(|text|))
      modifies this`e, this`text, screen, screen.crt
      ensures Shape() && text == old(text)[..|old(text)| - 1] && (level ==> Shown(|text|))
    {
      if level && plain { Look(|text|); }
      RingTail(ring, w, ready, text, |text| - 1);
      e := Back(e, 1);
      text := text[..|text| - 1];
      screen.Erase();
    }

    /** The second loop of clear. The cursor's counter is not looked at. */
    method EraseTail(ghost level: bool)
      requires Shape() && at == 0 && (level ==> Shown(|text|))
      modifies this`e, this`text, screen, screen.crt
      ensures Shape() && text == ThroughNewline(old(text)) && (level ==> Shown(|text|))
    {
      ghost var t := text;
      while e != w
        invariant Shape() && Trims(text, t) && (level ==> Shown(|text|))
        decreases |text|
      {
        var c := Get(Back(e, 1));
        RingByte(ring, w, ready, text, |text| - 1);
        if c == NEWLINE { break; }
        TrimStep(text, t);
        EraseLast(level);
      }
      TrimIs(text, t);
    }

    /** A text that the screen shows has no newline, so clearing it leaves nothing. */
    lemma ClearsAll()
      requires Shown(at) && plain
      ensures ThroughNewline(text) == []
    {
      Look(at);
      ClearPlain(View());
    }

    method ClearLine()
      requires Valid()
      modifies this`cur, this`e, this`text, this`at, this`base, this`plain, screen, screen.crt
      ensures Valid() && View() == Clear(old(View())) && plain == old(plain)
    {
      FineClear(View());
      Wipe();
    }

    method Wipe()
      requires Shape() && Docked() && Shown(at)
      modifies this`cur, this`e, this`text, this`at, this`base, this`plain, screen, screen.crt
      ensures Shape() && Docked() && Shown(at) && text == ThroughNewline(old(text)) && at == |text| && plain == old(plain)
    {
      ghost var level := cur <= e;
      if plain { ClearsAll(); }
      Flush();
      at := 0;
      EraseTail(level);
      cur := e;
      at := |text|;
      if plain && !level { Rebase(); }
    }

    /** buf[e++] = c */
    method Store(c: Byte)
      requires Shape() && |ready| + |text| < CAP
      modifies this`e, this`text, this`ring, buf
      ensures Shape() && text == old(text) + [c]
    {
      ghost var b := ring;
      Put(e, c, w + |text|, w - |ready|);
      RingAppend(b, ring, w, ready, text, c);
      e := Ahead(e, 1);
      text := text + [c];
    }

    /** w = e: the text is ready, and a new one starts wherever the cursor is on the screen. */
    method Publish()
      requires Shape()
      modifies this`w, this`ready, this`text, this`at, this`base, this`plain
      ensures Shape() && Shown(at) && plain && w == e && at == 0 && text == [] && ready == old(ready) + old(text)
    {
      RingHandIn(ring, w, ready, text);
      w := e;
      ready, text, at := ready + text, [], 0;
      Rebase();
    }

    /** An empty text is shown wherever the cursor is. */
    ghost method Rebase()
      requires text == [] && at == 0 && screen.Valid()
      modifies this`base, this`plain
      ensures plain && Shown(0)
    {
      base, plain := screen.Place(), true;
    }

    /** The whole text and c become ready. */
    method Accept(c: Byte)
      requires Shape() && Fine(View()) && |ready| + |text| < CAP
      modifies this`w, this`e, this`cur, this`at, this`ready, this`text, this`base, this`plain, this`ring, buf
      ensures Valid() && plain && View() == Commit(old(View()), c)
    {
      FineCommit(View(), c);
      Store(c);
      cur := e;
      Publish();
      assert ready == old(ready) + old(text) + [c];
    }

    /** A full buffer goes to the reader with no newline. */
    method HandIn()
      requires Shape() && |ready| + |text| == CAP && Fine(HandOver(View()))
      modifies this`w, this`ready, this`text, this`at, this`base, this`plain
      ensures Sound() && plain && View() == HandOver(old(View())) && w == e
    {
      Publish();
    }

    /** Bytes after the cursor move one slot down; d is what the counters have lost by wrapping. */
    method ShiftDown(ghost lo: int, ghost d: int)
      requires Holds(buf, ring) && (d == 0 || d == WORD) && cur < Back(e, 1) && lo <= cur + d && Back(e, 1) + d < lo + CAP
      modifies this`ring, buf
      ensures Holds(buf, ring) && Down(old(ring), ring, lo, cur + d, Back(e, 1) + d)
    {
      ghost var b := ring;
      var i := cur;
      while i < Back(e, 1)
        invariant cur <= i <= Back(e, 1) && Holds(buf, ring) && Down(b, ring, lo, cur + d, i + d)
      {
        var c := Get(Ahead(i, 1));
        SlotWraps(ring, i + 1 + d);
        Put(i, c, i + d, lo);
        i := Ahead(i, 1);
      }
    }

    /** Bytes from the cursor on move one slot up. */
    method ShiftUp(ghost lo: int, ghost d: int)
      requires Holds(buf, ring) && (d == 0 || d == WORD) && cur < e && lo <= cur + d && e + d < lo + CAP
      modifies this`ring, buf
      ensures Holds(buf, ring) && Up(old(ring), ring, lo, cur + d, e + d)
    {
      ghost var b := ring;
      var i := e;
      while i > cur
        invariant cur <= i <= e && Holds(buf, ring) && Up(b, ring, lo, i + d, e + d)
      {
        var c := Get(Back(i, 1));
        SlotWraps(ring, i - 1 + d);
        Put(i, c, i + d, lo);
        i := Back(i, 1);
      }
    }

    /** The byte before the cursor leaves the ring, or the last one does. */
    method RemoveByte()
      requires Shape() && Docked() && at > 0
      modifies this`cur, this`at, this`e, this`text, this`ring, buf
      ensures Shape() && Docked() && at == old(at) - 1
      ensures text == Without(old(text), old(at), old(Back(e, 1) < Back(cur, 1)))
    {
      cur := Back(cur, 1);
      if cur < Back(e, 1) { Shrink(); } else { DropLast(); }
      e := Back(e, 1);
      at := at - 1;
    }

    /** Without the shift the last byte is no longer part of the text. */
    ghost method DropLast()
      requires Laid() && 0 < at
      modifies this`text
      ensures text == old(text)[..|old(text)| - 1] && InRing(ring, w, ready, text)
      ensures at == |old(text)| ==> text == Without(old(text), at, false)
    {
      RingTail(ring, w, ready, text, |text| - 1);
      text := text[..|text| - 1];
    }

    /** The shift of a deletion, once the cursor is before the byte that goes. */
    method Shrink()
      requires Shape() && 0 < at < |text| && cur == Back(Ahead(w, at), 1) < Back(e, 1)
      modifies this`text, this`ring, buf
      ensures Holds(buf, ring) && text == old(text)[..at - 1] + old(text)[at..] && InRing(ring, w, ready, text)
    {
      ghost var b := ring;
      ShiftDown(w - |ready|, w + at - 1 - cur);
      RingRemove(b, ring, w, ready, text, at);
      text := text[..at - 1] + text[at..];
    }

    method DeleteChar()
      requires Valid() && at > 0
      modifies this`cur, this`at, this`e, this`text, this`ring, buf, screen, screen.crt
      ensures Valid() && View() == DeleteW(old(View()), old(Back(e, 1) < Back(cur, 1)))
    {
      FineDelete(View(), Back(e, 1) < Back(cur, 1));
      EraseBefore();
    }

    method EraseBefore()
      requires Shape() && Docked() && Shown(at) && at > 0
      modifies this`cur, this`at, this`e, this`text, this`ring, buf, screen, screen.crt
      ensures Shape() && Docked() && Shown(at) && at == old(at) - 1
      ensures text == Without(old(text), old(at), old(Back(e, 1) < Back(cur, 1)))
    {
      ghost var t := text;
      if plain { Look(at); }
      RemoveByte();
      RingTail(ring, w, ready, text, at);
      var n := Gap(cur, e);
      screen.RedrawDeleted(buf, cur, n, ring, base, t, text);
    }

    method InsertChar(c: Byte)
      requires Valid() && c != 0 && c != NEWLINE && |ready| + |text| < CAP
      modifies this`cur, this`at, this`e, this`w, this`ready, this`text, this`base, this`plain, this`ring, buf, screen, screen.crt
      ensures Sound() && View() == HandOver(InsertW(old(View()), c, old(Slips())))
      ensures old(plain) && old(Level()) ==> plain
      ensures !Docked() <==> old(at < |text| && |ready| + |text| + 1 == CAP && Ahead(e, 1) < Ahead(cur, 1))
      ensures !Docked() ==> w == e && cur == Ahead(old(cur), 1)
    {
      FineInsert(View(), c, Slips());
      AddChar(c);
      PassOn();
    }

    /** A full buffer is handed in. */
    method PassOn()
      requires Shape() && Docked() && Shown(at) && Fine(HandOver(View()))
      modifies this`cur, this`at, this`w, this`ready, this`text, this`base, this`plain, screen, screen.crt
      ensures Sound() && View() == HandOver(old(View())) && (old(plain) ==> plain)
      ensures !Docked() <==> old(|ready| + |text| == CAP && e < cur)
      ensures !Docked() ==> w == e && cur == old(cur)
    {
      if e == Ahead(r, CAP) {
        Flush();
        HandIn();
      }
    }

    method AddChar(c: Byte)
      requires Shape() && Docked() && Shown(at) && c != NEWLINE && |ready| + |text| < CAP
      modifies this`cur, this`at, this`e, this`text, this`plain, this`ring, buf, screen, screen.crt
      ensures Shape() && Docked() && Shown(at) && at == old(at) + 1 && cur == Ahead(old(cur), 1)
      ensures text == With(old(text), old(at), c, old(e < cur), Slot(old(ring), old(e)))
      ensures old(plain) && old(Level()) ==> plain
    {
      if cur == e {
        AppendChar(c);
        assert text == With(old(text), old(at), c, false, 0);
      } else {
        InsertInside(c);
      }
    }

    method AppendChar(c: Byte)
      requires Shape() && Docked() && Shown(at) && (plain ==> c != NEWLINE) && |ready| + |text| < CAP && at == |text|
      modifies this`cur, this`at, this`e, this`text, this`ring, buf, screen, screen.crt
      ensures Shape() && Docked() && Shown(at) && at == |text| && text == old(text) + [c]
    {
      ghost var t := text;
      if plain { Look(at); }
      Store(c);
      cur := e;
      at := |text|;
      screen.Append(c, base, t);
    }

    /** c enters the ring at the cursor. */
    method AddByte(c: Byte)
      requires Shape() && Docked() && cur < e && |ready| + |text| < CAP
      modifies this`e, this`text, this`ring, buf
      ensures Shape() && e == Ahead(old(e), 1) && text == old(text)[..at] + [c] + old(text)[at..]
    {
      MakeRoom(c);
      e := Ahead(e, 1);
      text := text[..at] + [c] + text[at..];
    }

    method MakeRoom(c: Byte)
      requires Shape() && Docked() && cur < e && |ready| + |text| < CAP
      modifies this`ring, buf
      ensures Holds(buf, ring) && InRing(ring, w, ready, text[..at] + [c] + text[at..])
    {
      ghost var b, lo, d := ring, w - |ready|, w + at - cur;
      assert d == 0 || d == WORD;
      ShiftUp(lo, d);
      ghost var b' := ring;
      RingUp(b, b', w, ready, text, at);
      Put(cur, c, w + at, lo);
      RingPlace(b', ring, w, ready, text[..at], text[at..], c);
    }

    /** The same when the shift does not happen. */
    method OverwriteByte(c: Byte)
      requires Shape() && Docked() && e < cur && |ready| + |text| < CAP
      modifies this`e, this`text, this`ring, buf
      ensures Shape() && e == Ahead(old(e), 1) && text == old(text)[at := c] + [Slot(old(ring), old(e))]
    {
      ghost var b := ring;
      Put(cur, c, w + at, w - |ready|);
      RingOver(b, ring, w, ready, text, at, c);
      text := text[at := c] + [Slot(b, e)];
      e := Ahead(e, 1);
    }

    method InsertInside(c: Byte)
      requires Shape() && Docked() && Shown(at) && c != NEWLINE && |ready| + |text| < CAP && at < |text|
      modifies this`cur, this`at, this`e, this`text, this`plain, this`ring, buf, screen, screen.crt
      ensures Shape() && Docked() && Shown(at) && at == old(at) + 1 && cur == Ahead(old(cur), 1)
      ensures text == With(old(text), old(at), c, old(e < cur), Slot(old(ring), old(e)))
      ensures plain == (old(plain) && old(cur < Ahead(e, 1)))
    {
      ghost var t := text;
      if plain { Look(at); }
      if cur < e { AddByte(c); } else { OverwriteByte(c); }
      ShowInserted(c, t);
      cur := Ahead(cur, 1);
      at := at + 1;
    }

    /** The redraw. It is skipped when the counter of the new end has wrapped and the cursor's has not. */
    method ShowInserted(c: Byte, ghost t: seq<Byte>)
      requires Shape() && Docked() && at < |t| && |text| == |t| + 1 && c != NEWLINE
      requires plain ==> NoNewline(t) && screen.Shows(base, t, at)
      requires cur < e ==> text == t[..at] + [c] + t[at..]
      modifies this`plain, screen, screen.crt
      ensures Shape() && Shown(at + 1) && plain == (old(plain) && cur < e)
    {
      RingTail(ring, w, ready, text, at);
      plain := plain && cur < e;
      assert cur < e ==> text[at..] == [c] + t[at..];
      assert plain ==> NoNewline(text);
      screen.RedrawInserted(buf, cur, Ahead(cur, 1), e, ring, base, t, at, c);
    }

    // ----- Keys -----

    method SaveHistoryDraft()
      requires Valid()
      modifies this`draft, this`drafting
      ensures Valid() && View() == SaveDraft(old(View()))
    {
      FineSave(View());
      draft := CopyDraft();
      drafting := true;
    }

    /** The text as the C string that replace_input will read. */
    method CopyDraft() returns (d: seq<Byte>)
      requires Holds(buf, ring) && Laid()
      ensures d == DraftOf(text)
    {
      var len := Gap(w, e);
      if len >= CAP { len := CAP - 1; }
      var t := CopyText(len);
      assert text[..|text|] == text;
      assert t == if |text| < CAP then text else text[..CAP - 1];
      d := UpToNul(t);
    }

    /** The first len bytes of the text. */
    method CopyText(len: nat) returns (d: seq<Byte>)
      requires Holds(buf, ring) && InRing(ring, w, ready, text) && len <= |text| <= CAP
      ensures d == text[..len]
    {
      d := [];
      for i := 0 to len
        invariant d == text[..i]
      {
        var c := Get(Ahead(w, i));
        RingByte(ring, w, ready, text, i);
        d := d + [c];
      }
    }

    method AcceptIfRoom(c: Byte)
      requires Valid()
      modifies this`w, this`e, this`cur, this`at, this`ready, this`text, this`base, this`plain, this`ring, buf
      ensures Valid() && View() == CommitIfRoom(old(View()), c) && (old(plain) ==> plain)
    {
      if Gap(r, e) < CAP { Accept(c); }
    }

    /** Return or control-D: the whole line is ready, wherever the cursor was. */
    method Submit(c: Byte)
      requires Valid() && |ready| + |text| < CAP
      modifies this, buf, screen, screen.crt
      ensures Valid() && plain && View() == Commit(old(View()), c).(drafting := false)
    {
      FineEnd(View());
      Flush();
      screen.Putc(c);
      Accept(c);
      Forget();
    }

    method Forget()
      requires Valid()
      modifies this`drafting
      ensures Valid() && View() == old(View()).(drafting := false) && plain == old(plain)
    {
      FineMoves(View(), 0);
      drafting := false;
    }

    /** The history keys. */
    method Browse(c: Byte)
      requires Valid()
      modifies this, buf, screen, screen.crt
      ensures Valid() && (old(plain) ==> plain)
      ensures View() == CommitIfRoom(Clear(if old(drafting) then old(View()) else SaveDraft(old(View()))), c)
    {
      if !drafting { SaveHistoryDraft(); }
      ClearLine();
      AcceptIfRoom(c);
    }

    method HandleEdit(c: Byte)
      requires Valid()
      modifies this, buf, screen, screen.crt
      ensures Sound() && Edited(old(View()), raw, c, old(Slips()), View(), Docked())
      ensures old(plain) && old(Level()) ==> plain
      ensures !Docked() ==> w == e && cur == Ahead(old(cur), 1)
    {
      if c == CTRL_Z { return; }
      if raw && Gap(r, e) < CAP {
        Accept(c);
      } else if c == CTRL_U {
        ClearLine();
        Forget();
      } else if c == TAB {
        AcceptIfRoom(c);
      } else if c == CTRL_P || c == CTRL_N {
        Browse(c);
      } else if c == CTRL_H || c == DEL {
        if cur == w { AcceptIfRoom(c); } else { DeleteChar(); }
      } else {
        HandleTyped(c);
      }
    }

    /** The default case of the switch. */
    method HandleTyped(c: Byte)
      requires Valid()
      modifies this, buf, screen, screen.crt
      ensures Sound() && View() == TypeW(old(View()), c, old(Slips()))
      ensures old(plain) && old(Level()) ==> plain
      ensures Docked() <==> !(c != 0 && c != NEWLINE && c != RETURN && c != CTRL_D && Fills(old(View()), old(Slips())))
      ensures !Docked() ==> w == e && cur == Ahead(old(cur), 1)
    {
      if c == 0 || Gap(r, e) >= CAP {
      } else if c == NEWLINE || c == RETURN {
        Submit(NEWLINE);
      } else if c == CTRL_D {
        Submit(c);
      } else {
        InsertChar(c);
      }
    }

    method SetEsc(n: nat)
      requires Valid() && n <= 2
      modifies this`esc
      ensures Valid() && View() == old(View()).(esc := n) && Slips() == old(Slips())
    {
      FineMoves(View(), n);
      esc := n;
    }

    method HandleInput(c: Byte)
      requires Valid()
      modifies this, buf, screen, screen.crt
      ensures Sound() && View() == PressW(old(View()), raw, c, old(Slips()))
      ensures Docked() <==> !KeyStrands(old(View()), raw, c, old(Slips()))
      ensures !Docked() ==> w == e && cur == Ahead(old(cur), 1)
      ensures old(plain) && old(Level()) ==> plain
    {
      Interpret(c);
      PressOf(old(View()), raw, c, old(Slips()), View(), Docked());
    }

    /** What one key did, whether it moved the cursor or was left to the editor. */
    twostate predicate Handled(c: Byte) reads this {
      match Meaning(old(esc), c)
      case EditKey(k) => old(Laid()) && Edited(old(View()).(esc := NextEsc(old(esc), c)), raw, k, old(Slips()), View(), Docked())
      case a => old(Laid()) && View() == MoveW(old(View()).(esc := NextEsc(old(esc), c)), a, old(Slips())) && Docked()
    }

    method Interpret(c: Byte)
      requires Valid()
      modifies this, buf, screen, screen.crt
      ensures Sound() && Handled(c)
      ensures !Docked() ==> w == e && cur == Ahead(old(cur), 1)
      ensures old(plain) && old(Level()) ==> plain
    {
      if c == KEY_LF {
        MoveLeft();
      } else if c == KEY_RT {
        MoveRight();
      } else if c == KEY_UP {
        HandleEdit(CTRL_P);
      } else if c == KEY_DN {
        HandleEdit(CTRL_N);
      } else if esc == 1 {
        SetEsc(if c == BRACKET then 2 else 0);
      } else if esc == 2 {
        EndSequence(c);
      } else if c == ESC {
        SetEsc(1);
      } else {
        HandleEdit(c);
      }
    }

    /** The last byte of an escape sequence. */
    method EndSequence(c: Byte)
      requires Valid() && esc == 2 && c != KEY_LF && c != KEY_RT && c != KEY_UP && c != KEY_DN
      modifies this, buf, screen, screen.crt
      ensures Sound() && Handled(c)
      ensures !Docked() ==> w == e && cur == Ahead(old(cur), 1)
      ensures old(plain) && old(Level()) ==> plain
    {
      SetEsc(0);
      if c == LETTER_A {
        HandleEdit(CTRL_P);
      } else if c == LETTER_A + 1 {
        HandleEdit(CTRL_N);
      } else if c == LETTER_A + 2 {
        MoveRight();
      } else if c == LETTER_A + 3 {
        MoveLeft();
      }
    }

    // ----- History and reading -----

    /** Types s after the text, leaving one byte of the ring free. */
    method TypeIn(s: seq<Byte>)
      requires Shape() && Docked() && Shown(at) && at == |text| && (plain ==> NoNewline(s))
      modifies this`cur, this`at, this`e, this`text, this`ring, buf, screen, screen.crt
      ensures Shape() && Docked() && Shown(at) && View() == Fill(old(View()), s)
    {
      ghost var t := text;
      var n := 0;
      while n < |s| && Gap(r, e) < CAP - 1
        invariant 0 <= n <= |s| && Shape() && Docked() && Shown(at) && at == |text|
        invariant n == 0 || |ready| + |text| <= CAP - 1
        invariant text == t + s[..n]
      {
        AppendChar(s[n]);
        assert s[..n + 1] == s[..n] + [s[n]];
        n := n + 1;
      }
    }

    /** The typed text gives way to s. */
    method Swap(s: seq<Byte>)
      requires Valid()
      modifies this`cur, this`at, this`e, this`text, this`base, this`plain, this`ring, buf, screen, screen.crt
      ensures Shape() && Docked() && Shown(at) && View() == Fill(Clear(old(View())), s)
      ensures plain == (old(plain) && NoNewline(s))
    {
      ClearLine();
      plain := plain && NoNewline(s);
      TypeIn(s);
    }

    method ReplaceInput(s: seq<Byte>)
      requires Valid() && NoNul(s)
      modifies this, buf, screen, screen.crt
      ensures Valid() && View() == Replace(old(View()), s)
      ensures old(plain) && NoNewline(s) && NoNewline(old(draft)) ==> plain
    {
      FineReplace(View(), s);
      var restoring := s == [] && drafting;
      var typed := if restoring then draft else s;
      if !restoring && !drafting { SaveHistoryDraft(); }
      Swap(typed);
      if restoring || (s != [] && (s[0] == NEWLINE || s[0] == RETURN)) { DropDraft(); }
    }

    method DropDraft()
      requires Shape() && Docked() && Shown(at)
      modifies this`drafting, this`draft
      ensures Shape() && Docked() && Shown(at) && View() == old(View()).(drafting := false, draft := [])
    {
      drafting, draft := false, [];
    }

    /** consoleread until it ends or has to wait: n of `target` bytes are still wanted. */
    method Read(target: nat, n: nat) returns (got: seq<Byte>, done: bool)
      requires Valid()
      modifies this`r, this`ready
      ensures Valid()
      ensures Delivery(got, ready, done) == Deliver(old(ready), target, n, raw)
      ensures View() == old(View()).(ready := ready)
    {
      got, done := Consume(target, n);
      assert View() == old(View()).(ready := ready);
    }

    /** The loop of consoleread. */
    method Consume(target: nat, n: nat) returns (got: seq<Byte>, done: bool)
      requires Holds(buf, ring) && Laid() && Fine(View())
      modifies this`r, this`ready
      ensures Laid() && Fine(View()) && Delivery(got, ready, done) == Deliver(old(ready), target, n, raw)
    {
      ghost var whole := Deliver(ready, target, n, raw);
      got := [];
      var left := n;
      while left > 0 && r != w
        invariant 0 <= left <= n && Laid() && Fine(View())
        invariant Continues(whole, got, Deliver(ready, target, left, raw))
        decreases left
      {
        var c := Get(r);
        RingFirst(ring, w, ready, text);
        EndMark(whole, got, ready, target, left, raw);
        if c == CTRL_D {
          if left >= target { Advance(); }
          return got, true;
        }
        NextByte(whole, got, ready, target, left, raw);
        Advance();
        got, left := got + [c], left - 1;
        if raw || c == NEWLINE { return got, true; }
      }
      EndMark(whole, got, ready, target, left, raw);
      done := left == 0;
    }

    /** r++ */
    method Advance()
      requires Laid() && Fine(View()) && r != w
      modifies this`r, this`ready
      ensures Laid() && Fine(View()) && ready == old(ready)[1..]
    {
      RingFirst(ring, w, ready, text);
      FineTake(View());
      r := Ahead(r, 1);
      ready := ready[1..];
    }
  }
}
