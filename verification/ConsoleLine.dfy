/**
 * The console line editor of src/console.c as a user sees it: bytes ready for readers, the line
 * being typed with a cursor in it, the escape state and the saved history draft.
 */
module ConsoleLine {
  import opened Common

  type Byte = x: int | 0 <= x < 256

  datatype Line = Line(ready: seq<Byte>, text: seq<Byte>, at: nat, esc: nat, draft: seq<Byte>, drafting: bool)

  const CAP := 128
  const NEWLINE: Byte := 10
  const RETURN: Byte := 13
  const TAB: Byte := 9
  const ESC: Byte := 27
  const DEL: Byte := 127
  const CTRL_D: Byte := 4
  const CTRL_H: Byte := 8
  const CTRL_N: Byte := 14
  const CTRL_P: Byte := 16
  const CTRL_U: Byte := 21
  const CTRL_Z: Byte := 26
  const KEY_UP: Byte := 0xE2
  const KEY_DN: Byte := 0xE3
  const KEY_LF: Byte := 0xE4
  const KEY_RT: Byte := 0xE5
  const BRACKET: Byte := 91 // [
  const LETTER_A: Byte := 65

  predicate Room(l: Line) { |l.ready| + |l.text| < CAP }

  predicate NoNul(s: seq<Byte>) { forall k :: 0 <= k < |s| ==> s[k] != 0 }
  predicate NoNewline(s: seq<Byte>) { forall k :: 0 <= k < |s| ==> s[k] != NEWLINE }

  /** The line fits its 128 bytes, and when these are all taken none of them is still being typed. */
  predicate Fits(l: Line) {
    && l.at <= |l.text| && |l.ready| + |l.text| <= CAP && (!Room(l) ==> l.text == [])
    && NoNul(l.draft) && |l.draft| < CAP && l.esc <= 2
  }

  predicate Good(l: Line) { Fits(l) && NoNul(l.text) }

  // ----- Wrapping counters -----

  const WORD := 0x1_0000_0000

  /** A C uint. */
  type Word = x: int | 0 <= x < WORD

  function Ahead(a: Word, n: int): (b: Word)
    requires 0 <= n < WORD
  {
    if a + n < WORD then a + n else a + n - WORD
  }

  function Back(a: Word, n: int): (b: Word)
    requires 0 <= n < WORD
  {
    if n <= a then a - n else a - n + WORD
  }

  /** b - a as a uint. */
  function Gap(a: Word, b: Word): (n: Word) { if a <= b then b - a else b - a + WORD }

  /**
   * The comparisons of counters that come out wrong: moving left (cur > w), walking from the cursor
   * to the end (cur < e), the shift of a deletion and the handing over of a full buffer. `tail` is
   * the byte that the ring happens to hold after the text.
   */
  datatype Slip = Slip(left: bool, right: bool, del: bool, full: bool, tail: Byte)

  const LEVEL := Slip(false, false, false, false, 0)

  /** The comparisons as the kernel makes them, for a text of len bytes that starts at counter w. */
  function SlipAt(w: Word, at: nat, len: nat, tail: Byte): Slip
    requires at <= len <= CAP
  {
    var cur, e := Ahead(w, at), Ahead(w, len);
    Slip(cur < w, e < cur, Back(e, 1) < Back(cur, 1), Ahead(e, 1) < Ahead(cur, 1), tail)
  }

  /** A comparison slips exactly when the counters have wrapped between its two sides. */
  lemma SlipsExactly(w: Word, at: nat, len: nat, tail: Byte)
    requires at <= len <= CAP
    ensures var s := SlipAt(w, at, len, tail);
      && (s.left <==> WORD <= w + at)
      && (s.right <==> w + at < WORD <= w + len)
      && (at > 0 ==> (s.del <==> w + at - 1 < WORD <= w + len - 1))
      && (s.full <==> w + at + 1 < WORD <= w + len + 1)
  {
  }

  // ----- Editing -----

  function Left(l: Line): Line { if l.at > 0 then l.(at := l.at - 1) else l }

  function Right(l: Line): Line { if l.at < |l.text| then l.(at := l.at + 1) else l }

  /** The typed text and c become ready. */
  function Commit(l: Line, c: Byte): Line { l.(ready := l.ready + l.text + [c], text := [], at := 0) }

  function CommitIfRoom(l: Line, c: Byte): Line { if Room(l) then Commit(l, c) else l }

  /** s up to and including its last newline. */
  function ThroughNewline(s: seq<Byte>): (t: seq<Byte>)
    ensures |t| <= |s| && t == s[..|t|] && NoNewline(s[|t|..]) && (t != [] ==> t[|t| - 1] == NEWLINE)
  {
    if s == [] || s[|s| - 1] == NEWLINE then s
    else
      var u := s[..|s| - 1];
      var t := ThroughNewline(u);
      assert s[|t|..] == u[|t|..] + [s[|s| - 1]] && u[..|t|] == s[..|t|];
      t
  }

  function Clear(l: Line): Line { var t := ThroughNewline(l.text); l.(text := t, at := |t|) }

  /** s as a C string. */
  function UpToNul(s: seq<Byte>): (t: seq<Byte>)
    ensures t <= s && NoNul(t) && (NoNul(s) ==> t == s) && (t != s ==> s[|t|] == 0)
  {
    if s == [] || s[0] == 0 then []
    else
      var t := UpToNul(s[1..]);
      assert NoNul(s) ==> NoNul(s[1..]);
      assert s == [s[0]] + s[1..];
      [s[0]] + t
  }

  /** A draft is only ever read as a C string of at most 127 bytes. */
  function DraftOf(t: seq<Byte>): seq<Byte> { UpToNul(if |t| < CAP then t else t[..CAP - 1]) }

  function SaveDraft(l: Line): Line { l.(draft := DraftOf(l.text), drafting := true) }

  /** t without the byte before index i; or, when nothing is shifted, without its last byte. */
  function Without(t: seq<Byte>, i: int, slip: bool): (r: seq<Byte>)
    requires 0 < i <= |t|
    ensures |r| == |t| - 1 && r[..i - 1] == t[..i - 1] && (NoNewline(t) ==> NoNewline(r))
  {
    if slip then t[..|t| - 1] else t[..i - 1] + t[i..]
  }

  /** t with c at index i; or, when nothing is shifted, with a byte overwritten and the one after t taken in. */
  function With(t: seq<Byte>, i: int, c: Byte, slip: bool, tail: Byte): (r: seq<Byte>)
    requires 0 <= i <= |t|
    ensures |r| == |t| + 1
  {
    if slip && i < |t| then t[i := c] + [tail] else t[..i] + [c] + t[i..]
  }

  function DeleteW(l: Line, slip: bool): Line {
    if 0 < l.at <= |l.text| then l.(text := Without(l.text, l.at, slip), at := l.at - 1) else l
  }

  function InsertW(l: Line, c: Byte, s: Slip): Line {
    if l.at <= |l.text| then l.(text := With(l.text, l.at, c, s.right, s.tail), at := l.at + 1) else l
  }

  function Delete(l: Line): Line { DeleteW(l, false) }

  function Insert(l: Line, c: Byte): Line { InsertW(l, c, LEVEL) }

  /** A full buffer is handed to the reader as it is. */
  function HandOver(l: Line): Line {
    if Room(l) then l else l.(ready := l.ready + l.text, text := [], at := 0)
  }

  function EditW(l: Line, raw: bool, c: Byte, s: Slip): Line {
    if c == CTRL_Z then l
    else if raw && Room(l) then Commit(l, c)
    else if c == CTRL_U then Clear(l).(drafting := false)
    else if c == TAB then CommitIfRoom(l, c)
    else if c == CTRL_P || c == CTRL_N then CommitIfRoom(Clear(if l.drafting then l else SaveDraft(l)), c)
    else if c == CTRL_H || c == DEL then if l.at == 0 then CommitIfRoom(l, c) else DeleteW(l, s.del)
    else TypeW(l, c, s)
  }

  /** A key with no meaning of its own, return and control-D. */
  function TypeW(l: Line, c: Byte, s: Slip): Line {
    if c == 0 || !Room(l) then l
    else if c == NEWLINE || c == RETURN then Commit(l, NEWLINE).(drafting := false)
    else if c == CTRL_D then Commit(l, c).(drafting := false)
    else HandOver(InsertW(l, c, s))
  }

  datatype Action = GoLeft | GoRight | EditKey(c: Byte) | Ignore

  /** What a key means after the escape bytes seen so far. */
  function Meaning(esc: nat, c: Byte): Action {
    if c == KEY_LF then GoLeft
    else if c == KEY_RT then GoRight
    else if c == KEY_UP then EditKey(CTRL_P)
    else if c == KEY_DN then EditKey(CTRL_N)
    else if esc == 1 then Ignore
    else if esc == 2 then
      if c == LETTER_A then EditKey(CTRL_P)
      else if c == LETTER_A + 1 then EditKey(CTRL_N)
      else if c == LETTER_A + 2 then GoRight
      else if c == LETTER_A + 3 then GoLeft
      else Ignore
    else if c == ESC then Ignore
    else EditKey(c)
  }

  function NextEsc(esc: nat, c: Byte): nat {
    if c == KEY_LF || c == KEY_RT || c == KEY_UP || c == KEY_DN then esc
    else if esc == 1 then if c == BRACKET then 2 else 0
    else if esc == 2 then 0
    else if c == ESC then 1
    else esc
  }

  function MoveW(l: Line, a: Action, s: Slip): Line {
    if a.GoLeft? && !s.left then Left(l) else if a.GoRight? && !s.right then Right(l) else l
  }

  function PressW(l: Line, raw: bool, c: Byte, s: Slip): Line {
    var m := l.(esc := NextEsc(l.esc, c));
    match Meaning(l.esc, c)
    case EditKey(k) => EditW(m, raw, k, s)
    case a => MoveW(m, a, s)
  }

  function Edit(l: Line, raw: bool, c: Byte): Line { EditW(l, raw, c, LEVEL) }

  /** handle_input while no counter wraps: arrows and escape sequences, then editing. */
  function Press(l: Line, raw: bool, c: Byte): Line { PressW(l, raw, c, LEVEL) }

  /** As much of s as leaves one byte of the buffer free. */
  function Fill(l: Line, s: seq<Byte>): Line {
    var room := CAP - 1 - |l.ready| - |l.text|;
    var n := if room <= 0 then 0 else if |s| <= room then |s| else room;
    l.(text := l.text + s[..n], at := |l.text| + n)
  }

  /** replace_input: history puts s in place of the typed text; an empty s brings the draft back. */
  function Replace(l: Line, s: seq<Byte>): Line {
    if s == [] && l.drafting then Fill(Clear(l), l.draft).(draft := [], drafting := false)
    else
      var m := Fill(Clear(if l.drafting then l else SaveDraft(l)), s);
      if s != [] && (s[0] == NEWLINE || s[0] == RETURN) then m.(draft := [], drafting := false) else m
  }

  // ----- What every step keeps -----

  /** From l to m the line still fits, ready bytes stay ready, and a text without NUL may stay so. Folded. */
  ghost predicate Follows(l: Line, m: Line, level: bool) {
    forall z: int {:trigger Seal((l, m), z)} :: Seal((l, m), z) ==>
      Fits(m) && l.ready <= m.ready && (level && Good(l) ==> Good(m))
  }

  lemma Unfold(l: Line, m: Line, level: bool)
    requires Follows(l, m, level)
    ensures Fits(m) && l.ready <= m.ready && (level && Good(l) ==> Good(m))
  {
    assert Seal((l, m), 0);
  }

  lemma CommitKeeps(l: Line, c: Byte, level: bool)
    requires Fits(l)
    ensures Follows(l, CommitIfRoom(l, c), level) && Follows(l, CommitIfRoom(l, c).(drafting := false), level)
  {
  }

  lemma ClearKeeps(l: Line, level: bool)
    requires Fits(l)
    ensures Follows(l, Clear(l), level) && Follows(l, Clear(l).(drafting := false), level)
    ensures Follows(l, SaveDraft(l), level)
  {
  }

  lemma DeleteKeeps(l: Line, slip: bool, level: bool)
    requires Fits(l)
    ensures Follows(l, DeleteW(l, slip), level)
  {
  }

  lemma InsertKeeps(l: Line, c: Byte, s: Slip)
    requires Fits(l) && Room(l) && c != 0
    ensures Follows(l, HandOver(InsertW(l, c, s)), !s.right)
  {
    var m := InsertW(l, c, s);
    assert |m.text| == |l.text| + 1;
    assert NoNul(l.text) && !s.right ==> NoNul(m.text);
  }

  /** The history keys: the draft is saved, the line cleared and the key handed to the reader. */
  lemma BrowseKeeps(l: Line, c: Byte, level: bool)
    requires Fits(l)
    ensures Follows(l, CommitIfRoom(Clear(if l.drafting then l else SaveDraft(l)), c), level)
  {
    var m := if l.drafting then l else SaveDraft(l);
    ClearKeeps(l, level);
    Unfold(l, SaveDraft(l), level);
    ClearKeeps(m, level);
    Unfold(m, Clear(m), level);
    CommitKeeps(Clear(m), c, level);
    Unfold(Clear(m), CommitIfRoom(Clear(m), c), level);
  }

  lemma EditKeeps(l: Line, raw: bool, c: Byte, s: Slip)
    requires Fits(l)
    ensures Follows(l, EditW(l, raw, c, s), !s.right)
  {
    if c == CTRL_Z {
    } else if (raw && Room(l)) || c == TAB || c == CTRL_D {
      CommitKeeps(l, c, !s.right);
    } else if c == CTRL_U {
      ClearKeeps(l, !s.right);
    } else if c == CTRL_P || c == CTRL_N {
      BrowseKeeps(l, c, !s.right);
    } else if c == CTRL_H || c == DEL {
      CommitKeeps(l, c, !s.right);
      DeleteKeeps(l, s.del, !s.right);
    } else if c == 0 || !Room(l) {
    } else if c == NEWLINE || c == RETURN {
      CommitKeeps(l, NEWLINE, !s.right);
    } else {
      InsertKeeps(l, c, s);
    }
  }

  /** Whatever the counters do, the line fits and ready bytes stay ready. */
  lemma PressKeeps(l: Line, raw: bool, c: Byte, s: Slip)
    requires Fits(l)
    ensures Fits(PressW(l, raw, c, s)) && l.ready <= PressW(l, raw, c, s).ready
    ensures Good(l) && !s.right ==> Good(PressW(l, raw, c, s))
  {
    var m := l.(esc := NextEsc(l.esc, c));
    var key := Meaning(l.esc, c);
    if key.EditKey? {
      EditKeeps(m, raw, key.c, s);
      Unfold(m, EditW(m, raw, key.c, s), !s.right);
    }
  }

  // ----- Which keys a slipped comparison spoils -----

  predicate AllSame(s: seq<Byte>) { forall k :: 0 < k < |s| ==> s[k] == s[k - 1] }

  /** The bytes that typing puts into the line, if they are not part of an escape sequence. */
  predicate Inserts(c: Byte) {
    c !in {0, NEWLINE, RETURN, TAB, DEL, CTRL_D, CTRL_H, CTRL_N, CTRL_P, CTRL_U, CTRL_Z}
  }

  predicate Spoils(l: Line, raw: bool, c: Byte, s: Slip)
    requires l.at <= |l.text|
  {
    match Meaning(l.esc, c)
    case GoLeft => s.left && l.at > 0
    case GoRight => s.right && l.at < |l.text|
    case EditKey(k) =>
      && !(raw && Room(l))
      && if k == CTRL_H || k == DEL then s.del && l.at > 0 && !AllSame(l.text[l.at - 1..])
         else Inserts(k) && Room(l) && s.right && l.at < |l.text| && !AllSame(l.text[l.at..] + [s.tail])
    case Ignore => false
  }

  /**
   * An insertion that fills the buffer hands the line over with the cursor left behind in it: the
   * walk to the end, which should have taken it there, has slipped.
   */
  predicate Strands(l: Line, raw: bool, c: Byte, s: Slip) { !(raw && Room(l)) && Inserts(c) && Fills(l, s) }

  predicate Fills(l: Line, s: Slip) { l.at < |l.text| && |l.ready| + |l.text| + 1 == CAP && s.full }

  predicate KeyStrands(l: Line, raw: bool, c: Byte, s: Slip) {
    Meaning(l.esc, c).EditKey? && Strands(l, raw, Meaning(l.esc, c).c, s)
  }

  lemma SameShifted(s: seq<Byte>)
    requires s != []
    ensures AllSame(s) <==> s[1..] == s[..|s| - 1]
  {
    if s[1..] == s[..|s| - 1] {
      forall k | 0 < k < |s| ensures s[k] == s[k - 1] { assert s[1..][k - 1] == s[..|s| - 1][k - 1]; }
    }
  }

  lemma SuffixEqual(p: seq<Byte>, s: seq<Byte>, t: seq<Byte>)
    ensures p + s == p + t <==> s == t
  {
    if p + s == p + t { assert s == (p + s)[|p|..] && t == (p + t)[|p|..]; }
  }

  lemma DeleteSpoils(l: Line)
    requires 0 < l.at <= |l.text|
    ensures DeleteW(l, true) == Delete(l) <==> AllSame(l.text[l.at - 1..])
  {
    var p, s := l.text[..l.at - 1], l.text[l.at - 1..];
    SameShifted(s);
    SuffixEqual(p, s[1..], s[..|s| - 1]);
    assert s[1..] == l.text[l.at..];
    assert l.text[..|l.text| - 1] == p + s[..|s| - 1];
  }

  lemma InsertSpoils(l: Line, c: Byte, s: Slip)
    requires l.at < |l.text| && s.right
    ensures InsertW(l, c, s).text == Insert(l, c).text <==> AllSame(l.text[l.at..] + [s.tail])
  {
    var p, t := l.text[..l.at] + [c], l.text[l.at..] + [s.tail];
    SameShifted(t);
    SuffixEqual(p, t[1..], t[..|t| - 1]);
    assert t[..|t| - 1] == l.text[l.at..];
    assert l.text[l.at := c] + [s.tail] == p + t[1..];
  }

  lemma HandOverSpoils(l: Line, m: Line)
    requires m == l.(text := m.text) && |m.text| == |l.text|
    ensures HandOver(l) == HandOver(m) <==> l.text == m.text
  {
    SuffixEqual(l.ready, l.text, m.text);
  }

  lemma EditSpoils(l: Line, raw: bool, c: Byte, s: Slip)
    requires Fits(l) && !(raw && Room(l))
    ensures EditW(l, raw, c, s) == Edit(l, raw, c) <==>
      !if c == CTRL_H || c == DEL then s.del && l.at > 0 && !AllSame(l.text[l.at - 1..])
       else Inserts(c) && Room(l) && s.right && l.at < |l.text| && !AllSame(l.text[l.at..] + [s.tail])
  {
    if (c == CTRL_H || c == DEL) && l.at > 0 && s.del { DeleteSpoils(l); }
    if Inserts(c) && Room(l) && s.right && l.at < |l.text| {
      InsertSpoils(l, c, s);
      HandOverSpoils(InsertW(l, c, s), Insert(l, c));
    }
  }

  /** A key does what it does on unbounded counters exactly when it is not spoilt. */
  lemma PressExactly(l: Line, raw: bool, c: Byte, s: Slip)
    requires Fits(l)
    ensures PressW(l, raw, c, s) == Press(l, raw, c) <==> !Spoils(l, raw, c, s)
  {
    var key := Meaning(l.esc, c);
    if key.EditKey? && !(raw && Room(l)) { EditSpoils(l.(esc := NextEsc(l.esc, c)), raw, key.c, s); }
  }

  /** So every key is safe unless the counters wrap inside the text. */
  lemma SafeKeys(l: Line, raw: bool, c: Byte, w: Word, tail: Byte)
    requires Fits(l) && w + |l.text| < WORD
    ensures PressW(l, raw, c, SlipAt(w, l.at, |l.text|, tail)) == Press(l, raw, c)
  {
    SlipsExactly(w, l.at, |l.text|, tail);
    PressExactly(l, raw, c, SlipAt(w, l.at, |l.text|, tail));
  }

  /** One byte typed at counter 2^32 - 1: the left key does nothing. */
  lemma LeftKeyLost(c: Byte, raw: bool, tail: Byte)
    ensures var l, w := Line([], [c], 1, 0, [], false), WORD - 1;
      PressW(l, raw, KEY_LF, SlipAt(w, 1, 1, tail)) == l && Press(l, raw, KEY_LF) == l.(at := 0)
  {
  }

  /** The cursor between two bytes, with a wrap between them: erasing takes the wrong one. */
  lemma ErasesWrongByte(a: Byte, b: Byte, tail: Byte)
    ensures var l := Line([], [a, b], 1, 0, [], false);
      && PressW(l, false, DEL, SlipAt(WORD - 1, 1, 2, tail)).text == [a]
      && Press(l, false, DEL).text == [b]
  {
    assert [a, b][..1] == [a] && [a, b][1..] == [b] && [a, b][..0] + [b] == [b];
  }

  /** With a wrap after both: typing overwrites, and a byte that nobody typed joins the line. */
  lemma TypesOver(a: Byte, b: Byte, c: Byte, tail: Byte)
    requires Types(c)
    ensures var l := Line([], [a, b], 1, 0, [], false);
      && PressW(l, false, c, SlipAt(WORD - 2, 1, 2, tail)).text == [a, c, tail]
      && Press(l, false, c).text == [a, c, b]
  {
    var l := Line([], [a, b], 1, 0, [], false);
    assert PressW(l, false, c, SlipAt(WORD - 2, 1, 2, tail)) == InsertW(l, c, SlipAt(WORD - 2, 1, 2, tail));
    assert Press(l, false, c) == Insert(l, c);
  }

  // ----- Replacing the line -----

  lemma ReplaceKeeps(l: Line, s: seq<Byte>)
    requires Fits(l) && NoNul(s)
    ensures Fits(Replace(l, s)) && Replace(l, s).ready == l.ready && (Good(l) ==> Good(Replace(l, s)))
  {
    var m := if l.drafting then l else SaveDraft(l);
    ClearKeeps(l, true);
    Unfold(l, SaveDraft(l), true);
    if s == [] && l.drafting { RefillKeeps(l, l.draft); } else { RefillKeeps(m, s); }
  }

  lemma RefillKeeps(l: Line, s: seq<Byte>)
    requires Fits(l) && NoNul(s)
    ensures var m := Fill(Clear(l), s);
      Fits(m) && m == l.(text := m.text, at := m.at) && (Good(l) ==> Good(m))
  {
    ClearKeeps(l, true);
    Unfold(l, Clear(l), true);
    FillKeeps(Clear(l), s);
  }

  lemma FillKeeps(l: Line, s: seq<Byte>)
    requires Fits(l) && NoNul(s)
    ensures Fits(Fill(l, s)) && (Good(l) ==> Good(Fill(l, s)))
    ensures Fill(l, s) == l.(text := Fill(l, s).text, at := Fill(l, s).at)
  {
    var t := Fill(l, s).text;
    assert forall k :: 0 <= k < |t| ==> t[k] == if k < |l.text| then l.text[k] else s[k - |l.text|];
  }

  // ----- Keys that undo each other -----

  /** The bytes that typing puts into the line. */
  predicate Types(c: Byte) { Inserts(c) && c !in {ESC, KEY_UP, KEY_DN, KEY_LF, KEY_RT} }

  lemma WithoutWith(t: seq<Byte>, i: nat, c: Byte)
    requires i <= |t|
    ensures Without(With(t, i, c, false, 0), i + 1, false) == t
  {
    var r := With(t, i, c, false, 0);
    assert r[..i] == t[..i] && r[i + 1..] == t[i..];
    assert t[..i] + t[i..] == t;
  }

  lemma TypedPlain(l: Line, c: Byte)
    requires Fits(l) && l.esc == 0 && |l.ready| + |l.text| + 1 < CAP && Types(c)
    ensures Press(l, false, c) == Insert(l, c)
  {
    var m := Insert(l, c);
    assert |m.text| == |l.text| + 1 && Room(m);
  }

  lemma ErasedPlain(l: Line, c: Byte)
    requires l.esc == 0 && 0 < l.at <= |l.text| && (c == DEL || c == CTRL_H)
    ensures Press(l, false, c) == Delete(l)
  {
  }

  /** Typing a byte anywhere in the line and erasing it gives the line back, unless it filled the buffer. */
  lemma EraseUndoesTyping(l: Line, c: Byte)
    requires Fits(l) && l.esc == 0 && |l.ready| + |l.text| + 1 < CAP && Types(c)
    ensures Press(Press(l, false, c), false, DEL) == l && Press(Press(l, false, c), false, CTRL_H) == l
  {
    TypedPlain(l, c);
    ErasedPlain(Insert(l, c), DEL);
    ErasedPlain(Insert(l, c), CTRL_H);
    WithoutWith(l.text, l.at, c);
  }

  // ----- Runs -----

  /** A key comes with the comparisons that slip when it is pressed. */
  datatype Event = Key(c: Byte, slip: Slip) | History(s: seq<Byte>) | Take

  /** The editor and every byte readers have taken so far. */
  datatype Session = Session(line: Line, taken: seq<Byte>)

  function Do(x: Session, raw: bool, ev: Event): Session {
    match ev
    case Key(c, slip) => x.(line := PressW(x.line, raw, c, slip))
    case History(s) => x.(line := Replace(x.line, s))
    case Take => if x.line.ready == [] then x else Session(x.line.(ready := x.line.ready[1..]), x.taken + [x.line.ready[0]])
  }

  function Run(x: Session, raw: bool, evs: seq<Event>): Session
    decreases |evs|
  {
    if evs == [] then x else Do(Run(x, raw, evs[..|evs| - 1]), raw, evs[|evs| - 1])
  }

  ghost predicate Sendable(evs: seq<Event>) {
    forall k :: 0 <= k < |evs| && evs[k].History? ==> NoNul(evs[k].s)
  }

  /** Everything committed so far, in order: what readers took and what waits for them. */
  function Stream(x: Session): seq<Byte> { x.taken + x.line.ready }

  lemma DoKeeps(x: Session, raw: bool, ev: Event)
    requires Fits(x.line) && (ev.History? ==> NoNul(ev.s))
    ensures Fits(Do(x, raw, ev).line) && Stream(x) <= Stream(Do(x, raw, ev)) && x.taken <= Do(x, raw, ev).taken
  {
    match ev
    case Key(c, slip) => PressKeeps(x.line, raw, c, slip);
    case History(s) => ReplaceKeeps(x.line, s);
    case Take =>
      if x.line.ready != [] { assert x.line.ready == [x.line.ready[0]] + x.line.ready[1..]; }
  }

  /** Every run keeps the invariant; committed bytes are delivered once, in order and unaltered. */
  lemma {:induction false} RunKeeps(x: Session, raw: bool, evs: seq<Event>)
    requires Fits(x.line) && Sendable(evs)
    ensures Fits(Run(x, raw, evs).line) && Stream(x) <= Stream(Run(x, raw, evs))
    decreases |evs|
  {
    if evs != [] {
      RunKeeps(x, raw, evs[..|evs| - 1]);
      DoKeeps(Run(x, raw, evs[..|evs| - 1]), raw, evs[|evs| - 1]);
    }
  }

  /** A byte committed at some point of a run stays where it is in the stream for the rest of it. */
  lemma {:induction false} StreamGrows(x: Session, raw: bool, evs: seq<Event>, i: nat)
    requires Fits(x.line) && Sendable(evs) && i <= |evs|
    ensures Stream(Run(x, raw, evs[..i])) <= Stream(Run(x, raw, evs))
    decreases |evs|
  {
    if i == |evs| {
      assert evs[..i] == evs;
    } else {
      var front := evs[..|evs| - 1];
      StreamGrows(x, raw, front, i);
      assert front[..i] == evs[..i];
      RunKeeps(x, raw, front);
      DoKeeps(Run(x, raw, front), raw, evs[|evs| - 1]);
    }
  }

  /** Neither side is ever stuck: there is a byte to take, or there is room to type. */
  lemma NeverStuck(x: Session, raw: bool, evs: seq<Event>)
    requires Fits(x.line) && Sendable(evs)
    ensures var l := Run(x, raw, evs).line; l.ready != [] || Room(l)
  {
    RunKeeps(x, raw, evs);
  }

  // ----- Reading -----

  /** What one stretch of consoleread, with n of `target` bytes still wanted, does to the ready bytes. */
  datatype Delivery = Delivery(got: seq<Byte>, rest: seq<Byte>, done: bool)

  function Deliver(q: seq<Byte>, target: nat, n: nat, raw: bool): Delivery
    decreases n
  {
    if n == 0 then Delivery([], q, true)
    else if q == [] then Delivery([], q, false)
    else if q[0] == CTRL_D then Delivery([], if n < target then q else q[1..], true)
    else if raw || q[0] == NEWLINE then Delivery([q[0]], q[1..], true)
    else var d := Deliver(q[1..], target, n - 1, raw); d.(got := [q[0]] + d.got)
  }

  /** d hands over bytes of q in order, `eof` of them being a swallowed end-of-file mark. */
  ghost predicate InOrder(d: Delivery, q: seq<Byte>, eof: seq<Byte>, n: nat) {
    && |d.got| <= n && CTRL_D !in d.got && q == d.got + eof + d.rest
    && (!d.done ==> d.rest == [] && NEWLINE !in d.got)
    && (d.done && |d.got| < n ==> (|d.got| > 0 && d.got[|d.got| - 1] == NEWLINE) || (eof + d.rest != [] && (eof + d.rest)[0] == CTRL_D))
  }

  /** An ordinary byte first. */
  lemma OneMore(d: Delivery, q: seq<Byte>, n: nat)
    requires n > 0 && q != [] && q[0] != CTRL_D && q[0] != NEWLINE && InOrder(d, q[1..], [], n - 1)
    ensures InOrder(d.(got := [q[0]] + d.got), q, [], n)
  {
    var got := [q[0]] + d.got;
    assert q == [q[0]] + q[1..];
    assert q == got + [] + d.rest;
    assert d.got != [] ==> got[|got| - 1] == d.got[|d.got| - 1];
  }

  lemma {:induction false} ContinuesInOrder(q: seq<Byte>, target: nat, n: nat)
    requires n < target
    ensures InOrder(Deliver(q, target, n, false), q, [], n)
    decreases n
  {
    if n > 0 && q != [] && q[0] != CTRL_D && q[0] != NEWLINE {
      ContinuesInOrder(q[1..], target, n - 1);
      OneMore(Deliver(q[1..], target, n - 1, false), q, n);
    }
  }

  /**
   * A read takes a prefix of the ready bytes in order and returns all of it, except an end-of-file
   * mark, which it swallows only when it is the first byte wanted. It ends short of n bytes only
   * after a newline or at an end-of-file mark.
   */
  lemma DeliversInOrder(q: seq<Byte>, n: nat)
    requires n > 0
    ensures InOrder(Deliver(q, n, n, false), q, if q != [] && q[0] == CTRL_D then [CTRL_D] else [], n)
  {
    if q != [] && q[0] != CTRL_D && q[0] != NEWLINE {
      ContinuesInOrder(q[1..], n, n - 1);
      OneMore(Deliver(q[1..], n, n - 1, false), q, n);
    }
  }

  // ----- The history draft -----

  /** Moving through history: the history keys, non-empty replacements and reads. */
  ghost predicate Browsing(evs: seq<Event>) {
    forall k :: 0 <= k < |evs| ==>
      match evs[k]
      case Key(c, _) => c == CTRL_P || c == CTRL_N || c == KEY_UP || c == KEY_DN
      case History(s) => s != [] && s[0] != RETURN && NoNewline(s) && NoNul(s)
      case Take => true
  }

  lemma ClearPlain(l: Line)
    requires NoNewline(l.text)
    ensures Clear(l).text == [] && Clear(l).at == 0
  {
  }

  lemma FillPlain(l: Line, s: seq<Byte>)
    requires NoNewline(l.text) && NoNewline(s)
    ensures NoNewline(Fill(l, s).text)
  {
  }

  /** While browsing, the draft is kept. */
  lemma {:induction false} DraftKept(x: Session, evs: seq<Event>)
    requires Fits(x.line) && x.line.drafting && x.line.esc == 0 && NoNewline(x.line.text) && Browsing(evs)
    ensures var l := Run(x, false, evs).line;
      Fits(l) && l.drafting && l.draft == x.line.draft && NoNewline(l.text) && l.esc == 0
    decreases |evs|
  {
    if evs != [] {
      var front, ev := evs[..|evs| - 1], evs[|evs| - 1];
      DraftKept(x, front);
      var y := Run(x, false, front);
      match ev
      case Key(c, slip) => BrowseKey(y.line, c, slip);
      case History(s) => BrowseReplace(y.line, s);
      case Take =>
    }
  }

  ghost predicate Drafting(l: Line) { Fits(l) && l.drafting && l.esc == 0 && NoNewline(l.text) }

  lemma BrowseKey(l: Line, c: Byte, s: Slip)
    requires Drafting(l) && (c == CTRL_P || c == CTRL_N || c == KEY_UP || c == KEY_DN)
    ensures Drafting(PressW(l, false, c, s)) && PressW(l, false, c, s).draft == l.draft
  {
    PressKeeps(l, false, c, s);
    ClearPlain(l);
  }

  lemma BrowseReplace(l: Line, s: seq<Byte>)
    requires Drafting(l) && s != [] && s[0] != RETURN && NoNewline(s) && NoNul(s)
    ensures Drafting(Replace(l, s)) && Replace(l, s).draft == l.draft
  {
    ReplaceKeeps(l, s);
    ClearPlain(l);
    FillPlain(Clear(l), s);
  }

  /**
   * Typing a line, going into history, browsing and coming back to the empty entry restores the
   * line as it was typed, if what waits for readers leaves room for it.
   */
  lemma DraftRestored(x: Session, evs: seq<Event>, slip: Slip)
    requires Good(x.line) && !x.line.drafting && x.line.esc == 0 && NoNewline(x.line.text) && Browsing(evs)
    ensures var up := Do(x, false, Key(CTRL_P, slip)); var y := Run(up, false, evs);
      |y.line.ready| + |x.line.text| < CAP ==>
        Do(y, false, History([])).line.text == x.line.text && !Do(y, false, History([])).line.drafting
  {
    var up := Do(x, false, Key(CTRL_P, slip));
    ClearPlain(SaveDraft(x.line));
    PressKeeps(x.line, false, CTRL_P, slip);
    DraftKept(up, evs);
    ClearPlain(Run(up, false, evs).line);
  }
}
