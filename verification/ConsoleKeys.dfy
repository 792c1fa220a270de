/**
 * What each key of the console does to the line, said outright, and what a line typed and edited with
 * them delivers to the reader. The editor the keys are compared with is two strings, the bytes before
 * and after the cursor.
 */
module ConsoleKeys {
  import opened ConsoleLine

  // ----- Key by key -----

  /** Return hands over the line, wherever the cursor is and whatever the counters do. */
  lemma ReturnKey(l: Line, c: Byte, s: Slip)
    requires l.esc == 0 && (c == NEWLINE || c == RETURN)
    ensures PressW(l, false, c, s) ==
      if |l.ready| + |l.text| < CAP then Line(l.ready + l.text + [NEWLINE], [], 0, 0, l.draft, false) else l
  {
  }

  /** Control-D hands it over with an end-of-file mark. */
  lemma EndKey(l: Line, s: Slip)
    requires l.esc == 0
    ensures PressW(l, false, CTRL_D, s) ==
      if |l.ready| + |l.text| < CAP then Line(l.ready + l.text + [CTRL_D], [], 0, 0, l.draft, false) else l
  {
  }

  /** Tab hands it to the shell's completion and keeps the draft. */
  lemma TabKey(l: Line, s: Slip)
    requires l.esc == 0
    ensures PressW(l, false, TAB, s) ==
      if |l.ready| + |l.text| < CAP then Line(l.ready + l.text + [TAB], [], 0, 0, l.draft, l.drafting) else l
  {
  }

  /** In raw mode every byte is ready at once. */
  lemma RawKey(l: Line, c: Byte, s: Slip)
    requires l.esc == 0 && c !in {CTRL_Z, ESC, KEY_UP, KEY_DN, KEY_LF, KEY_RT} && |l.ready| + |l.text| < CAP
    ensures PressW(l, true, c, s) == Line(l.ready + l.text + [c], [], 0, 0, l.draft, l.drafting)
  {
  }

  /** t is s up to its last newline. */
  ghost predicate Kept(s: seq<Byte>, t: seq<Byte>) {
    t <= s && NoNewline(s[|t|..]) && (t == [] || t[|t| - 1] == NEWLINE)
  }

  /** Control-U erases back to the last newline, so as a rule everything. */
  lemma KillKey(l: Line, s: Slip)
    requires l.esc == 0
    ensures var m := PressW(l, false, CTRL_U, s);
      && m == Line(l.ready, m.text, |m.text|, 0, l.draft, false) && Kept(l.text, m.text)
      && (NoNewline(l.text) ==> m.text == [])
  {
    if NoNewline(l.text) { ClearPlain(l); }
  }

  /** A history key saves the line, unless one is saved already, clears it and is handed over itself. */
  lemma HistoryKey(l: Line, c: Byte, s: Slip)
    requires Good(l) && NoNewline(l.text) && |l.ready| < CAP && (c == KEY_UP || c == KEY_DN || (l.esc == 0 && (c == CTRL_P || c == CTRL_N)))
    ensures var key := if c == KEY_UP || c == CTRL_P then CTRL_P else CTRL_N;
      PressW(l, false, c, s) == Line(l.ready + [key], [], 0, l.esc, if l.drafting then l.draft else l.text, true)
  {
    ClearPlain(l);
    ClearPlain(SaveDraft(l));
  }

  /** Left and right move the cursor inside the line, as bytes of their own and as escape sequences. */
  lemma ArrowKeys(l: Line, raw: bool)
    requires l.at <= |l.text|
    ensures Press(l, raw, KEY_LF) == l.(at := if l.at > 0 then l.at - 1 else 0)
    ensures Press(l, raw, KEY_RT) == l.(at := if l.at < |l.text| then l.at + 1 else l.at)
    ensures l.esc == 0 ==> Press(Press(Press(l, raw, ESC), raw, BRACKET), raw, LETTER_A + 3) == Press(l, raw, KEY_LF)
    ensures l.esc == 0 ==> Press(Press(Press(l, raw, ESC), raw, BRACKET), raw, LETTER_A + 2) == Press(l, raw, KEY_RT)
  {
  }

  /** ESC [ A and ESC [ B are the history keys, and any other sequence is swallowed. */
  lemma Sequences(l: Line, c: Byte, s: Slip)
    requires l.esc == 0 && c !in {KEY_UP, KEY_DN, KEY_LF, KEY_RT}
    ensures var m := PressW(PressW(l, false, ESC, s), false, BRACKET, s);
      && m == l.(esc := 2)
      && PressW(m, false, LETTER_A, s) == PressW(l, false, KEY_UP, s) && PressW(m, false, LETTER_A + 1, s) == PressW(l, false, KEY_DN, s)
      && (c !in {LETTER_A, LETTER_A + 1, LETTER_A + 2, LETTER_A + 3} ==> PressW(m, false, c, s) == l)
    ensures c != BRACKET ==> PressW(PressW(l, false, ESC, s), false, c, s) == l
  {
  }

  /** Erasing takes the byte before the cursor; at the start of the line the key is handed over. */
  lemma EraseKey(l: Line, c: Byte)
    requires l.esc == 0 && l.at <= |l.text| && (c == DEL || c == CTRL_H)
    ensures l.at > 0 ==> Press(l, false, c) == l.(text := l.text[..l.at - 1] + l.text[l.at..], at := l.at - 1)
    ensures l.at == 0 && |l.ready| + |l.text| < CAP ==> Press(l, false, c) == Line(l.ready + l.text + [c], [], 0, 0, l.draft, l.drafting)
    ensures l.at == 0 && |l.ready| + |l.text| >= CAP ==> Press(l, false, c) == l
  {
  }

  /** Any other byte goes in at the cursor, and a line that fills the buffer is handed over. */
  lemma TypeKey(l: Line, c: Byte)
    requires l.esc == 0 && l.at <= |l.text| && Types(c)
    ensures var t := l.text[..l.at] + [c] + l.text[l.at..];
      Press(l, false, c) ==
        if |l.ready| + |l.text| >= CAP then l
        else if |l.ready| + |l.text| + 1 < CAP then l.(text := t, at := l.at + 1)
        else l.(ready := l.ready + t, text := [], at := 0)
  {
    assert |l.text[..l.at] + [c] + l.text[l.at..]| == |l.text| + 1;
  }

  /** NUL and control-Z leave the line alone. */
  lemma DeadKeys(l: Line, raw: bool, s: Slip)
    requires l.esc == 0
    ensures PressW(l, raw, CTRL_Z, s) == l && PressW(l, false, 0, s) == l
  {
  }

  /** History's text takes the place of the line, cut where the buffer ends, with the cursor after it. */
  lemma ReplacesLine(l: Line, s: seq<Byte>)
    requires Good(l) && NoNewline(l.text) && s != [] && s[0] != NEWLINE && s[0] != RETURN && |l.ready| < CAP
    ensures var room := CAP - 1 - |l.ready|;
      var t := if |s| <= room then s else s[..room];
      Replace(l, s) == Line(l.ready, t, |t|, l.esc, if l.drafting then l.draft else l.text, true)
  {
    var m := if l.drafting then l else SaveDraft(l);
    ClearPlain(m);
    FillsEmpty(Clear(m), s);
  }

  lemma FillsEmpty(l: Line, s: seq<Byte>)
    requires l.text == [] && |l.ready| < CAP
    ensures var room := CAP - 1 - |l.ready|;
      var t := if |s| <= room then s else s[..room];
      Fill(l, s) == l.(text := t, at := |t|)
  {
    assert s[..|s|] == s;
  }

  // ----- Lines -----

  /** The bytes before and after the cursor. */
  datatype Split = Split(left: seq<Byte>, right: seq<Byte>)

  predicate Edits(c: Byte) { Types(c) || c == DEL || c == CTRL_H || c == KEY_LF || c == KEY_RT }

  function Pressed(z: Split, c: Byte): Split {
    if c == KEY_LF then if z.left == [] then z else Split(z.left[..|z.left| - 1], [z.left[|z.left| - 1]] + z.right)
    else if c == KEY_RT then if z.right == [] then z else Split(z.left + [z.right[0]], z.right[1..])
    else if c == DEL || c == CTRL_H then if z.left == [] then z else Split(z.left[..|z.left| - 1], z.right)
    else Split(z.left + [c], z.right)
  }

  function Typing(z: Split, keys: seq<Byte>): Split
    decreases |keys|
  {
    if keys == [] then z else Pressed(Typing(z, keys[..|keys| - 1]), keys[|keys| - 1])
  }

  /** The keys edit: no byte is typed into a full buffer, and none is erased before the start of the line. */
  ghost predicate Editing(z: Split, keys: seq<Byte>, ready: nat) {
    forall k :: 0 <= k < |keys| ==>
      && Edits(keys[k])
      && var y := Typing(z, keys[..k]);
         && (Types(keys[k]) ==> ready + |y.left| + |y.right| + 1 < CAP)
         && (keys[k] == DEL || keys[k] == CTRL_H ==> y.left != [])
  }

  ghost function KeyEvents(keys: seq<Byte>): seq<Event> { seq(|keys|, k requires 0 <= k < |keys| => Key(keys[k], LEVEL)) }

  function SplitOf(l: Line): Split
    requires l.at <= |l.text|
  {
    Split(l.text[..l.at], l.text[l.at..])
  }

  lemma PressSplits(l: Line, c: Byte)
    requires l.esc == 0 && l.at <= |l.text| && Edits(c) && (Types(c) ==> |l.ready| + |l.text| + 1 < CAP) && (c == DEL || c == CTRL_H ==> l.at > 0)
    ensures var m, z := Press(l, false, c), Pressed(SplitOf(l), c);
      m == l.(text := z.left + z.right, at := |z.left|)
  {
    if c == KEY_LF || c == KEY_RT {
      ArrowPress(l, c);
    } else if c == DEL || c == CTRL_H {
      EraseKey(l, c);
      ArrowSplits(l.text, l.at);
    } else {
      TypeKey(l, c);
    }
  }

  lemma ArrowPress(l: Line, c: Byte)
    requires l.at <= |l.text| && (c == KEY_LF || c == KEY_RT)
    ensures var m, z := Press(l, false, c), Pressed(SplitOf(l), c);
      m == l.(at := |z.left|) && z.left + z.right == l.text
  {
    ArrowKeys(l, false);
    ArrowSplits(l.text, l.at);
  }

  /** The cursor moves over one byte. */
  lemma ArrowSplits(t: seq<Byte>, i: nat)
    requires i <= |t|
    ensures t[..i] + t[i..] == t
    ensures i > 0 ==> t[..i][..i - 1] == t[..i - 1] && t[..i - 1] + ([t[..i][i - 1]] + t[i..]) == t
    ensures i < |t| ==> (t[..i] + [t[i..][0]]) + t[i..][1..] == t
  {
  }

  lemma {:induction false} TypingRuns(x: Session, keys: seq<Byte>)
    requires Fits(x.line) && x.line.esc == 0 && Editing(SplitOf(x.line), keys, |x.line.ready|)
    ensures var y, z := Run(x, false, KeyEvents(keys)), Typing(SplitOf(x.line), keys);
      y == x.(line := x.line.(text := z.left + z.right, at := |z.left|))
    decreases |keys|
  {
    var l := x.line;
    if keys == [] {
      assert l.text == l.text[..l.at] + l.text[l.at..];
    } else {
      var front, c := keys[..|keys| - 1], keys[|keys| - 1];
      EditingFront(SplitOf(l), keys, |l.ready|);
      TypingRuns(x, front);
      var y, z := Run(x, false, KeyEvents(front)), Typing(SplitOf(l), front);
      assert KeyEvents(keys)[..|keys| - 1] == KeyEvents(front) && KeyEvents(keys)[|keys| - 1] == Key(c, LEVEL);
      assert SplitOf(y.line) == z;
      PressSplits(y.line, c);
    }
  }

  lemma EditingFront(z: Split, keys: seq<Byte>, ready: nat)
    requires Editing(z, keys, ready) && keys != []
    ensures var front, c := keys[..|keys| - 1], keys[|keys| - 1]; var y := Typing(z, front);
      && Editing(z, front, ready) && Edits(c)
      && (Types(c) ==> ready + |y.left| + |y.right| + 1 < CAP) && (c == DEL || c == CTRL_H ==> y.left != [])
  {
    var front := keys[..|keys| - 1];
    forall k | 0 <= k < |front| ensures front[..k] == keys[..k] && front[k] == keys[k] {}
  }

  /**
   * A line typed and edited with the keys, from whatever was there, followed by Return: what the
   * readers' stream grows by is the edited line and a newline, and nothing is left being typed.
   */
  lemma TypedLine(x: Session, keys: seq<Byte>, c: Byte, slip: Slip)
    requires Fits(x.line) && x.line.esc == 0 && Editing(SplitOf(x.line), keys, |x.line.ready|) && (c == NEWLINE || c == RETURN)
    ensures var z := Typing(SplitOf(x.line), keys); var y := Do(Run(x, false, KeyEvents(keys)), false, Key(c, slip));
      |x.line.ready| + |z.left| + |z.right| < CAP ==> Stream(y) == Stream(x) + (z.left + z.right + [NEWLINE]) && y.line.text == []
  {
    TypingRuns(x, keys);
    ReturnKey(Run(x, false, KeyEvents(keys)).line, c, slip);
  }

  lemma {:induction false} DeliversAll(q: seq<Byte>, target: nat, n: nat)
    requires |q| < n && n <= target && CTRL_D !in q && NEWLINE !in q
    ensures Deliver(q + [NEWLINE], target, n, false) == Delivery(q + [NEWLINE], [], true)
    decreases |q|
  {
    if q != [] {
      assert (q + [NEWLINE])[1..] == q[1..] + [NEWLINE] && (q + [NEWLINE])[0] == q[0];
      assert q[0] in q;
      DeliversAll(q[1..], target, n - 1);
      assert [q[0]] + (q[1..] + [NEWLINE]) == q + [NEWLINE];
    }
  }

  /** From an idle console: a read of enough bytes returns the line as it was edited, with its newline. */
  lemma ReadsTypedLine(x: Session, keys: seq<Byte>, n: nat)
    requires Fits(x.line) && x.line.esc == 0 && x.line.ready == [] && x.line.text == [] && Editing(Split([], []), keys, 0)
    ensures var z := Typing(Split([], []), keys); var y := Do(Run(x, false, KeyEvents(keys)), false, Key(RETURN, LEVEL));
      |z.left| + |z.right| < n && |z.left| + |z.right| < CAP ==>
        Deliver(y.line.ready, n, n, false) == Delivery(z.left + z.right + [NEWLINE], [], true)
  {
    assert SplitOf(x.line) == Split([], []);
    TypingRuns(x, keys);
    ReturnKey(Run(x, false, KeyEvents(keys)).line, RETURN, LEVEL);
    TypedBytes(keys);
    var z := Typing(Split([], []), keys);
    assert [] + (z.left + z.right) + [NEWLINE] == z.left + z.right + [NEWLINE];
    if |z.left| + |z.right| < n { DeliversAll(z.left + z.right, n, n); }
  }

  /** Edited lines hold typed bytes only. */
  lemma {:induction false} TypedBytes(keys: seq<Byte>)
    requires forall k :: 0 <= k < |keys| ==> Edits(keys[k])
    ensures var z := Typing(Split([], []), keys); forall b :: b in z.left + z.right ==> Types(b)
    decreases |keys|
  {
    if keys != [] { TypedBytes(keys[..|keys| - 1]); }
  }

  /** In raw mode a read takes one byte. */
  lemma RawRead(q: seq<Byte>, n: nat)
    requires q != [] && n > 0 && q[0] != CTRL_D
    ensures Deliver(q, n, n, true) == Delivery([q[0]], q[1..], true)
  {
  }
}
