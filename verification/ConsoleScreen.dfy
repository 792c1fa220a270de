/** The text screen of src/console.c: 24 rows of 80 cells, a hardware cursor, and scrolling. */
module ConsoleScreen {
  import opened Common
  import opened ConsoleLine

  const WIDTH := 80
  const CELLS := 1920
  const BLANK: Byte := 32

  /** Counters run past the buffer's size; byte k lives in slot k mod 128. */
  function Slot(b: seq<Byte>, k: int): Byte { if |b| == CAP then b[k % CAP] else 0 }

  /** The array holds these bytes. */
  ghost predicate Holds(b: array<Byte>, ring: seq<Byte>) reads b {
    b.Length == |ring| == CAP && forall i :: 0 <= i < CAP ==> b[i] == ring[i]
  }

  /** Bytes i, i + 1, ... of the buffer are t. */
  ghost predicate Matches(ring: seq<Byte>, i: int, t: seq<Byte>) {
    forall k {:trigger t[k]} :: 0 <= k < |t| ==> Slot(ring, i + k) == t[k]
  }

  /** Matches, folded. */
  ghost predicate Found(ring: seq<Byte>, i: int, t: seq<Byte>) {
    forall z: int {:trigger Seal((ring, i), z)} :: Seal((ring, i), z) ==> Matches(ring, i, t)
  }

  class Screen {
    const crt: array<Byte>
    var pos: nat
    /** How many cells have scrolled off the top: cells are numbered from the first one ever shown. */
    ghost var top: nat

    ghost predicate Valid() reads this { crt.Length == CELLS && pos < CELLS }

    ghost function Place(): int reads this { top + pos }

    ghost function Cell(x: int): Byte reads this, crt {
      if crt.Length == CELLS && top <= x < top + CELLS then crt[x - top] else BLANK
    }

    constructor ()
      ensures Valid() && fresh(crt) && pos == 0 && top == 0
    {
      crt := new Byte[CELLS](_ => BLANK);
      pos, top := 0, 0;
    }

    /** Row 24 does not exist: everything moves up a row and the last row is blanked. */
    method Scroll()
      requires crt.Length == CELLS && pos == CELLS
      modifies this, crt
      ensures Valid() && pos == CELLS - WIDTH && top == old(top) + WIDTH
      ensures forall x :: top <= x < top + CELLS - WIDTH ==> Cell(x) == old(Cell(x))
      ensures forall x :: top + CELLS - WIDTH <= x ==> Cell(x) == BLANK
    {
      for i := 0 to CELLS - WIDTH
        invariant pos == CELLS && top == old(top)
        invariant forall k :: 0 <= k < i ==> crt[k] == old(crt[k + WIDTH])
        invariant forall k :: i <= k < CELLS ==> crt[k] == old(crt[k])
      {
        crt[i] := crt[i + WIDTH];
      }
      pos := pos - WIDTH;
      top := top + WIDTH;
      for i := CELLS - WIDTH to CELLS
        invariant pos == CELLS - WIDTH && top == old(top) + WIDTH
        invariant forall k :: 0 <= k < CELLS - WIDTH ==> crt[k] == old(crt[k + WIDTH])
        invariant forall k :: CELLS - WIDTH <= k < i ==> crt[k] == BLANK
      {
        crt[i] := BLANK;
      }
    }

    /** One character at the cursor; a newline moves the cursor to the next row. */
    method Putc(c: Byte)
      requires Valid()
      modifies this, crt
      ensures Valid()
      ensures c == NEWLINE ==>
        && Place() == old(Place()) + WIDTH - old(pos) % WIDTH
        && forall x :: top <= x && x < old(top) + CELLS ==> Cell(x) == old(Cell(x))
      ensures c != NEWLINE ==>
        && Place() == old(Place()) + 1 && Cell(old(Place())) == c
        && (forall x :: top <= x && x < old(Place()) ==> Cell(x) == old(Cell(x)))
        && (top == old(top) || top == Place() - (CELLS - WIDTH))
        && (old(pos) + 1 < CELLS ==> top == old(top) && forall x :: x > old(Place()) ==> Cell(x) == old(Cell(x)))
    {
      if c == NEWLINE {
        pos := pos + WIDTH - pos % WIDTH;
      } else {
        crt[pos] := c;
        pos := pos + 1;
      }
      if pos / WIDTH >= 24 {
        Scroll();
      }
    }

    /** consputc(BACKSPACE): one cell back, and blank it. */
    method Erase()
      requires Valid()
      modifies this`pos, crt
      ensures Valid() && (old(pos) > 0 ==>
        && Place() == old(Place()) - 1 && Cell(Place()) == BLANK
        && forall x :: x != Place() ==> Cell(x) == old(Cell(x)))
    {
      if pos > 0 {
        pos := pos - 1;
        crt[pos] := BLANK;
      }
    }

    /** cons_cursor_left, n times. */
    method Lefts(n: nat)
      requires Valid()
      modifies this`pos
      ensures Valid() && pos == if n <= old(pos) then old(pos) - n else 0
    {
      for i := 0 to n
        invariant Valid() && pos == if i <= old(pos) then old(pos) - i else 0
      {
        if pos > 0 { pos := pos - 1; }
      }
    }

    /** Writes bytes i to j of the buffer, which are t, one character each. */
    method PutSlots(b: array<Byte>, i: nat, j: nat, ghost ring: seq<Byte>, ghost t: seq<Byte>)
      requires Valid() && b != crt && Holds(b, ring) && Found(ring, i, t) && j == i + |t|
      modifies this, crt
      ensures Valid()
      ensures NoNewline(t) ==>
        && Place() == old(Place()) + |t|
        && (forall k :: 0 <= k < |t| && top <= old(Place()) + k ==> Cell(old(Place()) + k) == t[k])
        && (forall x :: top <= x && x < old(Place()) ==> Cell(x) == old(Cell(x)))
        && (top == old(top) || top <= Place() - (CELLS - WIDTH))
        && (old(pos) + |t| < CELLS ==> top == old(top) && forall x :: x >= Place() ==> Cell(x) == old(Cell(x)))
    {
      ghost var p0 := Place();
      assert Seal<(seq<Byte>, int)>((ring, i), 0);
      var n := i;
      while n < j
        invariant i <= n <= j && Valid() && Holds(b, ring)
        invariant NoNewline(t) ==>
          && Place() == p0 + (n - i)
          && (forall k :: 0 <= k < n - i && top <= p0 + k ==> Cell(p0 + k) == t[k])
          && (forall x :: top <= x && x < p0 ==> Cell(x) == old(Cell(x)))
          && (top == old(top) || top <= Place() - (CELLS - WIDTH))
          && (old(pos) + (n - i) < CELLS ==> top == old(top) && forall x :: x >= Place() ==> Cell(x) == old(Cell(x)))
      {
        assert t[n - i] == Slot(ring, n) == b[n % CAP];
        Putc(b[n % CAP]);
        n := n + 1;
      }
    }

    /** Text t stands from cell `base` on, and the cursor is at its index `at`. */
    ghost predicate Shows(base: int, t: seq<Byte>, at: int) reads this, crt {
      && top <= base && base + |t| < top + CELLS && Place() == base + at
      && forall k :: 0 <= k < |t| ==> Cell(base + k) == t[k]
    }

    /** A character typed at the end of the text. */
    method Append(c: Byte, ghost base: int, ghost t: seq<Byte>)
      requires Valid() && |t| < CAP
      modifies this, crt
      ensures Valid() && (c != NEWLINE && old(Shows(base, t, |t|)) ==> Shows(base, t + [c], |t| + 1))
    {
      Putc(c);
    }

    /** After a deletion left the text t where it was t0: n bytes of it, from counter i, stand after the cursor. */
    method RedrawDeleted(b: array<Byte>, i: nat, n: nat, ghost ring: seq<Byte>, ghost base: int, ghost t0: seq<Byte>, ghost t: seq<Byte>)
      requires Valid() && b != crt && Holds(b, ring) && n <= |t| < CAP && Found(ring, i, t[|t| - n..])
      requires |t0| == |t| + 1 && t0[..|t| - n] == t[..|t| - n]
      modifies this, crt
      ensures Valid()
      ensures NoNewline(t) && old(Shows(base, t0, |t| - n + 1)) ==> Shows(base, t, |t| - n)
    {
      ghost var s := t[|t| - n..];
      assert NoNewline(t) ==> NoNewline(s);
      Erase();
      PutSlots(b, i, i + n, ring, s);
      Putc(BLANK);
      Lefts(n + 1);
      if NoNewline(t) && old(Shows(base, t0, |t| - n + 1)) {
        forall k | 0 <= k < |t| ensures Cell(base + k) == t[k] {
          if k >= |t| - n { assert t[k] == s[k - (|t| - n)]; } else { assert t[k] == t0[k]; }
        }
      }
    }

    /**
     * After an insertion at the cursor, whose counter is i; i' is the counter after it and j that of
     * the new end. The redraw is skipped when j is not above i.
     */
    method RedrawInserted(b: array<Byte>, i: nat, i': nat, j: nat, ghost ring: seq<Byte>, ghost base: int, ghost t: seq<Byte>, ghost at: nat, ghost c: Byte)
      requires Valid() && b != crt && Holds(b, ring) && at <= |t| < CAP
      requires i < j ==> i' == i + 1 && j == i + 1 + |t| - at && Found(ring, i, [c] + t[at..])
      modifies this, crt
      ensures Valid()
      ensures i < j && NoNewline(t) && c != NEWLINE && old(Shows(base, t, at)) ==> Shows(base, t[..at] + [c] + t[at..], at + 1)
    {
      ghost var s := [c] + t[at..];
      assert NoNewline(t) && c != NEWLINE ==> NoNewline(s);
      if i < j { PutSlots(b, i, j, ring, s); }
      Lefts(if i' < j then j - i' else 0);
      if i < j && NoNewline(t) && c != NEWLINE && old(Shows(base, t, at)) {
        ghost var t' := t[..at] + [c] + t[at..];
        forall k | 0 <= k < |t'| ensures Cell(base + k) == t'[k] {
          if k >= at { assert t'[k] == s[k - at]; }
        }
      }
    }
  }
}
