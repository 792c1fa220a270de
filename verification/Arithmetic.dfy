/** Division facts about the constants of the page and block layouts. */
module Arithmetic {
  lemma Quotient4096(q: nat, r: nat)
    requires r < 4096
    ensures (q * 4096 + r) / 4096 == q && (q * 4096 + r) % 4096 == r
  {
  }

  lemma Parity4096(q: nat, r: nat)
    requires r < 4096
    ensures (q * 4096 + r) % 2 == r % 2
  {
    var y := q * 2048;
    assert q * 4096 + r == 2 * y + r;
  }

  lemma Aligned4096(b: nat, r: nat)
    requires b % 4096 == 0 && r < 4096
    ensures (b + r) / 4096 == b / 4096 && (b + r) % 4096 == r
  {
    Quotient4096(b / 4096, r);
  }

  lemma Aligned8(b: nat, r: nat)
    requires b % 4096 == 0
    ensures (b + r) % 8 == r % 8
  {
    var q := b / 4096;
    var y := q * 512;
    assert b == 8 * y;
  }

  /** A 32-bit word is its four bytes. */
  lemma FourBytes(w: nat)
    requires w < 0x1_0000_0000
    ensures w == w % 256 + 256 * (w / 256 % 256 + 256 * (w / 65536 % 256 + 256 * (w / 16777216)))
  {
    var a := w / 256;
    var b := a / 256;
    var c := b / 256;
    assert w / 65536 == b;
    assert w / 16777216 == c;
  }
}
