/** The shell's parser as it runs, src/sh.c: one cursor over the input buffer, then NULs written into it. */
module Shell {
  import G = ShellGrammar
  import opened ShellGrammar

  // ----- Strings in the buffer -----

  /** The C string that starts at i. */
  function CString(b: string, i: nat): string
    decreases |b| - i
  {
    if i < |b| && b[i] != NUL then [b[i]] + CString(b, i + 1) else ""
  }

  /** The tree over C strings that the pointers of c stand for. */
  function CRead(b: string, c: Cmd<Span>): Cmd<string> {
    match c
    case Exec(argv) => Exec(seq(|argv|, k requires 0 <= k < |argv| => CString(b, argv[k].start)))
    case Redir(d, to) => Redir(CRead(b, d), Target(CString(b, to.file.start), to.mode, to.fd))
    case Pipe(l, r) => Pipe(CRead(b, l), CRead(b, r))
    case List(l, r) => List(CRead(b, l), CRead(b, r))
    case Back(d) => Back(CRead(b, d))
  }

  /** The places nulterminate writes to. */
  ghost function Ends(c: Cmd<Span>): set<nat> {
    match c
    case Exec(argv) => set k | 0 <= k < |argv| :: argv[k].end
    case Redir(d, to) => Ends(d) + {to.file.end}
    case Pipe(l, r) => Ends(l) + Ends(r)
    case List(l, r) => Ends(l) + Ends(r)
    case Back(d) => Ends(d)
  }

  /** No place in `at` lies inside a word of s. */
  ghost predicate Outside(s: string, at: set<nat>) {
    forall e :: e in at ==> e <= |s| && (e < |s| ==> !IsWordChar(s[e]))
  }

  ghost predicate Below(at: set<nat>, n: nat) { forall e :: e in at ==> e < n }

  /** b is s and its terminator, with NULs written at `at`. */
  ghost predicate Terminated(s: string, b: string, at: set<nat>) {
    |s| < |b| && forall k :: 0 <= k <= |s| ==> b[k] == if k in at then NUL else At(s, k)
  }

  lemma {:induction false} EndsOutside(s: string, c: Cmd<Span>)
    requires WellMade(s, c)
    ensures Outside(s, Ends(c))
  {
    match c
    case Exec(argv) =>
      forall e | e in Ends(c) ensures e <= |s| && (e < |s| ==> !IsWordChar(s[e])) {
        var k :| 0 <= k < |argv| && argv[k].end == e;
        assert WordSpan(s, argv[k]);
      }
    case Redir(d, to) => EndsOutside(s, d);
    case Pipe(l, r) => EndsOutside(s, l); EndsOutside(s, r);
    case List(l, r) => EndsOutside(s, l); EndsOutside(s, r);
    case Back(d) => EndsOutside(s, d);
  }

  lemma {:induction false} WordReads(s: string, b: string, at: set<nat>, w: Span, i: nat)
    requires Terminated(s, b, at) && Outside(s, at) && WordSpan(s, w) && w.end in at && w.start <= i <= w.end
    ensures CString(b, i) == s[i..w.end]
    decreases w.end - i
  {
    if i < w.end {
      assert IsWordChar(s[i]) && i !in at;
      WordReads(s, b, at, w, i + 1);
      assert s[i..w.end] == [s[i]] + s[i + 1..w.end];
    }
  }

  /** Once a NUL follows every word, each pointer of the tree reads as the word it was parsed from. */
  lemma {:induction false} TreeReads(s: string, b: string, at: set<nat>, c: Cmd<Span>)
    requires WellMade(s, c) && Terminated(s, b, at) && Outside(s, at) && Ends(c) <= at
    ensures CRead(b, c) == Read(s, c)
  {
    match c
    case Exec(argv) =>
      forall k | 0 <= k < |argv| ensures CString(b, argv[k].start) == WordAt(s, argv[k]) {
        assert WordSpan(s, argv[k]) && argv[k].end in Ends(c);
        WordReads(s, b, at, argv[k], argv[k].start);
      }
    case Redir(d, to) =>
      TreeReads(s, b, at, d);
      assert to.file.end in Ends(c);
      WordReads(s, b, at, to.file, to.file.start);
    case Pipe(l, r) => TreeReads(s, b, at, l); TreeReads(s, b, at, r);
    case List(l, r) => TreeReads(s, b, at, l); TreeReads(s, b, at, r);
    case Back(d) => TreeReads(s, b, at, d);
  }

  // ----- The parser -----

  datatype Outcome<T> = Done(value: T) | Died(message: string)

  ghost predicate Agrees<T(!new)>(r: Outcome<T>, ps: nat, spec: Parsed<T>) {
    match spec
    case Got(v, n) => r == Done(v) && ps == n
    case Panic(m) => r == Died(m)
  }

  class Parser {
    const buf: array<char>
    const es: nat
    var ps: nat

    ghost predicate Valid() reads this, buf {
      es < buf.Length && buf[es] == NUL && NulFree(Text()) && ps <= es
    }

    ghost function Text(): string reads this, buf { if es < buf.Length then buf[..es] else "" }

    constructor (buf: array<char>)
      requires exists k :: 0 <= k < buf.Length && buf[k] == NUL
      ensures Valid() && this.buf == buf && ps == 0
    {
      var n := 0;
      while buf[n] != NUL
        invariant 0 <= n < buf.Length && (forall k :: 0 <= k < n ==> buf[k] != NUL)
        invariant exists k :: n <= k < buf.Length && buf[k] == NUL
        decreases buf.Length - n
      {
        n := n + 1;
      }
      this.buf, es, ps := buf, n, 0;
    }

    /** The scan over white space that gettoken and peek share. */
    method Blanks(i: nat) returns (s: nat)
      requires Valid() && i <= es
      ensures s == SkipSpace(Text(), i)
    {
      ghost var t := Text();
      s := i;
      while s < es && IsSpace(buf[s])
        invariant i <= s <= es && SkipSpace(t, s) == SkipSpace(t, i)
      { s := s + 1; }
    }

    method GetToken() returns (tok: char, q: nat, eq: nat)
      requires Valid()
      modifies this`ps
      ensures Valid() && Token(tok, q, eq, ps) == G.GetToken(Text(), old(ps))
    {
      var s := Blanks(ps);
      q := s;
      tok := buf[s];
      if tok == NUL {
      } else if tok == '>' {
        s := s + 1;
        if buf[s] == '>' {
          tok := '+';
          s := s + 1;
        }
      } else if IsSymbol(tok) {
        s := s + 1;
      } else {
        tok := 'a';
        while s < es && !IsSpace(buf[s]) && !IsSymbol(buf[s])
          invariant q <= s <= es && WordEnd(Text(), s) == WordEnd(Text(), q)
        { s := s + 1; }
      }
      eq := s;
      ps := Blanks(eq);
    }

    method Peek(toks: set<char>) returns (r: bool)
      requires Valid()
      modifies this`ps
      ensures Valid() && r == G.Peek(Text(), old(ps), toks) && ps == SkipSpace(Text(), old(ps))
    {
      var s := Blanks(ps);
      ps := s;
      r := buf[s] != NUL && buf[s] in toks;
    }

    method ParseRedirs(ts: seq<Target<Span>>) returns (r: Outcome<seq<Target<Span>>>)
      requires Valid()
      modifies this`ps
      ensures Valid() && Agrees(r, ps, G.ParseRedirs(Text(), old(ps), ts))
    {
      ghost var t, p0 := Text(), ps;
      var acc := ts;
      var more := Peek({'<', '>'});
      ghost var at := p0;
      while more
        invariant Valid() && at <= es && ps == SkipSpace(t, at) && more == G.Peek(t, at, {'<', '>'})
        invariant G.ParseRedirs(t, at, acc) == G.ParseRedirs(t, p0, ts)
        decreases es - at
      {
        var tok, _, _ := GetToken();
        var kind, q, eq := GetToken();
        if kind != 'a' { return Died("missing file for redirection"); }
        acc := acc + [TargetOf(tok, Span(q, eq))];
        at := ps;
        more := Peek({'<', '>'});
      }
      r := Done(acc);
    }

    method ParseLine() returns (r: Outcome<Cmd<Span>>)
      requires Valid()
      modifies this`ps
      ensures Valid() && Agrees(r, ps, G.ParseLine(Text(), old(ps)))
      decreases es - ps, 3
    {
      ghost var t, p0 := Text(), ps;
      r := ParsePipe();
      if r.Died? { return; }
      var cmd := r.value;
      ghost var p1, c1 := ps, cmd;
      var more := Peek({'&'});
      ghost var at := p1;
      while more
        invariant Valid() && at <= es && ps == SkipSpace(t, at) && more == G.Peek(t, at, {'&'}) && p0 <= at
        invariant ParseBacks(t, at, cmd) == ParseBacks(t, p1, c1)
        decreases es - at
      {
        var _, _, _ := GetToken();
        cmd := Back(cmd);
        at := ps;
        more := Peek({'&'});
      }
      more := Peek({';'});
      if more {
        var _, _, _ := GetToken();
        var rest := ParseLine();
        if rest.Died? { return rest; }
        cmd := List(cmd, rest.value);
      }
      r := Done(cmd);
    }

    method ParsePipe() returns (r: Outcome<Cmd<Span>>)
      requires Valid()
      modifies this`ps
      ensures Valid() && Agrees(r, ps, G.ParsePipe(Text(), old(ps)))
      decreases es - ps, 2
    {
      r := ParseExec();
      if r.Died? { return; }
      var cmd := r.value;
      var more := Peek({'|'});
      if more {
        var _, _, _ := GetToken();
        var rest := ParsePipe();
        if rest.Died? { return rest; }
        cmd := Pipe(cmd, rest.value);
      }
      r := Done(cmd);
    }

    method ParseBlock() returns (r: Outcome<Cmd<Span>>)
      requires Valid()
      modifies this`ps
      ensures Valid() && Agrees(r, ps, G.ParseBlock(Text(), old(ps)))
      decreases es - ps, 0
    {
      var open := Peek({'('});
      if !open { return Died("parseblock"); }
      var _, _, _ := GetToken();
      r := ParseLine();
      if r.Died? { return; }
      var close := Peek({')'});
      if !close { return Died("syntax - missing )"); }
      var _, _, _ := GetToken();
      var ts := ParseRedirs([]);
      if ts.Died? { return Died(ts.message); }
      r := Done(Wrap(r.value, ts.value));
    }

    method ParseExec() returns (r: Outcome<Cmd<Span>>)
      requires Valid()
      modifies this`ps
      ensures Valid() && Agrees(r, ps, G.ParseExec(Text(), old(ps)))
      decreases es - ps, 1
    {
      ghost var t := Text();
      var block := Peek({'('});
      if block {
        r := ParseBlock();
        return;
      }
      var ts := ParseRedirs([]);
      if ts.Died? { return Died(ts.message); }
      var argv, redirs := [], ts.value;
      ghost var at := ps;
      ghost var whole := ParseArgs(t, at, argv, redirs);
      var stop := Peek({'|', ')', '&', ';'});
      while !stop
        invariant Valid() && at <= es && ps == SkipSpace(t, at) && stop == G.Peek(t, at, {'|', ')', '&', ';'})
        invariant ParseArgs(t, at, argv, redirs) == whole
        decreases es - at
      {
        var tok, q, eq := GetToken();
        if tok == NUL { break; }
        if tok != 'a' { return Died("syntax"); }
        argv := argv + [Span(q, eq)];
        if |argv| >= MAXARGS { return Died("too many args"); }
        ts := ParseRedirs(redirs);
        if ts.Died? { return Died(ts.message); }
        redirs := ts.value;
        at := ps;
        stop := Peek({'|', ')', '&', ';'});
      }
      r := Done(Wrap(Exec(argv), redirs));
    }

    method NulTerminate(c: Cmd<Span>)
      requires Below(Ends(c), buf.Length)
      modifies buf
      ensures forall k :: 0 <= k < buf.Length ==> buf[k] == if k in Ends(c) then NUL else old(buf[k])
    {
      match c
      case Exec(argv) =>
        assert forall k :: 0 <= k < |argv| ==> argv[k].end in Ends(c);
        for i := 0 to |argv|
          invariant forall k :: 0 <= k < buf.Length ==> buf[k] == if k in Ends(Exec(argv[..i])) then NUL else old(buf[k])
        {
          assert Ends(Exec(argv[..i + 1])) == Ends(Exec(argv[..i])) + {argv[i].end};
          buf[argv[i].end] := NUL;
        }
        assert argv[..|argv|] == argv;
      case Redir(d, to) =>
        assert Below(Ends(d), buf.Length) && to.file.end in Ends(c);
        NulTerminate(d);
        buf[to.file.end] := NUL;
      case Pipe(l, r) =>
        assert Below(Ends(l), buf.Length) && Below(Ends(r), buf.Length);
        NulTerminate(l);
        NulTerminate(r);
      case List(l, r) =>
        assert Below(Ends(l), buf.Length) && Below(Ends(r), buf.Length);
        NulTerminate(l);
        NulTerminate(r);
      case Back(d) =>
        NulTerminate(d);
    }
  }

  /** parsecmd: on success every string of the tree, read from the buffer, is the word of the line. */
  method ParseCommand(buf: array<char>) returns (r: Outcome<Cmd<Span>>, n: nat)
    requires exists k :: 0 <= k < buf.Length && buf[k] == NUL
    modifies buf
    ensures n < buf.Length && NulFree(old(buf[..n])) && old(buf[n]) == NUL
    ensures var line := old(buf[..n]);
      match G.ParseCmd(line)
      case Got(c, _) => r == Done(c) && CRead(buf[..], c) == Read(line, c)
      case Panic(m) => r == Died(m) && buf[..] == old(buf[..])
  {
    var p := new Parser(buf);
    n := p.es;
    ghost var line := buf[..n];
    r := p.ParseLine();
    if r.Died? { return; }
    var _ := p.Peek({});
    if p.ps != p.es { return Died("syntax"), n; }
    EndsOutside(line, r.value);
    p.NulTerminate(r.value);
    assert Terminated(line, buf[..], Ends(r.value));
    TreeReads(line, buf[..], Ends(r.value), r.value);
  }
}
