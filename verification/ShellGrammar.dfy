/**
 * The shell's command language, src/sh.c: what gettoken, peek and the parse functions compute on
 * a NUL-free line s. A cursor is an index into s; index |s| is where the terminating NUL stands.
 */
module ShellGrammar {
  /** A word by its first index and the one after its last. */
  datatype Span = Span(start: nat, end: nat)

  /** Command trees over words of any kind: spans when parsed, strings when read. */
  datatype Cmd<W> =
    | Exec(argv: seq<W>)
    | Redir(cmd: Cmd<W>, to: Target<W>)
    | Pipe(left: Cmd<W>, right: Cmd<W>)
    | List(left: Cmd<W>, right: Cmd<W>)
    | Back(cmd: Cmd<W>)

  datatype Target<W> = Target(file: W, mode: int, fd: int)

  /** A value and the cursor after it, or the shell's panic. */
  datatype Parsed<T> = Got(value: T, pos: nat) | Panic(message: string)

  datatype Token = Token(kind: char, q: nat, eq: nat, next: nat)

  const MAXARGS := 10
  const O_RDONLY := 0
  const O_WRONLY := 1
  const O_CREATE := 0x200
  const NUL := '\0'

  predicate IsSpace(c: char) { c == ' ' || c == '\t' || c == '\r' || c == '\n' || c == '\U{B}' }
  predicate IsSymbol(c: char) { c == '<' || c == '|' || c == '>' || c == '&' || c == ';' || c == '(' || c == ')' }
  predicate IsWordChar(c: char) { c != NUL && !IsSpace(c) && !IsSymbol(c) }

  predicate NulFree(s: string) { forall k :: 0 <= k < |s| ==> s[k] != NUL }

  function At(s: string, i: nat): char { if i < |s| then s[i] else NUL }

  function SkipSpace(s: string, i: nat): (r: nat)
    requires i <= |s|
    ensures i <= r <= |s| && !IsSpace(At(s, r)) && forall k :: i <= k < r ==> IsSpace(s[k])
    decreases |s| - i
  {
    if i < |s| && IsSpace(s[i]) then SkipSpace(s, i + 1) else i
  }

  function WordEnd(s: string, i: nat): (r: nat)
    requires i <= |s|
    ensures i <= r <= |s| && forall k :: i <= k < r ==> !IsSpace(s[k]) && !IsSymbol(s[k])
    ensures r < |s| ==> IsSpace(s[r]) || IsSymbol(s[r])
    decreases |s| - i
  {
    if i < |s| && !IsSpace(s[i]) && !IsSymbol(s[i]) then WordEnd(s, i + 1) else i
  }

  /** gettoken: kind 'a' for a word, '+' for ">>", NUL at the end, else the symbol itself. */
  function GetToken(s: string, i: nat): (t: Token)
    requires i <= |s| && NulFree(s)
    ensures i <= t.q <= t.eq <= t.next <= |s|
    ensures t.kind == NUL <==> t.q == |s|
    ensures t.kind != NUL ==> i < t.next
    ensures t.kind == 'a' ==> WordSpan(s, Span(t.q, t.eq))
  {
    var q := SkipSpace(s, i);
    var c := At(s, q);
    if c == NUL then Token(NUL, q, q, q)
    else if c == '>' then
      if At(s, q + 1) == '>' then Token('+', q, q + 2, SkipSpace(s, q + 2)) else Token(c, q, q + 1, SkipSpace(s, q + 1))
    else if IsSymbol(c) then Token(c, q, q + 1, SkipSpace(s, q + 1))
    else var e := WordEnd(s, q); Token('a', q, e, SkipSpace(s, e))
  }

  predicate Peek(s: string, i: nat, toks: set<char>)
    requires i <= |s|
  {
    var c := At(s, SkipSpace(s, i));
    c != NUL && c in toks
  }

  // ----- What every parse yields -----

  /** A maximal run of word characters. */
  ghost predicate WordSpan(s: string, w: Span) {
    && w.start < w.end <= |s|
    && (forall k :: w.start <= k < w.end ==> IsWordChar(s[k]))
    && (w.end < |s| ==> !IsWordChar(s[w.end]))
  }

  ghost predicate WellMade(s: string, c: Cmd<Span>) {
    match c
    case Exec(argv) => |argv| < MAXARGS && forall k :: 0 <= k < |argv| ==> WordSpan(s, argv[k])
    case Redir(d, to) => WellMade(s, d) && GoodTarget(s, to)
    case Pipe(l, r) => WellMade(s, l) && WellMade(s, r)
    case List(l, r) => WellMade(s, l) && WellMade(s, r)
    case Back(d) => WellMade(s, d)
  }

  ghost predicate GoodTarget(s: string, to: Target<Span>) {
    WordSpan(s, to.file) && ((to.mode == O_RDONLY && to.fd == 0) || (to.mode == O_WRONLY + O_CREATE && to.fd == 1))
  }

  ghost predicate GoodTargets(s: string, ts: seq<Target<Span>>) {
    forall k :: 0 <= k < |ts| ==> GoodTarget(s, ts[k])
  }

  // ----- The parse functions -----

  function Wrap<W>(c: Cmd<W>, ts: seq<Target<W>>): Cmd<W>
    decreases |ts|
  {
    if ts == [] then c else Redir(Wrap(c, ts[..|ts| - 1]), ts[|ts| - 1])
  }

  lemma {:induction false} WrapWellMade(s: string, c: Cmd<Span>, ts: seq<Target<Span>>)
    requires WellMade(s, c) && GoodTargets(s, ts)
    ensures WellMade(s, Wrap(c, ts))
    decreases |ts|
  {
    if ts != [] { WrapWellMade(s, c, ts[..|ts| - 1]); }
  }

  function TargetOf(kind: char, w: Span): Target<Span> {
    if kind == '<' then Target(w, O_RDONLY, 0) else Target(w, O_WRONLY + O_CREATE, 1)
  }

  /** The redirections found from i on, after those in ts. */
  function ParseRedirs(s: string, i: nat, ts: seq<Target<Span>>): (r: Parsed<seq<Target<Span>>>)
    requires i <= |s| && NulFree(s)
    ensures r.Got? ==> i <= r.pos <= |s| && (GoodTargets(s, ts) ==> GoodTargets(s, r.value))
    decreases |s| - i
  {
    if Peek(s, i, {'<', '>'}) then
      var t := GetToken(s, SkipSpace(s, i));
      var f := GetToken(s, t.next);
      if f.kind != 'a' then Panic("missing file for redirection")
      else ParseRedirs(s, f.next, ts + [TargetOf(t.kind, Span(f.q, f.eq))])
    else Got(ts, SkipSpace(s, i))
  }

  /** The arguments of one simple command, with the redirections among them. */
  function ParseArgs(s: string, i: nat, argv: seq<Span>, ts: seq<Target<Span>>): (r: Parsed<(seq<Span>, seq<Target<Span>>)>)
    requires i <= |s| && NulFree(s)
    ensures r.Got? ==> i <= r.pos <= |s|
    ensures r.Got? && |argv| < MAXARGS && GoodTargets(s, ts) && (forall k :: 0 <= k < |argv| ==> WordSpan(s, argv[k])) ==>
      |r.value.0| < MAXARGS && GoodTargets(s, r.value.1) && (forall k :: 0 <= k < |r.value.0| ==> WordSpan(s, r.value.0[k]))
    decreases |s| - i
  {
    if Peek(s, i, {'|', ')', '&', ';'}) then Got((argv, ts), SkipSpace(s, i))
    else
      var t := GetToken(s, SkipSpace(s, i));
      if t.kind == NUL then Got((argv, ts), t.next)
      else if t.kind != 'a' then Panic("syntax")
      else if |argv| + 1 >= MAXARGS then Panic("too many args")
      else
        match ParseRedirs(s, t.next, ts)
        case Panic(m) => Panic(m)
        case Got(ts', k) => ParseArgs(s, k, argv + [Span(t.q, t.eq)], ts')
  }

  /** One Back around c for every "&" from i on. */
  function ParseBacks(s: string, i: nat, c: Cmd<Span>): (r: (Cmd<Span>, nat))
    requires i <= |s| && NulFree(s)
    ensures i <= r.1 <= |s| && (WellMade(s, c) ==> WellMade(s, r.0))
    decreases |s| - i
  {
    if Peek(s, i, {'&'}) then ParseBacks(s, GetToken(s, SkipSpace(s, i)).next, Back(c)) else (c, SkipSpace(s, i))
  }

  function ParseLine(s: string, i: nat): (r: Parsed<Cmd<Span>>)
    requires i <= |s| && NulFree(s)
    ensures r.Got? ==> i <= r.pos <= |s| && WellMade(s, r.value)
    decreases |s| - i, 3
  {
    match ParsePipe(s, i)
    case Panic(m) => Panic(m)
    case Got(c, j) =>
      var (d, k) := ParseBacks(s, j, c);
      if Peek(s, k, {';'}) then
        match ParseLine(s, GetToken(s, SkipSpace(s, k)).next)
        case Panic(m) => Panic(m)
        case Got(e, n) => Got(List(d, e), n)
      else Got(d, SkipSpace(s, k))
  }

  function ParsePipe(s: string, i: nat): (r: Parsed<Cmd<Span>>)
    requires i <= |s| && NulFree(s)
    ensures r.Got? ==> i <= r.pos <= |s| && WellMade(s, r.value)
    decreases |s| - i, 2
  {
    match ParseExec(s, i)
    case Panic(m) => Panic(m)
    case Got(c, j) =>
      if Peek(s, j, {'|'}) then
        match ParsePipe(s, GetToken(s, SkipSpace(s, j)).next)
        case Panic(m) => Panic(m)
        case Got(d, n) => Got(Pipe(c, d), n)
      else Got(c, SkipSpace(s, j))
  }

  function ParseExec(s: string, i: nat): (r: Parsed<Cmd<Span>>)
    requires i <= |s| && NulFree(s)
    ensures r.Got? ==> i <= r.pos <= |s| && WellMade(s, r.value)
    decreases |s| - i, 1
  {
    if Peek(s, i, {'('}) then ParseBlock(s, SkipSpace(s, i))
    else
      match ParseRedirs(s, SkipSpace(s, i), [])
      case Panic(m) => Panic(m)
      case Got(ts, j) =>
        match ParseArgs(s, j, [], ts)
        case Panic(m) => Panic(m)
        case Got(a, k) => WrapWellMade(s, Exec(a.0), a.1); Got(Wrap(Exec(a.0), a.1), k)
  }

  function ParseBlock(s: string, i: nat): (r: Parsed<Cmd<Span>>)
    requires i <= |s| && NulFree(s)
    ensures r.Got? ==> i <= r.pos <= |s| && WellMade(s, r.value)
    decreases |s| - i, 0
  {
    if !Peek(s, i, {'('}) then Panic("parseblock")
    else
      match ParseLine(s, GetToken(s, SkipSpace(s, i)).next)
      case Panic(m) => Panic(m)
      case Got(c, j) => CloseBlock(s, c, j)
  }

  /** The closing parenthesis after c, and the redirections of the whole block. */
  function CloseBlock(s: string, c: Cmd<Span>, j: nat): (r: Parsed<Cmd<Span>>)
    requires j <= |s| && NulFree(s)
    ensures r.Got? ==> j <= r.pos <= |s| && (WellMade(s, c) ==> WellMade(s, r.value))
  {
    if !Peek(s, j, {')'}) then Panic("syntax - missing )")
    else
      match ParseRedirs(s, GetToken(s, SkipSpace(s, j)).next, [])
      case Panic(m) => Panic(m)
      case Got(ts, k) =>
        assert WellMade(s, c) ==> WellMade(s, Wrap(c, ts)) by { if WellMade(s, c) { WrapWellMade(s, c, ts); } }
        Got(Wrap(c, ts), k)
  }

  function ParseCmd(s: string): (r: Parsed<Cmd<Span>>)
    requires NulFree(s)
    ensures r.Got? ==> WellMade(s, r.value) && r.pos == |s|
  {
    match ParseLine(s, 0)
    case Panic(m) => Panic(m)
    case Got(c, i) => if SkipSpace(s, i) != |s| then Panic("syntax") else Got(c, |s|)
  }

  // ----- Reading the words of a tree -----

  function WordAt(s: string, w: Span): string {
    if w.start <= w.end <= |s| then s[w.start..w.end] else ""
  }

  /** The tree over strings that a tree over spans of s stands for. */
  function Read(s: string, c: Cmd<Span>): Cmd<string> {
    match c
    case Exec(argv) => Exec(seq(|argv|, k requires 0 <= k < |argv| => WordAt(s, argv[k])))
    case Redir(d, to) => Redir(Read(s, d), Target(WordAt(s, to.file), to.mode, to.fd))
    case Pipe(l, r) => Pipe(Read(s, l), Read(s, r))
    case List(l, r) => List(Read(s, l), Read(s, r))
    case Back(d) => Back(Read(s, d))
  }
}
