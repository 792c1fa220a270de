/**
 * The shell's command language as a grammar. A concrete line says where the parentheses are and
 * where each redirection stands among the words; its tokens and its tree are given by equations that
 * know nothing of src/sh.c. The parser accepts exactly the texts of concrete lines, and gives the tree
 * of the line: `|` to the right and tighter than `&` and `;`, the last redirection outermost.
 */
module ShellSyntax {
  import opened Common
  import opened ShellGrammar

  predicate ValidWord(w: string) { w != "" && forall k :: 0 <= k < |w| ==> IsWordChar(w[k]) }

  function ReadAll(s: string, ws: seq<Span>): seq<string> {
    seq(|ws|, k requires 0 <= k < |ws| => WordAt(s, ws[k]))
  }

  // ----- Tokens -----

  /** '+' stands for ">>". */
  datatype Tok = Word(text: string) | Sym(c: char)

  /** From i on, s is these tokens, with blanks around them; words and ">>" are as long as they can be. */
  predicate Spells(s: string, i: nat, ts: seq<Tok>)
    requires i <= |s|
    decreases |s| - i
  {
    if i == |s| then ts == []
    else if IsSpace(s[i]) then Spells(s, i + 1, ts)
    else
      ts != [] &&
      match ts[0]
      case Word(w) =>
        ValidWord(w) && i + |w| <= |s| && s[i..i + |w|] == w && !IsWordChar(At(s, i + |w|)) && Spells(s, i + |w|, ts[1..])
      case Sym(c) =>
        if c == '+' then s[i] == '>' && At(s, i + 1) == '>' && i + 2 <= |s| && Spells(s, i + 2, ts[1..])
        else s[i] == c && IsSymbol(c) && !(c == '>' && At(s, i + 1) == '>') && Spells(s, i + 1, ts[1..])
  }

  function TokOf(s: string, t: Token): Tok
    requires t.q <= t.eq <= |s|
  {
    if t.kind == 'a' then Word(s[t.q..t.eq]) else Sym(t.kind)
  }

  /** What gettoken finds, one token after the other. */
  function Toks(s: string, i: nat): seq<Tok>
    requires i <= |s| && NulFree(s)
    decreases |s| - i
  {
    var t := GetToken(s, i);
    if t.kind == NUL then [] else [TokOf(s, t)] + Toks(s, t.next)
  }

  lemma TokenFromBlank(s: string, i: nat)
    requires i < |s| && NulFree(s) && IsSpace(s[i])
    ensures GetToken(s, i) == GetToken(s, i + 1) && Toks(s, i) == Toks(s, i + 1)
  {
    assert SkipSpace(s, i) == SkipSpace(s, i + 1);
  }

  lemma {:induction false} ToksSkip(s: string, i: nat)
    requires i <= |s| && NulFree(s)
    ensures Toks(s, SkipSpace(s, i)) == Toks(s, i)
    decreases |s| - i
  {
    if i < |s| && IsSpace(s[i]) {
      TokenFromBlank(s, i);
      ToksSkip(s, i + 1);
    }
  }

  /** gettoken reads exactly the tokens that a text spells. */
  lemma {:induction false} SpellsExactly(s: string, i: nat, ts: seq<Tok>)
    requires i <= |s| && NulFree(s)
    ensures Spells(s, i, ts) <==> ts == Toks(s, i)
    decreases |s| - i
  {
    if i == |s| {
      assert SkipSpace(s, i) == i;
    } else if IsSpace(s[i]) {
      SpellsExactly(s, i + 1, ts);
      TokenFromBlank(s, i);
    } else {
      assert SkipSpace(s, i) == i;
      var t := GetToken(s, i);
      ToksSkip(s, t.eq);
      if ts != [] {
        SpellsExactly(s, t.eq, ts[1..]);
        FirstSpelled(s, i, ts);
        assert ts == [ts[0]] + ts[1..];
      }
    }
  }

  lemma FirstSpelled(s: string, i: nat, ts: seq<Tok>)
    requires i < |s| && NulFree(s) && !IsSpace(s[i]) && ts != []
    ensures var t := GetToken(s, i);
      && t.q == i && t.kind != NUL && t.next == SkipSpace(s, t.eq)
      && (Spells(s, i, ts) <==> ts[0] == TokOf(s, t) && Spells(s, t.eq, ts[1..]))
  {
    assert SkipSpace(s, i) == i;
    var t := GetToken(s, i);
    if t.kind == 'a' {
      var w := s[t.q..t.eq];
      assert forall k :: 0 <= k < |w| ==> w[k] == s[i + k];
      if ts[0].Word? && ValidWord(ts[0].text) && i + |ts[0].text| <= |s| && s[i..i + |ts[0].text|] == ts[0].text && !IsWordChar(At(s, i + |ts[0].text|)) {
        SameWord(s, i, t.eq, i + |ts[0].text|);
      }
    } else if ts[0].Word? && ts[0].text != "" && i + |ts[0].text| <= |s| && s[i..i + |ts[0].text|] == ts[0].text {
      assert ts[0].text[0] == s[i];
    }
  }

  lemma SameWord(s: string, i: nat, e: nat, f: nat)
    requires WordSpan(s, Span(i, e)) && i < f <= |s| && !IsWordChar(At(s, f)) && ValidWord(s[i..f])
    ensures e == f
  {
    forall k | i <= k < f ensures IsWordChar(s[k]) { assert s[i..f][k - i] == s[k]; }
  }

  // ----- Concrete lines -----

  datatype Arrow = Arrow(sym: char, file: string)
  datatype Arg = Arg(word: string, arrows: seq<Arrow>)

  /** A pipeline, `backs` times "&", and perhaps ";" and more. */
  datatype Line = Line(pipe: Pipeline, backs: nat, next: Option<Line>)
  datatype Pipeline = Pipeline(cmd: Command, next: Option<Pipeline>)
  datatype Command = Block(line: Line, arrows: seq<Arrow>) | Simple(lead: seq<Arrow>, args: seq<Arg>)

  predicate OkArrows(rs: seq<Arrow>) { forall k :: 0 <= k < |rs| ==> rs[k].sym in {'<', '>', '+'} }

  predicate OkArgs(xs: seq<Arg>) { forall k :: 0 <= k < |xs| ==> OkArrows(xs[k].arrows) }

  predicate OkLine(x: Line) { OkPipeline(x.pipe) && (x.next.Some? ==> OkLine(x.next.value)) }

  predicate OkPipeline(x: Pipeline) { OkCommand(x.cmd) && (x.next.Some? ==> OkPipeline(x.next.value)) }

  predicate OkCommand(x: Command) {
    match x
    case Block(line, rs) => OkLine(line) && OkArrows(rs)
    case Simple(lead, xs) => OkArrows(lead) && OkArgs(xs) && |xs| < MAXARGS
  }

  function ArrowToks(rs: seq<Arrow>): seq<Tok> {
    if rs == [] then [] else [Sym(rs[0].sym), Word(rs[0].file)] + ArrowToks(rs[1..])
  }

  function ArgToks(xs: seq<Arg>): seq<Tok> {
    if xs == [] then [] else [Word(xs[0].word)] + ArrowToks(xs[0].arrows) + ArgToks(xs[1..])
  }

  function Amps(n: nat): seq<Tok> { if n == 0 then [] else [Sym('&')] + Amps(n - 1) }

  function LineToks(x: Line): seq<Tok> {
    PipelineToks(x.pipe) + Amps(x.backs) + if x.next.Some? then [Sym(';')] + LineToks(x.next.value) else []
  }

  function PipelineToks(x: Pipeline): seq<Tok> {
    CommandToks(x.cmd) + if x.next.Some? then [Sym('|')] + PipelineToks(x.next.value) else []
  }

  function CommandToks(x: Command): seq<Tok> {
    match x
    case Block(line, rs) => [Sym('(')] + LineToks(line) + [Sym(')')] + ArrowToks(rs)
    case Simple(lead, xs) => ArrowToks(lead) + ArgToks(xs)
  }

  // ----- The tree of a line -----

  function TargetFor(r: Arrow): Target<string> {
    if r.sym == '<' then Target(r.file, O_RDONLY, 0) else Target(r.file, O_WRONLY + O_CREATE, 1)
  }

  function Targets(rs: seq<Arrow>): seq<Target<string>> {
    seq(|rs|, k requires 0 <= k < |rs| => TargetFor(rs[k]))
  }

  /** The first redirection is the innermost. */
  function Redirected(c: Cmd<string>, ts: seq<Target<string>>): Cmd<string>
    decreases |ts|
  {
    if ts == [] then c else Redirected(Redir(c, ts[0]), ts[1..])
  }

  function Backs(c: Cmd<string>, n: nat): Cmd<string>
    decreases n
  {
    if n == 0 then c else Backs(Back(c), n - 1)
  }

  function WordsOf(xs: seq<Arg>): seq<string> { seq(|xs|, k requires 0 <= k < |xs| => xs[k].word) }

  function ArrowsOf(xs: seq<Arg>): seq<Arrow> { if xs == [] then [] else xs[0].arrows + ArrowsOf(xs[1..]) }

  function LineTree(x: Line): Cmd<string> {
    var c := Backs(PipelineTree(x.pipe), x.backs);
    if x.next.Some? then List(c, LineTree(x.next.value)) else c
  }

  function PipelineTree(x: Pipeline): Cmd<string> {
    var c := CommandTree(x.cmd);
    if x.next.Some? then Pipe(c, PipelineTree(x.next.value)) else c
  }

  function CommandTree(x: Command): Cmd<string> {
    match x
    case Block(line, rs) => Redirected(LineTree(line), Targets(rs))
    case Simple(lead, xs) => Redirected(Exec(WordsOf(xs)), Targets(lead + ArrowsOf(xs)))
  }

  // ----- The parser and the tokens -----

  /** A symbol of `at` comes first. */
  predicate Leads(ts: seq<Tok>, at: set<char>) {
    ts != [] && ts[0].Sym? && (ts[0].c in at || (ts[0].c == '+' && '>' in at))
  }

  predicate Symbols(at: set<char>) { forall c :: c in at ==> IsSymbol(c) }

  lemma Head(s: string, i: nat)
    requires i <= |s| && NulFree(s)
    ensures var t := GetToken(s, i);
      && (t.kind == NUL <==> Toks(s, i) == [])
      && (t.kind != NUL ==> Toks(s, i) == [TokOf(s, t)] + Toks(s, t.next) && i < t.next)
      && GetToken(s, SkipSpace(s, i)) == t && Toks(s, SkipSpace(s, i)) == Toks(s, i)
  {
    TokenSkip(s, i);
    ToksSkip(s, i);
  }

  lemma TokenSkip(s: string, i: nat)
    requires i <= |s| && NulFree(s)
    ensures GetToken(s, SkipSpace(s, i)) == GetToken(s, i)
  {
  }

  lemma PeekIs(s: string, i: nat, at: set<char>)
    requires i <= |s| && NulFree(s) && Symbols(at)
    ensures Peek(s, i, at) <==> Leads(Toks(s, i), at)
  {
    Head(s, i);
    var q := SkipSpace(s, i);
    if q < |s| && IsSymbol(s[q]) {
      assert GetToken(s, i).kind == s[q] || (GetToken(s, i).kind == '+' && s[q] == '>');
    } else if q < |s| {
      assert GetToken(s, i).kind == 'a';
    }
  }

  function ReadTargets(s: string, ts: seq<Target<Span>>): seq<Target<string>> {
    seq(|ts|, k requires 0 <= k < |ts| => Target(WordAt(s, ts[k].file), ts[k].mode, ts[k].fd))
  }

  lemma {:induction false} RedirectedLast(c: Cmd<string>, ts: seq<Target<string>>)
    requires ts != []
    ensures Redirected(c, ts) == Redir(Redirected(c, ts[..|ts| - 1]), ts[|ts| - 1])
    decreases |ts|
  {
    if |ts| > 1 {
      RedirectedLast(Redir(c, ts[0]), ts[1..]);
      assert ts[1..][..|ts| - 2] == ts[..|ts| - 1][1..];
    }
  }

  lemma {:induction false} WrapReads(s: string, c: Cmd<Span>, ts: seq<Target<Span>>)
    ensures Read(s, Wrap(c, ts)) == Redirected(Read(s, c), ReadTargets(s, ts))
    decreases |ts|
  {
    if ts != [] {
      var r := ReadTargets(s, ts);
      WrapReads(s, c, ts[..|ts| - 1]);
      assert r[..|ts| - 1] == ReadTargets(s, ts[..|ts| - 1]);
      RedirectedLast(Read(s, c), r);
    }
  }

  // ----- Facts about one place of a text, folded -----

  datatype Fact = ForToks | ForNext | ForRedirs | ForArgs | ForBacks | ForExec | ForPipe | ForLine | ForClose

  ghost predicate Place(s: string, i: nat) { i <= |s| && NulFree(s) }

  /** The tokens from i on. */
  ghost predicate Lexes(s: string, i: nat, ts: seq<Tok>) {
    Place(s, i) && forall z: int {:trigger Seal<(Fact, int)>((ForToks, i), z)} :: Seal<(Fact, int)>((ForToks, i), z) ==> Toks(s, i) == ts
  }

  /** The token at i, and the place after it. */
  ghost predicate Next(s: string, i: nat, t: Token) {
    Place(s, i) && t.next <= |s| && forall z: int {:trigger Seal<(Fact, int)>((ForNext, i), z)} :: Seal<(Fact, int)>((ForNext, i), z) ==>
      GetToken(s, SkipSpace(s, i)) == t
  }

  ghost predicate RedirsAre(s: string, i: nat, ts: seq<Target<Span>>, ts': seq<Target<Span>>, k: nat) {
    Place(s, i) && forall z: int {:trigger Seal<(Fact, int)>((ForRedirs, i), z)} :: Seal<(Fact, int)>((ForRedirs, i), z) ==>
      ParseRedirs(s, i, ts) == Got(ts', k)
  }

  ghost predicate ArgsAre(s: string, i: nat, argv: seq<Span>, ts: seq<Target<Span>>, a: seq<Span>, ts': seq<Target<Span>>, k: nat) {
    Place(s, i) && forall z: int {:trigger Seal<(Fact, int)>((ForArgs, i), z)} :: Seal<(Fact, int)>((ForArgs, i), z) ==>
      ParseArgs(s, i, argv, ts) == Got((a, ts'), k)
  }

  ghost predicate BacksAre(s: string, i: nat, c: Cmd<Span>, d: Cmd<Span>, k: nat) {
    Place(s, i) && forall z: int {:trigger Seal<(Fact, int)>((ForBacks, i), z)} :: Seal<(Fact, int)>((ForBacks, i), z) ==>
      ParseBacks(s, i, c) == (d, k)
  }

  ghost predicate ExecIs(s: string, i: nat, c: Cmd<Span>, k: nat) {
    Place(s, i) && forall z: int {:trigger Seal<(Fact, int)>((ForExec, i), z)} :: Seal<(Fact, int)>((ForExec, i), z) ==>
      ParseExec(s, i) == Got(c, k)
  }

  ghost predicate PipeIs(s: string, i: nat, c: Cmd<Span>, k: nat) {
    Place(s, i) && forall z: int {:trigger Seal<(Fact, int)>((ForPipe, i), z)} :: Seal<(Fact, int)>((ForPipe, i), z) ==>
      ParsePipe(s, i) == Got(c, k)
  }

  ghost predicate LineIs(s: string, i: nat, c: Cmd<Span>, k: nat) {
    Place(s, i) && forall z: int {:trigger Seal<(Fact, int)>((ForLine, i), z)} :: Seal<(Fact, int)>((ForLine, i), z) ==>
      ParseLine(s, i) == Got(c, k)
  }

  ghost predicate CloseIs(s: string, c: Cmd<Span>, i: nat, d: Cmd<Span>, k: nat) {
    Place(s, i) && forall z: int {:trigger Seal<(Fact, int)>((ForClose, i), z)} :: Seal<(Fact, int)>((ForClose, i), z) ==>
      CloseBlock(s, c, i) == Got(d, k)
  }

  lemma OpenLexes(s: string, i: nat, ts: seq<Tok>)
    requires Lexes(s, i, ts)
    ensures Toks(s, i) == ts
  {
    assert Seal<(Fact, int)>((ForToks, i), 0);
  }

  lemma OpenNext(s: string, i: nat, t: Token)
    requires Next(s, i, t)
    ensures GetToken(s, SkipSpace(s, i)) == t
  {
    assert Seal<(Fact, int)>((ForNext, i), 0);
  }

  /** The first token. */
  lemma Take(s: string, i: nat, x: Tok, rest: seq<Tok>) returns (t: Token)
    requires Lexes(s, i, [x] + rest)
    ensures Next(s, i, t) && i < t.next && Lexes(s, t.next, rest)
    ensures match x case Word(w) => t.kind == 'a' && WordAt(s, Span(t.q, t.eq)) == w case Sym(c) => t.kind == c && c != 'a'
  {
    OpenLexes(s, i, [x] + rest);
    Head(s, i);
    t := GetToken(s, i);
    assert Toks(s, i)[0] == TokOf(s, t) && Toks(s, i)[1..] == Toks(s, t.next);
  }

  lemma Peeks(s: string, i: nat, ts: seq<Tok>, at: set<char>)
    requires Lexes(s, i, ts) && Symbols(at)
    ensures Peek(s, i, at) <==> Leads(ts, at)
  {
    OpenLexes(s, i, ts);
    PeekIs(s, i, at);
  }

  lemma Skips(s: string, i: nat, ts: seq<Tok>)
    requires Lexes(s, i, ts)
    ensures SkipSpace(s, i) <= |s| && Lexes(s, SkipSpace(s, i), ts)
  {
    OpenLexes(s, i, ts);
    ToksSkip(s, i);
  }

  // ----- Every concrete line is parsed -----

  /** What may follow a simple command, a pipeline and a line. */
  predicate AfterArgs(ts: seq<Tok>) { ts == [] || Leads(ts, {'|', ')', '&', ';'}) }
  predicate AfterPipe(ts: seq<Tok>) { ts == [] || Leads(ts, {')', '&', ';'}) }
  predicate AfterLine(ts: seq<Tok>) { ts == [] || Leads(ts, {')'}) }

  lemma RedirsStop(s: string, i: nat, ts: seq<Target<Span>>, rest: seq<Tok>) returns (k: nat)
    requires Lexes(s, i, rest) && !Leads(rest, {'<', '>'})
    ensures RedirsAre(s, i, ts, ts, k) && Lexes(s, k, rest)
  {
    Peeks(s, i, rest, {'<', '>'});
    Skips(s, i, rest);
    k := SkipSpace(s, i);
  }

  lemma RedirsStep(s: string, i: nat, ts: seq<Target<Span>>, t: Token, f: Token, ts': seq<Target<Span>>, k: nat)
    requires Place(s, i) && Peek(s, i, {'<', '>'}) && Next(s, i, t) && Next(s, t.next, f) && f.kind == 'a'
    requires f.next <= |s| && RedirsAre(s, f.next, ts + [TargetOf(t.kind, Span(f.q, f.eq))], ts', k)
    ensures RedirsAre(s, i, ts, ts', k)
  {
    OpenNext(s, i, t);
    OpenNext(s, t.next, f);
    TokenSkip(s, t.next);
    assert Seal<(Fact, int)>((ForRedirs, f.next), 0);
  }

  lemma {:induction false} RedirsParse(s: string, i: nat, ts: seq<Target<Span>>, rs: seq<Arrow>, rest: seq<Tok>)
    returns (ts': seq<Target<Span>>, k: nat)
    requires OkArrows(rs) && Lexes(s, i, ArrowToks(rs) + rest) && !Leads(rest, {'<', '>'})
    ensures RedirsAre(s, i, ts, ts', k) && Lexes(s, k, rest) && ReadTargets(s, ts') == ReadTargets(s, ts) + Targets(rs)
    decreases |rs|
  {
    if rs == [] {
      assert ArrowToks(rs) + rest == rest;
      k := RedirsStop(s, i, ts, rest);
      ts' := ts;
    } else {
      var r, more := rs[0], ArrowToks(rs[1..]) + rest;
      assert ArrowToks(rs) + rest == [Sym(r.sym)] + ([Word(r.file)] + more);
      Peeks(s, i, ArrowToks(rs) + rest, {'<', '>'});
      var t := Take(s, i, Sym(r.sym), [Word(r.file)] + more);
      var f := Take(s, t.next, Word(r.file), more);
      var ts1 := ts + [TargetOf(t.kind, Span(f.q, f.eq))];
      ts', k := RedirsParse(s, f.next, ts1, rs[1..], rest);
      RedirsStep(s, i, ts, t, f, ts', k);
      assert ReadTargets(s, ts1) == ReadTargets(s, ts) + [TargetFor(r)];
      assert Targets(rs) == [TargetFor(r)] + Targets(rs[1..]);
    }
  }

  lemma ArgsStops(s: string, i: nat, argv: seq<Span>, ts: seq<Target<Span>>, rest: seq<Tok>) returns (k: nat)
    requires Lexes(s, i, rest) && AfterArgs(rest)
    ensures ArgsAre(s, i, argv, ts, argv, ts, k) && Lexes(s, k, rest)
  {
    Peeks(s, i, rest, {'|', ')', '&', ';'});
    Skips(s, i, rest);
    if rest == [] {
      OpenLexes(s, i, rest);
      Head(s, i);
      k := GetToken(s, i).next;
      assert Toks(s, k) == [];
    } else {
      k := SkipSpace(s, i);
    }
  }

  lemma ArgsStep(s: string, i: nat, argv: seq<Span>, ts: seq<Target<Span>>, t: Token, ts1: seq<Target<Span>>, j: nat,
                 a: seq<Span>, ts': seq<Target<Span>>, k: nat)
    requires Place(s, i) && !Peek(s, i, {'|', ')', '&', ';'}) && Next(s, i, t) && t.kind == 'a' && |argv| + 1 < MAXARGS
    requires RedirsAre(s, t.next, ts, ts1, j) && ArgsAre(s, j, argv + [Span(t.q, t.eq)], ts1, a, ts', k)
    ensures ArgsAre(s, i, argv, ts, a, ts', k)
  {
    OpenNext(s, i, t);
    assert Seal<(Fact, int)>((ForRedirs, t.next), 0) && Seal<(Fact, int)>((ForArgs, j), 0);
  }

  lemma NoArrowAfter(xs: seq<Arg>, rest: seq<Tok>)
    requires AfterArgs(rest)
    ensures !Leads(ArgToks(xs) + rest, {'<', '>'})
  {
    if xs != [] { assert (ArgToks(xs) + rest)[0] == Word(xs[0].word); } else { assert ArgToks(xs) + rest == rest; }
  }

  lemma ArgsJoin(s: string, argv: seq<Span>, w: Span, ts: seq<Target<Span>>, ts': seq<Target<Span>>, xs: seq<Arg>)
    requires xs != [] && WordAt(s, w) == xs[0].word
    requires ReadTargets(s, ts') == ReadTargets(s, ts) + Targets(xs[0].arrows)
    ensures ReadAll(s, argv + [w]) + WordsOf(xs[1..]) == ReadAll(s, argv) + WordsOf(xs)
    ensures ReadTargets(s, ts') + Targets(ArrowsOf(xs[1..])) == ReadTargets(s, ts) + Targets(ArrowsOf(xs))
  {
    assert ReadAll(s, argv + [w]) == ReadAll(s, argv) + [xs[0].word];
    assert WordsOf(xs) == [xs[0].word] + WordsOf(xs[1..]);
    assert Targets(ArrowsOf(xs)) == Targets(xs[0].arrows) + Targets(ArrowsOf(xs[1..]));
  }

  lemma {:induction false} ArgsParsed(s: string, i: nat, argv: seq<Span>, ts: seq<Target<Span>>, xs: seq<Arg>, rest: seq<Tok>)
    returns (a: seq<Span>, ts': seq<Target<Span>>, k: nat)
    requires OkArgs(xs) && |argv| + |xs| < MAXARGS && AfterArgs(rest) && Lexes(s, i, ArgToks(xs) + rest)
    ensures ArgsAre(s, i, argv, ts, a, ts', k) && Lexes(s, k, rest)
    ensures ReadAll(s, a) == ReadAll(s, argv) + WordsOf(xs) && ReadTargets(s, ts') == ReadTargets(s, ts) + Targets(ArrowsOf(xs))
    decreases |xs|
  {
    if xs == [] {
      assert ArgToks(xs) + rest == rest;
      k := ArgsStops(s, i, argv, ts, rest);
      a, ts' := argv, ts;
    } else {
      var x, tail := xs[0], ArgToks(xs[1..]) + rest;
      assert ArgToks(xs) + rest == [Word(x.word)] + (ArrowToks(x.arrows) + tail);
      Peeks(s, i, ArgToks(xs) + rest, {'|', ')', '&', ';'});
      var t := Take(s, i, Word(x.word), ArrowToks(x.arrows) + tail);
      NoArrowAfter(xs[1..], rest);
      var ts1, j := RedirsParse(s, t.next, ts, x.arrows, tail);
      a, ts', k := ArgsParsed(s, j, argv + [Span(t.q, t.eq)], ts1, xs[1..], rest);
      ArgsStep(s, i, argv, ts, t, ts1, j, a, ts', k);
      ArgsJoin(s, argv, Span(t.q, t.eq), ts, ts1, xs);
    }
  }

  // ----- Commands -----

  lemma NoParenAfter(x: Command, rest: seq<Tok>)
    requires x.Simple? && OkCommand(x) && AfterArgs(rest)
    ensures !Leads(CommandToks(x) + rest, {'('})
  {
    if x.lead != [] {
      assert (CommandToks(x) + rest)[0] == Sym(x.lead[0].sym);
    } else if x.args != [] {
      assert (CommandToks(x) + rest)[0] == Word(x.args[0].word);
    } else {
      assert CommandToks(x) + rest == rest;
    }
  }

  lemma SimpleStep(s: string, i: nat, q: nat, ts: seq<Target<Span>>, j: nat, a: seq<Span>, ts': seq<Target<Span>>, k: nat)
    requires Place(s, i) && !Peek(s, i, {'('}) && q == SkipSpace(s, i)
    requires RedirsAre(s, q, [], ts, j) && ArgsAre(s, j, [], ts, a, ts', k)
    ensures ExecIs(s, i, Wrap(Exec(a), ts'), k)
  {
    assert Seal<(Fact, int)>((ForRedirs, q), 0) && Seal<(Fact, int)>((ForArgs, j), 0);
  }

  lemma SimpleReads(s: string, x: Command, a: seq<Span>, ts: seq<Target<Span>>, ts': seq<Target<Span>>)
    requires x.Simple? && ReadAll(s, a) == ReadAll(s, []) + WordsOf(x.args)
    requires ReadTargets(s, ts) == ReadTargets(s, []) + Targets(x.lead)
    requires ReadTargets(s, ts') == ReadTargets(s, ts) + Targets(ArrowsOf(x.args))
    ensures Read(s, Wrap(Exec(a), ts')) == CommandTree(x)
  {
    WrapReads(s, Exec(a), ts');
    assert ReadTargets(s, ts') == Targets(x.lead + ArrowsOf(x.args));
    assert ReadAll(s, a) == WordsOf(x.args);
  }

  lemma SimpleParses(s: string, i: nat, x: Command, rest: seq<Tok>) returns (c: Cmd<Span>, k: nat)
    requires x.Simple? && OkCommand(x) && AfterArgs(rest) && Lexes(s, i, CommandToks(x) + rest)
    ensures ExecIs(s, i, c, k) && Lexes(s, k, rest) && Read(s, c) == CommandTree(x)
  {
    var tail := ArgToks(x.args) + rest;
    assert CommandToks(x) + rest == ArrowToks(x.lead) + tail;
    NoParenAfter(x, rest);
    Peeks(s, i, CommandToks(x) + rest, {'('});
    Skips(s, i, CommandToks(x) + rest);
    NoArrowAfter(x.args, rest);
    var q := SkipSpace(s, i);
    var ts, j := RedirsParse(s, q, [], x.lead, tail);
    var a, ts';
    a, ts', k := ArgsParsed(s, j, [], ts, x.args, rest);
    SimpleStep(s, i, q, ts, j, a, ts', k);
    SimpleReads(s, x, a, ts, ts');
    c := Wrap(Exec(a), ts');
  }

  lemma CloseStep(s: string, i: nat, c: Cmd<Span>, t: Token, ts: seq<Target<Span>>, k: nat)
    requires Place(s, i) && Peek(s, i, {')'}) && Next(s, i, t) && RedirsAre(s, t.next, [], ts, k)
    ensures CloseIs(s, c, i, Wrap(c, ts), k)
  {
    OpenNext(s, i, t);
    assert Seal<(Fact, int)>((ForRedirs, t.next), 0);
  }

  lemma BlockStep(s: string, i: nat, q: nat, t: Token, c: Cmd<Span>, j: nat, d: Cmd<Span>, k: nat)
    requires Place(s, i) && Peek(s, i, {'('}) && q == SkipSpace(s, i) && Peek(s, q, {'('}) && Next(s, q, t)
    requires LineIs(s, t.next, c, j) && CloseIs(s, c, j, d, k)
    ensures ExecIs(s, i, d, k)
  {
    OpenNext(s, q, t);
    assert Seal<(Fact, int)>((ForLine, t.next), 0) && Seal<(Fact, int)>((ForClose, j), 0);
    assert ParseBlock(s, q) == Got(d, k);
  }

  lemma CloseParses(s: string, i: nat, c: Cmd<Span>, rs: seq<Arrow>, rest: seq<Tok>) returns (d: Cmd<Span>, k: nat)
    requires OkArrows(rs) && AfterArgs(rest) && Lexes(s, i, [Sym(')')] + (ArrowToks(rs) + rest))
    ensures CloseIs(s, c, i, d, k) && Lexes(s, k, rest) && Read(s, d) == Redirected(Read(s, c), Targets(rs))
  {
    Peeks(s, i, [Sym(')')] + (ArrowToks(rs) + rest), {')'});
    var t := Take(s, i, Sym(')'), ArrowToks(rs) + rest);
    var ts;
    ts, k := RedirsParse(s, t.next, [], rs, rest);
    CloseStep(s, i, c, t, ts, k);
    WrapReads(s, c, ts);
    assert ReadTargets(s, []) + Targets(rs) == Targets(rs);
    d := Wrap(c, ts);
  }

  lemma {:induction false} CommandParses(s: string, i: nat, x: Command, rest: seq<Tok>) returns (c: Cmd<Span>, k: nat)
    requires OkCommand(x) && AfterArgs(rest) && Lexes(s, i, CommandToks(x) + rest)
    ensures ExecIs(s, i, c, k) && Lexes(s, k, rest) && Read(s, c) == CommandTree(x)
    decreases x
  {
    match x
    case Simple(_, _) => c, k := SimpleParses(s, i, x, rest);
    case Block(line, rs) =>
      var close := [Sym(')')] + (ArrowToks(rs) + rest);
      var all := [Sym('(')] + (LineToks(line) + close);
      assert CommandToks(x) + rest == all;
      Peeks(s, i, all, {'('});
      Skips(s, i, all);
      var q := SkipSpace(s, i);
      Peeks(s, q, all, {'('});
      var t := Take(s, q, Sym('('), LineToks(line) + close);
      var d, j := LineParsed(s, t.next, line, close);
      c, k := CloseParses(s, j, d, rs, rest);
      BlockStep(s, i, q, t, d, j, c, k);
  }

  // ----- Pipelines and lines -----

  lemma PipeStop(s: string, i: nat, c: Cmd<Span>, j: nat, rest: seq<Tok>) returns (k: nat)
    requires ExecIs(s, i, c, j) && Lexes(s, j, rest) && !Leads(rest, {'|'})
    ensures PipeIs(s, i, c, k) && Lexes(s, k, rest)
  {
    Peeks(s, j, rest, {'|'});
    Skips(s, j, rest);
    assert Seal<(Fact, int)>((ForExec, i), 0);
    k := SkipSpace(s, j);
  }

  lemma PipeStep(s: string, i: nat, c: Cmd<Span>, j: nat, t: Token, d: Cmd<Span>, k: nat)
    requires ExecIs(s, i, c, j) && Place(s, j) && Peek(s, j, {'|'}) && Next(s, j, t) && PipeIs(s, t.next, d, k)
    ensures PipeIs(s, i, Pipe(c, d), k)
  {
    OpenNext(s, j, t);
    assert Seal<(Fact, int)>((ForExec, i), 0) && Seal<(Fact, int)>((ForPipe, t.next), 0);
  }

  lemma {:induction false} PipelineParses(s: string, i: nat, x: Pipeline, rest: seq<Tok>) returns (c: Cmd<Span>, k: nat)
    requires OkPipeline(x) && AfterPipe(rest) && Lexes(s, i, PipelineToks(x) + rest)
    ensures PipeIs(s, i, c, k) && Lexes(s, k, rest) && Read(s, c) == PipelineTree(x)
    decreases x
  {
    if x.next.Some? {
      var more := PipelineToks(x.next.value) + rest;
      assert PipelineToks(x) + rest == CommandToks(x.cmd) + ([Sym('|')] + more);
      var l, j := CommandParses(s, i, x.cmd, [Sym('|')] + more);
      Peeks(s, j, [Sym('|')] + more, {'|'});
      var t := Take(s, j, Sym('|'), more);
      var r;
      r, k := PipelineParses(s, t.next, x.next.value, rest);
      PipeStep(s, i, l, j, t, r, k);
      c := Pipe(l, r);
    } else {
      assert PipelineToks(x) + rest == CommandToks(x.cmd) + rest;
      var j;
      c, j := CommandParses(s, i, x.cmd, rest);
      k := PipeStop(s, i, c, j, rest);
    }
  }

  lemma BacksStop(s: string, i: nat, c: Cmd<Span>, rest: seq<Tok>) returns (k: nat)
    requires Lexes(s, i, rest) && !Leads(rest, {'&'})
    ensures BacksAre(s, i, c, c, k) && Lexes(s, k, rest)
  {
    Peeks(s, i, rest, {'&'});
    Skips(s, i, rest);
    k := SkipSpace(s, i);
  }

  lemma BacksStep(s: string, i: nat, c: Cmd<Span>, t: Token, d: Cmd<Span>, k: nat)
    requires Place(s, i) && Peek(s, i, {'&'}) && Next(s, i, t) && BacksAre(s, t.next, Back(c), d, k)
    ensures BacksAre(s, i, c, d, k)
  {
    OpenNext(s, i, t);
    assert Seal<(Fact, int)>((ForBacks, t.next), 0);
  }

  lemma {:induction false} BacksParse(s: string, i: nat, c: Cmd<Span>, n: nat, rest: seq<Tok>) returns (d: Cmd<Span>, k: nat)
    requires Lexes(s, i, Amps(n) + rest) && !Leads(rest, {'&'})
    ensures BacksAre(s, i, c, d, k) && Lexes(s, k, rest) && Read(s, d) == Backs(Read(s, c), n)
    decreases n
  {
    if n == 0 {
      assert Amps(n) + rest == rest;
      k := BacksStop(s, i, c, rest);
      d := c;
    } else {
      assert Amps(n) + rest == [Sym('&')] + (Amps(n - 1) + rest);
      Peeks(s, i, Amps(n) + rest, {'&'});
      var t := Take(s, i, Sym('&'), Amps(n - 1) + rest);
      d, k := BacksParse(s, t.next, Back(c), n - 1, rest);
      BacksStep(s, i, c, t, d, k);
    }
  }

  lemma LineStop(s: string, i: nat, c: Cmd<Span>, j: nat, d: Cmd<Span>, m: nat, rest: seq<Tok>) returns (k: nat)
    requires PipeIs(s, i, c, j) && BacksAre(s, j, c, d, m) && Lexes(s, m, rest) && !Leads(rest, {';'})
    ensures LineIs(s, i, d, k) && Lexes(s, k, rest)
  {
    Peeks(s, m, rest, {';'});
    Skips(s, m, rest);
    assert Seal<(Fact, int)>((ForPipe, i), 0) && Seal<(Fact, int)>((ForBacks, j), 0);
    k := SkipSpace(s, m);
  }

  lemma LineStep(s: string, i: nat, c: Cmd<Span>, j: nat, d: Cmd<Span>, m: nat, t: Token, e: Cmd<Span>, k: nat)
    requires PipeIs(s, i, c, j) && BacksAre(s, j, c, d, m) && Place(s, m) && Peek(s, m, {';'}) && Next(s, m, t) && LineIs(s, t.next, e, k)
    ensures LineIs(s, i, List(d, e), k)
  {
    OpenNext(s, m, t);
    assert Seal<(Fact, int)>((ForPipe, i), 0) && Seal<(Fact, int)>((ForBacks, j), 0) && Seal<(Fact, int)>((ForLine, t.next), 0);
  }

  /** What follows the pipeline of a line. */
  function TailToks(x: Line): seq<Tok> { if x.next.Some? then [Sym(';')] + LineToks(x.next.value) else [] }

  lemma TailFollows(x: Line, rest: seq<Tok>)
    requires AfterLine(rest)
    ensures AfterPipe(Amps(x.backs) + (TailToks(x) + rest)) && !Leads(TailToks(x) + rest, {'&'})
  {
    if x.next.Some? {
      assert (TailToks(x) + rest)[0] == Sym(';');
    } else {
      assert TailToks(x) + rest == rest;
    }
    if x.backs > 0 {
      assert (Amps(x.backs) + (TailToks(x) + rest))[0] == Sym('&');
    } else {
      assert Amps(x.backs) + (TailToks(x) + rest) == TailToks(x) + rest;
    }
  }

  lemma {:induction false} LineParsed(s: string, i: nat, x: Line, rest: seq<Tok>) returns (c: Cmd<Span>, k: nat)
    requires OkLine(x) && AfterLine(rest) && Lexes(s, i, LineToks(x) + rest)
    ensures LineIs(s, i, c, k) && Lexes(s, k, rest) && Read(s, c) == LineTree(x)
    decreases x
  {
    var tail := TailToks(x) + rest;
    assert LineToks(x) + rest == PipelineToks(x.pipe) + (Amps(x.backs) + tail);
    TailFollows(x, rest);
    var p, j := PipelineParses(s, i, x.pipe, Amps(x.backs) + tail);
    var d, m := BacksParse(s, j, p, x.backs, tail);
    if x.next.Some? {
      var more := LineToks(x.next.value) + rest;
      assert tail == [Sym(';')] + more;
      Peeks(s, m, tail, {';'});
      var t := Take(s, m, Sym(';'), more);
      var e;
      e, k := LineParsed(s, t.next, x.next.value, rest);
      LineStep(s, i, p, j, d, m, t, e, k);
      c := List(d, e);
    } else {
      assert tail == rest;
      k := LineStop(s, i, p, j, d, m, rest);
      c := d;
    }
  }

  // ----- Whatever is parsed is a concrete line -----

  lemma Untake(s: string, i: nat, t: Token, rest: seq<Tok>)
    requires Next(s, i, t) && t.kind != NUL && Lexes(s, t.next, rest)
    ensures t.q <= t.eq <= |s| && Lexes(s, i, [TokOf(s, t)] + rest)
  {
    OpenNext(s, i, t);
    OpenLexes(s, t.next, rest);
    Head(s, i);
  }

  lemma Unskip(s: string, i: nat, k: nat, rest: seq<Tok>)
    requires Place(s, i) && k == SkipSpace(s, i) && Lexes(s, k, rest)
    ensures Lexes(s, i, rest)
  {
    OpenLexes(s, k, rest);
    ToksSkip(s, i);
  }

  /** The token after a successful peek. */
  lemma Peeked(s: string, i: nat, at: set<char>) returns (t: Token)
    requires Place(s, i) && Symbols(at) && Peek(s, i, at)
    ensures Next(s, i, t) && i < t.next && t.q <= t.eq <= |s| && TokOf(s, t) == Sym(t.kind) && t.kind != NUL
    ensures t.kind in at || (t.kind == '+' && '>' in at)
  {
    Head(s, i);
    t := GetToken(s, i);
  }

  lemma RedirsCases(s: string, i: nat, ts: seq<Target<Span>>, ts': seq<Target<Span>>, k: nat) returns (stop: bool, t: Token, f: Token)
    requires RedirsAre(s, i, ts, ts', k)
    ensures stop ==> ts' == ts && k == SkipSpace(s, i)
    ensures !stop ==>
      && Next(s, i, t) && t.kind in {'<', '>', '+'} && t.q <= t.eq <= |s| && TokOf(s, t) == Sym(t.kind)
      && Next(s, t.next, f) && f.kind == 'a' && i < f.next
      && RedirsAre(s, f.next, ts + [TargetOf(t.kind, Span(f.q, f.eq))], ts', k)
  {
    assert Seal<(Fact, int)>((ForRedirs, i), 0);
    stop := !Peek(s, i, {'<', '>'});
    if stop {
      t, f := Token(NUL, 0, 0, 0), Token(NUL, 0, 0, 0);
    } else {
      t := Peeked(s, i, {'<', '>'});
      OpenNext(s, i, t);
      Head(s, t.next);
      f := GetToken(s, t.next);
    }
  }

  lemma {:induction false} RedirsFrom(s: string, i: nat, ts: seq<Target<Span>>, ts': seq<Target<Span>>, k: nat, rest: seq<Tok>)
    returns (rs: seq<Arrow>)
    requires RedirsAre(s, i, ts, ts', k) && Lexes(s, k, rest)
    ensures OkArrows(rs) && Lexes(s, i, ArrowToks(rs) + rest) && ReadTargets(s, ts') == ReadTargets(s, ts) + Targets(rs)
    decreases |s| - i
  {
    var stop, t, f := RedirsCases(s, i, ts, ts', k);
    if stop {
      rs := [];
      Unskip(s, i, k, rest);
      assert ArrowToks(rs) + rest == rest;
    } else {
      var w := Span(f.q, f.eq);
      var ts1 := ts + [TargetOf(t.kind, w)];
      var more := RedirsFrom(s, f.next, ts1, ts', k, rest);
      var r := Arrow(t.kind, WordAt(s, w));
      rs := [r] + more;
      Untake(s, t.next, f, ArrowToks(more) + rest);
      Untake(s, i, t, [Word(r.file)] + (ArrowToks(more) + rest));
      assert rs[1..] == more;
      assert ArrowToks(rs) + rest == [Sym(r.sym)] + ([Word(r.file)] + (ArrowToks(more) + rest));
      assert ReadTargets(s, ts1) == ReadTargets(s, ts) + [TargetFor(r)];
      assert Targets(rs) == [TargetFor(r)] + Targets(more);
    }
  }

  lemma ArgsCases(s: string, i: nat, argv: seq<Span>, ts: seq<Target<Span>>, a: seq<Span>, ts': seq<Target<Span>>, k: nat)
    returns (stop: bool, t: Token, ts1: seq<Target<Span>>, j: nat)
    requires ArgsAre(s, i, argv, ts, a, ts', k)
    ensures stop ==> a == argv && ts' == ts && k <= |s| && Toks(s, k) == Toks(s, i)
    ensures !stop ==>
      && Next(s, i, t) && t.kind == 'a' && i < t.next && |argv| + 1 < MAXARGS && t.q <= t.eq <= |s|
      && RedirsAre(s, t.next, ts, ts1, j) && i < j && ArgsAre(s, j, argv + [Span(t.q, t.eq)], ts1, a, ts', k)
  {
    assert Seal<(Fact, int)>((ForArgs, i), 0);
    Head(s, i);
    t := GetToken(s, i);
    ts1, j := [], 0;
    stop := Peek(s, i, {'|', ')', '&', ';'}) || t.kind == NUL;
    if stop {
      if t.kind == NUL { assert Toks(s, t.next) == []; }
    } else {
      var r := ParseRedirs(s, t.next, ts);
      ts1, j := r.value, r.pos;
    }
  }

  lemma {:induction false} ArgsFrom(s: string, i: nat, argv: seq<Span>, ts: seq<Target<Span>>, a: seq<Span>, ts': seq<Target<Span>>, k: nat, rest: seq<Tok>)
    returns (xs: seq<Arg>)
    requires ArgsAre(s, i, argv, ts, a, ts', k) && Lexes(s, k, rest) && |argv| < MAXARGS
    ensures OkArgs(xs) && |argv| + |xs| < MAXARGS && Lexes(s, i, ArgToks(xs) + rest)
    ensures ReadAll(s, a) == ReadAll(s, argv) + WordsOf(xs) && ReadTargets(s, ts') == ReadTargets(s, ts) + Targets(ArrowsOf(xs))
    decreases |s| - i
  {
    var stop, t, ts1, j := ArgsCases(s, i, argv, ts, a, ts', k);
    if stop {
      xs := [];
      OpenLexes(s, k, rest);
      assert ArgToks(xs) + rest == rest;
    } else {
      var w := Span(t.q, t.eq);
      var more := ArgsFrom(s, j, argv + [w], ts1, a, ts', k, rest);
      var rs := RedirsFrom(s, t.next, ts, ts1, j, ArgToks(more) + rest);
      xs := [Arg(WordAt(s, w), rs)] + more;
      assert xs[1..] == more;
      Untake(s, i, t, ArrowToks(rs) + (ArgToks(more) + rest));
      assert ArgToks(xs) + rest == [Word(xs[0].word)] + (ArrowToks(rs) + (ArgToks(more) + rest));
      ArgsJoin(s, argv, w, ts, ts1, xs);
    }
  }

  lemma BlockCases(s: string, i: nat, q: nat, c: Cmd<Span>, k: nat) returns (t: Token, d: Cmd<Span>, j: nat)
    requires ExecIs(s, i, c, k) && Peek(s, i, {'('}) && q == SkipSpace(s, i)
    ensures Next(s, q, t) && t.kind == '(' && i < t.next && TokensOf(s, t) == [Sym('(')] && LineIs(s, t.next, d, j) && CloseIs(s, d, j, c, k)
  {
    assert Seal<(Fact, int)>((ForExec, i), 0);
    assert SkipSpace(s, q) == q && Peek(s, q, {'('});
    assert ParseBlock(s, q) == Got(c, k);
    t := Peeked(s, q, {'('});
    OpenNext(s, q, t);
    var r := ParseLine(s, t.next);
    assert r.Got?;
    d, j := r.value, r.pos;
  }

  lemma SimpleCases(s: string, i: nat, q: nat, c: Cmd<Span>, k: nat)
    returns (ts: seq<Target<Span>>, j: nat, a: seq<Span>, ts': seq<Target<Span>>)
    requires ExecIs(s, i, c, k) && !Peek(s, i, {'('}) && q == SkipSpace(s, i)
    ensures RedirsAre(s, q, [], ts, j) && ArgsAre(s, j, [], ts, a, ts', k) && c == Wrap(Exec(a), ts')
  {
    assert Seal<(Fact, int)>((ForExec, i), 0);
    var r := ParseRedirs(s, q, []);
    ts, j := r.value, r.pos;
    var x := ParseArgs(s, j, [], ts);
    a, ts' := x.value.0, x.value.1;
  }

  function TokensOf(s: string, t: Token): seq<Tok> { if t.q <= t.eq <= |s| then [TokOf(s, t)] else [] }

  lemma CloseCases(s: string, i: nat, c: Cmd<Span>, d: Cmd<Span>, k: nat) returns (t: Token, ts: seq<Target<Span>>)
    requires CloseIs(s, c, i, d, k)
    ensures Next(s, i, t) && t.kind == ')' && TokensOf(s, t) == [Sym(')')] && RedirsAre(s, t.next, [], ts, k) && d == Wrap(c, ts)
  {
    assert Seal<(Fact, int)>((ForClose, i), 0);
    t := Peeked(s, i, {')'});
    OpenNext(s, i, t);
    ts := ParseRedirs(s, t.next, []).value;
  }

  lemma SimpleFrom(s: string, i: nat, q: nat, ts: seq<Target<Span>>, j: nat, a: seq<Span>, ts': seq<Target<Span>>, k: nat, rest: seq<Tok>)
    returns (x: Command)
    requires Place(s, i) && q == SkipSpace(s, i) && RedirsAre(s, q, [], ts, j) && ArgsAre(s, j, [], ts, a, ts', k) && Lexes(s, k, rest)
    ensures OkCommand(x) && Lexes(s, i, CommandToks(x) + rest) && Read(s, Wrap(Exec(a), ts')) == CommandTree(x)
  {
    var xs := ArgsFrom(s, j, [], ts, a, ts', k, rest);
    var lead := RedirsFrom(s, q, [], ts, j, ArgToks(xs) + rest);
    x := Simple(lead, xs);
    Unskip(s, i, q, ArrowToks(lead) + (ArgToks(xs) + rest));
    assert CommandToks(x) + rest == ArrowToks(lead) + (ArgToks(xs) + rest);
    SimpleReads(s, x, a, ts, ts');
  }

  lemma CloseFrom(s: string, i: nat, c: Cmd<Span>, d: Cmd<Span>, k: nat, rest: seq<Tok>) returns (rs: seq<Arrow>)
    requires CloseIs(s, c, i, d, k) && Lexes(s, k, rest)
    ensures OkArrows(rs) && Lexes(s, i, [Sym(')')] + (ArrowToks(rs) + rest)) && Read(s, d) == Redirected(Read(s, c), Targets(rs))
  {
    var t, ts := CloseCases(s, i, c, d, k);
    rs := RedirsFrom(s, t.next, [], ts, k, rest);
    Untake(s, i, t, ArrowToks(rs) + rest);
    WrapReads(s, c, ts);
    assert ReadTargets(s, []) + Targets(rs) == Targets(rs);
  }

  lemma {:induction false} CommandFrom(s: string, i: nat, c: Cmd<Span>, k: nat, rest: seq<Tok>) returns (x: Command)
    requires ExecIs(s, i, c, k) && Lexes(s, k, rest)
    ensures OkCommand(x) && Lexes(s, i, CommandToks(x) + rest) && Read(s, c) == CommandTree(x)
    decreases |s| - i, 0
  {
    var q := SkipSpace(s, i);
    if Peek(s, i, {'('}) {
      var t, d, j := BlockCases(s, i, q, c, k);
      var rs := CloseFrom(s, j, d, c, k, rest);
      var close := [Sym(')')] + (ArrowToks(rs) + rest);
      var line := LineFrom(s, t.next, d, j, close);
      x := Block(line, rs);
      Untake(s, q, t, LineToks(line) + close);
      Unskip(s, i, q, [Sym('(')] + (LineToks(line) + close));
      assert CommandToks(x) + rest == [Sym('(')] + (LineToks(line) + close);
    } else {
      var ts, j, a, ts' := SimpleCases(s, i, q, c, k);
      x := SimpleFrom(s, i, q, ts, j, a, ts', k, rest);
    }
  }

  lemma PipeCases(s: string, i: nat, c: Cmd<Span>, k: nat) returns (l: Cmd<Span>, j: nat, more: bool, t: Token, r: Cmd<Span>)
    requires PipeIs(s, i, c, k)
    ensures ExecIs(s, i, l, j) && i <= j <= |s|
    ensures more ==> Next(s, j, t) && t.kind == '|' && TokensOf(s, t) == [Sym('|')] && i < t.next && PipeIs(s, t.next, r, k) && c == Pipe(l, r)
    ensures !more ==> c == l && k == SkipSpace(s, j)
  {
    assert Seal<(Fact, int)>((ForPipe, i), 0);
    var e := ParseExec(s, i);
    l, j := e.value, e.pos;
    more := Peek(s, j, {'|'});
    t, r := Token(NUL, 0, 0, 0), l;
    if more {
      t := Peeked(s, j, {'|'});
      OpenNext(s, j, t);
      r := ParsePipe(s, t.next).value;
    }
  }

  lemma {:induction false} PipelineFrom(s: string, i: nat, c: Cmd<Span>, k: nat, rest: seq<Tok>) returns (x: Pipeline)
    requires PipeIs(s, i, c, k) && Lexes(s, k, rest)
    ensures OkPipeline(x) && Lexes(s, i, PipelineToks(x) + rest) && Read(s, c) == PipelineTree(x)
    decreases |s| - i, 1
  {
    var l, j, more, t, r := PipeCases(s, i, c, k);
    if more {
      var next := PipelineFrom(s, t.next, r, k, rest);
      var tail := [Sym('|')] + (PipelineToks(next) + rest);
      Untake(s, j, t, PipelineToks(next) + rest);
      var cmd := CommandFrom(s, i, l, j, tail);
      x := Pipeline(cmd, Some(next));
      assert PipelineToks(x) + rest == CommandToks(cmd) + tail;
    } else {
      Unskip(s, j, k, rest);
      var cmd := CommandFrom(s, i, l, j, rest);
      x := Pipeline(cmd, None);
      assert PipelineToks(x) + rest == CommandToks(cmd) + rest;
    }
  }

  lemma BacksCases(s: string, i: nat, c: Cmd<Span>, d: Cmd<Span>, k: nat) returns (more: bool, t: Token)
    requires BacksAre(s, i, c, d, k)
    ensures more ==> Next(s, i, t) && t.kind == '&' && TokensOf(s, t) == [Sym('&')] && i < t.next && BacksAre(s, t.next, Back(c), d, k)
    ensures !more ==> d == c && k == SkipSpace(s, i)
  {
    assert Seal<(Fact, int)>((ForBacks, i), 0);
    more := Peek(s, i, {'&'});
    t := Token(NUL, 0, 0, 0);
    if more {
      t := Peeked(s, i, {'&'});
      OpenNext(s, i, t);
    }
  }

  lemma {:induction false} BacksFrom(s: string, i: nat, c: Cmd<Span>, d: Cmd<Span>, k: nat, rest: seq<Tok>) returns (n: nat)
    requires BacksAre(s, i, c, d, k) && Lexes(s, k, rest)
    ensures Lexes(s, i, Amps(n) + rest) && Read(s, d) == Backs(Read(s, c), n)
    decreases |s| - i
  {
    var more, t := BacksCases(s, i, c, d, k);
    if more {
      var m := BacksFrom(s, t.next, Back(c), d, k, rest);
      n := m + 1;
      Untake(s, i, t, Amps(m) + rest);
      assert Amps(n) + rest == [Sym('&')] + (Amps(m) + rest);
    } else {
      n := 0;
      Unskip(s, i, k, rest);
      assert Amps(n) + rest == rest;
    }
  }

  lemma LineCases(s: string, i: nat, c: Cmd<Span>, k: nat)
    returns (p: Cmd<Span>, j: nat, d: Cmd<Span>, m: nat, more: bool, t: Token, e: Cmd<Span>)
    requires LineIs(s, i, c, k)
    ensures PipeIs(s, i, p, j) && i <= j && BacksAre(s, j, p, d, m)
    ensures more ==> Next(s, m, t) && t.kind == ';' && TokensOf(s, t) == [Sym(';')] && i < t.next && LineIs(s, t.next, e, k) && c == List(d, e)
    ensures !more ==> c == d && Place(s, m) && k == SkipSpace(s, m)
  {
    assert Seal<(Fact, int)>((ForLine, i), 0);
    var r := ParsePipe(s, i);
    p, j := r.value, r.pos;
    var b := ParseBacks(s, j, p);
    d, m := b.0, b.1;
    more := Peek(s, m, {';'});
    t, e := Token(NUL, 0, 0, 0), d;
    if more {
      t := Peeked(s, m, {';'});
      OpenNext(s, m, t);
      e := ParseLine(s, t.next).value;
    }
  }

  lemma {:induction false} LineFrom(s: string, i: nat, c: Cmd<Span>, k: nat, rest: seq<Tok>) returns (x: Line)
    requires LineIs(s, i, c, k) && Lexes(s, k, rest)
    ensures OkLine(x) && Lexes(s, i, LineToks(x) + rest) && Read(s, c) == LineTree(x)
    decreases |s| - i, 2
  {
    var p, j, d, m, more, t, e := LineCases(s, i, c, k);
    if more {
      var next := LineFrom(s, t.next, e, k, rest);
      var tail := [Sym(';')] + (LineToks(next) + rest);
      Untake(s, m, t, LineToks(next) + rest);
      var n := BacksFrom(s, j, p, d, m, tail);
      var pipe := PipelineFrom(s, i, p, j, Amps(n) + tail);
      x := Line(pipe, n, Some(next));
      assert LineToks(x) + rest == PipelineToks(pipe) + (Amps(n) + tail);
    } else {
      Unskip(s, m, k, rest);
      var n := BacksFrom(s, j, p, d, m, rest);
      var pipe := PipelineFrom(s, i, p, j, Amps(n) + rest);
      x := Line(pipe, n, None);
      assert LineToks(x) + rest == PipelineToks(pipe) + (Amps(n) + rest);
    }
  }

  // ----- The language -----

  /** s is a text of the concrete line x. */
  ghost predicate Derives(s: string, x: Line) { OkLine(x) && Spells(s, 0, LineToks(x)) }

  lemma Accepted(s: string, x: Line)
    requires NulFree(s) && Derives(s, x)
    ensures ParseCmd(s).Got? && Read(s, ParseCmd(s).value) == LineTree(x)
  {
    SpellsExactly(s, 0, LineToks(x));
    assert LineToks(x) + [] == LineToks(x);
    var c, k := LineParsed(s, 0, x, []);
    Whole(s, c, k);
  }

  lemma Whole(s: string, c: Cmd<Span>, k: nat)
    requires LineIs(s, 0, c, k) && Lexes(s, k, [])
    ensures ParseCmd(s) == Got(c, |s|)
  {
    assert Seal<(Fact, int)>((ForLine, 0), 0);
    OpenLexes(s, k, []);
    Head(s, k);
  }

  lemma Derived(s: string) returns (x: Line)
    requires NulFree(s) && ParseCmd(s).Got?
    ensures Derives(s, x) && Read(s, ParseCmd(s).value) == LineTree(x)
  {
    var r := ParseLine(s, 0);
    Head(s, r.pos);
    assert Toks(s, r.pos) == [];
    x := LineFrom(s, 0, r.value, r.pos, []);
    assert LineToks(x) + [] == LineToks(x);
    OpenLexes(s, 0, LineToks(x));
    SpellsExactly(s, 0, LineToks(x));
  }

  /** The parser gives tree c for exactly the texts of the concrete lines whose tree is c, and panics on every other text. */
  lemma ParsesExactly(s: string, c: Cmd<string>)
    requires NulFree(s)
    ensures ParseCmd(s).Got? && Read(s, ParseCmd(s).value) == c <==> exists x :: Derives(s, x) && LineTree(x) == c
  {
    if ParseCmd(s).Got? { var x := Derived(s); }
    if exists x :: Derives(s, x) && LineTree(x) == c {
      var x :| Derives(s, x) && LineTree(x) == c;
      Accepted(s, x);
    }
  }
}
