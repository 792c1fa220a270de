/**
 * Printing a command tree with parentheses only where it needs them, and reading it back. No concrete
 * line with the same tree has fewer parentheses.
 */
module ShellPrint {
  import opened Common
  import opened ShellGrammar
  import opened ShellSyntax

  predicate ValidTarget(to: Target<string>) {
    ValidWord(to.file) && ((to.mode == O_RDONLY && to.fd == 0) || (to.mode == O_WRONLY + O_CREATE && to.fd == 1))
  }

  /** The trees the shell can hold: at most 9 words a command, and the two kinds of redirection. */
  predicate ValidTree(t: Cmd<string>) {
    match t
    case Exec(argv) => |argv| < MAXARGS && forall k :: 0 <= k < |argv| ==> ValidWord(argv[k])
    case Redir(d, to) => ValidTree(d) && ValidTarget(to)
    case Pipe(l, r) => ValidTree(l) && ValidTree(r)
    case List(l, r) => ValidTree(l) && ValidTree(r)
    case Back(d) => ValidTree(d)
  }

  function Size(t: Cmd<string>): nat {
    match t
    case Exec(_) => 1
    case Redir(d, _) => 1 + Size(d)
    case Pipe(l, r) => 1 + Size(l) + Size(r)
    case List(l, r) => 1 + Size(l) + Size(r)
    case Back(d) => 1 + Size(d)
  }

  /** t without the redirections around it, and those from the innermost out. */
  function Core(t: Cmd<string>): (r: Cmd<string>)
    ensures Size(r) <= Size(t) && !r.Redir? && (t.Redir? ==> Size(r) < Size(t)) && (!t.Redir? ==> r == t)
  {
    if t.Redir? then Core(t.cmd) else t
  }

  function Around(t: Cmd<string>): seq<Target<string>> { if t.Redir? then Around(t.cmd) + [t.to] else [] }

  /** t without the "&" after it, and how many there are. */
  function Front(t: Cmd<string>): (r: Cmd<string>)
    ensures Size(r) <= Size(t) && !r.Back? && (t.Back? ==> Size(r) < Size(t)) && (!t.Back? ==> r == t)
  {
    if t.Back? then Front(t.cmd) else t
  }

  function Behind(t: Cmd<string>): nat { if t.Back? then Behind(t.cmd) + 1 else 0 }

  function ArrowFor(to: Target<string>): Arrow { Arrow(if to.fd == 0 then '<' else '>', to.file) }

  function ArrowsFor(ts: seq<Target<string>>): seq<Arrow> { seq(|ts|, k requires 0 <= k < |ts| => ArrowFor(ts[k])) }

  /** The words, with the redirections after the last one. */
  function ArgsFor(argv: seq<string>, rs: seq<Arrow>): seq<Arg> {
    if argv == [] then [] else [Arg(argv[0], if |argv| == 1 then rs else [])] + ArgsFor(argv[1..], rs)
  }

  function AsCommand(t: Cmd<string>): Command
    decreases Size(t), if t.Exec? || t.Redir? then 3 else if t.Pipe? then 5 else 4
  {
    var c, rs := Core(t), ArrowsFor(Around(t));
    match c
    case Exec(argv) => if argv == [] then Simple(rs, []) else Simple([], ArgsFor(argv, rs))
    case _ => Block(AsLine(c), rs)
  }

  function AsPipeline(t: Cmd<string>): Pipeline
    decreases Size(t), if t.Exec? || t.Redir? then 4 else if t.Pipe? then 3 else 5
  {
    if t.Pipe? then Pipeline(AsCommand(t.left), Some(AsPipeline(t.right))) else Pipeline(AsCommand(t), None)
  }

  function AsLine(t: Cmd<string>): Line
    decreases Size(t), if t.Exec? || t.Redir? then 5 else if t.Pipe? then 4 else 3
  {
    if t.List? then Line(AsPipeline(Front(t.left)), Behind(t.left), Some(AsLine(t.right)))
    else Line(AsPipeline(Front(t)), Behind(t), None)
  }

  // ----- It is the tree's -----

  lemma {:induction false} CoreAround(t: Cmd<string>)
    ensures Redirected(Core(t), Around(t)) == t
  {
    if t.Redir? {
      CoreAround(t.cmd);
      RedirectedLast(Core(t), Around(t));
      assert Around(t)[..|Around(t)| - 1] == Around(t.cmd);
    }
  }

  lemma {:induction false} BacksOut(c: Cmd<string>, n: nat)
    requires n > 0
    ensures Backs(c, n) == Back(Backs(c, n - 1))
    decreases n
  {
    if n > 1 { BacksOut(Back(c), n - 1); }
  }

  lemma {:induction false} FrontBehind(t: Cmd<string>)
    ensures Backs(Front(t), Behind(t)) == t
  {
    if t.Back? {
      FrontBehind(t.cmd);
      BacksOut(Front(t), Behind(t));
    }
  }

  lemma {:induction false} ValidParts(t: Cmd<string>)
    requires ValidTree(t)
    ensures ValidTree(Core(t)) && ValidTree(Front(t)) && forall k :: 0 <= k < |Around(t)| ==> ValidTarget(Around(t)[k])
  {
    if t.Redir? || t.Back? { ValidParts(t.cmd); }
  }

  lemma {:induction false} ArgsOf(argv: seq<string>, rs: seq<Arrow>)
    ensures var xs := ArgsFor(argv, rs);
      && |xs| == |argv| && WordsOf(xs) == argv && (OkArrows(rs) ==> OkArgs(xs))
      && (argv != [] ==> ArrowsOf(xs) == rs)
  {
    var xs := ArgsFor(argv, rs);
    if argv != [] {
      ArgsOf(argv[1..], rs);
      assert xs[1..] == ArgsFor(argv[1..], rs);
      if |argv| == 1 { assert ArrowsOf(xs) == rs + []; } else { assert ArrowsOf(xs) == [] + rs; }
    }
  }

  lemma ArrowsBack(ts: seq<Target<string>>)
    requires forall k :: 0 <= k < |ts| ==> ValidTarget(ts[k])
    ensures Targets(ArrowsFor(ts)) == ts && OkArrows(ArrowsFor(ts))
  {
  }

  lemma SimpleIs(t: Cmd<string>)
    requires ValidTree(t) && Core(t).Exec?
    ensures OkCommand(AsCommand(t)) && CommandTree(AsCommand(t)) == t
  {
    var argv, rs := Core(t).argv, ArrowsFor(Around(t));
    ValidParts(t);
    ArrowsBack(Around(t));
    CoreAround(t);
    ArgsOf(argv, rs);
    if argv == [] { assert rs + ArrowsOf([]) == rs; } else { assert [] + rs == rs; }
  }

  lemma {:induction false} CommandIs(t: Cmd<string>)
    requires ValidTree(t)
    ensures OkCommand(AsCommand(t)) && CommandTree(AsCommand(t)) == t
    decreases Size(t), if t.Exec? || t.Redir? then 3 else if t.Pipe? then 5 else 4
  {
    if Core(t).Exec? {
      SimpleIs(t);
    } else {
      ValidParts(t);
      ArrowsBack(Around(t));
      CoreAround(t);
      LineIsTree(Core(t));
    }
  }

  lemma {:induction false} PipelineIs(t: Cmd<string>)
    requires ValidTree(t)
    ensures OkPipeline(AsPipeline(t)) && PipelineTree(AsPipeline(t)) == t
    decreases Size(t), if t.Exec? || t.Redir? then 4 else if t.Pipe? then 3 else 5
  {
    if t.Pipe? {
      CommandIs(t.left);
      PipelineIs(t.right);
    } else {
      CommandIs(t);
    }
  }

  /** The concrete line made for a tree has that tree. */
  lemma {:induction false} LineIsTree(t: Cmd<string>)
    requires ValidTree(t)
    ensures OkLine(AsLine(t)) && LineTree(AsLine(t)) == t
    decreases Size(t), if t.Exec? || t.Redir? then 5 else if t.Pipe? then 4 else 3
  {
    if t.List? {
      ValidParts(t.left);
      FrontBehind(t.left);
      PipelineIs(Front(t.left));
      LineIsTree(t.right);
    } else {
      ValidParts(t);
      FrontBehind(t);
      PipelineIs(Front(t));
    }
  }

  // ----- Laying it out -----

  function Text(t: Tok): string {
    match t
    case Word(w) => w
    case Sym(c) => if c == '+' then ">>" else [c]
  }

  /** The tokens with a blank after each. */
  function Lay(ts: seq<Tok>): string { if ts == [] then "" else Text(ts[0]) + " " + Lay(ts[1..]) }

  predicate ValidTok(t: Tok) {
    match t
    case Word(w) => ValidWord(w)
    case Sym(c) => c == '+' || IsSymbol(c)
  }

  predicate ValidToks(ts: seq<Tok>) { forall k :: 0 <= k < |ts| ==> ValidTok(ts[k]) }

  lemma TextFirst(t: Tok)
    requires ValidTok(t)
    ensures Text(t) != "" && !IsSpace(Text(t)[0]) && NulFree(Text(t))
  {
    if t.Word? { assert forall k :: 0 <= k < |t.text| ==> IsWordChar(t.text[k]); }
  }

  /** Spells, folded. */
  ghost predicate Spelled(s: string, i: nat, ts: seq<Tok>) {
    i <= |s| && forall z: int {:trigger Seal<(int, seq<Tok>)>((i, ts), z)} :: Seal<(int, seq<Tok>)>((i, ts), z) ==> Spells(s, i, ts)
  }

  lemma {:induction false} LaySpells(p: string, ts: seq<Tok>)
    requires ValidToks(ts) && NulFree(p)
    ensures NulFree(p + Lay(ts)) && Spelled(p + Lay(ts), |p|, ts)
    decreases |ts|
  {
    if ts == [] {
      assert p + Lay(ts) == p;
    } else {
      var x := Text(ts[0]);
      TextFirst(ts[0]);
      LaidParts(p, x, Lay(ts[1..]));
      LaySpells(p + x + " ", ts[1..]);
      assert Lay(ts) == x + " " + Lay(ts[1..]);
      OneLaid(p + Lay(ts), |p|, ts[0], ts);
    }
  }

  lemma LaidParts(p: string, x: string, rest: string)
    ensures var s := p + (x + " " + rest);
      && s == p + x + " " + rest && s[|p|..|p| + |x|] == x && s[|p| + |x|] == ' ' && |p + x + " "| == |p| + |x| + 1
    ensures NulFree(p) && NulFree(x) ==> NulFree(p + x + " ")
  {
    var s := p + (x + " " + rest);
    assert s == p + x + " " + rest;
  }

  /** A token and the blank after it. */
  lemma OneLaid(s: string, i: nat, t: Tok, ts: seq<Tok>)
    requires ts != [] && t == ts[0] && ValidTok(t) && i + |Text(t)| + 1 <= |s|
    requires s[i..i + |Text(t)|] == Text(t) && s[i + |Text(t)|] == ' ' && Spelled(s, i + |Text(t)| + 1, ts[1..])
    ensures Spelled(s, i, ts)
  {
    var e := i + |Text(t)|;
    assert Seal<(int, seq<Tok>)>((e + 1, ts[1..]), 0);
    TextFirst(t);
    assert s[i] == s[i..e][0];
    assert Spells(s, e, ts[1..]);
    if t.Sym? && t.c == '+' { assert s[i + 1] == s[i..e][1]; }
  }

  lemma {:induction false} ArrowsValid(rs: seq<Arrow>)
    requires OkArrows(rs) && forall k :: 0 <= k < |rs| ==> ValidWord(rs[k].file)
    ensures ValidToks(ArrowToks(rs))
  {
    if rs != [] { ArrowsValid(rs[1..]); }
  }

  lemma {:induction false} ArgsValid(argv: seq<string>, rs: seq<Arrow>)
    requires ValidToks(ArrowToks(rs)) && forall k :: 0 <= k < |argv| ==> ValidWord(argv[k])
    ensures ValidToks(ArgToks(ArgsFor(argv, rs)))
  {
    if argv != [] {
      ArgsValid(argv[1..], rs);
      assert ArgsFor(argv, rs)[1..] == ArgsFor(argv[1..], rs);
    }
  }

  lemma {:induction false} AmpsValid(n: nat)
    ensures ValidToks(Amps(n))
  {
    if n > 0 { AmpsValid(n - 1); }
  }

  lemma {:induction false} CommandValid(t: Cmd<string>)
    requires ValidTree(t)
    ensures ValidToks(CommandToks(AsCommand(t)))
    decreases Size(t), if t.Exec? || t.Redir? then 3 else if t.Pipe? then 5 else 4
  {
    ValidParts(t);
    ArrowsBack(Around(t));
    ArrowsValid(ArrowsFor(Around(t)));
    if Core(t).Exec? {
      ArgsValid(Core(t).argv, ArrowsFor(Around(t)));
    } else {
      LineValid(Core(t));
    }
  }

  lemma {:induction false} PipelineValid(t: Cmd<string>)
    requires ValidTree(t)
    ensures ValidToks(PipelineToks(AsPipeline(t)))
    decreases Size(t), if t.Exec? || t.Redir? then 4 else if t.Pipe? then 3 else 5
  {
    if t.Pipe? {
      CommandValid(t.left);
      PipelineValid(t.right);
    } else {
      CommandValid(t);
    }
  }

  lemma {:induction false} LineValid(t: Cmd<string>)
    requires ValidTree(t)
    ensures ValidToks(LineToks(AsLine(t)))
    decreases Size(t), if t.Exec? || t.Redir? then 5 else if t.Pipe? then 4 else 3
  {
    if t.List? {
      ValidParts(t.left);
      PipelineValid(Front(t.left));
      AmpsValid(Behind(t.left));
      LineValid(t.right);
    } else {
      ValidParts(t);
      PipelineValid(Front(t));
      AmpsValid(Behind(t));
    }
  }

  /** The text of a tree. */
  function Print(t: Cmd<string>): string { Lay(LineToks(AsLine(t))) }

  /** Every tree is read back from its text. */
  lemma RoundTrip(t: Cmd<string>)
    requires ValidTree(t)
    ensures NulFree(Print(t)) && ParseCmd(Print(t)).Got? && Read(Print(t), ParseCmd(Print(t)).value) == t
  {
    var x := AsLine(t);
    LineIsTree(t);
    LineValid(t);
    LaySpells("", LineToks(x));
    assert "" + Lay(LineToks(x)) == Print(t);
    assert Seal<(int, seq<Tok>)>((0, LineToks(x)), 0);
    Accepted(Print(t), x);
  }

  // ----- No line of the tree has fewer parentheses -----

  function Parens(x: Line): nat { PipeParens(x.pipe) + if x.next.Some? then Parens(x.next.value) else 0 }

  function PipeParens(x: Pipeline): nat { CmdParens(x.cmd) + if x.next.Some? then PipeParens(x.next.value) else 0 }

  function CmdParens(x: Command): nat { if x.Block? then 1 + Parens(x.line) else 0 }

  lemma {:induction false} CoreOf(c: Cmd<string>, ts: seq<Target<string>>)
    ensures Core(Redirected(c, ts)) == Core(c) && (ts == [] ==> Redirected(c, ts) == c)
    decreases |ts|
  {
    if ts != [] { CoreOf(Redir(c, ts[0]), ts[1..]); }
  }

  lemma {:induction false} FrontOf(c: Cmd<string>, n: nat)
    ensures Front(Backs(c, n)) == Front(c) && (n > 0 ==> Backs(c, n).Back?)
    decreases n
  {
    if n > 0 { FrontOf(Back(c), n - 1); }
  }

  /** A command whose tree is not a redirection is a block with no arrows, or simple. */
  lemma NoArrows(x: Command)
    requires !CommandTree(x).Redir?
    ensures x.Block? ==> CommandTree(x) == LineTree(x.line)
    ensures x.Simple? ==> CommandTree(x).Exec?
  {
    var ts := if x.Block? then Targets(x.arrows) else Targets(x.lead + ArrowsOf(x.args));
    if ts != [] { RedirectedLast(if x.Block? then LineTree(x.line) else Exec(WordsOf(x.args)), ts); }
  }

  lemma {:induction false} FewestCmd(x: Command)
    ensures CmdParens(AsCommand(CommandTree(x))) <= CmdParens(x)
    decreases x, 0
  {
    var t := CommandTree(x);
    match x
    case Simple(lead, xs) => CoreOf(Exec(WordsOf(xs)), Targets(lead + ArrowsOf(xs)));
    case Block(line, rs) =>
      CoreOf(LineTree(line), Targets(rs));
      FewestLine(line);
      if LineTree(line).Redir? {
        // The line is one command, whose own parentheses are enough.
        FrontOf(PipelineTree(line.pipe), line.backs);
        FewestCmd(line.pipe.cmd);
      }
  }

  lemma {:induction false} FewestPipe(x: Pipeline)
    ensures PipeParens(AsPipeline(PipelineTree(x))) <= PipeParens(x)
    decreases x, 1
  {
    FewestCmd(x.cmd);
    if x.next.Some? {
      FewestPipe(x.next.value);
    } else if PipelineTree(x).Pipe? {
      NoArrows(x.cmd);
      FewestLine(x.cmd.line);
    }
  }

  /** The pipeline that is left when the "&" of its tree are taken off. */
  lemma {:induction false} FewestFront(x: Pipeline)
    ensures PipeParens(AsPipeline(Front(PipelineTree(x)))) <= PipeParens(x)
    decreases x, 2
  {
    FewestPipe(x);
    if PipelineTree(x).Back? {
      NoArrows(x.cmd);
      FewestLine(x.cmd.line);
    }
  }

  /** Of all concrete lines with its tree, the one made for the tree has the fewest parentheses. */
  lemma {:induction false} FewestLine(x: Line)
    ensures Parens(AsLine(LineTree(x))) <= Parens(x)
    decreases x, 3
  {
    FewestFront(x.pipe);
    FrontOf(PipelineTree(x.pipe), x.backs);
    if x.next.Some? {
      FewestLine(x.next.value);
    } else if LineTree(x).List? {
      NoArrows(x.pipe.cmd);
      FewestLine(x.pipe.cmd.line);
    }
  }
}
