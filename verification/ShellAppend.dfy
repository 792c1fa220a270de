/**
 * ">>" in src/sh.c: the parser gives it the mode of ">". For every line and every ">>" token in it,
 * the line with a single ">" instead has the same parse, spans included.
 */
module ShellAppend {
  import opened Common
  import opened ShellGrammar

  /** How many ">" stand directly before index i. */
  function Before(s: string, i: nat): (n: nat)
    requires i <= |s|
    ensures n <= i && (forall k :: i - n <= k < i ==> s[k] == '>') && (n < i ==> s[i - n - 1] != '>')
  {
    if i > 0 && s[i - 1] == '>' then Before(s, i - 1) + 1 else 0
  }

  /** gettoken can find ">>" at i: it takes the symbols of a run two by two. */
  predicate AppendAt(s: string, i: nat) {
    i + 1 < |s| && s[i] == '>' && s[i + 1] == '>' && Before(s, i) % 2 == 0
  }

  /** The run of ">" around the token starts at a, and in s' the token is ">" and a blank. */
  ghost predicate Run(s: string, s': string, a: nat, i: nat) {
    && a <= i && i + 1 < |s| && (i - a) % 2 == 0 && s' == s[i + 1 := ' ']
    && (forall k :: a <= k <= i + 1 ==> s[k] == '>') && (a > 0 ==> s[a - 1] != '>')
  }

  /** The same, folded. */
  ghost predicate Site(s: string, s': string, a: nat, i: nat) {
    && NulFree(s) && NulFree(s') && |s'| == |s| && a <= i && i + 1 < |s| && (i - a) % 2 == 0
    && forall z: int {:trigger Seal((s, s', i), z)} :: Seal((s, s', i), z) ==> Run(s, s', a, i)
  }

  lemma OpenSite(s: string, s': string, a: nat, i: nat)
    requires Site(s, s', a, i)
    ensures Run(s, s', a, i)
  {
    assert Seal<(string, string, nat)>((s, s', i), 0);
  }

  /** Where the parser can be: never between the two symbols of a token. */
  predicate Ok(a: nat, i: nat, p: nat) { p <= a || p >= i + 2 || (p - a) % 2 == 0 }

  lemma {:induction false} SkipAgrees(s: string, s': string, a: nat, i: nat, p: nat)
    requires Site(s, s', a, i) && Ok(a, i, p) && p <= |s|
    ensures SkipSpace(s', p) == SkipSpace(s, p) && Ok(a, i, SkipSpace(s, p))
    ensures p <= a ==> SkipSpace(s, p) <= a
    ensures At(s', SkipSpace(s, p)) == At(s, SkipSpace(s, p))
    decreases |s| - p
  {
    OpenSite(s, s', a, i);
    if p < |s| && IsSpace(s[p]) { SkipAgrees(s, s', a, i, p + 1); }
  }

  lemma PeekAgrees(s: string, s': string, a: nat, i: nat, p: nat, toks: set<char>)
    requires Site(s, s', a, i) && Ok(a, i, p) && p <= |s|
    ensures Peek(s', p, toks) == Peek(s, p, toks)
  {
    SkipAgrees(s, s', a, i, p);
  }

  lemma {:induction false} WordAgrees(s: string, s': string, a: nat, i: nat, p: nat)
    requires Site(s, s', a, i) && (p <= a || p >= i + 2) && p <= |s|
    ensures WordEnd(s', p) == WordEnd(s, p) && (p <= a ==> WordEnd(s, p) <= a)
    decreases |s| - p
  {
    OpenSite(s, s', a, i);
    if p < |s| && !IsSpace(s[p]) && !IsSymbol(s[p]) { WordAgrees(s, s', a, i, p + 1); }
  }

  /** The same token, or ">>" in one line and ">" in the other. */
  predicate Alike(t: Token, t': Token) {
    && t'.q == t.q && t'.next == t.next
    && (t' == t || (t.kind == '+' && t'.kind == '>'))
  }

  lemma TokenAfterBlanks(s: string, p: nat)
    requires NulFree(s) && p <= |s|
    ensures GetToken(s, p) == GetToken(s, SkipSpace(s, p))
  {
  }

  lemma TokenAgrees(s: string, s': string, a: nat, i: nat, p: nat)
    requires Site(s, s', a, i) && Ok(a, i, p) && p <= |s|
    ensures Alike(GetToken(s, p), GetToken(s', p)) && Ok(a, i, GetToken(s, p).next)
  {
    SkipAgrees(s, s', a, i, p);
    TokenAfterBlanks(s, p);
    TokenAfterBlanks(s', p);
    var q := SkipSpace(s, p);
    if a <= q <= i {
      RunAgrees(s, s', a, i, q);
    } else if q < |s| {
      SymbolAgrees(s, s', a, i, q);
    }
  }

  /** In the run. */
  lemma RunAgrees(s: string, s': string, a: nat, i: nat, q: nat)
    requires Site(s, s', a, i) && a <= q <= i < |s| && Ok(a, i, q)
    ensures Alike(GetToken(s, q), GetToken(s', q)) && Ok(a, i, GetToken(s, q).next)
  {
    OpenSite(s, s', a, i);
    SkipAgrees(s, s', a, i, q);
    SkipAgrees(s, s', a, i, q + 2);
    if q == i { assert SkipSpace(s', i + 1) == SkipSpace(s', i + 2); }
  }

  /** Away from the run. */
  lemma SymbolAgrees(s: string, s': string, a: nat, i: nat, q: nat)
    requires Site(s, s', a, i) && q < |s| && (q < a || q >= i + 2) && !IsSpace(s[q])
    ensures GetToken(s', q) == GetToken(s, q) && Ok(a, i, GetToken(s, q).next)
  {
    NearAgrees(s, s', a, i, q);
    var e := TokenEnd(s, q);
    TokenFrom(s, q);
    TokenFrom(s', q);
    if !IsSymbol(s[q]) { WordAgrees(s, s', a, i, q); }
    SkipAgrees(s, s', a, i, e);
  }

  /** Where the token at q ends. */
  function TokenEnd(s: string, q: nat): (e: nat)
    requires q < |s|
    ensures q <= e <= |s|
  {
    if s[q] == '>' && At(s, q + 1) == '>' then q + 2
    else if IsSymbol(s[q]) then q + 1
    else WordEnd(s, q)
  }

  lemma TokenFrom(s: string, q: nat)
    requires NulFree(s) && q < |s| && !IsSpace(s[q])
    ensures var e := TokenEnd(s, q);
      GetToken(s, q) == Token(if e == q + 2 && s[q] == '>' then '+' else if IsSymbol(s[q]) then s[q] else 'a', q, e, SkipSpace(s, e))
  {
  }

  lemma NearAgrees(s: string, s': string, a: nat, i: nat, q: nat)
    requires Site(s, s', a, i) && q < |s| && (q < a || q >= i + 2)
    ensures s'[q] == s[q] && At(s', q + 1) == At(s, q + 1)
    ensures s[q] == '>' && At(s, q + 1) == '>' && q < a ==> q + 2 <= a
  {
    OpenSite(s, s', a, i);
  }

  // ----- The parse functions -----

  /** The same value or panic, and a cursor from which parsing goes on alike. */
  ghost predicate Same<T>(r: Parsed<T>, r': Parsed<T>, a: nat, i: nat) {
    r' == r && (r.Got? ==> Ok(a, i, r.pos))
  }

  lemma {:induction false} RedirsAgree(s: string, s': string, a: nat, i: nat, p: nat, ts: seq<Target<Span>>)
    requires Site(s, s', a, i) && Ok(a, i, p) && p <= |s|
    ensures Same(ParseRedirs(s, p, ts), ParseRedirs(s', p, ts), a, i)
    decreases |s| - p
  {
    SkipAgrees(s, s', a, i, p);
    PeekAgrees(s, s', a, i, p, {'<', '>'});
    if Peek(s, p, {'<', '>'}) {
      var q := SkipSpace(s, p);
      TokenAgrees(s, s', a, i, q);
      var t := GetToken(s, q);
      TokenAgrees(s, s', a, i, t.next);
      var f := GetToken(s, t.next);
      if f.kind == 'a' { RedirsAgree(s, s', a, i, f.next, ts + [TargetOf(t.kind, Span(f.q, f.eq))]); }
    }
  }

  lemma {:induction false} ArgsAgree(s: string, s': string, a: nat, i: nat, p: nat, argv: seq<Span>, ts: seq<Target<Span>>)
    requires Site(s, s', a, i) && Ok(a, i, p) && p <= |s|
    ensures Same(ParseArgs(s, p, argv, ts), ParseArgs(s', p, argv, ts), a, i)
    decreases |s| - p
  {
    SkipAgrees(s, s', a, i, p);
    PeekAgrees(s, s', a, i, p, {'|', ')', '&', ';'});
    var q := SkipSpace(s, p);
    TokenAgrees(s, s', a, i, q);
    var t := GetToken(s, q);
    if !Peek(s, p, {'|', ')', '&', ';'}) && t.kind == 'a' {
      RedirsAgree(s, s', a, i, t.next, ts);
      var r := ParseRedirs(s, t.next, ts);
      if r.Got? { ArgsAgree(s, s', a, i, r.pos, argv + [Span(t.q, t.eq)], r.value); }
    }
  }

  lemma {:induction false} BacksAgree(s: string, s': string, a: nat, i: nat, p: nat, c: Cmd<Span>)
    requires Site(s, s', a, i) && Ok(a, i, p) && p <= |s|
    ensures ParseBacks(s', p, c) == ParseBacks(s, p, c) && Ok(a, i, ParseBacks(s, p, c).1)
    decreases |s| - p
  {
    SkipAgrees(s, s', a, i, p);
    PeekAgrees(s, s', a, i, p, {'&'});
    if Peek(s, p, {'&'}) {
      TokenAgrees(s, s', a, i, SkipSpace(s, p));
      BacksAgree(s, s', a, i, GetToken(s, SkipSpace(s, p)).next, Back(c));
    }
  }

  lemma {:induction false} LineAgrees(s: string, s': string, a: nat, i: nat, p: nat)
    requires Site(s, s', a, i) && Ok(a, i, p) && p <= |s|
    ensures Same(ParseLine(s, p), ParseLine(s', p), a, i)
    decreases |s| - p, 3
  {
    PipeAgrees(s, s', a, i, p);
    var r := ParsePipe(s, p);
    if r.Got? {
      BacksAgree(s, s', a, i, r.pos, r.value);
      var k := ParseBacks(s, r.pos, r.value).1;
      SkipAgrees(s, s', a, i, k);
      PeekAgrees(s, s', a, i, k, {';'});
      if Peek(s, k, {';'}) {
        TokenAgrees(s, s', a, i, SkipSpace(s, k));
        LineAgrees(s, s', a, i, GetToken(s, SkipSpace(s, k)).next);
      }
    }
  }

  lemma {:induction false} PipeAgrees(s: string, s': string, a: nat, i: nat, p: nat)
    requires Site(s, s', a, i) && Ok(a, i, p) && p <= |s|
    ensures Same(ParsePipe(s, p), ParsePipe(s', p), a, i)
    decreases |s| - p, 2
  {
    ExecAgrees(s, s', a, i, p);
    var r := ParseExec(s, p);
    if r.Got? {
      SkipAgrees(s, s', a, i, r.pos);
      PeekAgrees(s, s', a, i, r.pos, {'|'});
      if Peek(s, r.pos, {'|'}) {
        TokenAgrees(s, s', a, i, SkipSpace(s, r.pos));
        PipeAgrees(s, s', a, i, GetToken(s, SkipSpace(s, r.pos)).next);
      }
    }
  }

  lemma {:induction false} ExecAgrees(s: string, s': string, a: nat, i: nat, p: nat)
    requires Site(s, s', a, i) && Ok(a, i, p) && p <= |s|
    ensures Same(ParseExec(s, p), ParseExec(s', p), a, i)
    decreases |s| - p, 1
  {
    SkipAgrees(s, s', a, i, p);
    PeekAgrees(s, s', a, i, p, {'('});
    if Peek(s, p, {'('}) {
      BlockAgrees(s, s', a, i, SkipSpace(s, p));
    } else {
      RedirsAgree(s, s', a, i, SkipSpace(s, p), []);
      var r := ParseRedirs(s, SkipSpace(s, p), []);
      if r.Got? { ArgsAgree(s, s', a, i, r.pos, [], r.value); }
    }
  }

  lemma {:induction false} BlockAgrees(s: string, s': string, a: nat, i: nat, p: nat)
    requires Site(s, s', a, i) && Ok(a, i, p) && p <= |s|
    ensures Same(ParseBlock(s, p), ParseBlock(s', p), a, i)
    decreases |s| - p, 0
  {
    SkipAgrees(s, s', a, i, p);
    PeekAgrees(s, s', a, i, p, {'('});
    if Peek(s, p, {'('}) {
      TokenAgrees(s, s', a, i, SkipSpace(s, p));
      var k := GetToken(s, SkipSpace(s, p)).next;
      LineAgrees(s, s', a, i, k);
      var r := ParseLine(s, k);
      if r.Got? { CloseAgrees(s, s', a, i, r.value, r.pos); }
    }
  }

  lemma CloseAgrees(s: string, s': string, a: nat, i: nat, c: Cmd<Span>, p: nat)
    requires Site(s, s', a, i) && Ok(a, i, p) && p <= |s|
    ensures Same(CloseBlock(s, c, p), CloseBlock(s', c, p), a, i)
  {
    SkipAgrees(s, s', a, i, p);
    PeekAgrees(s, s', a, i, p, {')'});
    if Peek(s, p, {')'}) {
      TokenAgrees(s, s', a, i, SkipSpace(s, p));
      RedirsAgree(s, s', a, i, GetToken(s, SkipSpace(s, p)).next, []);
    }
  }

  /** ">>" and ">" build the same tree, with the same words in it. */
  lemma AppendTruncates(s: string, i: nat)
    requires NulFree(s) && AppendAt(s, i)
    ensures var s' := s[i + 1 := ' '];
      && NulFree(s') && ParseCmd(s') == ParseCmd(s)
      && (ParseCmd(s).Got? ==> Read(s', ParseCmd(s).value) == Read(s, ParseCmd(s).value))
  {
    var s', a := s[i + 1 := ' '], i - Before(s, i);
    assert Run(s, s', a, i);
    LineAgrees(s, s', a, i, 0);
    var r := ParseLine(s, 0);
    if r.Got? {
      SkipAgrees(s, s', a, i, r.pos);
      WordsAgree(s, s', a, i, r.value);
    }
  }

  lemma WordAtAgrees(s: string, s': string, a: nat, i: nat, w: Span)
    requires Site(s, s', a, i) && WordSpan(s, w)
    ensures WordAt(s', w) == WordAt(s, w)
  {
    OpenSite(s, s', a, i);
    assert forall k :: w.start <= k < w.end ==> s'[k] == s[k];
  }

  lemma {:induction false} WordsAgree(s: string, s': string, a: nat, i: nat, c: Cmd<Span>)
    requires Site(s, s', a, i) && WellMade(s, c)
    ensures Read(s', c) == Read(s, c)
    decreases c
  {
    match c
    case Exec(argv) =>
      forall k | 0 <= k < |argv| ensures WordAt(s', argv[k]) == WordAt(s, argv[k]) { WordAtAgrees(s, s', a, i, argv[k]); }
    case Redir(d, to) =>
      WordsAgree(s, s', a, i, d);
      WordAtAgrees(s, s', a, i, to.file);
    case Pipe(l, r) =>
      WordsAgree(s, s', a, i, l);
      WordsAgree(s, s', a, i, r);
    case List(l, r) =>
      WordsAgree(s, s', a, i, l);
      WordsAgree(s, s', a, i, r);
    case Back(d) => WordsAgree(s, s', a, i, d);
  }
}
