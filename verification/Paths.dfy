/** Path names of src/fs.c and the way back from a directory to its path, sys_getcwd of src/sysfile.c. */
module Paths {
  import opened Common

  datatype Entry = Entry(inum: nat, name: string)

  datatype Node = Dir(entries: seq<Entry>) | Other

  type Tree = map<nat, Node>

  const ROOT: nat := 1
  const DIRSIZ := 14
  const TMP := 512

  predicate IsDir(fs: Tree, d: nat) { d in fs && fs[d].Dir? }

  /** dirlookup: the first used entry with that name, from entry i on. */
  function Lookup(es: seq<Entry>, name: string, i: nat): (r: Option<nat>)
    requires i <= |es|
    decreases |es| - i
  {
    if i == |es| then None
    else if es[i].inum != 0 && es[i].name == name then Some(es[i].inum)
    else Lookup(es, name, i + 1)
  }

  // ----- Elements of a path -----

  function Slashes(s: string, i: nat): (r: nat)
    requires i <= |s|
    ensures i <= r <= |s| && (r < |s| ==> s[r] != '/') && forall k :: i <= k < r ==> s[k] == '/'
    decreases |s| - i
  {
    if i < |s| && s[i] == '/' then Slashes(s, i + 1) else i
  }

  function ElemEnd(s: string, i: nat): (r: nat)
    requires i <= |s|
    ensures i <= r <= |s| && (r < |s| ==> s[r] == '/') && forall k :: i <= k < r ==> s[k] != '/'
    decreases |s| - i
  {
    if i < |s| && s[i] != '/' then ElemEnd(s, i + 1) else i
  }

  /** A name field holds DIRSIZ bytes. */
  function Clip(s: string): string { if |s| >= DIRSIZ then s[..DIRSIZ] else s }

  /** skipelem from i: the next element and where the rest starts. */
  function SkipElem(s: string, i: nat): (r: Option<(string, nat)>)
    requires i <= |s|
    ensures r.Some? ==> i < r.value.1 <= |s|
  {
    var a := Slashes(s, i);
    if a == |s| then None else var b := ElemEnd(s, a); Some((Clip(s[a..b]), Slashes(s, b)))
  }

  /** namex for a whole path, from directory ip and index i. */
  function Namex(fs: Tree, ip: nat, s: string, i: nat): Option<nat>
    requires i <= |s|
    decreases |s| - i
  {
    match SkipElem(s, i)
    case None => Some(ip)
    case Some((name, j)) =>
      if !IsDir(fs, ip) then None
      else
        match Lookup(fs[ip].entries, name, 0)
        case None => None
        case Some(next) => Namex(fs, next, s, j)
  }

  /** namei: a path that starts with a slash starts at the root. */
  function Namei(fs: Tree, cwd: nat, s: string): Option<nat> {
    Namex(fs, if s != "" && s[0] == '/' then ROOT else cwd, s, 0)
  }

  // ----- Well-formed trees -----

  predicate GoodName(n: string) { 0 < |n| < DIRSIZ && '/' !in n }

  ghost predicate GoodEntries(es: seq<Entry>) {
    && (forall i :: 0 <= i < |es| && es[i].inum != 0 ==> GoodName(es[i].name))
    && (forall i, j :: 0 <= i < j < |es| && es[i].inum != 0 && es[j].inum != 0 ==> es[i].name != es[j].name)
  }

  function UpOf(fs: Tree, d: nat): Option<nat> { if IsDir(fs, d) then Lookup(fs[d].entries, "..", 0) else None }

  ghost predicate HoldsEntry(es: seq<Entry>, d: nat) { exists i :: 0 <= i < |es| && es[i].inum == d }

  /** Every directory but the root is closer to the root by its "..", where it has an entry. */
  ghost predicate GoodTree(fs: Tree, depth: map<nat, nat>) {
    && IsDir(fs, ROOT) && UpOf(fs, ROOT) == Some(ROOT) && 0 !in fs
    && forall d :: IsDir(fs, d) ==> GoodDir(fs, depth, d)
  }

  ghost predicate GoodDir(fs: Tree, depth: map<nat, nat>, d: nat) {
    && IsDir(fs, d) && GoodEntries(fs[d].entries) && UpOf(fs, d).Some? && d in depth
    && (d != ROOT ==>
        var p := UpOf(fs, d).value;
        p != d && IsDir(fs, p) && p in depth && depth[p] < depth[d] && HoldsEntry(fs[p].entries, d))
  }

  /** The first entry for d, as sys_getcwd scans. */
  function FindInum(es: seq<Entry>, d: nat, i: nat): (r: nat)
    requires i <= |es|
    ensures i <= r <= |es| && (r < |es| ==> es[r].inum == d) && forall k :: i <= k < r ==> es[k].inum != d
    decreases |es| - i
  {
    if i == |es| || es[i].inum == d then i else FindInum(es, d, i + 1)
  }

  lemma {:induction false} LookupFinds(es: seq<Entry>, k: nat, i: nat)
    requires GoodEntries(es) && i <= k < |es| && es[k].inum != 0
    ensures Lookup(es, es[k].name, i) == Some(es[k].inum)
    decreases k - i
  {
    if i < k { LookupFinds(es, k, i + 1); }
  }

  // ----- The path of a directory -----

  ghost function Names(fs: Tree, depth: map<nat, nat>, d: nat): seq<string>
    requires GoodTree(fs, depth) && IsDir(fs, d)
    decreases if d in depth then depth[d] else 0
  {
    if d == ROOT then []
    else
      assert GoodDir(fs, depth, d);
      var p := UpOf(fs, d).value;
      var k := FindInum(fs[p].entries, d, 0);
      if k < |fs[p].entries| then Names(fs, depth, p) + [fs[p].entries[k].name] else []
  }

  /** "/a/b/c", and "" for no names. */
  function Join(ns: seq<string>): string {
    if ns == [] then "" else "/" + ns[0] + Join(ns[1..])
  }

  function Walk(fs: Tree, ip: nat, ns: seq<string>): Option<nat>
    decreases |ns|
  {
    if ns == [] then Some(ip)
    else if !IsDir(fs, ip) then None
    else
      match Lookup(fs[ip].entries, ns[0], 0)
      case None => None
      case Some(next) => Walk(fs, next, ns[1..])
  }

  lemma {:induction false} WalkOn(fs: Tree, ip: nat, ns: seq<string>, n: string, d: nat)
    requires Walk(fs, ip, ns) == Some(d) && IsDir(fs, d)
    ensures Walk(fs, ip, ns + [n]) == Lookup(fs[d].entries, n, 0)
    decreases |ns|
  {
    if ns == [] {
      assert (ns + [n])[1..] == [];
    } else {
      assert (ns + [n])[1..] == ns[1..] + [n];
      WalkOn(fs, Lookup(fs[ip].entries, ns[0], 0).value, ns[1..], n, d);
    }
  }

  ghost predicate GoodNames(ns: seq<string>) { forall k :: 0 <= k < |ns| ==> GoodName(ns[k]) }

  lemma {:induction false} NamesWalk(fs: Tree, depth: map<nat, nat>, d: nat)
    requires GoodTree(fs, depth) && IsDir(fs, d)
    ensures Walk(fs, ROOT, Names(fs, depth, d)) == Some(d) && GoodNames(Names(fs, depth, d))
    ensures d != ROOT ==> Names(fs, depth, d) != []
    decreases if d in depth then depth[d] else 0
  {
    if d != ROOT {
      assert GoodDir(fs, depth, d);
      var p := UpOf(fs, d).value;
      assert GoodDir(fs, depth, p);
      var es := fs[p].entries;
      var k := FindInum(es, d, 0);
      NamesWalk(fs, depth, p);
      LookupFinds(es, k, 0);
      WalkOn(fs, ROOT, Names(fs, depth, p), es[k].name, p);
    }
  }

  // ----- namex on a joined path -----

  lemma NamexSkips(fs: Tree, ip: nat, s: string, i: nat)
    requires i <= |s|
    ensures Namex(fs, ip, s, Slashes(s, i)) == Namex(fs, ip, s, i)
  {
    var a := Slashes(s, i);
    assert Slashes(s, a) == a;
    assert SkipElem(s, a) == SkipElem(s, i);
  }

  /** s ends with x, from index i on. */
  ghost predicate EndsAt(s: string, i: nat, x: string) {
    i + |x| == |s| && forall k {:trigger x[k]} :: 0 <= k < |x| ==> s[i + k] == x[k]
  }

  lemma PartsAt(s: string, i: nat, n: string, rest: string)
    requires EndsAt(s, i, "/" + n + rest)
    ensures i + 1 + |n| <= |s| && s[i] == '/' && s[i + 1..i + 1 + |n|] == n && EndsAt(s, i + 1 + |n|, rest)
  {
    var x, b := "/" + n + rest, i + 1 + |n|;
    assert s[i + 0] == x[0];
    forall k | 0 <= k < |n| ensures s[i + 1 + k] == n[k] { assert s[i + (1 + k)] == x[1 + k]; }
    forall k | 0 <= k < |rest| ensures s[b + k] == rest[k] { assert s[i + (1 + |n| + k)] == x[1 + |n| + k]; }
  }

  lemma ElemAt(s: string, i: nat, n: string, rest: string)
    requires EndsAt(s, i, "/" + n + rest) && GoodName(n) && (rest == "" || rest[0] == '/')
    ensures var b := i + 1 + |n|; b <= |s| && EndsAt(s, b, rest) && SkipElem(s, i) == Some((n, Slashes(s, b)))
  {
    PartsAt(s, i, n, rest);
    var b := i + 1 + |n|;
    if rest != "" { assert s[b + 0] == rest[0]; }
    SkipsTo(s, i, b, n);
  }

  lemma SkipsTo(s: string, i: nat, b: nat, n: string)
    requires i < b <= |s| && s[i] == '/' && s[i + 1..b] == n && GoodName(n) && (b < |s| ==> s[b] == '/')
    ensures SkipElem(s, i) == Some((n, Slashes(s, b)))
  {
    assert n[0] in n && s[i + 1] == s[i + 1..b][0];
    assert Slashes(s, i) == i + 1 by { assert Slashes(s, i + 1) == i + 1; }
    assert ElemEnd(s, i + 1) == b by { ElemStops(s, i + 1, b, n); }
    assert Clip(n) == n;
  }

  lemma ElemStops(s: string, a: nat, b: nat, n: string)
    requires a <= b <= |s| && s[a..b] == n && '/' !in n && (b < |s| ==> s[b] == '/')
    ensures ElemEnd(s, a) == b
  {
    forall k | a <= k < b ensures s[k] != '/' { assert s[k] == s[a..b][k - a] && n[k - a] in n; }
  }

  lemma WalkStep(fs: Tree, ip: nat, ns: seq<string>)
    requires ns != [] && GoodNames(ns)
    ensures GoodNames(ns[1..]) && (Join(ns[1..]) == "" || Join(ns[1..])[0] == '/')
    ensures Walk(fs, ip, ns) ==
      if IsDir(fs, ip) && Lookup(fs[ip].entries, ns[0], 0).Some? then Walk(fs, Lookup(fs[ip].entries, ns[0], 0).value, ns[1..]) else None
  {
  }

  lemma NamexStep(fs: Tree, ip: nat, s: string, i: nat, n: string, rest: string)
    requires EndsAt(s, i, "/" + n + rest) && GoodName(n) && (rest == "" || rest[0] == '/')
    ensures i + 1 + |n| <= |s| && EndsAt(s, i + 1 + |n|, rest)
    ensures Namex(fs, ip, s, i) ==
      if IsDir(fs, ip) && Lookup(fs[ip].entries, n, 0).Some? then Namex(fs, Lookup(fs[ip].entries, n, 0).value, s, i + 1 + |n|) else None
  {
    ElemAt(s, i, n, rest);
    if IsDir(fs, ip) && Lookup(fs[ip].entries, n, 0).Some? {
      NamexSkips(fs, Lookup(fs[ip].entries, n, 0).value, s, i + 1 + |n|);
    }
  }

  lemma {:induction false} NamexWalks(fs: Tree, ip: nat, s: string, i: nat, ns: seq<string>)
    requires EndsAt(s, i, Join(ns)) && GoodNames(ns)
    ensures Namex(fs, ip, s, i) == Walk(fs, ip, ns)
    decreases |ns|
  {
    if ns != [] {
      WalkStep(fs, ip, ns);
      NamexStep(fs, ip, s, i, ns[0], Join(ns[1..]));
      if IsDir(fs, ip) && Lookup(fs[ip].entries, ns[0], 0).Some? {
        NamexWalks(fs, Lookup(fs[ip].entries, ns[0], 0).value, s, i + 1 + |ns[0]|, ns[1..]);
      }
    }
  }

  /** The path sys_getcwd is after. */
  ghost function PathOf(fs: Tree, depth: map<nat, nat>, d: nat): string
    requires GoodTree(fs, depth) && IsDir(fs, d)
  {
    if d == ROOT then "/" else Join(Names(fs, depth, d))
  }

  /** Resolving the path of a directory gives that directory, whatever the current directory is. */
  lemma PathResolves(fs: Tree, depth: map<nat, nat>, d: nat, cwd: nat)
    requires GoodTree(fs, depth) && IsDir(fs, d)
    ensures Namei(fs, cwd, PathOf(fs, depth, d)) == Some(d)
  {
    var s := PathOf(fs, depth, d);
    NamesWalk(fs, depth, d);
    if d != ROOT {
      NamexWalks(fs, ROOT, s, 0, Names(fs, depth, d));
    } else {
      assert Slashes(s, 1) == 1;
      assert Slashes(s, 0) == 1;
    }
  }

  // ----- Relative paths -----

  /** The element of s from i on: where it starts and ends, cut at DIRSIZ bytes, and where the next one starts. */
  lemma ElementIs(s: string, i: nat) returns (a: nat, b: nat)
    requires i <= |s|
    ensures i <= a <= b <= |s| && (forall k :: i <= k < a ==> s[k] == '/') && (forall k :: a <= k < b ==> s[k] != '/')
    ensures (a < |s| ==> s[a] != '/') && (b < |s| ==> s[b] == '/')
    ensures match SkipElem(s, i)
      case None => a == |s|
      case Some((name, j)) =>
        && a < b && name == (if b - a >= DIRSIZ then s[a..a + DIRSIZ] else s[a..b])
        && b <= j <= |s| && (forall k :: b <= k < j ==> s[k] == '/') && (j < |s| ==> s[j] != '/')
  {
    a := Slashes(s, i);
    b := ElemEnd(s, a);
    if b - a >= DIRSIZ { assert s[a..b][..DIRSIZ] == s[a..a + DIRSIZ]; }
  }

  lemma {:induction false} SlashesShift(w: string, k: nat, s: string, i: nat)
    requires EndsAt(w, k, s) && i <= |s|
    ensures Slashes(w, k + i) == k + Slashes(s, i)
    decreases |s| - i
  {
    if i < |s| {
      assert w[k + i] == s[i];
      if s[i] == '/' { SlashesShift(w, k, s, i + 1); }
    }
  }

  lemma {:induction false} ElemShift(w: string, k: nat, s: string, i: nat)
    requires EndsAt(w, k, s) && i <= |s|
    ensures ElemEnd(w, k + i) == k + ElemEnd(s, i)
    decreases |s| - i
  {
    if i < |s| {
      assert w[k + i] == s[i];
      if s[i] != '/' { ElemShift(w, k, s, i + 1); }
    }
  }

  /** EndsAt, folded. */
  ghost predicate Tails(w: string, k: nat, s: string) {
    k + |s| == |w| && forall z: int {:trigger Seal((w, s), z)} :: Seal((w, s), z) ==> EndsAt(w, k, s)
  }

  /** A path resolves by its rest alone. */
  lemma SkipShift(w: string, k: nat, s: string, i: nat)
    requires Tails(w, k, s) && i <= |s|
    ensures SkipElem(w, k + i).None? <==> SkipElem(s, i).None?
    ensures SkipElem(s, i).Some? ==> SkipElem(w, k + i) == Some((SkipElem(s, i).value.0, k + SkipElem(s, i).value.1))
  {
    assert Seal((w, s), 0);
    SlashesShift(w, k, s, i);
    var a := Slashes(s, i);
    ElemShift(w, k, s, a);
    var b := ElemEnd(s, a);
    SlashesShift(w, k, s, b);
    SliceShift(w, k, s, a, b);
  }

  lemma SliceShift(w: string, k: nat, s: string, a: nat, b: nat)
    requires EndsAt(w, k, s) && a <= b <= |s|
    ensures w[k + a..k + b] == s[a..b]
  {
    forall j | 0 <= j < b - a ensures w[k + a..k + b][j] == s[a..b][j] { assert w[k + (a + j)] == s[a + j]; }
  }

  lemma NamexEnd(fs: Tree, ip: nat, s: string, i: nat)
    requires i <= |s| && SkipElem(s, i).None?
    ensures Namex(fs, ip, s, i) == Some(ip)
  {
  }

  lemma NamexNext(fs: Tree, ip: nat, s: string, i: nat, name: string, j: nat)
    requires i <= |s| && i < j <= |s| && SkipElem(s, i) == Some((name, j))
    ensures Namex(fs, ip, s, i) ==
      if IsDir(fs, ip) && Lookup(fs[ip].entries, name, 0).Some? then Namex(fs, Lookup(fs[ip].entries, name, 0).value, s, j) else None
  {
  }

  lemma {:induction false} NamexShift(fs: Tree, ip: nat, w: string, k: nat, s: string, i: nat)
    requires Tails(w, k, s) && i <= |s|
    ensures Namex(fs, ip, w, k + i) == Namex(fs, ip, s, i)
    decreases |s| - i
  {
    SkipShift(w, k, s, i);
    if SkipElem(s, i).None? {
      NamexEnd(fs, ip, s, i);
      NamexEnd(fs, ip, w, k + i);
    } else {
      var (name, j) := SkipElem(s, i).value;
      NamexNext(fs, ip, s, i, name, j);
      NamexNext(fs, ip, w, k + i, name, k + j);
      if IsDir(fs, ip) && Lookup(fs[ip].entries, name, 0).Some? {
        NamexShift(fs, Lookup(fs[ip].entries, name, 0).value, w, k, s, j);
      }
    }
  }

  /** p + "/" + s, as the two parts see it. */
  ghost predicate Spliced(w: string, p: string, s: string) { w == p + "/" + s }

  /** Before its end, p reads the same in both. */
  lemma {:induction false} SlashesIn(w: string, p: string, s: string, i: nat)
    requires Spliced(w, p, s) && i <= |p|
    ensures Slashes(p, i) < |p| ==> Slashes(w, i) == Slashes(p, i)
    ensures Slashes(p, i) == |p| ==> Slashes(w, i) == Slashes(w, |p| + 1)
    decreases |p| - i
  {
    if i < |p| {
      assert w[i] == p[i];
      if p[i] == '/' { SlashesIn(w, p, s, i + 1); }
    } else {
      assert w[|p|] == '/';
    }
  }

  lemma {:induction false} ElemIn(w: string, p: string, s: string, i: nat)
    requires Spliced(w, p, s) && i <= |p|
    ensures ElemEnd(w, i) == ElemEnd(p, i)
    decreases |p| - i
  {
    if i < |p| {
      assert w[i] == p[i];
      if p[i] != '/' { ElemIn(w, p, s, i + 1); }
    } else {
      assert w[|p|] == '/';
    }
  }

  /** The next element of p is the next one of p + "/" + s; after the last one comes s. */
  lemma SkipIn(w: string, p: string, s: string, i: nat)
    requires Spliced(w, p, s) && i <= |p|
    ensures SkipElem(p, i).None? ==> SkipElem(w, i) == SkipElem(w, |p| + 1)
    ensures SkipElem(p, i).Some? ==>
      var b := ElemEnd(p, Slashes(p, i));
      i < b <= |p| && SkipElem(p, i) == Some((SkipElem(p, i).value.0, Slashes(p, b))) && SkipElem(w, i) == Some((SkipElem(p, i).value.0, Slashes(w, b)))
  {
    SlashesIn(w, p, s, i);
    var a := Slashes(p, i);
    if a < |p| {
      ElemIn(w, p, s, a);
      assert w[a..ElemEnd(p, a)] == p[a..ElemEnd(p, a)];
    } else {
      assert Slashes(w, Slashes(w, i)) == Slashes(w, i);
    }
  }

  lemma NamexAfter(fs: Tree, ip: nat, w: string, p: string, s: string, i: nat)
    requires Spliced(w, p, s) && i <= |p| && SkipElem(p, i).None?
    ensures Namex(fs, ip, w, i) == Namex(fs, ip, s, 0)
  {
    SkipIn(w, p, s, i);
    assert EndsAt(w, |p| + 1, s);
    NamexShift(fs, ip, w, |p| + 1, s, 0);
  }

  /** One element. */
  lemma NamexOne(fs: Tree, ip: nat, s: string, i: nat, name: string, b: nat)
    requires i <= |s| && b <= |s| && i < Slashes(s, b) && SkipElem(s, i) == Some((name, Slashes(s, b)))
    ensures Namex(fs, ip, s, i) ==
      if IsDir(fs, ip) && Lookup(fs[ip].entries, name, 0).Some? then Namex(fs, Lookup(fs[ip].entries, name, 0).value, s, b) else None
  {
    NamexNext(fs, ip, s, i, name, Slashes(s, b));
    if IsDir(fs, ip) && Lookup(fs[ip].entries, name, 0).Some? { NamexSkips(fs, Lookup(fs[ip].entries, name, 0).value, s, b); }
  }

  lemma {:induction false} NamexIn(fs: Tree, ip: nat, w: string, p: string, s: string, i: nat)
    requires Spliced(w, p, s) && i <= |p| && Namex(fs, ip, p, i).Some?
    ensures Namex(fs, ip, w, i) == Namex(fs, Namex(fs, ip, p, i).value, s, 0)
    decreases |p| - i
  {
    if SkipElem(p, i).None? {
      NamexAfter(fs, ip, w, p, s, i);
    } else {
      SkipIn(w, p, s, i);
      var name, b := SkipElem(p, i).value.0, ElemEnd(p, Slashes(p, i));
      NamexOne(fs, ip, p, i, name, b);
      NamexOne(fs, ip, w, i, name, b);
      NamexIn(fs, Lookup(fs[ip].entries, name, 0).value, w, p, s, b);
    }
  }

  /** Resolving p + "/" + s is resolving p and then s from there. */
  lemma Composes(fs: Tree, cwd: nat, p: string, s: string)
    requires p != "" && (s == "" || s[0] != '/') && Namei(fs, cwd, p).Some?
    ensures Namei(fs, cwd, p + "/" + s) == Namei(fs, Namei(fs, cwd, p).value, s)
  {
    var w := p + "/" + s;
    assert w[0] == p[0];
    NamexIn(fs, if p[0] == '/' then ROOT else cwd, w, p, s, 0);
  }

  /** A relative path means the same as the current directory's path in front of it. */
  lemma RelativeToCwd(fs: Tree, depth: map<nat, nat>, cwd: nat, from: nat, s: string)
    requires GoodTree(fs, depth) && IsDir(fs, cwd) && (s == "" || s[0] != '/')
    ensures Namei(fs, from, PathOf(fs, depth, cwd) + "/" + s) == Namei(fs, cwd, s)
  {
    PathResolves(fs, depth, cwd, from);
    NamesWalk(fs, depth, cwd);
    Composes(fs, from, PathOf(fs, depth, cwd), s);
  }

  /** "a/b/c" from directory c looks up a, b and c in turn, starting there. */
  lemma RelativeWalks(fs: Tree, cwd: nat, ns: seq<string>)
    requires ns != [] && GoodNames(ns)
    ensures Namei(fs, cwd, ns[0] + Join(ns[1..])) == Walk(fs, cwd, ns)
  {
    var n, rest := ns[0], Join(ns[1..]);
    var s := n + rest;
    WalkStep(fs, cwd, ns);
    assert s[0] == n[0] && n[0] in n;
    assert s[0..|n|] == n && (|n| < |s| ==> s[|n|] == rest[0]);
    ElemStops(s, 0, |n|, n);
    assert SkipElem(s, 0) == Some((n, Slashes(s, |n|)));
    if IsDir(fs, cwd) && Lookup(fs[cwd].entries, n, 0).Some? {
      var next := Lookup(fs[cwd].entries, n, 0).value;
      NamexSkips(fs, next, s, |n|);
      assert EndsAt(s, |n|, rest);
      NamexWalks(fs, next, s, |n|, ns[1..]);
    }
  }

  // ----- The loops -----

  method DirLookup(es: seq<Entry>, name: string) returns (r: Option<nat>)
    ensures r == Lookup(es, name, 0)
  {
    for off := 0 to |es|
      invariant Lookup(es, name, off) == Lookup(es, name, 0)
    {
      if es[off].inum != 0 && es[off].name == name { return Some(es[off].inum); }
    }
    return None;
  }

  method SkipElement(path: string, i: nat) returns (r: Option<(string, nat)>)
    requires i <= |path|
    ensures r == SkipElem(path, i)
  {
    var a := i;
    while a < |path| && path[a] == '/'
      invariant i <= a <= |path| && Slashes(path, a) == Slashes(path, i)
    { a := a + 1; }
    if a == |path| { return None; }
    var b := a;
    while b < |path| && path[b] != '/'
      invariant a <= b <= |path| && ElemEnd(path, b) == ElemEnd(path, a)
    { b := b + 1; }
    var name := path[a..b];
    if |name| >= DIRSIZ { name := name[..DIRSIZ]; }
    var j: nat := b;
    while j < |path| && path[j] == '/'
      invariant b <= j <= |path| && Slashes(path, j) == Slashes(path, b)
    { j := j + 1; }
    return Some((name, j));
  }

  /** namex without nameiparent. */
  method Resolve(fs: Tree, cwd: nat, path: string) returns (r: Option<nat>)
    ensures r == Namei(fs, cwd, path)
  {
    var ip := cwd;
    if path != "" && path[0] == '/' { ip := ROOT; }
    var i := 0;
    while true
      invariant 0 <= i <= |path| && Namex(fs, ip, path, i) == Namei(fs, cwd, path)
      decreases |path| - i
    {
      var e := SkipElement(path, i);
      if e.None? { return Some(ip); }
      if !IsDir(fs, ip) { return None; }
      var next := DirLookup(fs[ip].entries, e.value.0);
      if next.None? { return None; }
      ip, i := next.value, e.value.1;
    }
  }

  /** One step of the climb: the directory's name in its parent goes in front of the path so far. */
  lemma ClimbStep(fs: Tree, depth: map<nat, nat>, cur: nat, whole: seq<string>, done: seq<string>)
    requires GoodTree(fs, depth) && IsDir(fs, cur) && whole == Names(fs, depth, cur) + done
    ensures UpOf(fs, cur).Some? && (UpOf(fs, cur).value == cur <==> cur == ROOT)
    ensures cur == ROOT ==> whole == done
    ensures cur != ROOT ==>
      var p := UpOf(fs, cur).value;
      && IsDir(fs, p) && cur in depth && p in depth && depth[p] < depth[cur] && FindInum(fs[p].entries, cur, 0) < |fs[p].entries|
      && (var name := fs[p].entries[FindInum(fs[p].entries, cur, 0)].name;
          && whole == Names(fs, depth, p) + ([name] + done) && Join([name] + done) == "/" + name + Join(done)
          && |Join(whole)| >= |name| + 1 + |Join(done)|)
  {
    assert GoodDir(fs, depth, cur);
    if cur != ROOT {
      var p := UpOf(fs, cur).value;
      assert HoldsEntry(fs[p].entries, cur);
      var name := fs[p].entries[FindInum(fs[p].entries, cur, 0)].name;
      assert whole == Names(fs, depth, p) + ([name] + done);
      assert ([name] + done)[1..] == done;
      JoinParts(Names(fs, depth, p), [name] + done);
    }
  }

  method ScanFor(es: seq<Entry>, d: nat) returns (off: nat)
    ensures off == FindInum(es, d, 0)
  {
    off := 0;
    while off < |es| && es[off].inum != d
      invariant 0 <= off <= |es| && FindInum(es, d, off) == FindInum(es, d, 0)
    { off := off + 1; }
  }

  /**
   * sys_getcwd: climbs through ".." writing the path from its end. It succeeds exactly when the path
   * fits its own 512 bytes and the caller's buffer.
   */
  method GetCwd(fs: Tree, cwd: nat, size: int, ghost depth: map<nat, nat>) returns (r: Option<string>)
    requires GoodTree(fs, depth) && IsDir(fs, cwd)
    ensures r == if |PathOf(fs, depth, cwd)| < TMP && |PathOf(fs, depth, cwd)| < size then Some(PathOf(fs, depth, cwd)) else None
  {
    var cur, tmp := cwd, "";
    ghost var done: seq<string>, whole := [], Names(fs, depth, cwd);
    NamesWalk(fs, depth, cwd);
    while true
      invariant IsDir(fs, cur) && tmp == Join(done) && whole == Names(fs, depth, cur) + done && |tmp| < TMP
      decreases if cur in depth then depth[cur] else 0
    {
      ClimbStep(fs, depth, cur, whole, done);
      var up := DirLookup(fs[cur].entries, "..");
      if up.None? { return None; }
      var parent := up.value;
      if cur == parent { break; }
      var off := ScanFor(fs[parent].entries, cur);
      if off == |fs[parent].entries| { return None; }
      var name := fs[parent].entries[off].name;
      if TMP - 1 - |tmp| < |name| + 1 { return None; }
      tmp, done, cur := "/" + name + tmp, [name] + done, parent;
    }
    var result := if tmp == "" then "/" else tmp;
    if |result| + 1 > size { return None; }
    return Some(result);
  }

  /** The path sys_getcwd returns leads back to the directory. */
  method CwdRoundTrip(fs: Tree, cwd: nat, size: int, from: nat, ghost depth: map<nat, nat>) returns (path: Option<string>, d: Option<nat>)
    requires GoodTree(fs, depth) && IsDir(fs, cwd)
    ensures path.Some? ==> d == Some(cwd)
  {
    d := None;
    path := GetCwd(fs, cwd, size, depth);
    if path.Some? {
      PathResolves(fs, depth, cwd, from);
      d := Resolve(fs, from, path.value);
    }
  }

  lemma {:induction false} JoinParts(a: seq<string>, b: seq<string>)
    ensures Join(a + b) == Join(a) + Join(b)
    decreases |a|
  {
    if a == [] {
      assert a + b == b;
    } else {
      assert (a + b)[1..] == a[1..] + b;
      JoinParts(a[1..], b);
    }
  }
}
