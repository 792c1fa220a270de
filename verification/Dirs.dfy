/** Changing directories: nameiparent and dirlink of src/fs.c, create and sys_unlink of src/sysfile.c. */
module Dirs {
  import opened Common
  import opened Paths

  // ----- nameiparent -----

  /** namex stopped one level early: the directory that should hold the last element, and that element. */
  function NamexParent(fs: Tree, ip: nat, s: string, i: nat): Option<(nat, string)>
    requires i <= |s|
    decreases |s| - i
  {
    match SkipElem(s, i)
    case None => None
    case Some((name, j)) =>
      if !IsDir(fs, ip) then None
      else if j == |s| then Some((ip, name))
      else
        match Lookup(fs[ip].entries, name, 0)
        case None => None
        case Some(next) => NamexParent(fs, next, s, j)
  }

  function NameiParent(fs: Tree, cwd: nat, s: string): Option<(nat, string)> {
    NamexParent(fs, if s != "" && s[0] == '/' then ROOT else cwd, s, 0)
  }

  /** Looking the last element up in that directory is resolving the path; without one the path is empty or resolves to nothing. */
  lemma {:induction false} ParentThenLookup(fs: Tree, ip: nat, s: string, i: nat)
    requires i <= |s|
    ensures match NamexParent(fs, ip, s, i)
      case Some((dp, name)) => IsDir(fs, dp) && Namex(fs, ip, s, i) == Lookup(fs[dp].entries, name, 0)
      case None => SkipElem(s, i).None? || Namex(fs, ip, s, i).None?
    decreases |s| - i
  {
    match SkipElem(s, i)
    case None =>
    case Some((name, j)) =>
      if IsDir(fs, ip) && Lookup(fs[ip].entries, name, 0).Some? {
        var next := Lookup(fs[ip].entries, name, 0).value;
        if j == |s| {
          assert SkipElem(s, j).None?;
        } else {
          ParentThenLookup(fs, next, s, j);
          SlashesDone(s, i);
        }
      }
  }

  /** After an element comes the end or another one. */
  lemma SlashesDone(s: string, i: nat)
    requires i <= |s| && SkipElem(s, i).Some? && SkipElem(s, i).value.1 < |s|
    ensures SkipElem(s, SkipElem(s, i).value.1).Some?
  {
    var b := ElemEnd(s, Slashes(s, i));
    assert Slashes(s, Slashes(s, b)) == Slashes(s, b);
  }

  lemma ParentNext(fs: Tree, ip: nat, s: string, i: nat, name: string, j: nat)
    requires i <= |s| && i < j <= |s| && SkipElem(s, i) == Some((name, j))
    ensures NamexParent(fs, ip, s, i) ==
      if !IsDir(fs, ip) then None else if j == |s| then Some((ip, name))
      else if Lookup(fs[ip].entries, name, 0).Some? then NamexParent(fs, Lookup(fs[ip].entries, name, 0).value, s, j) else None
  {
  }

  lemma {:induction false} ParentShift(fs: Tree, ip: nat, w: string, k: nat, s: string, i: nat)
    requires Tails(w, k, s) && i <= |s|
    ensures NamexParent(fs, ip, w, k + i) == NamexParent(fs, ip, s, i)
    decreases |s| - i
  {
    SkipShift(w, k, s, i);
    if SkipElem(s, i).Some? {
      var (name, j) := SkipElem(s, i).value;
      ParentNext(fs, ip, s, i, name, j);
      ParentNext(fs, ip, w, k + i, name, k + j);
      if IsDir(fs, ip) && Lookup(fs[ip].entries, name, 0).Some? {
        ParentShift(fs, Lookup(fs[ip].entries, name, 0).value, w, k, s, j);
      }
    }
  }

  lemma ParentSkips(fs: Tree, ip: nat, s: string, i: nat)
    requires i <= |s|
    ensures NamexParent(fs, ip, s, Slashes(s, i)) == NamexParent(fs, ip, s, i)
  {
    var a := Slashes(s, i);
    assert Slashes(s, a) == a;
    assert SkipElem(s, a) == SkipElem(s, i);
  }

  /** p is not the end of p + "/" + s when s has an element. */
  lemma {:induction false} NotLast(w: string, p: string, s: string, i: nat)
    requires Spliced(w, p, s) && SkipElem(s, 0).Some? && i <= |p|
    ensures Slashes(w, i) < |w|
  {
    SlashesIn(w, p, s, i);
    assert EndsAt(w, |p| + 1, s);
    SlashesShift(w, |p| + 1, s, 0);
  }

  lemma ParentAfter(fs: Tree, ip: nat, w: string, p: string, s: string, i: nat)
    requires Spliced(w, p, s) && i <= |p| && SkipElem(p, i).None?
    ensures NamexParent(fs, ip, w, i) == NamexParent(fs, ip, s, 0)
  {
    SkipIn(w, p, s, i);
    assert EndsAt(w, |p| + 1, s);
    ParentShift(fs, ip, w, |p| + 1, s, 0);
  }

  /** One element that is not the last. */
  lemma ParentOne(fs: Tree, ip: nat, s: string, i: nat, name: string, b: nat)
    requires i <= |s| && b <= |s| && i < Slashes(s, b) < |s| && SkipElem(s, i) == Some((name, Slashes(s, b)))
    ensures NamexParent(fs, ip, s, i) ==
      if IsDir(fs, ip) && Lookup(fs[ip].entries, name, 0).Some? then NamexParent(fs, Lookup(fs[ip].entries, name, 0).value, s, b) else None
  {
    ParentNext(fs, ip, s, i, name, Slashes(s, b));
    if IsDir(fs, ip) && Lookup(fs[ip].entries, name, 0).Some? { ParentSkips(fs, Lookup(fs[ip].entries, name, 0).value, s, b); }
  }

  lemma {:induction false} ParentIn(fs: Tree, ip: nat, w: string, p: string, s: string, i: nat)
    requires Spliced(w, p, s) && i <= |p| && Namex(fs, ip, p, i).Some? && SkipElem(s, 0).Some?
    ensures NamexParent(fs, ip, w, i) == NamexParent(fs, Namex(fs, ip, p, i).value, s, 0)
    decreases |p| - i
  {
    if SkipElem(p, i).None? {
      ParentAfter(fs, ip, w, p, s, i);
    } else {
      SkipIn(w, p, s, i);
      var name, b := SkipElem(p, i).value.0, ElemEnd(p, Slashes(p, i));
      NotLast(w, p, s, b);
      NamexOne(fs, ip, p, i, name, b);
      ParentOne(fs, ip, w, i, name, b);
      ParentIn(fs, Lookup(fs[ip].entries, name, 0).value, w, p, s, b);
    }
  }

  /** The parent of p + "/" + s is the parent of s, seen from p. */
  lemma ParentComposes(fs: Tree, cwd: nat, p: string, s: string)
    requires p != "" && s != "" && s[0] != '/' && Namei(fs, cwd, p).Some?
    ensures NameiParent(fs, cwd, p + "/" + s) == NameiParent(fs, Namei(fs, cwd, p).value, s)
  {
    var w := p + "/" + s;
    assert w[0] == p[0] && Slashes(s, 0) == 0;
    ParentIn(fs, if p[0] == '/' then ROOT else cwd, w, p, s, 0);
  }

  /** The parent of a single name is the directory it is resolved from; of "a/b/n", the directory "a/b" there. */
  lemma RelativeParent(fs: Tree, cwd: nat, n: string)
    requires GoodName(n)
    ensures NameiParent(fs, cwd, n) == if IsDir(fs, cwd) then Some((cwd, n)) else None
    ensures forall p: string :: p != "" && Namei(fs, cwd, p).Some? ==>
      NameiParent(fs, cwd, p + "/" + n) == if IsDir(fs, Namei(fs, cwd, p).value) then Some((Namei(fs, cwd, p).value, n)) else None
  {
    OneName(n);
    forall p: string | p != "" && Namei(fs, cwd, p).Some?
      ensures NameiParent(fs, cwd, p + "/" + n) == if IsDir(fs, Namei(fs, cwd, p).value) then Some((Namei(fs, cwd, p).value, n)) else None
    {
      ParentComposes(fs, cwd, p, n);
    }
  }

  lemma OneName(n: string)
    requires GoodName(n)
    ensures n[0] != '/' && SkipElem(n, 0) == Some((n, |n|))
  {
    assert n[0] in n && n[0..|n|] == n;
    ElemStops(n, 0, |n|, n);
  }

  /** namex with nameiparent. */
  method ResolveParent(fs: Tree, cwd: nat, path: string) returns (r: Option<(nat, string)>)
    ensures r == NameiParent(fs, cwd, path)
  {
    var ip := cwd;
    if path != "" && path[0] == '/' { ip := ROOT; }
    var i := 0;
    while true
      invariant 0 <= i <= |path| && NamexParent(fs, ip, path, i) == NameiParent(fs, cwd, path)
      decreases |path| - i
    {
      var e := SkipElement(path, i);
      if e.None? { return None; }
      if !IsDir(fs, ip) { return None; }
      if e.value.1 == |path| { return Some((ip, e.value.0)); }
      var next := DirLookup(fs[ip].entries, e.value.0);
      if next.None? { return None; }
      ip, i := next.value, e.value.1;
    }
  }

  // ----- One directory -----

  /** es with a new entry in its first free place, or at its end. */
  function Linked(es: seq<Entry>, name: string, inum: nat): seq<Entry> {
    var k := FindInum(es, 0, 0);
    if k < |es| then es[k := Entry(inum, name)] else es + [Entry(inum, name)]
  }

  lemma {:induction false} LookupOr(es: seq<Entry>, name: string, i: nat)
    requires i <= |es|
    ensures match Lookup(es, name, i)
      case Some(d) => exists k :: i <= k < |es| && es[k] == Entry(d, name) && d != 0
      case None => forall k :: i <= k < |es| && es[k].inum != 0 ==> es[k].name != name
    decreases |es| - i
  {
    if i < |es| && !(es[i].inum != 0 && es[i].name == name) { LookupOr(es, name, i + 1); }
  }

  /** A name is found exactly where a used entry has it. */
  lemma LookupIs(es: seq<Entry>, name: string, d: nat)
    requires GoodEntries(es)
    ensures Lookup(es, name, 0) == Some(d) <==> d != 0 && exists k :: 0 <= k < |es| && es[k] == Entry(d, name)
  {
    LookupOr(es, name, 0);
    if d != 0 && exists k :: 0 <= k < |es| && es[k] == Entry(d, name) {
      var k :| 0 <= k < |es| && es[k] == Entry(d, name);
      LookupFinds(es, k, 0);
    }
  }

  /** The used entries of es', which may have others free or in other places, are those of es and the one for `name`. */
  ghost predicate Adds(es: seq<Entry>, es': seq<Entry>, name: string, inum: nat) {
    forall e: Entry :: e.inum != 0 ==> (e in es' <==> e in es || e == Entry(inum, name))
  }

  lemma LinkedAdds(es: seq<Entry>, name: string, inum: nat)
    requires GoodEntries(es) && GoodName(name) && inum != 0 && Lookup(es, name, 0).None?
    ensures GoodEntries(Linked(es, name, inum)) && Adds(es, Linked(es, name, inum), name, inum)
  {
    LookupOr(es, name, 0);
    var es', k := Linked(es, name, inum), FindInum(es, 0, 0);
    assert es'[k] == Entry(inum, name);
    forall e: Entry | e.inum != 0 && e in es ensures e in es' {
      var j :| 0 <= j < |es| && es[j] == e;
      assert es'[j] == e;
    }
  }

  lemma LookupAdded(es: seq<Entry>, es': seq<Entry>, name: string, inum: nat, other: string)
    requires GoodEntries(es) && GoodEntries(es') && inum != 0 && Adds(es, es', name, inum) && Lookup(es, name, 0).None?
    ensures Lookup(es', name, 0) == Some(inum)
    ensures other != name ==> Lookup(es', other, 0) == Lookup(es, other, 0)
  {
    assert Entry(inum, name) in es';
    LookupIs(es', name, inum);
    LookupOr(es, other, 0);
    LookupOr(es', other, 0);
    if other != name && Lookup(es', other, 0).Some? {
      var d := Lookup(es', other, 0).value;
      assert Entry(d, other) in es;
      LookupIs(es, other, d);
    }
  }

  /** dirlink: the new entries, or nothing if the name is taken. */
  method DirLink(es: seq<Entry>, name: string, inum: nat) returns (r: Option<seq<Entry>>)
    requires GoodEntries(es) && GoodName(name) && inum != 0
    ensures r.None? <==> Lookup(es, name, 0).Some?
    ensures r.Some? ==> r.value == Linked(es, name, inum) && GoodEntries(r.value) && Adds(es, r.value, name, inum)
  {
    var there := DirLookup(es, name);
    if there.Some? { return None; }
    LinkedAdds(es, name, inum);
    var off := ScanFor(es, 0);
    return Some(if off < |es| then es[off := Entry(inum, name)] else es + [Entry(inum, name)]);
  }

  // ----- create -----

  predicate IsFile(fs: Tree, d: nat) { d in fs && fs[d].Other? }

  /** The tree with a new node under `name` in directory dp. */
  ghost predicate Grown(fs: Tree, fs': Tree, dp: nat, name: string, inum: nat) {
    && IsDir(fs, dp) && inum != 0 && inum !in fs && IsDir(fs', dp)
    && fs' == fs[dp := fs'[dp]][inum := fs'[if inum in fs' then inum else dp]]
    && GoodEntries(fs'[dp].entries) && Adds(fs[dp].entries, fs'[dp].entries, name, inum)
    && Lookup(fs[dp].entries, name, 0).None?
    && (IsDir(fs', inum) ==> fs'[inum].entries == [Entry(inum, "."), Entry(dp, "..")])
  }

  lemma DotsGood(inum: nat, dp: nat)
    requires inum != 0 && dp != 0
    ensures var es := [Entry(inum, "."), Entry(dp, "..")]; GoodEntries(es) && Lookup(es, "..", 0) == Some(dp)
  {
    var es := [Entry(inum, "."), Entry(dp, "..")];
    assert "."[0] == '.' && ".."[0] == '.' && ".."[1] == '.';
    assert |"."| != |".."|;
    assert Lookup(es, "..", 1) == Some(dp);
  }

  /** A lookup that succeeded still does. */
  lemma GrownLookup(fs: Tree, fs': Tree, depth: map<nat, nat>, dp: nat, name: string, inum: nat, d: nat, n: string)
    requires GoodTree(fs, depth) && Grown(fs, fs', dp, name, inum) && IsDir(fs, d)
    ensures IsDir(fs', d)
    ensures Lookup(fs[d].entries, n, 0).Some? ==> Lookup(fs'[d].entries, n, 0) == Lookup(fs[d].entries, n, 0)
  {
    if d == dp {
      assert GoodDir(fs, depth, dp);
      LookupAdded(fs[dp].entries, fs'[dp].entries, name, inum, n);
    }
  }

  lemma GrownOld(fs: Tree, fs': Tree, depth: map<nat, nat>, dp: nat, name: string, inum: nat, d: nat)
    requires GoodTree(fs, depth) && Grown(fs, fs', dp, name, inum) && d in fs && IsDir(fs', d)
    requires dp in depth
    ensures GoodDir(fs', depth[inum := depth[dp] + 1], d)
  {
    assert IsDir(fs, d) && GoodDir(fs, depth, d) && GoodDir(fs, depth, dp);
    GrownLookup(fs, fs', depth, dp, name, inum, d, "..");
    if d != ROOT {
      var p := UpOf(fs, d).value;
      var es := fs[p].entries;
      var k :| 0 <= k < |es| && es[k].inum == d;
      if p == dp {
        assert es[k] in fs'[dp].entries;
      }
      assert HoldsEntry(fs'[p].entries, d);
    }
  }

  /** create keeps the tree well formed, with the new directory one level deeper than its parent. */
  lemma CreateKeeps(fs: Tree, fs': Tree, depth: map<nat, nat>, dp: nat, name: string, inum: nat)
    requires GoodTree(fs, depth) && Grown(fs, fs', dp, name, inum)
    ensures dp in depth && GoodTree(fs', depth[inum := depth[dp] + 1])
  {
    assert GoodDir(fs, depth, dp) && GoodDir(fs, depth, ROOT);
    var depth' := depth[inum := depth[dp] + 1];
    GrownLookup(fs, fs', depth, dp, name, inum, ROOT, "..");
    forall d | IsDir(fs', d) ensures GoodDir(fs', depth', d) {
      if d in fs {
        GrownOld(fs, fs', depth, dp, name, inum, d);
      } else {
        assert Entry(inum, name) in fs'[dp].entries;
        DotsGood(inum, dp);
      }
    }
  }

  /** Every path that led somewhere leads there still, and a path to the new name leads to the new node. */
  lemma {:induction false} CreateResolves(fs: Tree, fs': Tree, depth: map<nat, nat>, dp: nat, name: string, inum: nat, ip: nat, s: string, i: nat)
    requires GoodTree(fs, depth) && Grown(fs, fs', dp, name, inum) && i <= |s|
    ensures Namex(fs, ip, s, i).Some? ==> Namex(fs', ip, s, i) == Namex(fs, ip, s, i)
    ensures NamexParent(fs, ip, s, i) == Some((dp, name)) ==> Namex(fs', ip, s, i) == Some(inum)
    decreases |s| - i
  {
    match SkipElem(s, i)
    case None =>
    case Some((n, j)) =>
      if IsDir(fs, ip) {
        GrownLookup(fs, fs', depth, dp, name, inum, ip, n);
        if Lookup(fs[ip].entries, n, 0).Some? {
          CreateResolves(fs, fs', depth, dp, name, inum, Lookup(fs[ip].entries, n, 0).value, s, j);
        }
        if ip == dp && n == name {
          assert GoodDir(fs, depth, dp);
          LookupAdded(fs[dp].entries, fs'[dp].entries, name, inum, name);
        }
        if j == |s| { assert SkipElem(s, j).None?; }
      }
  }

  /**
   * create past its path: a node already there, a new one, or nothing. `inum` is what ialloc finds.
   */
  method Create(fs: Tree, cwd: nat, path: string, isdir: bool, inum: nat, ghost depth: map<nat, nat>)
    returns (r: Option<nat>, fs': Tree, ghost depth': map<nat, nat>)
    requires GoodTree(fs, depth) && inum != 0 && inum !in fs
    requires NameiParent(fs, cwd, path).Some? ==> GoodName(NameiParent(fs, cwd, path).value.1)
    ensures GoodTree(fs', depth')
    ensures Namei(fs, cwd, path).Some? || NameiParent(fs, cwd, path).None? ==> fs' == fs
    ensures r.Some? ==> Namei(fs', cwd, path) == r
    ensures r.None? <==> NameiParent(fs, cwd, path).None? || (Namei(fs, cwd, path).Some? && (isdir || !IsFile(fs, Namei(fs, cwd, path).value)))
    ensures NameiParent(fs, cwd, path).Some? && Namei(fs, cwd, path).None? ==> r == Some(inum) && inum in fs' && fs'[inum].Dir? == isdir
    ensures forall q: string, c: nat :: Namei(fs, c, q).Some? ==> Namei(fs', c, q) == Namei(fs, c, q)
  {
    fs', depth' := fs, depth;
    var at := ResolveParent(fs, cwd, path);
    if at.None? { return None, fs', depth'; }
    var (dp, name) := at.value;
    ParentThenLookup(fs, if path != "" && path[0] == '/' then ROOT else cwd, path, 0);
    assert GoodDir(fs, depth, dp);
    var there := DirLookup(fs[dp].entries, name);
    if there.Some? {
      r := if !isdir && IsFile(fs, there.value) then there else None;
      return;
    }
    fs' := AddNode(fs, dp, name, isdir, inum, depth);
    CreateKeeps(fs, fs', depth, dp, name, inum);
    depth' := depth[inum := depth[dp] + 1];
    StillLeads(fs, fs', depth, dp, name, inum);
    CreateResolves(fs, fs', depth, dp, name, inum, if path != "" && path[0] == '/' then ROOT else cwd, path, 0);
    r := Some(inum);
  }

  lemma StillLeads(fs: Tree, fs': Tree, depth: map<nat, nat>, dp: nat, name: string, inum: nat)
    requires GoodTree(fs, depth) && Grown(fs, fs', dp, name, inum)
    ensures forall q: string, c: nat :: Namei(fs, c, q).Some? ==> Namei(fs', c, q) == Namei(fs, c, q)
  {
    forall q: string, c: nat ensures Namei(fs, c, q).Some? ==> Namei(fs', c, q) == Namei(fs, c, q) {
      CreateResolves(fs, fs', depth, dp, name, inum, if q != "" && q[0] == '/' then ROOT else c, q, 0);
    }
  }

  /** The new node with its dots, linked into dp. */
  method AddNode(fs: Tree, dp: nat, name: string, isdir: bool, inum: nat, ghost depth: map<nat, nat>) returns (fs': Tree)
    requires GoodTree(fs, depth) && IsDir(fs, dp) && GoodName(name) && inum != 0 && inum !in fs && Lookup(fs[dp].entries, name, 0).None?
    ensures Grown(fs, fs', dp, name, inum) && inum in fs' && fs'[inum].Dir? == isdir
  {
    assert GoodDir(fs, depth, dp);
    var es := DirLink(fs[dp].entries, name, inum);
    fs' := fs[dp := Dir(es.value)][inum := if isdir then Dir([Entry(inum, "."), Entry(dp, "..")]) else Other];
  }
}
