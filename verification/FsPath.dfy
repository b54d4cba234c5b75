/**
 Path parsing and printing of kernel/fs/fs.c over the abstract tree:
 fs_resolve_path, fs_get_current_path and the naming rules of fs_open and fs_mkdir.
 */
module FsPath {
  import opened FsTree

  const MAX_PATH_LENGTH := 256

  // ------------------------------------------------------------------- parsing

  /** The path without its leading slashes. */
  function SkipSlashes(p: CString): (r: CString)
    ensures |r| <= |p|
    ensures r != [] ==> r[0] != SLASH
  {
    if p != [] && p[0] == SLASH then SkipSlashes(p[1..]) else p
  }

  /** Length of the leading component: up to a slash, the end, or 255 characters. */
  function ComponentLength(p: CString, limit: nat): (k: nat)
    ensures k <= |p| && k <= limit
    ensures SLASH !in p[..k]
    ensures k < limit && k < |p| ==> p[k] == SLASH
    ensures p != [] && p[0] != SLASH && limit > 0 ==> k > 0
  {
    if p == [] || p[0] == SLASH || limit == 0 then 0
    else
      var k := ComponentLength(p[1..], limit - 1);
      assert p[..1 + k] == [p[0]] + p[1..][..k];
      1 + k
  }

  /** The components the scanner of fs_resolve_path cuts a path into. */
  function Parse(p: CString): (r: seq<CString>)
    ensures forall c | c in r :: c != [] && |c| <= NAME_MAX && SLASH !in c
    decreases |p|
  {
    var q := SkipSlashes(p);
    if q == [] then []
    else
      var k := ComponentLength(q, NAME_MAX);
      [q[..k]] + Parse(q[k..])
  }

  /** First child in list order with the given name. */
  function LookupIn(nodes: map<nat, Entry>, ns: seq<nat>, name: CString): (r: Option<nat>)
    ensures r.Some? ==> r.value in ns && r.value in nodes && nodes[r.value].name == name
    ensures r.None? ==> forall n | n in ns && n in nodes :: nodes[n].name != name
  {
    if ns == [] then None
    else if ns[0] in nodes && nodes[ns[0]].name == name then Some(ns[0])
    else LookupIn(nodes, ns[1..], name)
  }

  /** fs_find_inode_in_dir: nothing is found in a file. */
  function Lookup(t: Tree, d: nat, name: CString): (r: Option<nat>)
  {
    if d in t.kids then LookupIn(t.nodes, t.kids[d], name) else None
  }

  /** One component: stay, go up (the root is its own parent), or look up a child. */
  function Step(t: Tree, n: nat, c: CString): (r: Option<nat>)
  {
    if c == [DOT] then Some(n)
    else if c == [DOT, DOT] then
      Some(if n in t.nodes && t.nodes[n].parent != 0 then t.nodes[n].parent else t.root)
    else Lookup(t, n, c)
  }

  function Descend(t: Tree, n: nat, cs: seq<CString>): (r: Option<nat>)
    decreases |cs|
  {
    if cs == [] then Some(n)
    else match Step(t, n, cs[0])
      case None => None
      case Some(m) => Descend(t, m, cs[1..])
  }

  /** fs_resolve_path. */
  function Resolve(t: Tree, path: CString): (r: Option<nat>)
  {
    Descend(t, if path != [] && path[0] == SLASH then t.root else t.cur, Parse(path))
  }

  lemma StepStaysInTree(t: Tree, n: nat, c: CString)
    requires WellFormed(t) && n in t.nodes
    ensures Step(t, n, c).Some? ==> Step(t, n, c).value in t.nodes
  {
    assert NodeOk(t, n);
    if t.nodes[n].parent != 0 {
      assert t.nodes[n].parent in t.kids;
      assert ListOk(t, t.nodes[n].parent);
    }
  }

  /** Resolution never leaves the tree. */
  lemma {:induction false} DescendStaysInTree(t: Tree, n: nat, cs: seq<CString>)
    requires WellFormed(t) && n in t.nodes
    ensures Descend(t, n, cs).Some? ==> Descend(t, n, cs).value in t.nodes
    decreases |cs|
  {
    if cs != [] {
      StepStaysInTree(t, n, cs[0]);
      if Step(t, n, cs[0]).Some? {
        DescendStaysInTree(t, Step(t, n, cs[0]).value, cs[1..]);
      }
    }
  }

  lemma {:induction false} DescendAppend(t: Tree, n: nat, cs: seq<CString>, ds: seq<CString>)
    ensures Descend(t, n, cs + ds) ==
      match Descend(t, n, cs) { case None => None case Some(m) => Descend(t, m, ds) }
    decreases |cs|
  {
    if cs == [] {
      assert cs + ds == ds;
    } else {
      assert (cs + ds)[1..] == cs[1..] + ds;
      if Step(t, n, cs[0]).Some? {
        DescendAppend(t, Step(t, n, cs[0]).value, cs[1..], ds);
      }
    }
  }

  // ------------------------------------------------------------------ printing

  /** A component the scanner reads back whole. */
  ghost predicate Component(c: CString)
  {
    c != [] && |c| <= NAME_MAX && SLASH !in c
  }

  /** A name that denotes a child: a component other than "." and "..". */
  ghost predicate GoodName(c: CString)
  {
    Component(c) && c != [DOT] && c != [DOT, DOT]
  }

  /** The absolute path made of the given components. */
  function Join(cs: seq<CString>): (p: CString)
    ensures cs != [] ==> p != [] && p[0] == SLASH
  {
    if cs == [] then [] else [SLASH] + cs[0] + Join(cs[1..])
  }

  lemma {:induction false} ComponentLengthOf(c: CString, rest: CString, limit: nat)
    requires SLASH !in c && |c| <= limit
    requires rest == [] || rest[0] == SLASH
    ensures ComponentLength(c + rest, limit) == |c|
  {
    if c == [] {
      assert c + rest == rest;
    } else {
      assert (c + rest)[1..] == c[1..] + rest;
      assert SLASH !in c[1..];
      assert (c + rest)[0] == c[0] && c[0] in c;
      ComponentLengthOf(c[1..], rest, limit - 1);
    }
  }

  lemma ParseCons(c: CString, rest: CString)
    requires Component(c)
    requires rest == [] || rest[0] == SLASH
    ensures Parse([SLASH] + c + rest) == [c] + Parse(rest)
  {
    var q := c + rest;
    var p := [SLASH] + c + rest;
    assert p[1..] == q;
    assert q[0] == c[0] && c[0] in c;
    assert SkipSlashes(q) == q;
    assert SkipSlashes(p) == q;
    ComponentLengthOf(c, rest, NAME_MAX);
    assert q[..|c|] == c && q[|c|..] == rest;
  }

  /** Scanning undoes joining, for every list of components. */
  lemma {:induction false} ParseJoin(cs: seq<CString>)
    requires forall c | c in cs :: Component(c)
    ensures Parse(Join(cs)) == cs
    decreases |cs|
  {
    if cs != [] {
      assert cs[0] in cs;
      ParseCons(cs[0], Join(cs[1..]));
      ParseJoin(cs[1..]);
    }
  }

  /** The names from the root down to inode `n`. */
  function PathTo(t: Tree, n: nat): (r: seq<CString>)
    requires WellFormed(t) && n in t.nodes
    ensures r == [] <==> n == t.root
    decreases n
  {
    if n == t.root then []
    else
      assert NodeOk(t, n);
      assert ListOk(t, t.nodes[n].parent);
      PathTo(t, t.nodes[n].parent) + [t.nodes[n].name]
  }

  /** What fs_get_current_path writes: "/" at the root and for every path that does not fit. */
  function PrintedPath(t: Tree): (p: CString)
    requires WellFormed(t)
  {
    assert t.cur in t.nodes;
    var full := Join(PathTo(t, t.cur));
    if full == [] || |full| >= MAX_PATH_LENGTH then [SLASH] else full
  }

  /** Names below the root are usable in paths, and no two siblings share one. */
  ghost predicate WellNamed(t: Tree)
  {
    && (forall n | n in t.nodes && n != t.root :: GoodName(t.nodes[n].name))
    && (forall d, a, b | d in t.kids && a in t.kids[d] && b in t.kids[d] && a in t.nodes && b in t.nodes
          && t.nodes[a].name == t.nodes[b].name :: a == b)
  }

  /** Walking the names from the root leads back to the inode. */
  lemma {:induction false} DescendPathTo(t: Tree, n: nat)
    requires WellFormed(t) && WellNamed(t) && n in t.nodes
    ensures Descend(t, t.root, PathTo(t, n)) == Some(n)
    ensures forall c | c in PathTo(t, n) :: GoodName(c)
    decreases n
  {
    if n != t.root {
      assert NodeOk(t, n);
      var p := t.nodes[n].parent;
      assert ListOk(t, p);
      DescendPathTo(t, p);
      var name := t.nodes[n].name;
      DescendAppend(t, t.root, PathTo(t, p), [name]);
      assert GoodName(name);
      ChildIsFound(t, n);
      assert Step(t, p, name) == Some(n);
      var last: seq<CString> := [name];
      assert last[1..] == [];
      assert Descend(t, p, [name]) == Some(n);
    }
  }

  lemma ChildIsFound(t: Tree, n: nat)
    requires WellFormed(t) && WellNamed(t) && n in t.nodes && n != t.root
    ensures Lookup(t, t.nodes[n].parent, t.nodes[n].name) == Some(n)
  {
    assert NodeOk(t, n);
  }

  /**
   Print and parse: in a tree with usable, unambiguous names, resolving the printed
   path gives the current directory exactly when the path fits the 256-byte buffer
   (for a longer path the printer answers "/", which is another directory).
   */
  lemma PathRoundTrip(t: Tree)
    requires WellFormed(t) && WellNamed(t)
    ensures t.cur in t.nodes
    ensures Resolve(t, PrintedPath(t)) == Some(t.cur) <==> |Join(PathTo(t, t.cur))| < MAX_PATH_LENGTH
    ensures |Join(PathTo(t, t.cur))| >= MAX_PATH_LENGTH ==> Resolve(t, PrintedPath(t)) == Some(t.root) != Some(t.cur)
  {
    assert RootOk(t);
    DescendPathTo(t, t.cur);
    PathRoundTripFor(t, PathTo(t, t.cur));
  }

  lemma ParseOfSlash()
    ensures Parse([SLASH]) == []
  {
    var slash: CString := [SLASH];
    assert slash[1..] == [];
    assert SkipSlashes(slash[1..]) == [];
  }

  lemma PathRoundTripFor(t: Tree, cs: seq<CString>)
    requires forall c | c in cs :: GoodName(c)
    requires Descend(t, t.root, cs) == Some(t.cur)
    requires cs == [] <==> t.cur == t.root
    ensures Resolve(t, Join(cs)) == Some(t.cur)
    ensures Resolve(t, [SLASH]) == Some(t.root)
    ensures |Join(cs)| == 0 <==> cs == []
  {
    ParseJoin(cs);
    ParseOfSlash();
  }

  // ------------------------------------------------------------ creating names

  /** The name fs_open and fs_mkdir create: what follows the last slash. */
  function LastComponent(path: CString): (r: CString)
    ensures SLASH !in r
    ensures |r| <= |path| && r == path[|path| - |r|..]
    ensures |r| < |path| ==> path[|path| - |r| - 1] == SLASH
  {
    if SLASH !in path then path else LastComponent(path[1..])
  }

  /** A sibling in `dir` already has the name that creation would store. */
  ghost predicate NameTaken(t: Tree, dir: nat, name: CString)
    requires dir in t.kids
  {
    exists a :: a in t.kids[dir] && a in t.nodes && t.nodes[a].name == Truncated(name)
  }

  /**
   Creation keeps siblings' names distinct exactly when no sibling already has
   the stored, truncated name; the code itself does not always check this.
   */
  lemma InsertKeepsNames(t: Tree, name: CString, kind: nat, dir: nat)
    requires WellFormed(t) && WellNamed(t) && dir in t.kids
    requires kind == FS_TYPE_FILE || kind == FS_TYPE_DIR
    requires GoodName(Truncated(name))
    ensures WellNamed(Insert(t, name, kind, dir)) <==> !NameTaken(t, dir, name)
  {
    var u := Insert(t, name, kind, dir);
    NextIsFresh(t);
    assert u.kids[dir][0] == t.next && u.kids[dir][1..] == t.kids[dir];
    if NameTaken(t, dir, name) {
      var a :| a in t.kids[dir] && a in t.nodes && t.nodes[a].name == Truncated(name);
      assert a in u.kids[dir] && t.next in u.kids[dir];
      assert u.nodes[a].name == u.nodes[t.next].name && a != t.next;
    } else {
      forall d, a, b | d in u.kids && a in u.kids[d] && b in u.kids[d] && a in u.nodes && b in u.nodes
        && u.nodes[a].name == u.nodes[b].name
        ensures a == b
      {
        SameNameSameChild(t, name, kind, dir, d, a, b);
      }
    }
  }

  lemma SameNameSameChild(t: Tree, name: CString, kind: nat, dir: nat, d: nat, a: nat, b: nat)
    requires WellNamed(t) && dir in t.kids && !NameTaken(t, dir, name)
    requires t.next !in t.nodes && t.next !in t.kids
    requires forall d | d in t.kids :: t.next !in t.kids[d]
    requires var u := Insert(t, name, kind, dir);
      d in u.kids && a in u.kids[d] && b in u.kids[d] && a in u.nodes && b in u.nodes
      && u.nodes[a].name == u.nodes[b].name
    ensures a == b
  {
    var u := Insert(t, name, kind, dir);
    if d == dir {
      assert u.kids[dir] == [t.next] + t.kids[dir];
    }
  }

  /** Opening "/x/a" when the root, the current directory, holds "a" but no "x" makes a second "a". */
  lemma OpenCanDuplicateName()
    ensures exists t: Tree, path: CString ::
      && WellFormed(t) && WellNamed(t) && t.cur in t.kids
      && Resolve(t, path).None?
      && !WellNamed(Insert(t, LastComponent(path), FS_TYPE_FILE, t.cur))
  {
    var a: CString := [97];
    var t0 := Fresh();
    var t := Insert(t0, a, FS_TYPE_FILE, 1);
    InsertKeepsWellFormed(t0, a, FS_TYPE_FILE, 1);
    InsertKeepsNames(t0, a, FS_TYPE_FILE, 1);
    var path: CString := [SLASH, 120, SLASH, 97];
    LastOfExample();
    ExampleIsMissing(t);
    assert t.kids[1] == [2];
    assert NameTaken(t, 1, a) by { assert 2 in t.kids[1]; }
    InsertKeepsNames(t, a, FS_TYPE_FILE, 1);
  }

  lemma LastOfExample()
    ensures LastComponent([SLASH, 120, SLASH, 97]) == [97]
  {
    var p: CString := [SLASH, 120, SLASH, 97];
    assert p[1..] == [120, SLASH, 97] && p[1..][1..] == [SLASH, 97] && p[1..][1..][1..] == [97];
    assert SLASH in p && SLASH in p[1..] && SLASH in p[1..][1..];
  }

  lemma ExampleIsMissing(t: Tree)
    requires t.root in t.kids && LookupIn(t.nodes, t.kids[t.root], [120]).None?
    ensures Resolve(t, [SLASH, 120, SLASH, 97]).None?
  {
    var c: CString := [120];
    ParseCons(c, [SLASH, 97]);
    var p: CString := [SLASH] + c + [SLASH, 97];
    assert p == [SLASH, 120, SLASH, 97];
    assert Parse(p)[0] == c;
    assert Step(t, t.root, c).None?;
  }
}
