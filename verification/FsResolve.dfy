/**
 What a path means: fs_resolve_path of kernel/fs/fs.c against the path as a text, in
 which "." stays, ".." drops the last name and any other component adds one.
 */
module FsResolve {
  import opened FsTree
  import opened FsPath

  /** The text of a path with one more component; nothing is above the root. */
  function Next(at: seq<CString>, c: CString): seq<CString>
  {
    if c == [DOT] then at
    else if c != [DOT, DOT] then at + [c]
    else if at == [] then [] else at[..|at| - 1]
  }

  function Normal(at: seq<CString>, cs: seq<CString>): seq<CString>
    decreases |cs|
  {
    if cs == [] then at else Normal(Next(at, cs[0]), cs[1..])
  }

  /** Some inode has this path. */
  ghost predicate Exists(t: Tree, path: seq<CString>)
    requires WellFormed(t)
  {
    exists n :: n in t.nodes && PathTo(t, n) == path
  }

  /** An inode other than the root lies in a directory, which is above it. */
  lemma Parent(t: Tree, n: nat)
    requires WellFormed(t) && n in t.nodes && n != t.root
    ensures var p := t.nodes[n].parent;
      p in t.nodes && p in t.kids && n in t.kids[p] && PathTo(t, n) == PathTo(t, p) + [t.nodes[n].name]
  {
    assert NodeOk(t, n);
    assert ListOk(t, t.nodes[n].parent);
  }

  /** A child's path is its directory's with its own name. */
  lemma ChildPath(t: Tree, d: nat, c: nat)
    requires WellFormed(t) && d in t.kids && c in t.kids[d]
    ensures d in t.nodes && c in t.nodes && c != t.root && t.nodes[c].parent == d
    ensures PathTo(t, c) == PathTo(t, d) + [t.nodes[c].name]
  {
    assert ListOk(t, d);
    assert NodeOk(t, d);
  }

  /** Each component of a path does to the inode's path what it does to the text. */
  lemma StepIsText(t: Tree, n: nat, c: CString)
    requires WellFormed(t) && n in t.nodes
    ensures var r := Step(t, n, c); r.Some? ==> r.value in t.nodes && PathTo(t, r.value) == Next(PathTo(t, n), c)
  {
    StepStaysInTree(t, n, c);
    assert NodeOk(t, n);
    if c == [DOT, DOT] {
      if n != t.root {
        Parent(t, n);
        var p := t.nodes[n].parent;
        assert NodeOk(t, p);
        assert PathTo(t, n)[..|PathTo(t, n)| - 1] == PathTo(t, p);
      }
    } else if c != [DOT] && Lookup(t, n, c).Some? {
      ChildPath(t, n, Lookup(t, n, c).value);
    }
  }

  /** Paths tell inodes apart. */
  lemma PathsDiffer(t: Tree, a: nat, b: nat)
    requires WellFormed(t) && WellNamed(t) && a in t.nodes && b in t.nodes && PathTo(t, a) == PathTo(t, b)
    ensures a == b
  {
    DescendPathTo(t, a);
    DescendPathTo(t, b);
  }

  /** A step succeeds exactly when the path it leads to exists. */
  lemma StepExists(t: Tree, n: nat, c: CString)
    requires WellFormed(t) && WellNamed(t) && n in t.nodes
    ensures Step(t, n, c).Some? <==> Exists(t, Next(PathTo(t, n), c))
  {
    StepIsText(t, n, c);
    if Exists(t, Next(PathTo(t, n), c)) && c != [DOT] && c != [DOT, DOT] {
      var m :| m in t.nodes && PathTo(t, m) == PathTo(t, n) + [c];
      Parent(t, m);
      var p := t.nodes[m].parent;
      assert PathTo(t, p) == PathTo(t, m)[..|PathTo(t, m)| - 1] == PathTo(t, n);
      PathsDiffer(t, p, n);
      ChildIsFound(t, m);
    }
  }

  /** Every path on the way from `at` along `cs` exists. */
  ghost predicate AllExist(t: Tree, at: seq<CString>, cs: seq<CString>)
    requires WellFormed(t)
  {
    forall k | 0 <= k <= |cs| :: Exists(t, Normal(at, cs[..k]))
  }

  lemma NormalFirst(at: seq<CString>, cs: seq<CString>, k: nat)
    requires 0 < k <= |cs|
    ensures Normal(at, cs[..k]) == Normal(Next(at, cs[0]), cs[1..][..k - 1])
  {
    assert cs[..k][1..] == cs[1..][..k - 1];
  }

  lemma AllExistFirst(t: Tree, n: nat, cs: seq<CString>)
    requires WellFormed(t) && n in t.nodes && cs != []
    ensures AllExist(t, PathTo(t, n), cs) <==> AllExist(t, Next(PathTo(t, n), cs[0]), cs[1..])
  {
    var at := PathTo(t, n);
    var next, rest := Next(at, cs[0]), cs[1..];
    if AllExist(t, at, cs) {
      forall k | 0 <= k <= |rest| ensures Exists(t, Normal(next, rest[..k])) {
        NormalFirst(at, cs, k + 1);
        assert Exists(t, Normal(at, cs[..k + 1]));
      }
    }
    if AllExist(t, next, rest) {
      forall k | 0 <= k <= |cs| ensures Exists(t, Normal(at, cs[..k])) {
        if k > 0 {
          NormalFirst(at, cs, k);
          assert Exists(t, Normal(next, rest[..k - 1]));
        }
      }
    }
  }

  /** Walking a list of components ends at the inode with the path of the text, if every path on the way exists. */
  lemma {:induction false} DescendIsText(t: Tree, n: nat, cs: seq<CString>)
    requires WellFormed(t) && WellNamed(t) && n in t.nodes
    ensures Descend(t, n, cs).Some? <==> AllExist(t, PathTo(t, n), cs)
    ensures var r := Descend(t, n, cs); r.Some? ==> r.value in t.nodes && PathTo(t, r.value) == Normal(PathTo(t, n), cs)
    decreases |cs|
  {
    if cs == [] {
      assert cs[..0] == [];
    } else {
      AllExistFirst(t, n, cs);
      StepExists(t, n, cs[0]);
      StepIsText(t, n, cs[0]);
      var next, rest := Next(PathTo(t, n), cs[0]), cs[1..];
      match Step(t, n, cs[0])
      case Some(m) => DescendIsText(t, m, rest);
      case None =>
        assert rest[..0] == [] && Normal(next, rest[..0]) == next;
    }
  }

  /** The text a path starts from: nothing, or the current directory's own path. */
  function Start(t: Tree, path: CString): seq<CString>
    requires WellFormed(t)
  {
    if path != [] && path[0] == SLASH then [] else PathTo(t, t.cur)
  }

  /**
   fs_resolve_path finds the inode whose path is the text, with "." and ".." worked out,
   exactly when every path on the way exists.
   */
  lemma ResolveExact(t: Tree, path: CString)
    requires WellFormed(t) && WellNamed(t)
    ensures Resolve(t, path).Some? <==> AllExist(t, Start(t, path), Parse(path))
    ensures forall n :: Resolve(t, path) == Some(n) <==>
      n in t.nodes && AllExist(t, Start(t, path), Parse(path)) && PathTo(t, n) == Normal(Start(t, path), Parse(path))
  {
    var from := if path != [] && path[0] == SLASH then t.root else t.cur;
    assert from in t.nodes && PathTo(t, from) == Start(t, path);
    DescendIsText(t, from, Parse(path));
    forall n | n in t.nodes && Resolve(t, path).Some? && PathTo(t, n) == Normal(Start(t, path), Parse(path))
      ensures Resolve(t, path) == Some(n)
    {
      PathsDiffer(t, n, Resolve(t, path).value);
    }
  }

  /** Down to a child and up again; "." stays, and ".." at the root stays too. */
  lemma DownAndUp(t: Tree, d: nat, c: nat)
    requires WellFormed(t) && WellNamed(t) && d in t.kids && c in t.kids[d]
    ensures c in t.nodes && Descend(t, d, [t.nodes[c].name, [DOT, DOT]]) == Some(d)
    ensures Descend(t, d, [[DOT]]) == Some(d) && Descend(t, t.root, [[DOT, DOT]]) == Some(t.root)
  {
    ChildPath(t, d, c);
    ChildIsFound(t, c);
    var name := t.nodes[c].name;
    assert GoodName(name) && Step(t, d, name) == Some(c);
    StepIsText(t, c, [DOT, DOT]);
    var up: CString := [DOT, DOT];
    assert PathTo(t, Step(t, c, up).value) == PathTo(t, d);
    PathsDiffer(t, Step(t, c, up).value, d);
    var both: seq<CString> := [name, up];
    var one: seq<CString> := [up];
    var stay: seq<CString> := [[DOT]];
    assert both[1..] == one && one[1..] == [] && stay[1..] == [];
    assert Descend(t, c, one) == Some(d);
  }
}
