/**
 The abstract file tree of kernel/fs/fs.c: what the inode table means once slots
 and sibling pointers are forgotten.

 Inode numbers are the identities.  Each live inode has an entry, and each live
 directory has the ordered list of its children, newest first, as the head
 insertion of fs_create_inode leaves it.
 */
module FsTree {
  import opened Common

  type byte = x: int | 0 <= x < 256
  /** A character of a C string: any byte but the terminator. */
  type cchar = x: int | 1 <= x < 256 witness 1
  type CString = seq<cchar>

  const SLASH: cchar := 47
  const DOT: cchar := 46
  const NAME_MAX := 255
  const MAX_INODES := 320
  const MAX_FILE_SIZE := 65536
  const FS_TYPE_FILE := 1
  const FS_TYPE_DIR := 2

  datatype Option<+T> = None | Some(value: T)

  /** What an inode means: a file holds the bytes up to its size. */
  datatype Entry = Entry(name: CString, kind: nat, parent: nat, bytes: seq<byte>)

  datatype Tree = Tree(nodes: map<nat, Entry>, kids: map<nat, seq<nat>>, root: nat, cur: nat, next: nat)

  /** strncpy with a limit of 255 followed by a terminator. */
  function Truncated(name: CString): (r: CString)
  {
    if |name| <= NAME_MAX then name else name[..NAME_MAX]
  }

  /**
   A live inode is a file or a directory within the limits of the table.  Unless
   it is the root, it is in the child list of its parent, which is older than it is.
   */
  ghost predicate NodeOk(t: Tree, n: nat)
    requires n in t.nodes
  {
    var e := t.nodes[n];
    && 1 <= n < t.next
    && (e.kind == FS_TYPE_FILE || e.kind == FS_TYPE_DIR)
    && (e.kind == FS_TYPE_DIR ==> e.bytes == [] && n in t.kids)
    && |e.name| <= NAME_MAX
    && |e.bytes| <= MAX_FILE_SIZE
    && (n != t.root ==> e.parent in t.kids && e.parent < n && n in t.kids[e.parent] && SLASH !in e.name)
  }

  /** The list of a live directory holds its children, each once. */
  ghost predicate ListOk(t: Tree, d: nat)
    requires d in t.kids
  {
    && d in t.nodes && t.nodes[d].kind == FS_TYPE_DIR
    && Distinct(t.kids[d])
    && (forall c | c in t.kids[d] :: c in t.nodes && t.nodes[c].parent == d)
  }

  ghost predicate RootOk(t: Tree)
  {
    && t.root in t.nodes && t.nodes[t.root].kind == FS_TYPE_DIR
    && t.nodes[t.root].parent == 0
    && t.nodes[t.root].name == [SLASH]
    && t.cur in t.nodes && t.nodes[t.cur].kind == FS_TYPE_DIR
  }

  ghost predicate WellFormed(t: Tree)
  {
    && RootOk(t)
    && (forall n {:trigger NodeOk(t, n)} | n in t.nodes :: NodeOk(t, n))
    && (forall d {:trigger ListOk(t, d)} | d in t.kids :: ListOk(t, d))
  }

  function Fresh(): (t: Tree)
    ensures WellFormed(t)
  {
    Tree(map[1 := Entry([SLASH], FS_TYPE_DIR, 0, [])], map[1 := []], 1, 1, 2)
  }

  // ---------------------------------------------------------------- operations

  /** fs_create_inode into directory `dir`. */
  function Insert(t: Tree, name: CString, kind: nat, dir: nat): Tree
    requires dir in t.kids
  {
    var kids1 := t.kids[dir := [t.next] + t.kids[dir]];
    t.(nodes := t.nodes[t.next := Entry(Truncated(name), kind, dir, [])],
       kids := if kind == FS_TYPE_DIR then kids1[t.next := []] else kids1,
       next := t.next + 1)
  }

  function Without(s: seq<nat>, n: nat): (r: seq<nat>)
    ensures forall x :: x in r <==> x in s && x != n
    ensures |r| <= |s|
    ensures n !in s ==> r == s
  {
    if s == [] then []
    else if s[0] == n then Without(s[1..], n)
    else [s[0]] + Without(s[1..], n)
  }

  /** fs_remove of inode `n`. */
  function Delete(t: Tree, n: nat): Tree
    requires n in t.nodes
  {
    var p := t.nodes[n].parent;
    var kids1 := if p in t.kids then t.kids[p := Without(t.kids[p], n)] else t.kids;
    t.(nodes := t.nodes - {n}, kids := kids1 - {n})
  }

  /** New contents for file `n`. */
  function SetBytes(t: Tree, n: nat, bytes: seq<byte>): Tree
    requires n in t.nodes
  {
    t.(nodes := t.nodes[n := t.nodes[n].(bytes := bytes)])
  }

  // ---------------------------------------------------------------- invariants

  lemma NextIsFresh(t: Tree)
    requires WellFormed(t)
    ensures t.next !in t.nodes && t.next !in t.kids
    ensures forall d | d in t.kids :: t.next !in t.kids[d]
  {
    assert forall n | n in t.nodes :: n < t.next by {
      forall n | n in t.nodes ensures n < t.next { assert NodeOk(t, n); }
    }
    assert forall d | d in t.kids :: d in t.nodes && forall c | c in t.kids[d] :: c in t.nodes by {
      forall d | d in t.kids ensures d in t.nodes && forall c | c in t.kids[d] :: c in t.nodes { assert ListOk(t, d); }
    }
  }

  lemma InsertKeepsWellFormed(t: Tree, name: CString, kind: nat, dir: nat)
    requires WellFormed(t) && dir in t.kids
    requires kind == FS_TYPE_FILE || kind == FS_TYPE_DIR
    requires SLASH !in name
    ensures WellFormed(Insert(t, name, kind, dir))
  {
    var u := Insert(t, name, kind, dir);
    NextIsFresh(t);
    assert ListOk(t, dir) && NodeOk(t, dir);
    forall n | n in u.nodes ensures NodeOk(u, n) {
      if n == t.next {
        assert u.kids[dir][0] == n;
      } else {
        assert NodeOk(t, n);
        if t.nodes[n].parent == dir { assert u.kids[dir][1..] == t.kids[dir]; }
      }
    }
    forall d | d in u.kids ensures ListOk(u, d) {
      if d == dir {
        assert u.kids[dir] == [t.next] + t.kids[dir];
      } else if d != t.next {
        assert ListOk(t, d);
      }
    }
  }

  lemma {:induction false} WithoutKeepsDistinct(s: seq<nat>, n: nat)
    requires Distinct(s)
    ensures Distinct(Without(s, n))
  {
    if s != [] {
      var a, b := s[0], s[1..];
      assert a !in b;
      WithoutKeepsDistinct(b, n);
      var r := Without(b, n);
      assert a !in r;
      assert Distinct([a] + r);
    }
  }

  /** Removing an empty, non-root inode is safe exactly when it is not the current directory. */
  lemma DeleteKeepsWellFormed(t: Tree, n: nat)
    requires WellFormed(t) && n in t.nodes && n != t.root
    requires n in t.kids ==> t.kids[n] == []
    ensures WellFormed(Delete(t, n)) <==> n != t.cur
  {
    if n != t.cur { DeleteOther(t, n); }
  }

  lemma DeleteOther(t: Tree, n: nat)
    requires WellFormed(t) && n in t.nodes
    requires n != t.root && n != t.cur
    requires n in t.kids ==> t.kids[n] == []
    ensures WellFormed(Delete(t, n))
  {
    var u := Delete(t, n);
    var p := t.nodes[n].parent;
    assert NodeOk(t, n);
    assert ListOk(t, p);
    WithoutKeepsDistinct(t.kids[p], n);
    forall m | m in u.nodes ensures NodeOk(u, m) {
      assert NodeOk(t, m);
    }
    forall d | d in u.kids ensures ListOk(u, d) {
      assert ListOk(t, d);
      forall c | c in u.kids[d] ensures c in u.nodes && u.nodes[c].parent == d {
        assert c in t.kids[d];
      }
    }
  }

  lemma SetBytesKeepsWellFormed(t: Tree, n: nat, bytes: seq<byte>)
    requires WellFormed(t) && n in t.nodes
    requires t.nodes[n].kind == FS_TYPE_FILE && |bytes| <= MAX_FILE_SIZE
    ensures WellFormed(SetBytes(t, n, bytes))
  {
    var u := SetBytes(t, n, bytes);
    forall m | m in u.nodes ensures NodeOk(u, m) {
      assert NodeOk(t, m);
    }
    forall d | d in u.kids ensures ListOk(u, d) {
      assert ListOk(t, d);
    }
  }

  /** Following parents from any live inode ends at the root. */
  function Ancestors(t: Tree, n: nat): (r: seq<nat>)
    requires WellFormed(t) && n in t.nodes
    ensures r != [] && r[0] == n && r[|r| - 1] == t.root
    ensures forall i | 0 <= i < |r| - 1 :: r[i] in t.nodes && t.nodes[r[i]].parent == r[i + 1]
  {
    if n == t.root then [n]
    else
      assert NodeOk(t, n) && ListOk(t, t.nodes[n].parent);
      [n] + Ancestors(t, t.nodes[n].parent)
  }

  /** Insert and Delete are inverse: creating and at once removing leaves the entries and lists as they were. */
  lemma InsertThenDelete(t: Tree, name: CString, kind: nat, dir: nat)
    requires WellFormed(t) && dir in t.kids
    ensures Delete(Insert(t, name, kind, dir), t.next) == t.(next := t.next + 1)
  {
    NextIsFresh(t);
    DeleteUndoesInsert(t, name, kind, dir);
  }

  lemma DeleteUndoesInsert(t: Tree, name: CString, kind: nat, dir: nat)
    requires dir in t.kids
    requires t.next !in t.nodes && t.next !in t.kids && t.next !in t.kids[dir]
    ensures Delete(Insert(t, name, kind, dir), t.next) == t.(next := t.next + 1)
  {
    var u := Insert(t, name, kind, dir);
    var l := [t.next] + t.kids[dir];
    assert u.kids[dir] == l;
    assert l[1..] == t.kids[dir];
    assert Without(l, t.next) == t.kids[dir];
    var v := Delete(u, t.next);
    assert v.nodes == t.nodes;
    assert v.kids.Keys == t.kids.Keys;
    forall d | d in t.kids ensures v.kids[d] == t.kids[d] { }
    assert v.kids == t.kids;
  }

  /**
   Two well-formed trees with the same entries and root have the same children
   everywhere: they differ only in the order of siblings.
   */
  lemma SameEntriesSameChildren(a: Tree, b: Tree)
    requires WellFormed(a) && WellFormed(b)
    requires a.nodes == b.nodes && a.root == b.root
    ensures a.kids.Keys == b.kids.Keys
    ensures forall d | d in a.kids :: multiset(a.kids[d]) == multiset(b.kids[d])
  {
    forall d ensures d in a.kids <==> d in b.kids {
      if d in a.kids { assert ListOk(a, d) && NodeOk(b, d); }
      if d in b.kids { assert ListOk(b, d) && NodeOk(a, d); }
    }
    forall d | d in a.kids
      ensures multiset(a.kids[d]) == multiset(b.kids[d])
    {
      assert ListOk(a, d) && ListOk(b, d);
      ListsAgree(a, b, d);
      ListsAgree(b, a, d);
      DistinctMultiset(a.kids[d]);
      DistinctMultiset(b.kids[d]);
    }
  }

  lemma ListsAgree(a: Tree, b: Tree, d: nat)
    requires WellFormed(a) && WellFormed(b)
    requires a.nodes == b.nodes && a.root == b.root
    requires d in a.kids && d in b.kids
    ensures forall c | c in a.kids[d] :: c in b.kids[d]
  {
    assert ListOk(a, d);
    forall c | c in a.kids[d] ensures c in b.kids[d] {
      assert NodeOk(b, c) && NodeOk(b, d);
    }
  }

  lemma {:induction false} DistinctMultiset(s: seq<nat>)
    requires Distinct(s)
    ensures forall x :: multiset(s)[x] == if x in s then 1 else 0
  {
    if s != [] {
      var a, b := s[0], s[1..];
      assert s == [a] + b;
      assert Distinct(b);
      DistinctMultiset(b);
      assert multiset(s) == multiset{a} + multiset(b);
      assert a !in b;
    }
  }
}
