/**
 What a caller of kernel/fs/fs.c gets: where an opened descriptor starts, what reads
 deliver, what is found after creating and removing, and where a change of directory leads.
 */
module FsCalls {
  import opened Common
  import opened FsTree
  import opened FsPath
  import opened FsResolve
  import opened FsFiles

  // ------------------------------------------------------------------ reading

  /**
   A read delivers as much as is asked for or all that is left, from the position on,
   moves the position past it and changes nothing else.
   */
  lemma ReadMeaning(s: Fs, fd: int, size: nat)
    requires Inv(s) && Usable(s, fd, FS_MODE_READ)
    ensures var o, f := Read(s, fd, size), s.fds[fd];
      var bytes := s.tree.nodes[f.inode].bytes;
      && 0 <= o.result <= size && f.position + o.result <= |bytes|
      && (o.result == size || f.position + o.result == |bytes|)
      && |o.data| == o.result && (forall k | 0 <= k < |o.data| :: o.data[k] == bytes[f.position + k])
      && o.fs == s.(fds := s.fds[fd := f.(position := f.position + o.result)])
  {
    assert FdOk(s.tree, s.fds[fd]);
  }

  /** An open descriptor, on an inode that is still there and is a file. */
  predicate OnFile(s: Fs, fd: int)
  {
    && 0 <= fd < |s.fds| && s.fds[fd].valid
    && s.fds[fd].inode in s.tree.nodes && s.tree.nodes[s.fds[fd].inode].kind == FS_TYPE_FILE
  }

  /** Reads and writes are refused exactly through a descriptor not open on a file or without the mode bit. */
  lemma RefusedIff(s: Fs, fd: int, size: nat, data: seq<byte>)
    requires Inv(s)
    ensures Read(s, fd, size).result == -1 <==> !(OnFile(s, fd) && s.fds[fd].mode % 2 == 1)
    ensures Read(s, fd, size).result == -1 ==> Read(s, fd, size) == Out(s, -1, [])
    ensures Write(s, fd, data).result == -1 <==> !(OnFile(s, fd) && s.fds[fd].mode / 2 % 2 == 1)
    ensures Write(s, fd, data).result == -1 ==> Write(s, fd, data) == Out(s, -1, [])
  {
    if OnFile(s, fd) { assert FdOk(s.tree, s.fds[fd]); }
  }

  /** A seek is refused exactly through a descriptor that is not open, or with an unknown `whence`. */
  lemma SeekRefusedIff(s: Fs, fd: int, offset: int, whence: nat)
    requires Inv(s)
    ensures Seek(s, fd, offset, whence).result == -1 <==> !(0 <= fd < |s.fds| && s.fds[fd].valid && whence <= 2)
    ensures Seek(s, fd, offset, whence).result == -1 ==> Seek(s, fd, offset, whence) == Out(s, -1, [])
  {
  }

  /** Reading `a` and then `b` bytes is reading `a + b` bytes. */
  lemma ReadTwice(s: Fs, fd: int, a: nat, b: nat)
    requires Inv(s) && Usable(s, fd, FS_MODE_READ)
    ensures var o := Read(s, fd, a);
      && Inv(o.fs)
      && var p, whole := Read(o.fs, fd, b), Read(s, fd, a + b);
         p.fs == whole.fs && o.data + p.data == whole.data && o.result + p.result == whole.result
  {
    var o := Read(s, fd, a);
    DescriptorOpKeeps(s, OpRead(fd, a));
    ReadMeaning(s, fd, a);
    ReadMeaning(s, fd, a + b);
    ReadMeaning(o.fs, fd, b);
  }

  // ------------------------------------------------------------------ opening

  /** A file is opened if it is there, and created if it may be; either way a descriptor is needed. */
  ghost predicate CanOpen(s: Fs, path: CString, mode: nat, memory: bool)
  {
    && (exists k :: 0 <= k < |s.fds| && !s.fds[k].valid)
    && match Resolve(s.tree, path)
       case Some(n) => n in s.tree.nodes && s.tree.nodes[n].kind == FS_TYPE_FILE
       case None => HasMode(mode, FS_MODE_WRITE) && |s.tree.nodes| < MAX_INODES && memory
  }

  /** Descriptor `k` was the lowest free one and is now open on `n`, at the end for appending and else at the start. */
  ghost predicate OpenedOn(s: Fs, u: Fs, k: int, n: nat, mode: nat)
  {
    && 0 <= k < |s.fds| == |u.fds| && n in u.tree.nodes && !s.fds[k].valid
    && (forall j | 0 <= j < k :: s.fds[j].valid)
    && (forall j | 0 <= j < |s.fds| && j != k :: u.fds[j] == s.fds[j])
    && var size := |u.tree.nodes[n].bytes|;
       u.fds[k] == Fd(n, if mode / 4 % 2 == 1 then size else 0, mode, size, true)
  }

  /** fs_open once it has an inode. */
  lemma AttachMeaning(s: Fs, n: nat, mode: nat)
    requires n in s.tree.nodes
    ensures var o := Attach(s, n, mode);
      if s.tree.nodes[n].kind == FS_TYPE_FILE && (exists k :: 0 <= k < |s.fds| && !s.fds[k].valid) then
        o.result >= 0 && o.fs.tree == s.tree && OpenedOn(s, o.fs, o.result, n, mode)
      else o == Out(s, -1, [])
  {
    FreeFdIff(s.fds);
  }

  /** fs_create_inode: it needs a free slot and, for a file, memory. */
  lemma CreateMeaning(t: Tree, name: CString, kind: nat, memory: bool)
    requires WellFormed(t) && t.cur in t.kids
    ensures var (u, ok) := Create(t, name, kind, memory);
      && (ok <==> |t.nodes| < MAX_INODES && (kind == FS_TYPE_FILE ==> memory))
      && (ok ==> CreatedIn(t, u, name, kind))
      && (!ok ==> u == if |t.nodes| < MAX_INODES then t.(next := t.next + 1) else t)
  {
    InsertIs(t, name, kind);
  }

  lemma OpenMeaning(s: Fs, path: CString, mode: nat, memory: bool)
    requires Inv(s) && s.tree.cur in s.tree.kids
    ensures var o := Open(s, path, mode, memory);
      && (o.result >= 0 <==> CanOpen(s, path, mode, memory))
      && (o.result < 0 ==> o.result == -1 && o.fs.fds == s.fds)
      && (o.result >= 0 ==> match Resolve(s.tree, path)
            case Some(n) => o.fs.tree == s.tree && OpenedOn(s, o.fs, o.result, n, mode)
            case None =>
              && CreatedIn(s.tree, o.fs.tree, LastComponent(path), FS_TYPE_FILE)
              && OpenedOn(s, o.fs, o.result, s.tree.next, mode))
  {
    match Resolve(s.tree, path)
    case Some(n) =>
      if n in s.tree.nodes { AttachMeaning(s, n, mode); }
    case None =>
      CreateMeaning(s.tree, LastComponent(path), FS_TYPE_FILE, memory);
      var (t, ok) := Create(s.tree, LastComponent(path), FS_TYPE_FILE, memory);
      if ok { AttachMeaning(s.(tree := t), s.tree.next, mode); }
  }

  lemma FreeFdIff(fds: seq<Fd>)
    ensures FreeFd(fds) < |fds| <==> exists k :: 0 <= k < |fds| && !fds[k].valid
  {
  }

  /** A file opened for reading, but not for appending, delivers all its bytes to one large read. */
  lemma OpenThenRead(s: Fs, path: CString, mode: nat, memory: bool, size: nat)
    requires Inv(s) && s.tree.cur in s.tree.kids && CanOpen(s, path, mode, memory) && Resolve(s.tree, path).Some?
    requires mode % 2 == 1 && mode / 4 % 2 == 0
    requires size >= |s.tree.nodes[Resolve(s.tree, path).value].bytes|
    ensures var o := Open(s, path, mode, memory);
      Inv(o.fs) && Read(o.fs, o.result, size).data == s.tree.nodes[Resolve(s.tree, path).value].bytes
  {
    OpenMeaning(s, path, mode, memory);
    OpenKeeps(s, path, mode, memory);
    var o := Open(s, path, mode, memory);
    ReadMeaning(o.fs, o.result, size);
  }

  /** What is written through a descriptor opened for appending goes behind the old bytes, if it fits. */
  lemma OpenThenAppend(s: Fs, path: CString, mode: nat, memory: bool, data: seq<byte>)
    requires Inv(s) && s.tree.cur in s.tree.kids && CanOpen(s, path, mode, memory) && Resolve(s.tree, path).Some?
    requires mode / 2 % 2 == 1 && mode / 4 % 2 == 1
    requires |s.tree.nodes[Resolve(s.tree, path).value].bytes| + |data| <= MAX_FILE_SIZE
    ensures var o, n := Open(s, path, mode, memory), Resolve(s.tree, path).value;
      && Inv(o.fs)
      && n in Write(o.fs, o.result, data).fs.tree.nodes
      && Write(o.fs, o.result, data).fs.tree.nodes[n].bytes == s.tree.nodes[n].bytes + data
  {
    OpenMeaning(s, path, mode, memory);
    OpenKeeps(s, path, mode, memory);
    var o, n := Open(s, path, mode, memory), Resolve(s.tree, path).value;
    WriteMeaning(o.fs, o.result, data);
    OverlaidAtEnd(s.tree.nodes[n].bytes, Write(o.fs, o.result, data).fs.tree.nodes[n].bytes, data);
  }

  lemma OverlaidAtEnd(was: seq<byte>, now: seq<byte>, data: seq<byte>)
    requires Overlaid(was, now, |was|, data, |data|)
    ensures now == was + data
  {
  }

  /** After a close every call through the descriptor fails, no other one changed, and it can be handed out again. */
  lemma CloseMeaning(s: Fs, fd: int, size: nat, data: seq<byte>, offset: int, whence: nat)
    requires Inv(s)
    ensures var o := Close(s, fd);
      && Inv(o.fs) && o.fs.tree == s.tree
      && (o.result == 0 <==> IsOpen(s, fd)) && (!IsOpen(s, fd) ==> o == Out(s, -1, []))
      && |o.fs.fds| == |s.fds| && (forall k | 0 <= k < |s.fds| && k != fd :: o.fs.fds[k] == s.fds[k])
      && (IsOpen(s, fd) ==> o.fs.fds[fd] == s.fds[fd].(valid := false))
      && Read(o.fs, fd, size) == Write(o.fs, fd, data) == Out(o.fs, -1, [])
      && Seek(o.fs, fd, offset, whence) == Close(o.fs, fd) == Out(o.fs, -1, [])
      && (0 <= fd < |s.fds| ==> FreeFd(o.fs.fds) <= fd)
  {
    DescriptorOpKeeps(s, OpClose(fd));
  }

  // ----------------------------------------------------- creating and removing

  /** The current directory of `u` has a new, empty inode of that kind and, cut to 255 characters, that name. */
  ghost predicate CreatedIn(t: Tree, u: Tree, name: CString, kind: nat)
  {
    && t.next !in t.nodes && u.nodes.Keys == t.nodes.Keys + {t.next}
    && (forall n | n in t.nodes :: u.nodes[n] == t.nodes[n])
    && u.nodes[t.next] == Entry(if |name| <= 255 then name else name[..255], kind, t.cur, [])
    && u.root == t.root && u.cur == t.cur && u.next == t.next + 1
    && (forall c :: Lookup(u, t.cur, c) == if c == u.nodes[t.next].name then Some(t.next) else Lookup(t, t.cur, c))
    && (forall d, c | d in t.nodes && d != t.cur :: Lookup(u, d, c) == Lookup(t, d, c))
    && (forall c :: Lookup(u, t.next, c) == None)
  }

  /** Lookup in a list does not notice inodes that are not in it. */
  lemma {:induction false} LookupSame(a: map<nat, Entry>, b: map<nat, Entry>, ns: seq<nat>, c: CString)
    requires forall n | n in ns :: (n in a <==> n in b) && (n in a ==> a[n].name == b[n].name)
    ensures LookupIn(a, ns, c) == LookupIn(b, ns, c)
  {
    if ns != [] {
      assert ns[0] in ns;
      LookupSame(a, b, ns[1..], c);
    }
  }

  lemma InsertIs(t: Tree, name: CString, kind: nat)
    requires WellFormed(t) && t.cur in t.kids
    ensures CreatedIn(t, Insert(t, name, kind, t.cur), name, kind)
  {
    var u := Insert(t, name, kind, t.cur);
    NextIsFresh(t);
    forall d, c | d in t.nodes
      ensures Lookup(u, d, c) ==
        if d == t.cur && c == u.nodes[t.next].name then Some(t.next) else Lookup(t, d, c)
    {
      if d in t.kids {
        assert ListOk(t, d);
        LookupSame(t.nodes, u.nodes, t.kids[d], c);
      }
    }
    if kind == FS_TYPE_DIR { assert u.kids[t.next] == []; }
  }

  /**
   mkdir succeeds exactly when the name is not in the current directory and there is
   room; then the directory is there, empty, and found before any other of that name.
   */
  lemma MkdirMeaning(s: Fs, path: CString)
    requires Inv(s) && s.tree.cur in s.tree.kids
    ensures var o, name := Mkdir(s, path), LastComponent(path);
      if Lookup(s.tree, s.tree.cur, name).None? && |s.tree.nodes| < MAX_INODES then
        o.result == 0 && o.fs.fds == s.fds && CreatedIn(s.tree, o.fs.tree, name, FS_TYPE_DIR)
      else o == Out(s, -1, [])
  {
    MkdirIs(s, path);
    CreateMeaning(s.tree, LastComponent(path), FS_TYPE_DIR, true);
  }

  /** What a failing fs_open can still change: it may have created the file, or used up a number. */
  lemma OpenFails(s: Fs, path: CString, mode: nat, memory: bool)
    requires Inv(s) && s.tree.cur in s.tree.kids && !CanOpen(s, path, mode, memory)
    ensures var o := Open(s, path, mode, memory);
      var tries := Resolve(s.tree, path).None? && HasMode(mode, FS_MODE_WRITE) && |s.tree.nodes| < MAX_INODES;
      if !tries then o.fs == s
      else if !memory then o.fs == s.(tree := s.tree.(next := s.tree.next + 1))
      else o.fs.fds == s.fds && CreatedIn(s.tree, o.fs.tree, LastComponent(path), FS_TYPE_FILE)
  {
    OpenMeaning(s, path, mode, memory);
    TreeAfterOpen(s, path, mode, memory);
    CreateMeaning(s.tree, LastComponent(path), FS_TYPE_FILE, memory);
  }

  /** Inode `n` is gone from its directory, and nothing else is. */
  ghost predicate RemovedFrom(t: Tree, u: Tree, n: nat)
  {
    && n in t.nodes && u.nodes == t.nodes - {n} && u.root == t.root && u.cur == t.cur && u.next == t.next
    && Lookup(u, t.nodes[n].parent, t.nodes[n].name) == None
    && (forall d, c | d in u.nodes && (d, c) != (t.nodes[n].parent, t.nodes[n].name) ::
          Lookup(u, d, c) == Lookup(t, d, c))
  }

  lemma {:induction false} LookupWithout(nodes: map<nat, Entry>, ns: seq<nat>, n: nat, c: CString)
    requires n in nodes && Distinct(ns)
    ensures LookupIn(nodes - {n}, Without(ns, n), c) == LookupIn(nodes, Without(ns, n), c)
    ensures LookupIn(nodes, ns, c) != Some(n) ==> LookupIn(nodes, Without(ns, n), c) == LookupIn(nodes, ns, c)
  {
    LookupSame(nodes - {n}, nodes, Without(ns, n), c);
    if ns != [] {
      LookupWithout(nodes, ns[1..], n, c);
    }
  }

  lemma DeleteIs(t: Tree, n: nat)
    requires WellFormed(t) && WellNamed(t) && n in t.nodes && n != t.root && (n in t.kids ==> t.kids[n] == [])
    ensures RemovedFrom(t, Delete(t, n), n)
  {
    var u, p, name := Delete(t, n), t.nodes[n].parent, t.nodes[n].name;
    assert NodeOk(t, n) && ListOk(t, p);
    LookupGone(t, n);
    forall d, c | d in u.nodes && (d, c) != (p, name) ensures Lookup(u, d, c) == Lookup(t, d, c) {
      if d in t.kids {
        assert ListOk(t, d);
        if d == p {
          LookupWithout(t.nodes, t.kids[p], n, c);
        } else {
          LookupSame(u.nodes, t.nodes, t.kids[d], c);
        }
      }
    }
  }

  lemma LookupGone(t: Tree, n: nat)
    requires WellFormed(t) && WellNamed(t) && n in t.nodes && n != t.root
    ensures Lookup(Delete(t, n), t.nodes[n].parent, t.nodes[n].name) == None
  {
    var u, p, name := Delete(t, n), t.nodes[n].parent, t.nodes[n].name;
    assert NodeOk(t, n) && ListOk(t, p);
    assert u.kids[p] == Without(t.kids[p], n);
  }

  /** rm succeeds exactly for a file or an empty directory other than the root, and then just that is gone. */
  lemma RemoveMeaning(s: Fs, path: CString)
    requires Inv(s) && WellNamed(s.tree)
    ensures var o, r := Remove(s, path), Resolve(s.tree, path);
      if r.Some? && r.value != s.tree.root && (r.value in s.tree.kids ==> s.tree.kids[r.value] == []) then
        o.result == 0 && o.fs.fds == s.fds && RemovedFrom(s.tree, o.fs.tree, r.value)
      else o == Out(s, -1, [])
  {
    ResolveExact(s.tree, path);
    if Remove(s, path).result == 0 { DeleteIs(s.tree, Resolve(s.tree, path).value); }
  }

  // --------------------------------------------------------------- directories

  /** cd succeeds exactly for a directory, and then the current path is the text that was given, worked out. */
  lemma ChdirMeaning(s: Fs, path: CString)
    requires Inv(s) && WellNamed(s.tree)
    ensures var o, r := Chdir(s, path), Resolve(s.tree, path);
      if r.Some? && r.value in s.tree.kids then
        && o.result == 0 && o.fs == s.(tree := s.tree.(cur := r.value)) && WellFormed(o.fs.tree)
        && PathTo(o.fs.tree, o.fs.tree.cur) == Normal(Start(s.tree, path), Parse(path))
      else o == Out(s, -1, [])
  {
    var r := Resolve(s.tree, path);
    ResolveExact(s.tree, path);
    ChdirKeeps(s, path);
    if r.Some? {
      assert NodeOk(s.tree, r.value);
      if r.value in s.tree.kids {
        assert ListOk(s.tree, r.value);
        SamePaths(s.tree, s.tree.(cur := r.value), r.value);
      }
    }
  }

  lemma {:induction false} SamePaths(t: Tree, u: Tree, n: nat)
    requires WellFormed(t) && WellFormed(u) && u == t.(cur := u.cur) && n in t.nodes
    ensures PathTo(u, n) == PathTo(t, n)
    decreases n
  {
    if n != t.root {
      assert NodeOk(t, n) && ListOk(t, t.nodes[n].parent);
      SamePaths(t, u, t.nodes[n].parent);
    }
  }

  lemma ParseSingle(c: CString)
    requires Component(c)
    ensures Parse(c) == [c]
  {
    assert c[0] in c;
    var path := [SLASH] + c;
    ParseCons(c, []);
    assert path + [] == path && path[1..] == c;
    assert SkipSlashes(c) == c == SkipSlashes(path);
  }

  /** Into a subdirectory and back. */
  lemma ThereAndBack(s: Fs, name: CString)
    requires Inv(s) && WellNamed(s.tree) && GoodName(name)
    ensures var o := Chdir(s, name); o.result == 0 ==> Chdir(o.fs, [DOT, DOT]) == Out(s, 0, [])
  {
    var t, o, up: CString := s.tree, Chdir(s, name), [DOT, DOT];
    CurrentIsDirectory(t);
    SingleComponent(t, name);
    if o.result == 0 {
      var c, u := Lookup(t, t.cur, name).value, o.fs.tree;
      DownAndUp(t, t.cur, c);
      ParseSingle(up);
      DescendOne(u, c, up);
      assert Resolve(u, up) == Step(u, c, up) == Step(t, c, up);
      UpFrom(t, t.cur, c, name);
    }
  }

  lemma DescendOne(t: Tree, n: nat, c: CString)
    ensures Descend(t, n, [c]) == Step(t, n, c)
  {
    var one: seq<CString> := [c];
    assert one[1..] == [];
  }

  lemma UpFrom(t: Tree, d: nat, c: nat, name: CString)
    requires GoodName(name) && Lookup(t, d, name) == Some(c) && Descend(t, d, [name, [DOT, DOT]]) == Some(d)
    ensures Step(t, c, [DOT, DOT]) == Some(d)
  {
    var up: CString := [DOT, DOT];
    var both: seq<CString> := [name, up];
    assert both[1..] == [up];
    DescendOne(t, c, up);
  }
}
