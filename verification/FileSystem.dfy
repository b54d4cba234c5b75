/**
 kernel/fs/fs.c in its own form: a table of inodes and a table of descriptors that
 the calls change in place.  Every method is proved to act on the represented tree
 and descriptors as its namesake in FsFiles says.
 */
module FileSystem {
  import opened Common
  import opened FsTree
  import opened FsPath
  import opened FsFiles
  import opened FsTable

  lemma {:induction false} ComponentLengthIs(q: CString, limit: nat, k: nat)
    requires k <= |q| && k <= limit && SLASH !in q[..k]
    requires k < limit && k < |q| ==> q[k] == SLASH
    ensures ComponentLength(q, limit) == k
  {
    if k > 0 {
      assert q[..k][0] == q[0];
      assert q[1..][..k - 1] == q[..k][1..];
      ComponentLengthIs(q[1..], limit - 1, k - 1);
    }
  }

  lemma ParseNext(q: CString, c: CString)
    requires q != [] && q[0] != SLASH && |c| <= |q| && c == q[..|c|]
    requires SLASH !in c && |c| <= NAME_MAX
    requires |c| < NAME_MAX && |c| < |q| ==> q[|c|] == SLASH
    ensures c != [] && Parse(q) == [c] + Parse(q[|c|..])
  {
    ComponentLengthIs(q, NAME_MAX, |c|);
  }

  lemma ParseOne(c: CString)
    requires Component(c)
    ensures Parse(c) == [c]
    ensures forall t, n :: Descend(t, n, [c]) == Step(t, n, c)
  {
    assert c[0] in c;
    ParseNext(c, c);
    assert Parse(c[|c|..]) == [];
    var cs: seq<CString> := [c];
    assert cs[1..] == [];
  }

  /** The loop over leading slashes. */
  method PastSlashes(path: CString, start: nat) returns (p: nat)
    requires start <= |path|
    ensures start <= p <= |path| && SkipSlashes(path[start..]) == path[p..]
  {
    p := start;
    while p < |path| && path[p] == SLASH
      invariant start <= p <= |path|
      invariant SkipSlashes(path[p..]) == SkipSlashes(path[start..])
    {
      assert path[p..][1..] == path[p + 1..];
      p := p + 1;
    }
    assert SkipSlashes(path[p..]) == path[p..];
  }

  /** The loop that copies one component. */
  method CutComponent(path: CString, start: nat) returns (component: CString, p: nat)
    requires start < |path| && path[start] != SLASH
    ensures component != [] && start < p <= |path|
    ensures Parse(path[start..]) == [component] + Parse(path[p..])
  {
    p := start;
    component := [];
    while p < |path| && path[p] != SLASH && |component| < NAME_MAX
      invariant start <= p <= |path| && component == path[start..p]
      invariant |component| <= NAME_MAX && SLASH !in component
    {
      component := component + [path[p]];
      p := p + 1;
    }
    assert path[start..][|component|..] == path[p..];
    ParseNext(path[start..], component);
  }

  lemma ParseSkips(q: CString, r: CString)
    requires SkipSlashes(q) == r && SkipSlashes(r) == r
    ensures Parse(q) == Parse(r)
  {
  }

  /** Skips slashes and cuts the next component; an empty one means the path is used up. */
  method ScanComponent(path: CString, start: nat) returns (component: CString, p: nat)
    requires start < |path|
    ensures start <= p <= |path|
    ensures component == [] ==> p == |path| && Parse(path[start..]) == []
    ensures component != [] ==> start < p && Parse(path[start..]) == [component] + Parse(path[p..])
  {
    p := PastSlashes(path, start);
    ParseSkips(path[start..], path[p..]);
    component := [];
    if p == |path| {
      return;
    }
    assert path[p..][0] == path[p];
    component, p := CutComponent(path, p);
  }

  class FileSystem {
    const inodes: array<Inode>
    const fds: array<Fd>
    var root: int
    var cur: int
    var nextInode: nat
    ghost var tree: Tree
    ghost var slot: map<nat, int>

    ghost predicate Valid()
      reads this, inodes, fds
    {
      && Represents(inodes[..], slot, tree)
      && Inv(Fs(tree, fds[..]))
      && nextInode == tree.next
      && tree.root in slot && root == slot[tree.root]
      && tree.cur in slot && cur == slot[tree.cur]
    }

    ghost function Abs(): Fs
      reads this, fds
    {
      Fs(tree, fds[..])
    }

    /** fs_init when no file system is found on disk. */
    constructor ()
      ensures Valid() && Abs() == FreshFs() && fresh(inodes) && fresh(fds)
    {
      var blank := Inode([], 0, 0, [], NULL, false, NULL, NULL, 0);
      var rootNode := Inode([SLASH], FS_TYPE_DIR, 0, [], NULL, true, NULL, NULL, 1);
      inodes := new Inode[MAX_INODES](i => if i == 0 then rootNode else blank);
      fds := new Fd[MAX_FILE_DESCRIPTORS](i => Fd(0, 0, 0, 0, false));
      root, cur, nextInode := 0, 0, 2;
      tree := Fresh();
      slot := map[1 := 0];
      new;
      assert fds[..] == FreshFs().fds;
      forall i | 0 <= i < |inodes[..]| && inodes[..][i].valid ensures SlotOk(inodes[..], slot, tree, i) { }
      assert NumOk(inodes[..], slot, 1);
    }

    // ----------------------------------------------------------------- lookup

    /** Slot `p` is live and holds inode `n` of the tree. */
    ghost predicate At(p: int, n: nat)
      reads this, inodes
    {
      0 <= p < inodes.Length && inodes[p].valid && inodes[p].num == n && n in tree.nodes && n in slot && slot[n] == p
    }

    /** A pointer result: NULL for none, else the slot of the inode found. */
    ghost predicate Found(p: int, r: Option<nat>)
      reads this, inodes
    {
      match r
      case None => p == NULL
      case Some(n) => At(p, n)
    }

    lemma SlotAt(p: int)
      requires Valid() && 0 <= p < inodes.Length && inodes[p].valid
      ensures At(p, inodes[p].num) && SlotOk(inodes[..], slot, tree, p)
    {
      assert SlotOk(inodes[..], slot, tree, p);
    }

    method FindInodeInDir(dir: int, name: CString) returns (r: int)
      requires Valid() && 0 <= dir < inodes.Length && inodes[dir].valid
      ensures Found(r, Lookup(tree, inodes[dir].num, name))
    {
      SlotAt(dir);
      assert NodeOk(tree, inodes[dir].num);
      if inodes[dir].kind != FS_TYPE_DIR {
        assert inodes[dir].num in tree.kids ==> ListOk(tree, inodes[dir].num);
        return NULL;
      }
      var child := inodes[dir].child;
      ghost var ns := tree.kids[inodes[dir].num];
      while child != NULL
        invariant Chain(inodes[..], child, ns)
        invariant LookupIn(tree.nodes, ns, name) == Lookup(tree, inodes[dir].num, name)
        decreases |ns|
      {
        SlotAt(child);
        if inodes[child].name == name {
          return child;
        }
        ns := ns[1..];
        child := inodes[child].next;
      }
      return NULL;
    }

    /** The component loop shared by both branches of fs_resolve_path. */
    method Walk(start: int, path: CString) returns (node: int)
      requires Valid() && 0 <= start < inodes.Length && inodes[start].valid
      ensures Found(node, Descend(tree, inodes[start].num, Parse(path)))
    {
      node := start;
      SlotAt(start);
      var p := 0;
      ghost var goal := Descend(tree, inodes[start].num, Parse(path));
      assert path[0..] == path;
      while p < |path|
        invariant 0 <= p <= |path| && 0 <= node < inodes.Length && inodes[node].valid
        invariant At(node, inodes[node].num)
        invariant Descend(tree, inodes[node].num, Parse(path[p..])) == goal
        decreases |path| - p
      {
        var component;
        component, p := ScanComponent(path, p);
        if component == [] {
          break;
        }
        ghost var cs := [component] + Parse(path[p..]);
        assert cs[1..] == Parse(path[p..]);
        var next := NextNode(node, component);
        if next == NULL {
          return NULL;
        }
        node := next;
      }
      assert Parse([]) == [];
    }

    /** One component of a path. */
    method NextNode(node: int, component: CString) returns (r: int)
      requires Valid() && 0 <= node < inodes.Length && inodes[node].valid
      ensures Found(r, Step(tree, inodes[node].num, component))
    {
      SlotAt(node);
      if component == [DOT] {
        r := node;
      } else if component == [DOT, DOT] {
        assert RootOk(tree) && NumOk(inodes[..], slot, tree.root);
        if inodes[node].parent != NULL {
          r := inodes[node].parent;
          SlotAt(r);
          assert NodeOk(tree, inodes[r].num);
        } else {
          r := root;
        }
      } else {
        r := FindInodeInDir(node, component);
      }
    }

    lemma CurrentAndRoot()
      requires Valid()
      ensures At(cur, tree.cur) && At(root, tree.root)
    {
      assert RootOk(tree);
      assert NumOk(inodes[..], slot, tree.cur) && NumOk(inodes[..], slot, tree.root);
    }

    method ResolvePath(path: CString) returns (node: int)
      requires Valid()
      ensures Found(node, Resolve(tree, path))
    {
      CurrentAndRoot();
      if path == [] {
        return cur;
      }
      if path[0] == SLASH {
        assert SkipSlashes(path) == SkipSlashes(path[1..]);
        assert Parse(path) == Parse(path[1..]);
        if |path| == 1 {
          assert path[1..] == [];
          return root;
        }
        node := Walk(root, path[1..]);
      } else {
        if path == [DOT] {
          ParseOne(path);
          return cur;
        }
        if path == [DOT, DOT] {
          ParseOne(path);
          node := NextNode(cur, path);
          return;
        }
        node := Walk(cur, path);
      }
    }

    /** fs_get_current_path: names are copied backwards into a 256-byte buffer. */
    method GetCurrentPath() returns (path: CString)
      requires Valid()
      ensures path == PrintedPath(tree)
    {
      CurrentAndRoot();
      if cur == root {
        return [SLASH];
      }
      var temp := new byte[MAX_PATH_LENGTH](i => 0);
      var pos := PrintNames(temp);
      if pos < 0 {
        path := [SLASH];
      } else {
        path := temp[pos..MAX_PATH_LENGTH - 1];
      }
    }

    /** The loop of fs_get_current_path: ends negative exactly when the path does not fit. */
    method PrintNames(temp: array<byte>) returns (pos: int)
      requires Valid() && temp.Length == MAX_PATH_LENGTH && cur != root
      modifies temp
      ensures var full := Join(PathTo(tree, tree.cur));
        && full != []
        && (if |full| < MAX_PATH_LENGTH
            then 0 <= pos == MAX_PATH_LENGTH - 1 - |full| && temp[pos..MAX_PATH_LENGTH - 1] == full
            else pos < 0)
    {
      CurrentAndRoot();
      var node := cur;
      pos := MAX_PATH_LENGTH - 1;
      ghost var n, rest: seq<CString> := tree.cur, [];
      ghost var full := PathTo(tree, tree.cur);
      assert full == full + rest;
      while node != root
        invariant Valid() && At(node, n)
        invariant full == PathTo(tree, n) + rest && (rest == [] ==> node == cur)
        invariant pos == MAX_PATH_LENGTH - 1 - |Join(rest)| >= -1
        invariant pos >= 0 ==> temp[pos..MAX_PATH_LENGTH - 1] == Join(rest)
        decreases n
      {
        ParentAt(node, n);
        var name := inodes[node].name;
        ghost var parent := tree.nodes[n].parent;
        JoinSplit(PathTo(tree, parent), name, rest);
        PathStep(tree, n, rest);
        pos := pos - |name|;
        if pos < 0 {
          return;
        }
        pos := PutName(temp, pos, name, Join(rest));
        rest := [name] + rest;
        node := inodes[node].parent;
        n := parent;
      }
      assert PathTo(tree, n) + rest == rest;
    }

    /** Going up one level from a node other than the root. */
    lemma ParentAt(node: int, n: nat)
      requires Valid() && At(node, n) && node != root
      ensures n != tree.root && inodes[node].name == tree.nodes[n].name
      ensures At(inodes[node].parent, tree.nodes[n].parent) && tree.nodes[n].parent < n
    {
      SlotAt(node);
      assert NodeOk(tree, n) && ListOk(tree, tree.nodes[n].parent) && NodeOk(tree, tree.nodes[n].parent);
      SlotAt(inodes[node].parent);
    }

    // --------------------------------------------------------------- creation

    /** fs_create_inode in the current directory; `memory` says whether kmalloc can serve a file buffer. */
    method CreateInode(name: CString, kind: nat, memory: bool) returns (node: int)
      requires Valid() && nextInode + 1 < WORD
      requires kind == FS_TYPE_FILE || kind == FS_TYPE_DIR
      requires SLASH !in name
      modifies this`nextInode, this`tree, this`slot, inodes
      ensures old(tree.cur in tree.kids)
      ensures Valid() && (tree, node != NULL) == Create(old(tree), name, kind, memory)
      ensures node != NULL ==> At(node, old(tree).next)
    {
      CurrentAndRoot();
      CurrentIsDirectory(tree);
      NextIsFresh(tree);
      var i := FreeInode();
      if i == inodes.Length {
        return NULL;
      }
      CreateKeeps(Abs(), name, kind, memory);
      node := FillInode(i, name, kind, memory);
    }

    /** The rest of fs_create_inode, with free slot `i`. */
    method FillInode(i: int, name: CString, kind: nat, memory: bool) returns (node: int)
      requires Represents(inodes[..], slot, tree) && WellFormed(tree) && At(cur, tree.cur) && nextInode == tree.next
      requires 0 <= i < inodes.Length && !inodes[i].valid && tree.cur in tree.kids && |tree.nodes| < MAX_INODES
      requires kind == FS_TYPE_FILE || kind == FS_TYPE_DIR
      modifies this`nextInode, this`tree, this`slot, inodes
      ensures Represents(inodes[..], slot, tree) && nextInode == old(nextInode) + 1
      ensures (tree, node != NULL) == Create(old(tree), name, kind, memory)
      ensures slot == if node != NULL then old(slot)[old(tree.next) := i] else old(slot)
      ensures node != NULL ==> node == i && At(i, old(tree.next))
    {
      ghost var t0 := inodes[..];
      var x := Inode(Truncated(name), kind, 0, [], NULL, true, cur, NULL, nextInode);
      nextInode := nextInode + 1;
      if kind == FS_TYPE_FILE {
        if !memory {
          inodes[i] := x.(valid := false);
          BurnRepresented(t0, inodes[..], slot, tree, i);
          tree := tree.(next := tree.next + 1);
          return NULL;
        }
        x := x.(bytes := seq(MAX_FILE_SIZE, k => 0));
      }
      LinkInode(i, x, name, kind);
      node := i;
    }

    /** Puts a new inode in free slot `i`, at the front of the current directory's list. */
    method LinkInode(i: int, x: Inode, ghost name: CString, ghost kind: nat)
      requires Represents(inodes[..], slot, tree) && WellFormed(tree) && At(cur, tree.cur)
      requires 0 <= i < inodes.Length && !inodes[i].valid && tree.cur in tree.kids
      requires kind == FS_TYPE_FILE || kind == FS_TYPE_DIR
      requires NewInode(x, name, kind, cur, tree.next)
      modifies this`tree, this`slot, inodes
      ensures Represents(inodes[..], slot, tree)
      ensures tree == Insert(old(tree), name, kind, old(tree.cur)) && slot == old(slot)[old(tree.next) := i]
      ensures At(i, old(tree.next))
    {
      ghost var t0 := inodes[..];
      InsertRepresented(t0, slot, tree, i, tree.cur, x, name, kind);
      inodes[i] := x.(next := inodes[cur].child);
      inodes[cur] := inodes[cur].(child := i);
      assert inodes[..] == Linked(t0, i, cur, x);
      slot := slot[tree.next := i];
      tree := Insert(tree, name, kind, tree.cur);
      assert NumOk(inodes[..], slot, x.num);
    }

    /** The scan for a free slot. */
    method FreeInode() returns (i: int)
      requires Valid()
      ensures 0 <= i <= inodes.Length && (i < inodes.Length <==> |tree.nodes| < MAX_INODES)
      ensures i < inodes.Length ==> !inodes[i].valid
    {
      FreeSlotIffRoom(inodes[..], slot, tree);
      i := 0;
      while i < inodes.Length && inodes[i].valid
        invariant 0 <= i <= inodes.Length
        invariant forall j | 0 <= j < i :: inodes[..][j].valid
      {
        i := i + 1;
      }
      assert i < inodes.Length ==> !inodes[..][i].valid;
    }

    method LastName(path: CString) returns (name: CString)
      ensures name == LastComponent(path)
    {
      var p, last := 0, 0;
      while p < |path|
        invariant 0 <= last <= p <= |path|
        invariant SLASH !in path[last..p]
        invariant last > 0 ==> path[last - 1] == SLASH
      {
        if path[p] == SLASH {
          last := p + 1;
        }
        p := p + 1;
      }
      LastComponentIs(path, last);
      name := path[last..];
    }

    method MakeDirectory(path: CString) returns (r: int)
      requires Valid() && nextInode + 1 < WORD
      modifies this`nextInode, this`tree, this`slot, inodes
      ensures old(tree.cur in tree.kids)
      ensures Valid() && (Abs(), r) == (Mkdir(old(Abs()), path).fs, Mkdir(old(Abs()), path).result)
    {
      CurrentIsDirectory(tree);
      var name := LastName(path);
      CurrentAndRoot();
      var twin := FindInodeInDir(cur, name);
      if twin != NULL {
        return -1;
      }
      var node := CreateInode(name, FS_TYPE_DIR, true);
      r := if node != NULL then 0 else -1;
    }

    // ------------------------------------------------------------- descriptors

    method OpenFile(path: CString, mode: nat, memory: bool) returns (fd: int)
      requires Valid() && nextInode + 1 < WORD
      modifies this`nextInode, this`tree, this`slot, inodes, fds
      ensures old(tree.cur in tree.kids)
      ensures Valid() && (Abs(), fd) ==
        (Open(old(Abs()), path, mode, memory).fs, Open(old(Abs()), path, mode, memory).result)
    {
      CurrentIsDirectory(tree);
      var node := ResolvePath(path);
      if node == NULL && HasMode(mode, FS_MODE_WRITE) {
        var name := LastName(path);
        node := CreateInode(name, FS_TYPE_FILE, memory);
        if node == NULL {
          return -1;
        }
      }
      if node == NULL {
        return -1;
      }
      fd := AttachFd(node, mode);
    }

    /** The second half of fs_open: a descriptor for the file in slot `node`. */
    method AttachFd(node: int, mode: nat) returns (fd: int)
      requires Valid() && 0 <= node < inodes.Length && inodes[node].valid
      modifies fds
      ensures inodes[node].num in tree.nodes
      ensures Valid() && (Abs(), fd) ==
        (Attach(old(Abs()), inodes[node].num, mode).fs, Attach(old(Abs()), inodes[node].num, mode).result)
    {
      SlotAt(node);
      ghost var s := Abs();
      AttachKeeps(s, inodes[node].num, mode);
      if inodes[node].kind != FS_TYPE_FILE {
        return -1;
      }
      fd := 0;
      while fd < fds.Length && fds[fd].valid
        invariant 0 <= fd <= fds.Length
        invariant forall j | 0 <= j < fd :: fds[j].valid
      {
        fd := fd + 1;
      }
      assert fd == FreeFd(s.fds) by {
        assert forall j | 0 <= j < fd :: s.fds[j].valid;
      }
      if fd == fds.Length {
        return -1;
      }
      var size := inodes[node].size;
      fds[fd] := Fd(inodes[node].num, if HasMode(mode, FS_MODE_APPEND) then size else 0, mode, size, true);
      assert Abs() == Attach(s, inodes[node].num, mode).fs;
    }

    method CloseFile(fd: int) returns (r: int)
      requires Valid()
      modifies fds
      ensures Valid() && (Abs(), r) == (Close(old(Abs()), fd).fs, Close(old(Abs()), fd).result)
    {
      ghost var s := Abs();
      DescriptorOpKeeps(s, OpClose(fd));
      if fd < 0 || fd >= fds.Length || !fds[fd].valid {
        return -1;
      }
      fds[fd] := fds[fd].(valid := false);
      r := 0;
      assert Abs() == Close(s, fd).fs;
    }

    /** The linear search of fs_read, fs_write and find_inode_by_num. */
    method FindInodeByNum(n: nat) returns (node: int)
      requires Valid()
      ensures Found(node, if n in tree.nodes then Some(n) else None)
    {
      node := 0;
      while node < inodes.Length && !(inodes[node].valid && inodes[node].num == n)
        invariant 0 <= node <= inodes.Length
        invariant forall j | 0 <= j < node :: !(inodes[j].valid && inodes[j].num == n)
      {
        node := node + 1;
      }
      if node == inodes.Length {
        node := NULL;
        assert n !in tree.nodes by { NoSlotNoInode(inodes[..], slot, tree, n); }
      } else {
        SlotAt(node);
      }
    }

    /** The checks fs_read and fs_write share: descriptor, mode, file; NULL if one fails. */
    method Locate(fd: int, bit: nat) returns (node: int)
      requires Valid() && IsModeBit(bit)
      ensures node != NULL <==> Usable(Abs(), fd, bit)
      ensures node != NULL ==>
        && At(node, fds[fd].inode) && inodes[node].kind == FS_TYPE_FILE && BufferOk(inodes[node])
        && tree.nodes[fds[fd].inode].bytes == inodes[node].bytes[..inodes[node].size]
        && fds[fd].position <= inodes[node].size && fds[fd].size <= inodes[node].size
    {
      if fd < 0 || fd >= fds.Length || !fds[fd].valid || !HasMode(fds[fd].mode, bit) {
        return NULL;
      }
      node := FindInodeByNum(fds[fd].inode);
      if node == NULL {
        return;
      }
      SlotAt(node);
      assert FdOk(tree, fds[..][fd]);
      if inodes[node].kind != FS_TYPE_FILE {
        return NULL;
      }
    }

    method ReadFile(fd: int, size: nat) returns (r: int, data: seq<byte>)
      requires Valid()
      modifies fds
      ensures Valid() && Out(Abs(), r, data) == Read(old(Abs()), fd, size)
    {
      ghost var s := Abs();
      DescriptorOpKeeps(s, OpRead(fd, size));
      var node := Locate(fd, FS_MODE_READ);
      if node == NULL {
        return -1, [];
      }
      var position := fds[fd].position;
      var available := Wrapped(inodes[node].size - position);
      assert available == inodes[node].size - position;
      var n := Min(size, available);
      data := inodes[node].bytes[position..position + n];
      PrefixSlice(inodes[node].bytes, inodes[node].size, position, n);
      if n == 0 {
        assert s.fds[fd := s.fds[fd]] == s.fds;
        return 0, data;
      }
      fds[fd] := fds[fd].(position := position + n);
      r := n;
      assert Abs() == Read(s, fd, size).fs;
    }

    method WriteFile(fd: int, data: seq<byte>) returns (r: int)
      requires Valid()
      requires 0 <= fd < fds.Length ==> fds[fd].position + |data| < WORD
      modifies this`tree, inodes, fds
      ensures Valid() && (Abs(), r) == (Write(old(Abs()), fd, data).fs, Write(old(Abs()), fd, data).result)
    {
      ghost var s := Abs();
      WriteKeeps(s, fd, data);
      var node := Locate(fd, FS_MODE_WRITE);
      if node == NULL {
        return -1;
      }
      var f := fds[fd];
      var n := |data|;
      var newSize := Wrapped(f.position + n);
      assert newSize == f.position + n;
      if newSize > MAX_FILE_SIZE {
        n := MAX_FILE_SIZE - f.position;
        newSize := MAX_FILE_SIZE;
      }
      var grown := newSize > inodes[node].size;
      Store(node, f.position, data[..n]);
      fds[fd] := f.(position := f.position + n, size := if grown then newSize else f.size);
      r := n;
      WriteIs(s, fd, data, n, tree);
      assert Abs() == Write(s, fd, data).fs;
    }

    /** Copies bytes into the buffer of slot `node` and grows its size to cover them. */
    method Store(node: int, position: nat, part: seq<byte>)
      requires Represents(inodes[..], slot, tree)
      requires 0 <= node < inodes.Length && inodes[node].valid && inodes[node].kind == FS_TYPE_FILE
      requires position <= inodes[node].size && position + |part| <= MAX_FILE_SIZE
      modifies this`tree, inodes
      ensures Represents(inodes[..], slot, tree)
      ensures old(inodes[node].num in tree.nodes && |tree.nodes[inodes[node].num].bytes| == inodes[node].size)
      ensures var n := old(inodes[node].num);
        tree == SetBytes(old(tree), n, Splice(old(tree).nodes[n].bytes, position, part))
    {
      ghost var t := inodes[..];
      assert SlotOk(t, slot, tree, node);
      var x := inodes[node];
      var bytes := x.bytes[..position] + part + x.bytes[position + |part|..];
      var size := if position + |part| > x.size then position + |part| else x.size;
      BufferSplice(x, position, part, bytes, size);
      SetBytesRepresented(t, slot, tree, node, bytes, size);
      inodes[node] := x.(bytes := bytes, size := size);
      assert inodes[..] == t[node := x.(bytes := bytes, size := size)];
      tree := SetBytes(tree, x.num, bytes[..size]);
    }

    method SeekFile(fd: int, offset: int, whence: nat) returns (r: int)
      requires Valid()
      modifies fds
      ensures Valid() && (Abs(), r) ==
        (Seek(old(Abs()), fd, offset, whence).fs, Seek(old(Abs()), fd, offset, whence).result)
    {
      ghost var s := Abs();
      DescriptorOpKeeps(s, OpSeek(fd, offset, whence));
      if fd < 0 || fd >= fds.Length || !fds[fd].valid {
        return -1;
      }
      var position;
      if whence == 0 {
        position := Wrapped(offset);
      } else if whence == 1 {
        position := Wrapped(fds[fd].position + offset);
      } else if whence == 2 {
        position := Wrapped(fds[fd].size + offset);
      } else {
        return -1;
      }
      if position > fds[fd].size {
        position := fds[fd].size;
      }
      fds[fd] := fds[fd].(position := position);
      r := position;
      assert Abs() == Seek(s, fd, offset, whence).fs;
    }

    // ----------------------------------------------------------------- removal

    /** fs_remove; taking away the current directory is not refused, and leaves `cur` dangling. */
    method RemovePath(path: CString) returns (r: int)
      requires Valid()
      modifies this`tree, this`slot, inodes
      ensures Represents(inodes[..], slot, tree)
      ensures (Abs(), r) == (Remove(old(Abs()), path).fs, Remove(old(Abs()), path).result)
      ensures r == 0 && old(Resolve(tree, path) == Some(tree.cur)) <==> !Valid()
    {
      ghost var s := Abs();
      if Resolve(tree, path) != Some(tree.cur) {
        RemoveKeeps(s, path);
      }
      CurrentAndRoot();
      var node := ResolvePath(path);
      if node == NULL || node == root {
        return -1;
      }
      SlotAt(node);
      assert NodeOk(tree, inodes[node].num);
      assert inodes[node].num in tree.kids ==> ListOk(tree, inodes[node].num);
      if inodes[node].kind == FS_TYPE_DIR && inodes[node].child != NULL {
        return -1;
      }
      RemoveNode(node);
      r := 0;
    }

    /** Unlinks slot `node` and frees it. */
    method RemoveNode(node: int)
      requires Valid() && 0 <= node < inodes.Length && inodes[node].valid && node != root
      requires inodes[node].num in tree.kids ==> tree.kids[inodes[node].num] == []
      modifies this`tree, this`slot, inodes
      ensures Represents(inodes[..], slot, tree)
      ensures old(inodes[node].num in tree.nodes)
      ensures var n := old(inodes[node].num); tree == Delete(old(tree), n) && slot == old(slot) - {n}
    {
      SlotAt(node);
      ghost var n := inodes[node].num;
      ghost var t0 := inodes[..];
      Unlink(node);
      ghost var t1 := inodes[..];
      DeleteRepresented(t0, t1, slot, tree, n);
      inodes[node] := inodes[node].(valid := false);
      assert inodes[..] == t1[node := t1[node].(valid := false)];
      slot := slot - {n};
      tree := Delete(tree, n);
    }

    /** Takes slot `node` off its parent's list. */
    method Unlink(node: int)
      requires Valid() && 0 <= node < inodes.Length && inodes[node].valid && node != root
      modifies inodes
      ensures Represents(old(inodes[..]), slot, tree) && old(inodes[node]).num in tree.nodes
      ensures Unlinked(old(inodes[..]), inodes[..], slot, tree, old(inodes[node]).num)
    {
      SlotAt(node);
      CurrentAndRoot();
      ghost var t := inodes[..];
      ghost var n := t[node].num;
      ParentSlot(t, slot, tree, n);
      var d := inodes[node].parent;
      ghost var ns := tree.kids[t[d].num];
      var child := inodes[d].child;
      if child == node {
        UnlinkFirst(t, slot, tree, n);
        inodes[d] := inodes[d].(child := inodes[node].next);
        assert inodes[..] == t[d := t[d].(child := t[node].next)];
      } else {
        ghost var k := 0;
        assert ns[0..] == ns;
        SlotOfNum(child, ns, node, n);
        while child != NULL && inodes[child].next != node
          invariant inodes[..] == t
          invariant 0 <= k < |ns| && n in ns[k..] && ns[k] != n
          invariant Chain(t, child, ns[k..])
          decreases |ns| - k
        {
          assert ns[k..][1..] == ns[k + 1..];
          assert ns[k..][0] == ns[k];
          assert n in ns[k + 1..];
          child := inodes[child].next;
          k := k + 1;
          SlotOfNum(child, ns[k..], node, n);
        }
        assert ns[k..][1..] == ns[k + 1..] && ns[k..][0] == ns[k];
        assert n in ns[k + 1..];
        assert Chain(t, node, ns[k + 1..]);
        UnlinkLater(t, slot, tree, n, child, k);
        inodes[child] := inodes[child].(next := inodes[node].next);
        assert inodes[..] == t[child := t[child].(next := t[node].next)];
      }
    }

    lemma SlotOfNum(p: int, ns: seq<nat>, node: int, n: nat)
      requires Valid() && At(node, n) && Chain(inodes[..], p, ns) && ns != []
      ensures ns[0] == n <==> p == node
    {
      SlotAt(p);
    }

    /** cd: resolve, then fs_set_current_dir. */
    method ChangeDirectory(path: CString) returns (r: int)
      requires Valid()
      modifies this`cur, this`tree
      ensures Valid() && (Abs(), r) == (Chdir(old(Abs()), path).fs, Chdir(old(Abs()), path).result)
    {
      ChdirKeeps(Abs(), path);
      var node := ResolvePath(path);
      if node == NULL {
        return -1;
      }
      SlotAt(node);
      if inodes[node].kind != FS_TYPE_DIR {
        return -1;
      }
      cur := node;
      ghost var n := inodes[node].num;
      ChdirRepresented(inodes[..], slot, tree, n);
      tree := tree.(cur := n);
      r := 0;
    }
  }

  /** Copies a name to offset `pos` and a slash before it, if there is room for the slash. */
  method PutName(temp: array<byte>, pos: nat, name: CString, ghost tail: CString) returns (p: int)
    requires temp.Length == MAX_PATH_LENGTH && pos + |name| + |tail| == MAX_PATH_LENGTH - 1
    requires temp[pos + |name|..MAX_PATH_LENGTH - 1] == tail
    modifies temp
    ensures p == pos - 1
    ensures p >= 0 ==> temp[p..MAX_PATH_LENGTH - 1] == [SLASH] + name + tail
  {
    forall k | 0 <= k < |name| {
      temp[pos + k] := name[k];
    }
    assert temp[pos + |name|..MAX_PATH_LENGTH - 1] == tail;
    assert temp[pos..pos + |name|] == name;
    p := pos - 1;
    if p >= 0 {
      temp[p] := SLASH;
      assert temp[p..MAX_PATH_LENGTH - 1] ==
        [temp[p]] + temp[pos..pos + |name|] + temp[pos + |name|..MAX_PATH_LENGTH - 1];
    }
  }

  lemma JoinSplit(cs: seq<CString>, c: CString, ds: seq<CString>)
    ensures |Join(cs + ([c] + ds))| == |Join(cs)| + 1 + |c| + |Join(ds)|
    ensures Join([c] + ds) == [SLASH] + c + Join(ds)
    decreases |cs|
  {
    assert ([c] + ds)[1..] == ds;
    if cs == [] {
      assert cs + ([c] + ds) == [c] + ds;
    } else {
      assert (cs + ([c] + ds))[1..] == cs[1..] + ([c] + ds);
      JoinSplit(cs[1..], c, ds);
    }
  }

  lemma PathStep(t: Tree, n: nat, rest: seq<CString>)
    requires WellFormed(t) && n in t.nodes && n != t.root
    ensures t.nodes[n].parent in t.nodes
    ensures PathTo(t, n) + rest == PathTo(t, t.nodes[n].parent) + ([t.nodes[n].name] + rest)
  {
    assert NodeOk(t, n) && ListOk(t, t.nodes[n].parent) && NodeOk(t, t.nodes[n].parent);
    assert PathTo(t, n) == PathTo(t, t.nodes[n].parent) + [t.nodes[n].name];
  }

  lemma LastComponentIs(path: CString, last: nat)
    requires last <= |path| && SLASH !in path[last..]
    requires last > 0 ==> path[last - 1] == SLASH
    ensures path[last..] == LastComponent(path)
  {
    var r := LastComponent(path);
    assert r == path[|path| - |r|..];
  }

  lemma PrefixSlice(b: seq<byte>, size: nat, p: nat, n: nat)
    requires p + n <= size <= |b|
    ensures b[..size][p..p + n] == b[p..p + n]
  {
  }

  /** Overwriting part of a buffer splices the contents and keeps the zero tail. */
  lemma BufferSplice(x: Inode, p: nat, part: seq<byte>, bytes: seq<byte>, size: nat)
    requires BufferOk(x) && p <= x.size && p + |part| <= MAX_FILE_SIZE
    requires bytes == x.bytes[..p] + part + x.bytes[p + |part|..]
    requires size == if p + |part| > x.size then p + |part| else x.size
    ensures BufferOk(x.(bytes := bytes, size := size))
    ensures bytes[..size] == Splice(x.bytes[..x.size], p, part)
  {
  }

  lemma BurnRepresented(t: seq<Inode>, u: seq<Inode>, slot: map<nat, int>, tree: Tree, i: int)
    requires Represents(t, slot, tree) && 0 <= i < |t| == |u| && !t[i].valid
    requires u == t[i := u[i]] && !u[i].valid
    ensures Represents(u, slot, tree.(next := tree.next + 1))
  {
    var tree2 := tree.(next := tree.next + 1);
    forall j | 0 <= j < |u| && u[j].valid ensures SlotOk(u, slot, tree2, j) {
      assert SlotOk(t, slot, tree, j);
      assert ParentNum(u, j) == ParentNum(t, j);
      if t[j].kind == FS_TYPE_DIR { ChainFrame(t, u, t[j].child, tree.kids[t[j].num]); }
    }
    forall n | n in tree2.nodes ensures NumOk(u, slot, n) { assert NumOk(t, slot, n); }
  }

  lemma NoSlotNoInode(t: seq<Inode>, slot: map<nat, int>, tree: Tree, n: nat)
    requires Represents(t, slot, tree)
    requires forall j | 0 <= j < |t| :: !(t[j].valid && t[j].num == n)
    ensures n !in tree.nodes
  {
    assert !NumOk(t, slot, n);
  }

  lemma ChdirRepresented(t: seq<Inode>, slot: map<nat, int>, tree: Tree, n: nat)
    requires Represents(t, slot, tree)
    ensures Represents(t, slot, tree.(cur := n))
  {
    forall j | 0 <= j < |t| && t[j].valid ensures SlotOk(t, slot, tree.(cur := n), j) {
      assert SlotOk(t, slot, tree, j);
    }
    forall m | m in tree.nodes ensures NumOk(t, slot, m) { assert NumOk(t, slot, m); }
  }
}
