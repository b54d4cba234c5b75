/**
 The file-system calls of kernel/fs/fs.c as steps on the abstract tree and the
 descriptor table, and what every run of them keeps.
 */
module FsFiles {
  import opened Common
  import opened FsTree
  import opened FsPath

  const MAX_FILE_DESCRIPTORS := 64
  const FS_MODE_READ := 1
  const FS_MODE_WRITE := 2
  const FS_MODE_APPEND := 4

  datatype Fd = Fd(inode: nat, position: nat, mode: nat, size: nat, valid: bool)

  datatype Fs = Fs(tree: Tree, fds: seq<Fd>)

  /** The new state, the return value and, for a read, the bytes delivered. */
  datatype Out = Out(fs: Fs, result: int, data: seq<byte>)

  predicate IsModeBit(bit: nat)
  {
    bit == FS_MODE_READ || bit == FS_MODE_WRITE || bit == FS_MODE_APPEND
  }

  /** mode & bit, for the three mode bits 1, 2 and 4. */
  predicate HasMode(mode: nat, bit: nat)
    requires IsModeBit(bit)
  {
    if bit == FS_MODE_READ then mode % 2 == 1
    else if bit == FS_MODE_WRITE then mode / 2 % 2 == 1
    else mode / 4 % 2 == 1
  }

  /** The three lowest bits of a mode, whatever is above them. */
  lemma ModeBits(read: nat, write: nat, append: nat, rest: nat)
    requires read < 2 && write < 2 && append < 2
    ensures var mode := read + 2 * write + 4 * append + 8 * rest;
      && (HasMode(mode, FS_MODE_READ) <==> read == 1) && (HasMode(mode, FS_MODE_WRITE) <==> write == 1)
      && (HasMode(mode, FS_MODE_APPEND) <==> append == 1)
  {
    var mode := read + 2 * write + 4 * append + 8 * rest;
    var half, quarter := write + 2 * append + 4 * rest, append + 2 * rest;
    LowBit(mode, read, half);
    LowBit(half, write, quarter);
    LowBit(quarter, append, rest);
    assert mode / 4 == quarter;
  }

  lemma LowBit(x: nat, bit: nat, rest: nat)
    requires bit < 2 && x == bit + 2 * rest
    ensures x % 2 == bit && x / 2 == rest
  {
  }

  // ---------------------------------------------------------------- invariant

  /** A descriptor of a live file never points past the end of that file. */
  ghost predicate FdOk(t: Tree, f: Fd)
  {
    f.valid ==>
      && 1 <= f.inode < t.next
      && f.position <= MAX_FILE_SIZE && f.size <= MAX_FILE_SIZE
      && (f.inode in t.nodes ==>
            && t.nodes[f.inode].kind == FS_TYPE_FILE
            && f.position <= |t.nodes[f.inode].bytes|
            && f.size <= |t.nodes[f.inode].bytes|)
  }

  ghost predicate Inv(s: Fs)
  {
    && WellFormed(s.tree)
    && |s.fds| == MAX_FILE_DESCRIPTORS
    && (forall k {:trigger FdOk(s.tree, s.fds[k])} | 0 <= k < |s.fds| :: FdOk(s.tree, s.fds[k]))
  }

  function FreshFs(): (s: Fs)
    ensures Inv(s)
  {
    Fs(Fresh(), seq(MAX_FILE_DESCRIPTORS, i => Fd(0, 0, 0, 0, false)))
  }

  // -------------------------------------------------------------------- calls

  /** First unused descriptor, or the table size. */
  function FreeFd(fds: seq<Fd>): (k: nat)
    ensures k <= |fds|
    ensures k < |fds| ==> !fds[k].valid
    ensures forall j | 0 <= j < k :: fds[j].valid
  {
    if fds == [] || !fds[0].valid then 0 else 1 + FreeFd(fds[1..])
  }

  /**
   fs_create_inode: fails when the table is full, and when no memory is left for
   a file; the second failure still uses up an inode number.
   */
  function Create(t: Tree, name: CString, kind: nat, memory: bool): (Tree, bool)
    requires t.cur in t.kids
  {
    if |t.nodes| >= MAX_INODES then (t, false)
    else if kind == FS_TYPE_FILE && !memory then (t.(next := t.next + 1), false)
    else (Insert(t, name, kind, t.cur), true)
  }

  function Mkdir(s: Fs, path: CString): Out
    requires s.tree.cur in s.tree.kids
  {
    var name := LastComponent(path);
    if Lookup(s.tree, s.tree.cur, name).Some? then Out(s, -1, [])
    else
      var (t, ok) := Create(s.tree, name, FS_TYPE_DIR, true);
      Out(s.(tree := t), if ok then 0 else -1, [])
  }

  /** A descriptor on inode `n`, if one is free. */
  function Attach(s: Fs, n: nat, mode: nat): Out
    requires n in s.tree.nodes
  {
    var k := FreeFd(s.fds);
    var size := |s.tree.nodes[n].bytes|;
    if s.tree.nodes[n].kind != FS_TYPE_FILE || k == |s.fds| then Out(s, -1, [])
    else Out(s.(fds := s.fds[k := Fd(n, if HasMode(mode, FS_MODE_APPEND) then size else 0, mode, size, true)]), k, [])
  }

  function Open(s: Fs, path: CString, mode: nat, memory: bool): Out
    requires s.tree.cur in s.tree.kids
  {
    match Resolve(s.tree, path)
    case Some(n) => if n in s.tree.nodes then Attach(s, n, mode) else Out(s, -1, [])
    case None =>
      if HasMode(mode, FS_MODE_WRITE) then
        var (t, ok) := Create(s.tree, LastComponent(path), FS_TYPE_FILE, memory);
        if ok then Attach(s.(tree := t), s.tree.next, mode) else Out(s.(tree := t), -1, [])
      else Out(s, -1, [])
  }

  predicate IsOpen(s: Fs, fd: int)
  {
    0 <= fd < |s.fds| && s.fds[fd].valid
  }

  function Close(s: Fs, fd: int): Out
  {
    if IsOpen(s, fd) then Out(s.(fds := s.fds[fd := s.fds[fd].(valid := false)]), 0, [])
    else Out(s, -1, [])
  }

  /** An open descriptor with the wanted mode on a file that still exists. */
  predicate Usable(s: Fs, fd: int, bit: nat)
    requires IsModeBit(bit)
  {
    && IsOpen(s, fd) && HasMode(s.fds[fd].mode, bit)
    && s.fds[fd].inode in s.tree.nodes
    && s.tree.nodes[s.fds[fd].inode].kind == FS_TYPE_FILE
  }

  function Min(a: int, b: int): int { if a < b then a else b }

  function Read(s: Fs, fd: int, size: nat): Out
    requires Inv(s)
  {
    if !Usable(s, fd, FS_MODE_READ) then Out(s, -1, [])
    else
      var f := s.fds[fd];
      assert FdOk(s.tree, f);
      var bytes := s.tree.nodes[f.inode].bytes;
      var n := Min(size, |bytes| - f.position);
      Out(s.(fds := s.fds[fd := f.(position := f.position + n)]), n, bytes[f.position..f.position + n])
  }

  /** `data` laid over `was` from offset `p`. */
  function Splice(was: seq<byte>, p: nat, data: seq<byte>): (r: seq<byte>)
    requires p <= |was|
    ensures |r| == if p + |data| > |was| then p + |data| else |was|
    ensures r[..p] == was[..p] && r[p..p + |data|] == data
    ensures forall i | p + |data| <= i < |r| :: r[i] == was[i]
  {
    was[..p] + data + (if p + |data| < |was| then was[p + |data|..] else [])
  }

  /** How many bytes fs_write copies, in 32-bit arithmetic. */
  function WriteLength(position: nat, size: nat): (r: nat)
    requires position <= MAX_FILE_SIZE
  {
    if (position + size) % WORD > MAX_FILE_SIZE then MAX_FILE_SIZE - position else size
  }

  /** The copy stays inside the 64 KB buffer exactly when position + size does not wrap. */
  lemma WriteStaysInBuffer(position: nat, size: nat)
    requires position <= MAX_FILE_SIZE && size < WORD
    ensures position + WriteLength(position, size) <= MAX_FILE_SIZE <==> position + size < WORD
    ensures position + size < WORD ==> WriteLength(position, size) == Min(size, MAX_FILE_SIZE - position)
  {
    if position + size >= WORD {
      assert (position + size) % WORD == position + size - WORD;
    }
  }

  function Write(s: Fs, fd: int, data: seq<byte>): Out
    requires Inv(s)
  {
    if !Usable(s, fd, FS_MODE_WRITE) then Out(s, -1, [])
    else
      var f := s.fds[fd];
      assert FdOk(s.tree, f);
      var was := s.tree.nodes[f.inode].bytes;
      var n := Min(|data|, MAX_FILE_SIZE - f.position);
      var bytes := Splice(was, f.position, data[..n]);
      var grown := |bytes| > |was|;
      Out(Fs(SetBytes(s.tree, f.inode, bytes),
             s.fds[fd := f.(position := f.position + n, size := if grown then |bytes| else f.size)]), n, [])
  }

  /** Where fs_seek goes, in 32-bit arithmetic; None for an unknown `whence`. */
  function SeekTarget(f: Fd, offset: int, whence: nat): Option<nat>
  {
    if whence == 0 then Some(Wrapped(offset))
    else if whence == 1 then Some(Wrapped(f.position + offset))
    else if whence == 2 then Some(Wrapped(f.size + offset))
    else None
  }

  function Seek(s: Fs, fd: int, offset: int, whence: nat): Out
  {
    if !IsOpen(s, fd) then Out(s, -1, [])
    else match SeekTarget(s.fds[fd], offset, whence)
      case None => Out(s, -1, [])
      case Some(p) =>
        var q := Min(p, s.fds[fd].size);
        Out(s.(fds := s.fds[fd := s.fds[fd].(position := q)]), q, [])
  }

  function Remove(s: Fs, path: CString): Out
  {
    match Resolve(s.tree, path)
    case None => Out(s, -1, [])
    case Some(n) =>
      if n == s.tree.root || n !in s.tree.nodes || (n in s.tree.kids && s.tree.kids[n] != []) then Out(s, -1, [])
      else Out(s.(tree := Delete(s.tree, n)), 0, [])
  }

  /** cd: fs_resolve_path followed by fs_set_current_dir. */
  function Chdir(s: Fs, path: CString): Out
  {
    match Resolve(s.tree, path)
    case None => Out(s, -1, [])
    case Some(n) =>
      if n in s.tree.nodes && s.tree.nodes[n].kind == FS_TYPE_DIR then Out(s.(tree := s.tree.(cur := n)), 0, [])
      else Out(s, -1, [])
  }

  // --------------------------------------------------------------------- runs

  datatype Op =
    | OpMkdir(path: CString)
    | OpOpen(path: CString, mode: nat, memory: bool)
    | OpClose(fd: int)
    | OpRead(fd: int, size: nat)
    | OpWrite(fd: int, data: seq<byte>)
    | OpSeek(fd: int, offset: int, whence: nat)
    | OpRemove(path: CString)
    | OpChdir(path: CString)

  /**
   Everything but removing the current directory, a write whose end does not fit in 32
   bits, and a call that may use up the last inode number.
   */
  ghost predicate Legal(s: Fs, op: Op)
  {
    && (op.OpRemove? ==> Resolve(s.tree, op.path) != Some(s.tree.cur))
    && (op.OpWrite? && IsOpen(s, op.fd) ==> s.fds[op.fd].position + |op.data| < WORD)
    && (op.OpMkdir? || op.OpOpen? ==> s.tree.next + 1 < WORD)
  }

  function Apply(s: Fs, op: Op): Out
    requires Inv(s)
  {
    CurrentIsDirectory(s.tree);
    match op
    case OpMkdir(path) => Mkdir(s, path)
    case OpOpen(path, mode, memory) => Open(s, path, mode, memory)
    case OpClose(fd) => Close(s, fd)
    case OpRead(fd, size) => Read(s, fd, size)
    case OpWrite(fd, data) => Write(s, fd, data)
    case OpSeek(fd, offset, whence) => Seek(s, fd, offset, whence)
    case OpRemove(path) => Remove(s, path)
    case OpChdir(path) => Chdir(s, path)
  }

  lemma CurrentIsDirectory(t: Tree)
    requires WellFormed(t)
    ensures t.cur in t.kids && t.root in t.kids
  {
    assert NodeOk(t, t.cur) && NodeOk(t, t.root);
  }

  /** The states a run passes through, each call legal where it is made. */
  ghost predicate Run(states: seq<Fs>, ops: seq<Op>)
  {
    && |states| == |ops| + 1
    && Inv(states[0])
    && forall i {:trigger StepAt(states, ops, i)} | 0 <= i < |ops| :: StepAt(states, ops, i)
  }

  ghost predicate StepAt(states: seq<Fs>, ops: seq<Op>, i: nat)
    requires i < |ops| && |states| == |ops| + 1
  {
    Advances(states[i], ops[i], states[i + 1])
  }

  ghost predicate Advances(s: Fs, op: Op, u: Fs)
  {
    Inv(s) ==> Legal(s, op) && u == Apply(s, op).fs
  }

  /** Inode number `n` stays unused once it is: numbers are never handed out twice. */
  ghost predicate Gone(t: Tree, n: nat)
  {
    n < t.next && n !in t.nodes
  }

  /** What one call keeps: the invariant, what an inode is, how much its file holds, and the death of removed inodes. */
  ghost predicate Kept(s: Fs, u: Fs)
  {
    && Inv(u)
    && s.tree.next <= u.tree.next && s.tree.root == u.tree.root
    && (forall n | Gone(s.tree, n) :: Gone(u.tree, n))
    && (forall n | n in s.tree.nodes && n in u.tree.nodes ::
          u.tree.nodes[n].(bytes := []) == s.tree.nodes[n].(bytes := [])
          && |s.tree.nodes[n].bytes| <= |u.tree.nodes[n].bytes|)
  }

  /** The call writes through a descriptor on inode `n`. */
  predicate WritesTo(s: Fs, op: Op, n: nat)
  {
    op.OpWrite? && IsOpen(s, op.fd) && s.fds[op.fd].inode == n
  }

  /** Every inode that stays and is not written to, bytes and all, is as it was. */
  ghost predicate Untouched(s: Fs, op: Op, u: Fs)
  {
    forall n | n in s.tree.nodes && n in u.tree.nodes && !WritesTo(s, op, n) :: u.tree.nodes[n] == s.tree.nodes[n]
  }

  lemma StepTouches(s: Fs, op: Op)
    requires Inv(s)
    ensures Untouched(s, op, Apply(s, op).fs)
  {
    CurrentIsDirectory(s.tree);
    match op
    case OpMkdir(path) => MkdirTouches(s, path);
    case OpOpen(path, mode, memory) => OpenTouches(s, path, mode, memory);
    case OpWrite(fd, data) => WriteTouches(s, fd, data);
    case OpRemove(path) => RemoveTouches(s, path);
    case _ => OthersTouch(s, op);
  }

  /** fs_mkdir looks for the name and creates it. */
  lemma MkdirIs(s: Fs, path: CString)
    requires s.tree.cur in s.tree.kids
    ensures var (t, ok) := Create(s.tree, LastComponent(path), FS_TYPE_DIR, true);
      Mkdir(s, path) ==
        if Lookup(s.tree, s.tree.cur, LastComponent(path)).Some? then Out(s, -1, [])
        else Out(s.(tree := t), if ok then 0 else -1, [])
  {
  }

  lemma MkdirTouches(s: Fs, path: CString)
    requires Inv(s) && s.tree.cur in s.tree.kids
    ensures Untouched(s, OpMkdir(path), Mkdir(s, path).fs)
  {
    MkdirIs(s, path);
    CreateTouches(s.tree, LastComponent(path), FS_TYPE_DIR, true);
  }

  lemma OthersTouch(s: Fs, op: Op)
    requires Inv(s) && (op.OpClose? || op.OpRead? || op.OpSeek? || op.OpChdir?)
    ensures Apply(s, op).fs.tree.nodes == s.tree.nodes
  {
  }

  lemma WriteTouches(s: Fs, fd: int, data: seq<byte>)
    requires Inv(s)
    ensures Untouched(s, OpWrite(fd, data), Write(s, fd, data).fs)
  {
  }

  lemma RemoveTouches(s: Fs, path: CString)
    ensures Untouched(s, OpRemove(path), Remove(s, path).fs)
  {
  }

  lemma OpenTouches(s: Fs, path: CString, mode: nat, memory: bool)
    requires Inv(s) && s.tree.cur in s.tree.kids
    ensures Untouched(s, OpOpen(path, mode, memory), Open(s, path, mode, memory).fs)
  {
    TreeAfterOpen(s, path, mode, memory);
    CreateTouches(s.tree, LastComponent(path), FS_TYPE_FILE, memory);
  }

  /** Creating an inode leaves the others as they were. */
  lemma CreateTouches(t: Tree, name: CString, kind: nat, memory: bool)
    requires WellFormed(t) && t.cur in t.kids
    ensures var u := Create(t, name, kind, memory).0;
      forall n | n in t.nodes && n in u.nodes :: u.nodes[n] == t.nodes[n]
  {
    NextIsFresh(t);
  }

  /** fs_open changes the tree only by creating a file. */
  lemma TreeAfterOpen(s: Fs, path: CString, mode: nat, memory: bool)
    requires s.tree.cur in s.tree.kids
    ensures Open(s, path, mode, memory).fs.tree ==
      if Resolve(s.tree, path).None? && HasMode(mode, FS_MODE_WRITE) then
        Create(s.tree, LastComponent(path), FS_TYPE_FILE, memory).0
      else s.tree
  {
  }

  /** Descriptors stay good while files only grow and numbers are not reused. */
  lemma FdsStayOk(s: Fs, t: Tree)
    requires Inv(s) && WellFormed(t) && s.tree.next <= t.next
    requires forall n | n in t.nodes && n < s.tree.next ::
      n in s.tree.nodes && t.nodes[n].kind == s.tree.nodes[n].kind && |s.tree.nodes[n].bytes| <= |t.nodes[n].bytes|
    ensures forall k | 0 <= k < |s.fds| :: FdOk(t, s.fds[k])
  {
    forall k | 0 <= k < |s.fds| ensures FdOk(t, s.fds[k]) {
      assert FdOk(s.tree, s.fds[k]);
    }
  }

  lemma CreateKeeps(s: Fs, name: CString, kind: nat, memory: bool)
    requires Inv(s) && SLASH !in name && s.tree.cur in s.tree.kids
    requires kind == FS_TYPE_FILE || kind == FS_TYPE_DIR
    ensures Kept(s, s.(tree := Create(s.tree, name, kind, memory).0))
  {
    var t := s.tree;
    var u := Create(t, name, kind, memory).0;
    NextIsFresh(t);
    if u != t {
      InsertKeepsWellFormed(t, name, kind, t.cur);
      if u == t.(next := t.next + 1) { BurnKeepsWellFormed(t); }
    }
    FdsStayOk(s, u);
  }

  lemma BurnKeepsWellFormed(t: Tree)
    requires WellFormed(t)
    ensures WellFormed(t.(next := t.next + 1))
  {
    var u := t.(next := t.next + 1);
    forall n | n in u.nodes ensures NodeOk(u, n) { assert NodeOk(t, n); }
    forall d | d in u.kids ensures ListOk(u, d) { assert ListOk(t, d); }
  }

  lemma AttachKeeps(s: Fs, n: nat, mode: nat)
    requires Inv(s) && n in s.tree.nodes
    ensures Kept(s, Attach(s, n, mode).fs)
  {
    assert NodeOk(s.tree, n);
    var u := Attach(s, n, mode).fs;
    forall k | 0 <= k < |u.fds| ensures FdOk(u.tree, u.fds[k]) {
      assert FdOk(s.tree, s.fds[k]);
    }
  }

  lemma OpenKeeps(s: Fs, path: CString, mode: nat, memory: bool)
    requires Inv(s) && s.tree.cur in s.tree.kids
    ensures Kept(s, Open(s, path, mode, memory).fs)
  {
    match Resolve(s.tree, path)
    case Some(n) => if n in s.tree.nodes { AttachKeeps(s, n, mode); }
    case None =>
      if HasMode(mode, FS_MODE_WRITE) {
        var name := LastComponent(path);
        CreateKeeps(s, name, FS_TYPE_FILE, memory);
        var (t, ok) := Create(s.tree, name, FS_TYPE_FILE, memory);
        if ok {
          AttachKeeps(s.(tree := t), s.tree.next, mode);
        }
      }
  }

  lemma WriteKeeps(s: Fs, fd: int, data: seq<byte>)
    requires Inv(s)
    ensures Kept(s, Write(s, fd, data).fs)
  {
    if Usable(s, fd, FS_MODE_WRITE) {
      var f := s.fds[fd];
      assert FdOk(s.tree, f) && NodeOk(s.tree, f.inode);
      var u := Write(s, fd, data).fs;
      var bytes := u.tree.nodes[f.inode].bytes;
      SetBytesKeepsWellFormed(s.tree, f.inode, bytes);
      FdsStayOk(s, u.tree);
      assert FdOk(u.tree, u.fds[fd]);
    }
  }

  lemma RemoveKeeps(s: Fs, path: CString)
    requires Inv(s) && Resolve(s.tree, path) != Some(s.tree.cur)
    ensures Kept(s, Remove(s, path).fs)
  {
    var u := Remove(s, path).fs;
    if u != s {
      var n := Resolve(s.tree, path).value;
      DeleteKeepsWellFormed(s.tree, n);
      FdsStayOk(s, u.tree);
    }
  }

  lemma ChdirKeeps(s: Fs, path: CString)
    requires Inv(s)
    ensures Kept(s, Chdir(s, path).fs)
  {
    var u := Chdir(s, path).fs;
    forall n | n in u.tree.nodes ensures NodeOk(u.tree, n) { assert NodeOk(s.tree, n); }
    forall d | d in u.tree.kids ensures ListOk(u.tree, d) { assert ListOk(s.tree, d); }
    FdsStayOk(s, u.tree);
  }

  lemma DescriptorOpKeeps(s: Fs, op: Op)
    requires Inv(s) && (op.OpClose? || op.OpRead? || op.OpSeek?)
    ensures Kept(s, Apply(s, op).fs)
  {
    var u := Apply(s, op).fs;
    assert u.tree == s.tree && |u.fds| == |s.fds|;
    forall k | 0 <= k < |u.fds| ensures FdOk(u.tree, u.fds[k]) {
      assert FdOk(s.tree, s.fds[k]);
      if s.fds[k].inode in s.tree.nodes { assert NodeOk(s.tree, s.fds[k].inode); }
    }
  }

  lemma StepKeeps(s: Fs, op: Op)
    requires Inv(s) && Legal(s, op)
    ensures Kept(s, Apply(s, op).fs) && Untouched(s, op, Apply(s, op).fs)
  {
    CurrentIsDirectory(s.tree);
    StepTouches(s, op);
    match op
    case OpMkdir(path) => CreateKeeps(s, LastComponent(path), FS_TYPE_DIR, true);
    case OpOpen(path, mode, memory) => OpenKeeps(s, path, mode, memory);
    case OpWrite(fd, data) => WriteKeeps(s, fd, data);
    case OpRemove(path) => RemoveKeeps(s, path);
    case OpChdir(path) => ChdirKeeps(s, path);
    case _ => DescriptorOpKeeps(s, op);
  }

  /**
   Every run keeps the tree and descriptor invariants, and an inode number that is
   dead at some point is dead from then on.
   */
  lemma {:induction false} RunKeeps(states: seq<Fs>, ops: seq<Op>, i: nat, j: nat)
    requires Run(states, ops) && i <= j <= |ops|
    ensures Inv(states[i]) && Inv(states[j])
    ensures states[i].tree.next <= states[j].tree.next
    ensures forall n | Gone(states[i].tree, n) :: Gone(states[j].tree, n)
    decreases j
  {
    if j > 0 {
      RunKeeps(states, ops, if i < j then i else i - 1, j - 1);
      RunStep(states, ops, j - 1);
    }
  }

  lemma RunStep(states: seq<Fs>, ops: seq<Op>, i: nat)
    requires Run(states, ops) && i < |ops| && Inv(states[i])
    ensures Kept(states[i], states[i + 1]) && Untouched(states[i], ops[i], states[i + 1])
  {
    assert StepAt(states, ops, i);
    StepKeeps(states[i], ops[i]);
  }

  /** Inode `n` is not written to by calls `i` to `j`. */
  ghost predicate NotWritten(states: seq<Fs>, ops: seq<Op>, n: nat, i: nat, j: nat)
    requires j <= |ops| < |states|
  {
    forall k | i <= k < j :: !WritesTo(states[k], ops[k], n)
  }

  /** A file that is there at both ends of a stretch of a run and not written in between is the same, byte by byte. */
  lemma {:induction false} RunKeepsFile(states: seq<Fs>, ops: seq<Op>, i: nat, j: nat, n: nat)
    requires Run(states, ops) && i <= j <= |ops| && NotWritten(states, ops, n, i, j)
    requires n in states[i].tree.nodes && n in states[j].tree.nodes
    ensures states[j].tree.nodes[n] == states[i].tree.nodes[n]
    decreases j
  {
    RunKeeps(states, ops, i, j);
    if i < j {
      var k := j - 1;
      StaysLive(states, ops, i, k, j, n);
      RunKeepsFile(states, ops, i, k, n);
      RunKeeps(states, ops, i, k);
      RunStep(states, ops, k);
      assert !WritesTo(states[k], ops[k], n);
    }
  }

  /** An inode that is there at `i` and at `j` is there in between. */
  lemma StaysLive(states: seq<Fs>, ops: seq<Op>, i: nat, k: nat, j: nat, n: nat)
    requires Run(states, ops) && i <= k <= j <= |ops|
    requires n in states[i].tree.nodes && n in states[j].tree.nodes
    ensures n in states[k].tree.nodes
  {
    RunKeeps(states, ops, i, k);
    RunKeeps(states, ops, k, j);
    NextIsFresh(states[i].tree);
    assert NodeOk(states[i].tree, n);
    assert Gone(states[k].tree, n) ==> Gone(states[j].tree, n);
  }

  /**
   A descriptor of a removed file reaches no file ever again, even after the
   table slot is reused: reads and writes through it fail and change nothing.
   */
  lemma StaleDescriptorIsInert(states: seq<Fs>, ops: seq<Op>, i: nat, j: nat, fd: int, size: nat, data: seq<byte>)
    requires Run(states, ops) && i <= j <= |ops|
    requires Inv(states[i]) && Inv(states[j])
    requires IsOpen(states[i], fd) && Gone(states[i].tree, states[i].fds[fd].inode)
    requires IsOpen(states[j], fd) && states[j].fds[fd].inode == states[i].fds[fd].inode
    ensures Read(states[j], fd, size) == Out(states[j], -1, [])
    ensures Write(states[j], fd, data) == Out(states[j], -1, [])
  {
    RunKeeps(states, ops, i, j);
    assert Gone(states[j].tree, states[i].fds[fd].inode);
  }

  // ------------------------------------------------------------- file contents

  /** A write changes one file, by splicing, and truncates at 64 KB; its 32-bit sum decides how much is copied. */
  lemma WriteMeaning(s: Fs, fd: int, data: seq<byte>)
    requires Inv(s) && Usable(s, fd, FS_MODE_WRITE) && s.fds[fd].position + |data| < WORD
    ensures s.fds[fd].position <= MAX_FILE_SIZE
    ensures Write(s, fd, data).result == WriteLength(s.fds[fd].position, |data|)
    ensures
      var f := s.fds[fd];
      var o := Write(s, fd, data);
      var was := s.tree.nodes[f.inode].bytes;
      && o.result == Min(|data|, MAX_FILE_SIZE - f.position)
      && o.fs.tree.nodes.Keys == s.tree.nodes.Keys
      && (forall n | n in s.tree.nodes && n != f.inode :: o.fs.tree.nodes[n] == s.tree.nodes[n])
      && Overlaid(was, o.fs.tree.nodes[f.inode].bytes, f.position, data, o.result)
  {
    var f := s.fds[fd];
    assert FdOk(s.tree, f) && NodeOk(s.tree, f.inode);
    var o := Write(s, fd, data);
    var was := s.tree.nodes[f.inode].bytes;
    SpliceOverlays(was, f.position, data, o.result);
    WriteStaysInBuffer(f.position, |data|);
  }

  lemma SpliceOverlays(was: seq<byte>, p: nat, data: seq<byte>, n: nat)
    requires p <= |was| <= MAX_FILE_SIZE && n <= |data| && p + n <= MAX_FILE_SIZE
    ensures Overlaid(was, Splice(was, p, data[..n]), p, data, n)
  {
    var part := data[..n];
    var now := Splice(was, p, part);
    forall i | 0 <= i < |now| ensures now[i] == if p <= i < p + n then data[i - p] else was[i] {
      if i < p {
        assert now[..p][i] == was[..p][i];
      } else if i < p + n {
        assert now[p..p + n][i - p] == part[i - p];
      }
    }
  }

  /** The state after a write, from the tree it leaves and the number of bytes copied. */
  lemma WriteIs(s: Fs, fd: int, data: seq<byte>, n: nat, t: Tree)
    requires Inv(s) && Usable(s, fd, FS_MODE_WRITE)
    requires n == Min(|data|, MAX_FILE_SIZE - s.fds[fd].position)
    requires s.fds[fd].position <= |s.tree.nodes[s.fds[fd].inode].bytes|
    requires var f := s.fds[fd];
      t == SetBytes(s.tree, f.inode, Splice(s.tree.nodes[f.inode].bytes, f.position, data[..n]))
    ensures var f := s.fds[fd];
      var end := f.position + n;
      var size := if end > |s.tree.nodes[f.inode].bytes| then end else f.size;
      Write(s, fd, data) == Out(Fs(t, s.fds[fd := f.(position := end, size := size)]), n, [])
  {
  }

  /** `now` is `was` with the first `n` bytes of `data` at offset `p`, within 64 KB. */
  ghost predicate Overlaid(was: seq<byte>, now: seq<byte>, p: nat, data: seq<byte>, n: int)
  {
    && p <= |was| <= |now| <= MAX_FILE_SIZE
    && 0 <= n <= |data|
    && |now| == (if p + n > |was| then p + n else |was|)
    && (forall i | 0 <= i < |now| :: now[i] == if p <= i < p + n then data[i - p] else was[i])
  }

  /** The write will grow the file, or the descriptor's own idea of the size reaches its position. */
  predicate SeeksBack(s: Fs, fd: int, data: seq<byte>)
    requires Usable(s, fd, FS_MODE_WRITE)
  {
    var f := s.fds[fd];
    || f.position + Min(|data|, MAX_FILE_SIZE - f.position) > |s.tree.nodes[f.inode].bytes|
    || f.position <= f.size
  }

  /**
   Seeking back after a write returns to the written place exactly when the write
   will grow the file or the descriptor's own idea of the size reaches that far; a
   descriptor opened before another one grew the file may not get back.
   When it does, reading returns the written bytes.
   */
  lemma WriteSeekRead(s: Fs, fd: int, data: seq<byte>)
    requires Inv(s) && Usable(s, fd, FS_MODE_WRITE) && HasMode(s.fds[fd].mode, FS_MODE_READ)
    requires s.fds[fd].position + |data| < WORD
    ensures
      var f := s.fds[fd]; var o := Write(s, fd, data);
      var back := Seek(o.fs, fd, f.position, 0);
      && Inv(back.fs)
      && (back.result == f.position <==> SeeksBack(s, fd, data))
      && o.result >= 0
      && (back.result == f.position ==> Read(back.fs, fd, o.result).data == data[..o.result])
  {
    var f := s.fds[fd];
    var o := Write(s, fd, data);
    assert FdOk(s.tree, f);
    WriteKeeps(s, fd, data);
    var back := Seek(o.fs, fd, f.position, 0);
    DescriptorOpKeeps(o.fs, OpSeek(fd, f.position, 0));
    if back.result == f.position {
      ReadsBack(s, fd, data, back.fs);
    }
  }

  /** With the descriptor back at the written place, a read of that length delivers what was written. */
  lemma ReadsBack(s: Fs, fd: int, data: seq<byte>, u: Fs)
    requires Inv(s) && Usable(s, fd, FS_MODE_WRITE) && HasMode(s.fds[fd].mode, FS_MODE_READ)
    requires Inv(u) && u.tree == Write(s, fd, data).fs.tree && |u.fds| == |s.fds|
    requires u.fds[fd] == s.fds[fd].(size := u.fds[fd].size)
    ensures var n := Write(s, fd, data).result; 0 <= n && Read(u, fd, n).data == data[..n]
  {
    var f := s.fds[fd];
    assert FdOk(s.tree, f);
    var n := Write(s, fd, data).result;
    var now := u.tree.nodes[f.inode].bytes;
    assert now == Splice(s.tree.nodes[f.inode].bytes, f.position, data[..n]);
    assert Usable(u, fd, FS_MODE_READ);
    assert Read(u, fd, n).data == now[f.position..f.position + n];
  }

  /** Inode 2 is a file with the given bytes, and descriptors 0 and 1 are open on it for reading and writing. */
  ghost predicate TwoOnFile(s: Fs, bytes: seq<byte>, p0: nat, size0: nat, p1: nat, size1: nat)
  {
    && Inv(s) && 2 in s.tree.nodes && s.tree.nodes[2].kind == FS_TYPE_FILE && s.tree.nodes[2].bytes == bytes
    && s.fds[0] == Fd(2, p0, 3, size0, true) && s.fds[1] == Fd(2, p1, 3, size1, true)
  }

  /**
   A descriptor that does not get back, on a run from a fresh file system: opened on
   a file before another one writes ten bytes to it, it reads three, writes one over
   the fourth, and a seek to 3 lands on 0.
   */
  lemma SeekBackCanMiss() returns (states: seq<Fs>, ops: seq<Op>)
    ensures Run(states, ops) && states[0] == FreshFs() && |ops| == 5 && ops[4] == OpWrite(0, [7])
    ensures Usable(states[4], 0, FS_MODE_WRITE) && states[4].fds[0].position == 3 && !SeeksBack(states[4], 0, [7])
    ensures Seek(states[5], 0, 3, 0).result == 0
  {
    var ten: seq<byte> := [1, 2, 3, 4, 5, 6, 7, 8, 9, 10];
    states, ops := LaggingRun(ten, [7]);
    Lags(states[4], ten, [7]);
  }

  /** Descriptor 0 at position 3 of a file it believes to be empty. */
  lemma Lags(s: Fs, ten: seq<byte>, one: seq<byte>)
    requires TwoOnFile(s, ten, 3, 0, 10, 10) && |ten| == 10 && |one| == 1
    ensures Usable(s, 0, FS_MODE_WRITE) && s.fds[0].position == 3 && !SeeksBack(s, 0, one)
  {
  }

  lemma LaggingRun(ten: seq<byte>, one: seq<byte>) returns (states: seq<Fs>, ops: seq<Op>)
    requires |ten| == 10 && |one| == 1
    ensures Run(states, ops) && states[0] == FreshFs() && |ops| == 5 && ops[4] == OpWrite(0, one)
    ensures TwoOnFile(states[4], ten, 3, 0, 10, 10) && Seek(states[5], 0, 3, 0).result == 0
  {
    states, ops := OpenTwice();
    states, ops := WriteTen(states, ops, ten);
    states, ops := ReadThree(states, ops, ten);
    states, ops := WriteOne(states, ops, ten, one);
  }

  /** One more legal call at the end of a run. */
  lemma RunMore(ss: seq<Fs>, ops: seq<Op>, op: Op, u: Fs)
    requires Run(ss, ops) && Advances(ss[|ops|], op, u)
    ensures Run(ss + [u], ops + [op])
  {
    var ss2, ops2 := ss + [u], ops + [op];
    forall i | 0 <= i < |ops2| ensures StepAt(ss2, ops2, i) {
      if i < |ops| { assert StepAt(ss, ops, i); }
    }
  }

  /** Opening "a" twice in a fresh file system: the first call creates it. */
  lemma OpenTwice() returns (ss: seq<Fs>, ops: seq<Op>)
    ensures Run(ss, ops) && ss[0] == FreshFs() && |ops| == 2 && TwoOnFile(ss[2], [], 0, 0, 0, 0)
  {
    var s1 := FirstOpen();
    var s2 := SecondOpen(s1);
    var s0, op := FreshFs(), OpOpen([97], 3, true);
    ss, ops := [s0, s1, s2], [op, op];
    RunOfTwo(s0, s1, s2, op);
  }

  lemma RunOfTwo(s0: Fs, s1: Fs, s2: Fs, op: Op)
    requires Inv(s0) && Advances(s0, op, s1) && Advances(s1, op, s2)
    ensures Run([s0, s1, s2], [op, op])
  {
    var ss, ops := [s0, s1, s2], [op, op];
    forall i | 0 <= i < |ops| ensures StepAt(ss, ops, i) { }
  }

  /** Ten bytes through descriptor 1. */
  lemma WriteTen(ss: seq<Fs>, ops: seq<Op>, ten: seq<byte>) returns (ss2: seq<Fs>, ops2: seq<Op>)
    requires Run(ss, ops) && |ops| == 2 && TwoOnFile(ss[2], [], 0, 0, 0, 0) && |ten| == 10
    ensures Run(ss2, ops2) && |ops2| == 3 && ss2[0] == ss[0] && TwoOnFile(ss2[3], ten, 0, 0, 10, 10)
  {
    var s, op := ss[2], OpWrite(1, ten);
    var u := Apply(s, op).fs;
    StepKeeps(s, op);
    assert Splice([], 0, ten[..10]) == ten;
    RunMore(ss, ops, op, u);
    ss2, ops2 := ss + [u], ops + [op];
  }

  /** Three bytes read through descriptor 0. */
  lemma ReadThree(ss: seq<Fs>, ops: seq<Op>, ten: seq<byte>) returns (ss2: seq<Fs>, ops2: seq<Op>)
    requires Run(ss, ops) && |ops| == 3 && TwoOnFile(ss[3], ten, 0, 0, 10, 10) && |ten| == 10
    ensures Run(ss2, ops2) && |ops2| == 4 && ss2[0] == ss[0] && TwoOnFile(ss2[4], ten, 3, 0, 10, 10)
  {
    var s, op := ss[3], OpRead(0, 3);
    var u := Apply(s, op).fs;
    StepKeeps(s, op);
    RunMore(ss, ops, op, u);
    ss2, ops2 := ss + [u], ops + [op];
  }

  /** One byte written through descriptor 0, which still believes the file to be empty. */
  lemma WriteOne(ss: seq<Fs>, ops: seq<Op>, ten: seq<byte>, one: seq<byte>) returns (ss2: seq<Fs>, ops2: seq<Op>)
    requires Run(ss, ops) && |ops| == 4 && TwoOnFile(ss[4], ten, 3, 0, 10, 10) && |ten| == 10 && |one| == 1
    ensures Run(ss2, ops2) && |ops2| == 5 && ss2[0] == ss[0] && ss2[4] == ss[4] && ops2[4] == OpWrite(0, one)
    ensures Seek(ss2[5], 0, 3, 0).result == 0
  {
    var s, op := ss[4], OpWrite(0, one);
    var u := Apply(s, op).fs;
    RunMore(ss, ops, op, u);
    ss2, ops2 := ss + [u], ops + [op];
  }

  lemma FirstOpen() returns (s: Fs)
    ensures s == Apply(FreshFs(), OpOpen([97], 3, true)).fs && Inv(s)
    ensures s.tree == Insert(Fresh(), [97], FS_TYPE_FILE, 1)
    ensures s.fds == FreshFs().fds[0 := Fd(2, 0, 3, 0, true)]
  {
    var s0, a: CString := FreshFs(), [97];
    s := Apply(s0, OpOpen(a, 3, true)).fs;
    assert Inv(s) by { StepKeeps(s0, OpOpen(a, 3, true)); }
    assert Resolve(s0.tree, a) == None by { SingleComponent(s0.tree, a); }
    OpenCreates(s0, a);
    AttachFirst(s0.(tree := Insert(s0.tree, a, FS_TYPE_FILE, 1)), 2, 0);
  }

  /** A descriptor on an empty file goes to the first free place. */
  lemma AttachFirst(s: Fs, n: nat, k: nat)
    requires n in s.tree.nodes && s.tree.nodes[n].kind == FS_TYPE_FILE && s.tree.nodes[n].bytes == []
    requires k < |s.fds| && !s.fds[k].valid && forall j | 0 <= j < k :: s.fds[j].valid
    ensures Attach(s, n, 3) == Out(s.(fds := s.fds[k := Fd(n, 0, 3, 0, true)]), k, [])
  {
    assert FreeFd(s.fds) == k;
  }

  /** Opening a missing file for reading and writing, with room for it, creates it in the current directory. */
  lemma OpenCreates(s: Fs, name: CString)
    requires Inv(s) && s.tree.cur in s.tree.kids && GoodName(name) && Resolve(s.tree, name) == None
    requires |s.tree.nodes| < MAX_INODES
    ensures var t := Insert(s.tree, name, FS_TYPE_FILE, s.tree.cur);
      && s.tree.next in t.nodes
      && Open(s, name, 3, true) == Attach(s.(tree := t), s.tree.next, 3)
  {
    SingleComponent(s.tree, name);
  }

  lemma SecondOpen(s1: Fs) returns (s: Fs)
    requires Inv(s1) && s1.tree == Insert(Fresh(), [97], FS_TYPE_FILE, 1)
    requires s1.fds == FreshFs().fds[0 := Fd(2, 0, 3, 0, true)]
    ensures s == Apply(s1, OpOpen([97], 3, true)).fs && TwoOnFile(s, [], 0, 0, 0, 0)
  {
    var a: CString := [97];
    s := Apply(s1, OpOpen(a, 3, true)).fs;
    assert Inv(s) by { StepKeeps(s1, OpOpen(a, 3, true)); }
    assert Resolve(s1.tree, a) == Some(2) by {
      SingleComponent(s1.tree, a);
      assert s1.tree.kids[1] == [2];
    }
    AttachFirst(s1, 2, 1);
  }

  /** Seeking: a target before the start or past the end of the file lands on the end. */
  lemma SeekMeaning(s: Fs, fd: int, offset: int, whence: nat)
    requires Inv(s) && IsOpen(s, fd) && whence <= 2
    requires -0x8000_0000 <= offset < 0x8000_0000
    ensures var o := Seek(s, fd, offset, whence);
      o.result >= 0 && o.fs == s.(fds := s.fds[fd := s.fds[fd].(position := o.result)])
    ensures
      var f := s.fds[fd];
      var target := offset + (if whence == 0 then 0 else if whence == 1 then f.position else f.size);
      Seek(s, fd, offset, whence).result == if 0 <= target <= f.size then target else f.size
  {
    var f := s.fds[fd];
    assert FdOk(s.tree, f);
    var target := offset + (if whence == 0 then 0 else if whence == 1 then f.position else f.size);
    assert -WORD < target < WORD;
    assert Wrapped(target) == if target >= 0 then target else target + WORD;
  }

  // -------------------------------------------------------------------- naming

  /** Names of new inodes are good; fs_open, which does not look for the bare name, is given that name alone. */
  ghost predicate NamesWell(t: Tree, op: Op)
  {
    && (op.OpMkdir? ==> GoodName(LastComponent(op.path)))
    && (op.OpOpen? && Resolve(t, op.path).None? ==> GoodName(op.path))
  }

  lemma SingleComponent(t: Tree, name: CString)
    requires GoodName(name)
    ensures LastComponent(name) == name && Truncated(name) == name
    ensures Resolve(t, name) == Lookup(t, t.cur, name)
  {
    assert name[0] in name;
    var path := [SLASH] + name;
    ParseCons(name, []);
    assert path + [] == path && path[1..] == name;
    assert SkipSlashes(name) == name == SkipSlashes(path);
    assert Parse(name) == Parse(path) == [name];
    var cs: seq<CString> := [name];
    assert cs[1..] == [];
    assert Descend(t, t.cur, cs) == Step(t, t.cur, name);
  }

  lemma CreateKeepsNames(t: Tree, name: CString, kind: nat, memory: bool)
    requires WellFormed(t) && WellNamed(t) && GoodName(name) && t.cur in t.kids
    requires kind == FS_TYPE_FILE || kind == FS_TYPE_DIR
    requires Lookup(t, t.cur, name).None?
    ensures WellNamed(Create(t, name, kind, memory).0)
  {
    SingleComponent(t, name);
    InsertKeepsNames(t, name, kind, t.cur);
    assert WellNamed(t.(next := t.next + 1));
  }

  lemma DeleteKeepsNames(t: Tree, n: nat)
    requires WellNamed(t) && n in t.nodes
    ensures WellNamed(Delete(t, n))
  {
    var u := Delete(t, n);
    forall d, a, b | d in u.kids && a in u.kids[d] && b in u.kids[d] && a in u.nodes && b in u.nodes
      && u.nodes[a].name == u.nodes[b].name
      ensures a == b
    {
      assert d in t.kids && a in t.kids[d] && b in t.kids[d];
    }
  }

  lemma CreationKeepsNames(s: Fs, op: Op)
    requires Inv(s) && WellNamed(s.tree) && NamesWell(s.tree, op) && (op.OpMkdir? || op.OpOpen?)
    ensures WellNamed(Apply(s, op).fs.tree)
  {
    CurrentIsDirectory(s.tree);
    var name := LastComponent(op.path);
    if op.OpMkdir? {
      if Lookup(s.tree, s.tree.cur, name).None? { CreateKeepsNames(s.tree, name, FS_TYPE_DIR, true); }
    } else {
      TreeAfterOpen(s, op.path, op.mode, op.memory);
      if Resolve(s.tree, op.path).None? {
        SingleComponent(s.tree, op.path);
        CreateKeepsNames(s.tree, name, FS_TYPE_FILE, op.memory);
      }
    }
  }

  lemma RemovalKeepsNames(s: Fs, path: CString)
    requires WellNamed(s.tree)
    ensures WellNamed(Remove(s, path).fs.tree)
  {
    if Remove(s, path).result == 0 { DeleteKeepsNames(s.tree, Resolve(s.tree, path).value); }
  }

  lemma WritingKeepsNames(s: Fs, fd: int, data: seq<byte>)
    requires Inv(s) && WellNamed(s.tree)
    ensures WellNamed(Write(s, fd, data).fs.tree)
  {
    SameNames(s.tree, Write(s, fd, data).fs.tree);
  }

  lemma StepKeepsNames(s: Fs, op: Op)
    requires Inv(s) && Legal(s, op) && WellNamed(s.tree) && NamesWell(s.tree, op)
    ensures WellNamed(Apply(s, op).fs.tree)
  {
    match op
    case OpMkdir(_) => CreationKeepsNames(s, op);
    case OpOpen(_, _, _) => CreationKeepsNames(s, op);
    case OpRemove(path) => RemovalKeepsNames(s, path);
    case OpWrite(fd, data) => WritingKeepsNames(s, fd, data);
    case OpChdir(path) => SameNames(s.tree, Chdir(s, path).fs.tree);
    case _ => assert Apply(s, op).fs.tree == s.tree;
  }

  lemma SameNames(t: Tree, u: Tree)
    requires WellNamed(t)
    requires u.kids == t.kids && u.root == t.root && u.nodes.Keys == t.nodes.Keys
    requires forall n | n in u.nodes :: u.nodes[n].name == t.nodes[n].name
    ensures WellNamed(u)
  {
  }

  /**
   On every run from a fresh file system whose creations are well named, the
   printed path of the current directory resolves to it exactly when it fits the buffer.
   */
  lemma {:induction false} RunPathRoundTrip(states: seq<Fs>, ops: seq<Op>, j: nat)
    requires Run(states, ops) && states[0] == FreshFs() && j <= |ops|
    requires forall i | 0 <= i < |ops| :: NamesWell(states[i].tree, ops[i])
    ensures Inv(states[j]) && WellNamed(states[j].tree)
    ensures
      var t := states[j].tree;
      && t.cur in t.nodes
      && (Resolve(t, PrintedPath(t)) == Some(t.cur) <==> |Join(PathTo(t, t.cur))| < MAX_PATH_LENGTH)
  {
    RunKeeps(states, ops, j, j);
    RunKeepsNames(states, ops, j);
    PathRoundTrip(states[j].tree);
  }

  lemma {:induction false} RunKeepsNames(states: seq<Fs>, ops: seq<Op>, j: nat)
    requires Run(states, ops) && states[0] == FreshFs() && j <= |ops|
    requires forall i | 0 <= i < |ops| :: NamesWell(states[i].tree, ops[i])
    ensures WellNamed(states[j].tree)
  {
    if j == 0 {
      FreshNames();
    } else {
      RunKeeps(states, ops, j - 1, j - 1);
      RunKeepsNames(states, ops, j - 1);
      NamesStep(states, ops, j - 1);
    }
  }

  lemma FreshNames()
    ensures WellNamed(FreshFs().tree)
  {
  }

  lemma NamesStep(states: seq<Fs>, ops: seq<Op>, i: nat)
    requires Run(states, ops) && i < |ops| && Inv(states[i])
    requires WellNamed(states[i].tree) && NamesWell(states[i].tree, ops[i])
    ensures WellNamed(states[i + 1].tree)
  {
    assert StepAt(states, ops, i);
    StepKeepsNames(states[i], ops[i]);
  }
}
