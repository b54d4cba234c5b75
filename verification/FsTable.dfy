/**
 The inode table of kernel/fs/fs.c: slots holding sibling and child pointers, and
 when such a table represents an abstract tree.
 */
module FsTable {
  import opened Common
  import opened FsTree

  /**
   struct inode.  Pointers are slot numbers or NULL.  The `data` pointer is `bytes`
   for a file (its 64 KB buffer) and `child` for a directory (its first child).
   */
  datatype Inode = Inode(name: CString, kind: nat, size: nat, bytes: seq<byte>, child: int,
                         valid: bool, parent: int, next: int, num: nat)

  /** A sibling list: following `next` from `p` visits the inodes numbered `ns`, in order. */
  ghost predicate Chain(t: seq<Inode>, p: int, ns: seq<nat>)
    decreases |ns|
  {
    if ns == [] then p == NULL
    else 0 <= p < |t| && t[p].valid && t[p].num == ns[0] && Chain(t, t[p].next, ns[1..])
  }

  ghost function ParentNum(t: seq<Inode>, i: int): nat
    requires 0 <= i < |t|
  {
    if 0 <= t[i].parent < |t| then t[t[i].parent].num else 0
  }

  ghost function Contents(x: Inode): seq<byte>
  {
    if x.kind == FS_TYPE_FILE && x.size <= |x.bytes| then x.bytes[..x.size] else []
  }

  /** A file owns a 64 KB buffer that is zero beyond the file's size. */
  ghost predicate BufferOk(x: Inode)
  {
    && |x.bytes| == MAX_FILE_SIZE && x.size <= MAX_FILE_SIZE
    && (forall i | x.size <= i < MAX_FILE_SIZE :: x.bytes[i] == 0)
  }

  /** Live slot `i` represents the tree's inode with its number. */
  ghost predicate SlotOk(t: seq<Inode>, slot: map<nat, int>, tree: Tree, i: int)
    requires 0 <= i < |t| && t[i].valid
  {
    var x := t[i];
    && x.num in slot && slot[x.num] == i
    && x.num in tree.nodes
    && tree.nodes[x.num] == Entry(x.name, x.kind, ParentNum(t, i), Contents(x))
    && (x.parent == NULL || (0 <= x.parent < |t| && t[x.parent].valid))
    && (x.kind == FS_TYPE_FILE ==> BufferOk(x))
    && (x.kind == FS_TYPE_DIR ==> x.size == 0 && x.num in tree.kids && Chain(t, x.child, tree.kids[x.num]))
  }

  /** Every inode of the tree has its slot. */
  ghost predicate NumOk(t: seq<Inode>, slot: map<nat, int>, n: nat)
  {
    n in slot && 0 <= slot[n] < |t| && t[slot[n]].valid && t[slot[n]].num == n
  }

  ghost predicate Represents(t: seq<Inode>, slot: map<nat, int>, tree: Tree)
  {
    && |t| == MAX_INODES
    && (forall i {:trigger SlotOk(t, slot, tree, i)} | 0 <= i < |t| && t[i].valid :: SlotOk(t, slot, tree, i))
    && (forall n {:trigger NumOk(t, slot, n)} | n in tree.nodes :: NumOk(t, slot, n))
  }

  // ------------------------------------------------------------------- frames

  /** A list is unchanged when its members' links are. */
  lemma {:induction false} ChainFrame(t: seq<Inode>, u: seq<Inode>, p: int, ns: seq<nat>)
    requires Chain(t, p, ns) && |u| == |t|
    requires forall i | 0 <= i < |t| && t[i].valid && t[i].num in ns ::
      u[i].valid && u[i].num == t[i].num && u[i].next == t[i].next
    ensures Chain(u, p, ns)
    decreases |ns|
  {
    if ns != [] {
      assert t[p].num in ns;
      ChainFrame(t, u, t[p].next, ns[1..]);
    }
  }

  /** The slot a chain passes through is the slot of that inode. */
  lemma {:induction false} ChainMembers(t: seq<Inode>, slot: map<nat, int>, tree: Tree, p: int, ns: seq<nat>, k: nat)
    requires Represents(t, slot, tree) && Chain(t, p, ns) && k < |ns|
    ensures NumOk(t, slot, ns[k])
    ensures Chain(t, slot[ns[k]], ns[k..])
    decreases k
  {
    assert SlotOk(t, slot, tree, p);
    if k == 0 {
      assert ns[0..] == ns;
    } else {
      ChainMembers(t, slot, tree, t[p].next, ns[1..], k - 1);
      assert ns[1..][k - 1..] == ns[k..];
    }
  }

  // -------------------------------------------------------------------- sizes

  ghost function ValidNums(t: seq<Inode>, k: nat): set<nat>
    requires k <= |t|
  {
    if k == 0 then {} else ValidNums(t, k - 1) + (if t[k - 1].valid then {t[k - 1].num} else {})
  }

  lemma {:induction false} InValidNums(t: seq<Inode>, k: nat, n: nat)
    requires k <= |t|
    ensures n in ValidNums(t, k) <==> exists i :: 0 <= i < k && t[i].valid && t[i].num == n
  {
    if k > 0 {
      InValidNums(t, k - 1, n);
    }
  }

  /** A live slot's number is not among those before it. */
  lemma FreshNum(t: seq<Inode>, k: nat)
    requires k < |t| && t[k].valid
    requires forall i, j | 0 <= i < j < |t| && t[i].valid && t[j].valid :: t[i].num != t[j].num
    ensures t[k].num !in ValidNums(t, k)
  {
    InValidNums(t, k, t[k].num);
  }

  lemma {:induction false} ValidNumsSize(t: seq<Inode>, k: nat)
    requires k <= |t|
    requires forall i, j | 0 <= i < j < |t| && t[i].valid && t[j].valid :: t[i].num != t[j].num
    ensures |ValidNums(t, k)| <= k
    ensures |ValidNums(t, k)| == k <==> forall i | 0 <= i < k :: t[i].valid
  {
    if k > 0 {
      ValidNumsSize(t, k - 1);
      InValidNums(t, k - 1, t[k - 1].num);
    }
  }

  lemma AllNumsValid(t: seq<Inode>, slot: map<nat, int>, tree: Tree)
    requires Represents(t, slot, tree)
    ensures |ValidNums(t, |t|)| == |tree.nodes|
  {
    forall n ensures n in ValidNums(t, |t|) <==> n in tree.nodes.Keys {
      InValidNums(t, |t|, n);
      if n in ValidNums(t, |t|) {
        var i :| 0 <= i < |t| && t[i].valid && t[i].num == n;
        assert SlotOk(t, slot, tree, i);
      }
      if n in tree.nodes { assert NumOk(t, slot, n); }
    }
    assert ValidNums(t, |t|) == tree.nodes.Keys;
    assert |tree.nodes| == |tree.nodes.Keys|;
  }

  lemma SlotsInjective(t: seq<Inode>, slot: map<nat, int>, tree: Tree)
    requires Represents(t, slot, tree)
    ensures forall i, j | 0 <= i < j < |t| && t[i].valid && t[j].valid :: t[i].num != t[j].num
  {
    forall i, j | 0 <= i < j < |t| && t[i].valid && t[j].valid ensures t[i].num != t[j].num {
      assert SlotOk(t, slot, tree, i) && SlotOk(t, slot, tree, j);
    }
  }

  /** The table has a free slot exactly when the tree has fewer inodes than slots. */
  lemma FreeSlotIffRoom(t: seq<Inode>, slot: map<nat, int>, tree: Tree)
    requires Represents(t, slot, tree)
    ensures |tree.nodes| <= MAX_INODES
    ensures (exists i :: 0 <= i < |t| && !t[i].valid) <==> |tree.nodes| < MAX_INODES
  {
    SlotsInjective(t, slot, tree);
    ValidNumsSize(t, |t|);
    AllNumsValid(t, slot, tree);
  }

  // ------------------------------------------------------------------ updates

  /** The table after fs_create_inode used slot `i` for a child of slot `d`. */
  function Linked(t: seq<Inode>, i: int, d: int, x: Inode): seq<Inode>
    requires 0 <= i < |t| && 0 <= d < |t| && i != d
  {
    t[i := x.(next := t[d].child)][d := t[d].(child := i)]
  }

  ghost predicate NewInode(x: Inode, name: CString, kind: nat, d: int, num: nat)
  {
    && x.valid && x.name == Truncated(name) && x.kind == kind && x.size == 0
    && x.parent == d && x.num == num
    && (kind == FS_TYPE_FILE ==> BufferOk(x))
    && (kind == FS_TYPE_DIR ==> x.child == NULL)
  }

  lemma InsertRepresented(t: seq<Inode>, slot: map<nat, int>, tree: Tree,
                          i: int, d: nat, x: Inode, name: CString, kind: nat)
    requires Represents(t, slot, tree) && WellFormed(tree)
    requires 0 <= i < |t| && !t[i].valid && d in tree.kids && d in slot
    requires kind == FS_TYPE_FILE || kind == FS_TYPE_DIR
    requires NewInode(x, name, kind, slot[d], tree.next)
    ensures 0 <= slot[d] < |t| && slot[d] != i
    ensures Represents(Linked(t, i, slot[d], x), slot[tree.next := i], Insert(tree, name, kind, d))
  {
    assert ListOk(tree, d) && NumOk(t, slot, d);
    NextIsFresh(tree);
    var u := Linked(t, i, slot[d], x);
    var s2, tree2 := slot[tree.next := i], Insert(tree, name, kind, d);
    forall j | 0 <= j < |u| && u[j].valid ensures SlotOk(u, s2, tree2, j) {
      InsertSlot(t, slot, tree, i, d, x, name, kind, j);
    }
    forall n | n in tree2.nodes ensures NumOk(u, s2, n) {
      if n != tree.next { assert NumOk(t, slot, n); }
    }
  }

  lemma InsertSlot(t: seq<Inode>, slot: map<nat, int>, tree: Tree,
                   i: int, d: nat, x: Inode, name: CString, kind: nat, j: int)
    requires Represents(t, slot, tree) && WellFormed(tree)
    requires 0 <= i < |t| && !t[i].valid && d in tree.kids && NumOk(t, slot, d)
    requires kind == FS_TYPE_FILE || kind == FS_TYPE_DIR
    requires NewInode(x, name, kind, slot[d], tree.next)
    requires tree.next !in tree.nodes && tree.next !in tree.kids
    requires forall d | d in tree.kids :: tree.next !in tree.kids[d]
    requires 0 <= j < |t| && Linked(t, i, slot[d], x)[j].valid
    ensures SlotOk(Linked(t, i, slot[d], x), slot[tree.next := i], Insert(tree, name, kind, d), j)
  {
    var u := Linked(t, i, slot[d], x);
    var tree2 := Insert(tree, name, kind, d);
    assert SlotOk(t, slot, tree, slot[d]);
    assert ListOk(tree, d);
    assert forall m | 0 <= m < |t| && t[m].valid :: u[m].valid && u[m].num == t[m].num && u[m].next == t[m].next;
    if j == i {
      assert Contents(u[j]) == [];
    } else {
      assert SlotOk(t, slot, tree, j);
      assert t[j].num != tree.next;
      assert ParentNum(u, j) == ParentNum(t, j);
      if t[j].kind == FS_TYPE_DIR {
        ChainFrame(t, u, t[j].child, tree.kids[t[j].num]);
        if j == slot[d] {
          assert t[j].num == d;
          assert tree2.kids[d] == [tree.next] + tree.kids[d];
          assert tree2.kids[d][1..] == tree.kids[d];
        }
      }
    }
  }

  /** New bytes for the file in slot `i`. */
  lemma SetBytesRepresented(t: seq<Inode>, slot: map<nat, int>, tree: Tree, i: int, bytes: seq<byte>, size: nat)
    requires Represents(t, slot, tree)
    requires 0 <= i < |t| && t[i].valid && t[i].kind == FS_TYPE_FILE
    requires BufferOk(t[i].(bytes := bytes, size := size))
    ensures t[i].num in tree.nodes
    ensures Represents(t[i := t[i].(bytes := bytes, size := size)], slot, SetBytes(tree, t[i].num, bytes[..size]))
  {
    assert SlotOk(t, slot, tree, i);
    var u := t[i := t[i].(bytes := bytes, size := size)];
    var tree2 := SetBytes(tree, t[i].num, bytes[..size]);
    forall j | 0 <= j < |u| && u[j].valid ensures SlotOk(u, slot, tree2, j) {
      assert SlotOk(t, slot, tree, j);
      assert ParentNum(u, j) == ParentNum(t, j);
      if t[j].kind == FS_TYPE_DIR { ChainFrame(t, u, t[j].child, tree.kids[t[j].num]); }
    }
    forall n | n in tree2.nodes ensures NumOk(u, slot, n) {
      assert NumOk(t, slot, n);
    }
  }

  // ------------------------------------------------------------------ removal

  /** Slot `n` is taken off the list that starts in `p`: what fs_remove does to the siblings. */
  ghost predicate Unlinked(t: seq<Inode>, u: seq<Inode>, slot: map<nat, int>, tree: Tree, n: nat)
    requires Represents(t, slot, tree) && n in tree.nodes
  {
    NumOk(t, slot, n) && SlotOk(t, slot, tree, slot[n]) &&
    var i := slot[n];
    var d := t[i].parent;
    && |u| == |t|
    && 0 <= d < |t|
    && (forall j | 0 <= j < |t| :: u[j].(child := 0, next := 0) == t[j].(child := 0, next := 0))
    && (forall j | 0 <= j < |t| && j != d :: u[j].child == t[j].child)
    && (forall j | 0 <= j < |t| && t[j].valid && t[j].parent != d :: u[j].next == t[j].next)
    && t[d].num in tree.kids && Chain(u, u[d].child, Without(tree.kids[t[d].num], n))
  }

  /** Bypassing the successor of slot `q` takes that successor off the list. */
  lemma {:induction false} UnlinkChain(t: seq<Inode>, q: int, p: int, ns: seq<nat>, k: nat)
    requires Chain(t, p, ns) && Distinct(ns) && k + 1 < |ns|
    requires 0 <= q < |t| && t[q].valid && t[q].num == ns[k] && 0 <= t[q].next < |t|
    requires forall i, j | 0 <= i < j < |t| && t[i].valid && t[j].valid :: t[i].num != t[j].num
    ensures Chain(t[q := t[q].(next := t[t[q].next].next)], p, Without(ns, ns[k + 1]))
    decreases k
  {
    var u := t[q := t[q].(next := t[t[q].next].next)];
    var a, rest := ns[0], ns[1..];
    assert a !in rest && Distinct(rest);
    if k == 0 {
      assert p == q;
      var n, tail := ns[1], ns[2..];
      assert rest[0] == n && rest[1..] == tail;
      assert n !in tail;
      assert Without(rest, n) == Without(tail, n) == tail;
      assert Chain(t, t[t[q].next].next, tail);
      forall i | 0 <= i < |t| && t[i].valid && t[i].num in tail ensures i != q { assert a !in tail; }
      ChainFrame(t, u, t[t[q].next].next, tail);
      assert Without(ns, n) == [a] + tail;
      assert ([a] + tail)[1..] == tail;
    } else {
      UnlinkChain(t, q, t[p].next, rest, k - 1);
      assert rest[k - 1] == ns[k] && rest[k] == ns[k + 1];
      assert p != q;
      assert Without(ns, ns[k + 1]) == [a] + Without(rest, ns[k + 1]);
      assert ([a] + Without(rest, ns[k + 1]))[1..] == Without(rest, ns[k + 1]);
    }
  }

  /** A non-root inode sits in a live directory, whose list reaches it. */
  lemma ParentSlot(t: seq<Inode>, slot: map<nat, int>, tree: Tree, n: nat)
    requires Represents(t, slot, tree) && WellFormed(tree) && n in tree.nodes && n != tree.root
    ensures NumOk(t, slot, n) && SlotOk(t, slot, tree, slot[n])
    ensures var d := t[slot[n]].parent;
      && 0 <= d < |t| && t[d].valid && t[d].kind == FS_TYPE_DIR
      && t[d].num == tree.nodes[n].parent && t[d].num in tree.kids
      && SlotOk(t, slot, tree, d)
      && n in tree.kids[t[d].num] && Distinct(tree.kids[t[d].num])
  {
    assert NumOk(t, slot, n) && NodeOk(tree, n);
    assert SlotOk(t, slot, tree, slot[n]);
    var p := tree.nodes[n].parent;
    assert ListOk(tree, p) && NumOk(t, slot, p);
    assert NodeOk(tree, p);
    var d := t[slot[n]].parent;
    assert d != NULL;
    assert SlotOk(t, slot, tree, d);
  }

  /** Removing the first child: the directory's child pointer moves on. */
  lemma UnlinkFirst(t: seq<Inode>, slot: map<nat, int>, tree: Tree, n: nat)
    requires Represents(t, slot, tree) && WellFormed(tree) && n in tree.nodes && n != tree.root
    requires NumOk(t, slot, n) && 0 <= t[slot[n]].parent < |t| && t[t[slot[n]].parent].child == slot[n]
    ensures var d := t[slot[n]].parent;
      Unlinked(t, t[d := t[d].(child := t[slot[n]].next)], slot, tree, n)
  {
    ParentSlot(t, slot, tree, n);
    var i := slot[n];
    var d := t[i].parent;
    var ns := tree.kids[t[d].num];
    var u := t[d := t[d].(child := t[i].next)];
    assert ns[0] == n && n !in ns[1..];
    assert Without(ns, n) == ns[1..];
    ChainFrame(t, u, t[i].next, ns[1..]);
  }

  /** Removing a later child: its predecessor, slot `q`, bypasses it. */
  lemma UnlinkLater(t: seq<Inode>, slot: map<nat, int>, tree: Tree, n: nat, q: int, k: nat)
    requires Represents(t, slot, tree) && WellFormed(tree) && n in tree.nodes && n != tree.root
    requires NumOk(t, slot, n) && 0 <= q < |t| && t[q].valid && t[q].next == slot[n]
    requires tree.nodes[n].parent in tree.kids
    requires var ns := tree.kids[tree.nodes[n].parent]; k + 1 < |ns| && ns[k] == t[q].num && ns[k + 1] == n
    ensures Unlinked(t, t[q := t[q].(next := t[slot[n]].next)], slot, tree, n)
  {
    ParentSlot(t, slot, tree, n);
    SlotsInjective(t, slot, tree);
    var d := t[slot[n]].parent;
    var ns := tree.kids[t[d].num];
    UnlinkChain(t, q, t[d].child, ns, k);
    assert ListOk(tree, t[d].num) && t[q].num in ns;
    assert SlotOk(t, slot, tree, q) && NodeOk(tree, t[d].num);
    assert t[q].parent != NULL;
    assert SlotOk(t, slot, tree, t[q].parent);
    assert t[q].parent == d;
  }

  lemma DeleteRepresented(t: seq<Inode>, u: seq<Inode>, slot: map<nat, int>, tree: Tree, n: nat)
    requires Represents(t, slot, tree) && WellFormed(tree)
    requires n in tree.nodes && n != tree.root && (n in tree.kids ==> tree.kids[n] == [])
    requires Unlinked(t, u, slot, tree, n)
    ensures Represents(u[slot[n] := u[slot[n]].(valid := false)], slot - {n}, Delete(tree, n))
  {
    var i := slot[n];
    var v := u[i := u[i].(valid := false)];
    var slot2, tree2 := slot - {n}, Delete(tree, n);
    assert NodeOk(tree, n);
    forall j | 0 <= j < |v| && v[j].valid ensures SlotOk(v, slot2, tree2, j) {
      DeleteSlot(t, u, slot, tree, n, j);
    }
    forall m | m in tree2.nodes ensures NumOk(v, slot2, m) {
      assert NumOk(t, slot, m);
      assert u[slot[m]].(child := 0, next := 0) == t[slot[m]].(child := 0, next := 0);
    }
  }

  lemma DeleteSlot(t: seq<Inode>, u: seq<Inode>, slot: map<nat, int>, tree: Tree, n: nat, j: int)
    requires Represents(t, slot, tree) && WellFormed(tree)
    requires n in tree.nodes && n != tree.root && (n in tree.kids ==> tree.kids[n] == [])
    requires Unlinked(t, u, slot, tree, n)
    requires 0 <= j < |t| && j != slot[n] && u[j].valid
    ensures SlotOk(u[slot[n] := u[slot[n]].(valid := false)], slot - {n}, Delete(tree, n), j)
  {
    var i := slot[n];
    var d := t[i].parent;
    var v := u[i := u[i].(valid := false)];
    var tree2 := Delete(tree, n);
    assert u[j].(child := 0, next := 0) == t[j].(child := 0, next := 0);
    assert SlotOk(t, slot, tree, j) && SlotOk(t, slot, tree, i) && SlotOk(t, slot, tree, d);
    assert t[j].num != n && t[d].num == tree.nodes[n].parent;
    assert NodeOk(tree, n) && NodeOk(tree, t[j].num);
    if 0 <= t[j].parent < |t| {
      assert u[t[j].parent].(child := 0, next := 0) == t[t[j].parent].(child := 0, next := 0);
    }
    assert ParentNum(v, j) == ParentNum(t, j);
    if t[j].kind == FS_TYPE_DIR {
      if j == d {
        ChainFrame(u, v, u[d].child, Without(tree.kids[t[d].num], n));
      } else {
        OtherListKept(t, u, slot, tree, n, j);
      }
    }
  }

  /** Directories other than the parent keep their lists. */
  lemma OtherListKept(t: seq<Inode>, u: seq<Inode>, slot: map<nat, int>, tree: Tree, n: nat, j: int)
    requires Represents(t, slot, tree) && WellFormed(tree)
    requires n in tree.nodes && n != tree.root
    requires Unlinked(t, u, slot, tree, n)
    requires 0 <= j < |t| && t[j].valid && t[j].kind == FS_TYPE_DIR
    requires j != slot[n] && j != t[slot[n]].parent
    ensures SlotOk(t, slot, tree, j)
    ensures Chain(u[slot[n] := u[slot[n]].(valid := false)], u[j].child, tree.kids[t[j].num])
  {
    var i := slot[n];
    var d := t[i].parent;
    var v := u[i := u[i].(valid := false)];
    assert SlotOk(t, slot, tree, j) && SlotOk(t, slot, tree, i) && SlotOk(t, slot, tree, d);
    var ns := tree.kids[t[j].num];
    assert ListOk(tree, t[j].num) && NodeOk(tree, t[j].num);
    forall m | 0 <= m < |t| && t[m].valid && t[m].num in ns
      ensures v[m].valid && v[m].num == t[m].num && v[m].next == t[m].next
    {
      assert SlotOk(t, slot, tree, m);
      assert tree.nodes[t[m].num].parent == t[j].num;
      assert t[m].parent != NULL;
      assert SlotOk(t, slot, tree, t[m].parent);
      assert t[m].parent == j;
      assert u[m].(child := 0, next := 0) == t[m].(child := 0, next := 0);
    }
    ChainFrame(t, v, t[j].child, ns);
  }
}
