/**
 fs_load of kernel/fs/fs.c: records are placed in free slots, then linked to their
 parents by inode number.  The main result is the save/load round trip.
 */
module FsLoad {
  import opened Common
  import opened FsTree
  import opened FsTable
  import opened FsImage

  // --------------------------------------------------------------- the loader

  /** The inode count of a recognised superblock. */
  function Header(d: Disk): Option<nat>
  {
    var b := ReadSectors(d, 0, 1);
    var count := WordAt(b, 8);
    if WordAt(b, 0) != FS_MAGIC || count == 0 || count > FS_MAX_INODES_ON_DISK then None else Some(count)
  }

  function RecordAt(table: seq<byte>, i: nat): Record
    requires RECORD * i + RECORD <= |table|
  {
    DecodeRecord(table[RECORD * i..RECORD * i + RECORD])
  }

  function DiskRecords(d: Disk, count: nat): (rs: seq<Record>)
    ensures |rs| == count
  {
    var table := ReadSectors(d, FS_INODE_TABLE_LBA, SectorsFor(RECORD * count));
    seq(count, i requires 0 <= i < count => RecordAt(table, i))
  }

  /** No record claims a file larger than the buffer fs_load reads it into. */
  ghost predicate SaneSizes(rs: seq<Record>)
  {
    forall i | 0 <= i < |rs| && rs[i].kind == FS_TYPE_FILE :: rs[i].size <= MAX_FILE_SIZE
  }

  function LoadedBytes(d: Disk, r: Record): (b: seq<byte>)
    requires r.kind == FS_TYPE_FILE ==> r.size <= MAX_FILE_SIZE
  {
    if r.kind != FS_TYPE_FILE then []
    else if r.lba > 0 && r.size > 0 then
      var data := ReadSectors(d, r.lba, SectorsFor(r.size));
      data + Zeros(MAX_FILE_SIZE - |data|)
    else Zeros(MAX_FILE_SIZE)
  }

  /** First pass, one record: an unlinked inode. */
  function LoadedInode(d: Disk, r: Record): Inode
    requires r.kind == FS_TYPE_FILE ==> r.size <= MAX_FILE_SIZE
  {
    Inode(r.name, r.kind, r.size, LoadedBytes(d, r), NULL, true, NULL, NULL, r.num)
  }

  /** First slot not in use, or the table size. */
  function FreeSlot(t: seq<Inode>): (i: nat)
    ensures i <= |t| && (i < |t| ==> !t[i].valid) && forall j | 0 <= j < i :: t[j].valid
  {
    if t == [] || !t[0].valid then 0 else 1 + FreeSlot(t[1..])
  }

  predicate IsRoot(r: Record)
  {
    r.name == [SLASH] && r.kind == FS_TYPE_DIR
  }

  /** First pass over the first `k` records: the table and the root pointer. */
  function Placed(d: Disk, t: seq<Inode>, root: int, rs: seq<Record>, k: nat): (r: (seq<Inode>, int))
    requires k <= |rs| && SaneSizes(rs)
    ensures |r.0| == |t|
  {
    if k == 0 then (t, root)
    else
      var (u, q) := Placed(d, t, root, rs, k - 1);
      var i := FreeSlot(u);
      if rs[k - 1].valid == 0 || i == |u| then (u, q)
      else (u[i := LoadedInode(d, rs[k - 1])], if IsRoot(rs[k - 1]) then i else q)
  }

  predicate HasNum(x: Inode, n: nat)
  {
    x.valid && x.num == n
  }

  /** find_inode_by_num: the lowest live slot with that number. */
  function FindNum(t: seq<Inode>, n: nat): (i: int)
    ensures i == NULL || (0 <= i < |t| && HasNum(t[i], n))
    ensures forall j {:trigger HasNum(t[j], n)} | 0 <= j < (if i == NULL then |t| else i) :: !HasNum(t[j], n)
  {
    if t == [] then NULL
    else if HasNum(t[0], n) then 0
    else
      var i := FindNum(t[1..], n);
      if i == NULL then NULL else i + 1
  }

  /** Slot `node` gets slot `q` for a parent and, if that is a directory, heads its child list. */
  function LinkUnder(t: seq<Inode>, node: nat, q: int): (u: seq<Inode>)
    requires node < |t|
    ensures |u| == |t|
  {
    var t1 := t[node := t[node].(parent := q)];
    if 0 <= q < |t1| && t1[q].kind == FS_TYPE_DIR then
      var t2 := t1[node := t1[node].(next := t1[q].child)];
      t2[q := t2[q].(child := node)]
    else t1
  }

  /** Second pass, one record: set the parent and push onto its child list. */
  function Link(t: seq<Inode>, r: Record): (u: seq<Inode>)
    ensures |u| == |t|
  {
    var node := FindNum(t, r.num);
    if r.valid == 0 || node == NULL then t
    else LinkUnder(t, node, if r.parent > 0 then FindNum(t, r.parent) else t[node].parent)
  }

  function LinkAll(t: seq<Inode>, rs: seq<Record>, k: nat): (u: seq<Inode>)
    requires k <= |rs|
    ensures |u| == |t|
  {
    if k == 0 then t else Link(LinkAll(t, rs, k - 1), rs[k - 1])
  }

  // -------------------------------------------------------- records of a tree

  ghost predicate Differ(rs: seq<Record>, i: nat, j: nat)
    requires i < |rs| && j < |rs|
  {
    rs[i].num != rs[j].num
  }

  ghost predicate NumsDiffer(rs: seq<Record>)
  {
    forall i, j {:trigger Differ(rs, i, j)} | 0 <= i < j < |rs| :: Differ(rs, i, j)
  }

  /** Record `i` is the record of an inode of the tree. */
  ghost predicate RecordOk(rs: seq<Record>, tree: Tree, i: nat)
    requires i < |rs|
  {
    && rs[i].valid == 1 && rs[i].num in tree.nodes
    && tree.nodes[rs[i].num].(bytes := []) == Entry(rs[i].name, rs[i].kind, rs[i].parent, [])
  }

  /** The records describe exactly the inodes of a tree. */
  ghost predicate Describes(rs: seq<Record>, tree: Tree)
  {
    && NumsDiffer(rs)
    && (forall i {:trigger RecordOk(rs, tree, i)} | 0 <= i < |rs| :: RecordOk(rs, tree, i))
    && (forall n {:trigger HasRecord(rs, n)} | n in tree.nodes :: HasRecord(rs, n))
  }

  ghost predicate HasRecord(rs: seq<Record>, n: nat)
  {
    exists i :: 0 <= i < |rs| && rs[i].num == n
  }

  /** The children linked to inode `d` after `k` records: the latest first. */
  function KidsUpTo(rs: seq<Record>, d: nat, k: nat): (r: seq<nat>)
    requires k <= |rs|
  {
    if k == 0 then []
    else if rs[k - 1].parent == d then [rs[k - 1].num] + KidsUpTo(rs, d, k - 1)
    else KidsUpTo(rs, d, k - 1)
  }

  lemma {:induction false} InKidsUpTo(rs: seq<Record>, d: nat, k: nat, n: nat)
    requires k <= |rs|
    ensures n in KidsUpTo(rs, d, k) <==> exists i :: 0 <= i < k && rs[i].num == n && rs[i].parent == d
  {
    if k > 0 {
      InKidsUpTo(rs, d, k - 1, n);
      if rs[k - 1].parent == d {
        assert KidsUpTo(rs, d, k)[0] == rs[k - 1].num;
        assert KidsUpTo(rs, d, k)[1..] == KidsUpTo(rs, d, k - 1);
      }
    }
  }

  lemma {:induction false} KidsUpToDistinct(rs: seq<Record>, d: nat, k: nat)
    requires k <= |rs| && NumsDiffer(rs)
    ensures Distinct(KidsUpTo(rs, d, k))
  {
    if k > 0 {
      KidsUpToDistinct(rs, d, k - 1);
      NotYetLinked(rs, d, k - 1);
    }
  }

  /** Record `k` is not among the children linked before it. */
  lemma NotYetLinked(rs: seq<Record>, d: nat, k: nat)
    requires k < |rs| && NumsDiffer(rs)
    ensures rs[k].num !in KidsUpTo(rs, d, k)
  {
    InKidsUpTo(rs, d, k, rs[k].num);
    forall i | 0 <= i < k ensures rs[i].num != rs[k].num { assert Differ(rs, i, k); }
  }

  /** The tree that loading builds: the same entries, siblings in reverse table order. */
  ghost function LoadedTree(rs: seq<Record>, tree: Tree): Tree
  {
    tree.(kids := map d | d in tree.kids :: KidsUpTo(rs, d, |rs|), cur := tree.root)
  }

  lemma LoadedTreeWellFormed(rs: seq<Record>, tree: Tree)
    requires WellFormed(tree) && Describes(rs, tree)
    ensures WellFormed(LoadedTree(rs, tree))
  {
    var u := LoadedTree(rs, tree);
    forall n | n in u.nodes ensures NodeOk(u, n) {
      assert NodeOk(tree, n);
      RecordIndex(rs, tree, n);
      InKidsUpTo(rs, u.nodes[n].parent, |rs|, n);
    }
    forall d | d in u.kids ensures ListOk(u, d) {
      assert ListOk(tree, d);
      KidsUpToDistinct(rs, d, |rs|);
      forall c | c in u.kids[d] ensures c in u.nodes && u.nodes[c].parent == d {
        InKidsUpTo(rs, d, |rs|, c);
        var i :| 0 <= i < |rs| && rs[i].num == c && rs[i].parent == d;
        assert RecordOk(rs, tree, i);
      }
    }
  }

  /** Every inode of the tree has one record, and it is right. */
  lemma RecordIndex(rs: seq<Record>, tree: Tree, n: nat)
    requires Describes(rs, tree) && n in tree.nodes
    ensures HasRecord(rs, n) && RecordOk(rs, tree, IndexOf(rs, n))
  {
    assert HasRecord(rs, n);
    assert RecordOk(rs, tree, IndexOf(rs, n));
  }

  lemma OneIndex(rs: seq<Record>, i: nat, j: nat)
    requires NumsDiffer(rs) && i < |rs| && j < |rs| && rs[i].num == rs[j].num
    ensures i == j
  {
    assert i < j ==> Differ(rs, i, j);
    assert j < i ==> Differ(rs, j, i);
  }

  // ------------------------------------------------------------------ linking

  /** A table whose first slots hold the records' inodes, in order, and whose other slots are free. */
  ghost predicate Holds(t: seq<Inode>, rs: seq<Record>)
  {
    && |rs| <= |t|
    && (forall i | 0 <= i < |rs| :: t[i].valid && t[i].num == rs[i].num && t[i].kind == rs[i].kind)
    && (forall i | |rs| <= i < |t| :: !t[i].valid)
  }

  lemma {:induction false} FindNumIs(t: seq<Inode>, n: nat, i: nat)
    requires i < |t| && HasNum(t[i], n)
    requires forall j {:trigger HasNum(t[j], n)} | 0 <= j < i :: !HasNum(t[j], n)
    ensures FindNum(t, n) == i
  {
    assert HasNum(t[i], n);
    var k := FindNum(t, n);
    if k != NULL { assert HasNum(t[k], n); }
  }

  ghost function IndexOf(rs: seq<Record>, n: nat): (i: nat)
    requires HasRecord(rs, n)
    ensures i < |rs| && rs[i].num == n
  {
    var i :| 0 <= i < |rs| && rs[i].num == n;
    i
  }

  lemma FoundInTable(t: seq<Inode>, rs: seq<Record>, i: nat)
    requires Holds(t, rs) && NumsDiffer(rs) && i < |rs|
    ensures FindNum(t, rs[i].num) == i
  {
    forall j | 0 <= j < i ensures !HasNum(t[j], rs[i].num) { assert Differ(rs, j, i); }
    FindNumIs(t, rs[i].num, i);
  }

  /** Slot `i` differs from its unlinked form in its links only. */
  ghost predicate SameFields(p: seq<Inode>, t: seq<Inode>, i: nat)
    requires i < |p| && i < |t|
  {
    t[i].(parent := 0, next := 0, child := 0) == p[i].(parent := 0, next := 0, child := 0)
  }

  ghost predicate ParentSet(t: seq<Inode>, rs: seq<Record>, k: nat, i: nat)
    requires i < |rs| && i < |t|
  {
    t[i].parent == if i < k && rs[i].parent > 0 && HasRecord(rs, rs[i].parent) then IndexOf(rs, rs[i].parent) else NULL
  }

  ghost predicate ChainSet(t: seq<Inode>, rs: seq<Record>, k: nat, i: nat)
    requires i < |rs| && i < |t| && k <= |rs|
  {
    rs[i].kind == FS_TYPE_DIR ==> Chain(t, t[i].child, KidsUpTo(rs, rs[i].num, k))
  }

  /** Progress of the second pass: `k` records linked, nothing but links changed. */
  ghost predicate LinkedUpTo(p: seq<Inode>, t: seq<Inode>, rs: seq<Record>, k: nat)
    requires k <= |rs|
  {
    && Holds(t, rs) && |p| == |t|
    && (forall i {:trigger SameFields(p, t, i)} | 0 <= i < |rs| :: SameFields(p, t, i))
    && (forall i {:trigger ParentSet(t, rs, k, i)} | 0 <= i < |rs| :: ParentSet(t, rs, k, i))
    && (forall i {:trigger ChainSet(t, rs, k, i)} | 0 <= i < |rs| :: ChainSet(t, rs, k, i))
  }

  lemma {:induction false} LinkAllLinks(p: seq<Inode>, rs: seq<Record>, tree: Tree, k: nat)
    requires WellFormed(tree) && Describes(rs, tree) && k <= |rs|
    requires LinkedUpTo(p, p, rs, 0)
    ensures LinkedUpTo(p, LinkAll(p, rs, k), rs, k)
  {
    if k > 0 {
      LinkAllLinks(p, rs, tree, k - 1);
      LinkOne(p, LinkAll(p, rs, k - 1), rs, tree, k - 1);
    }
  }

  lemma LinkOne(p: seq<Inode>, t: seq<Inode>, rs: seq<Record>, tree: Tree, k: nat)
    requires WellFormed(tree) && Describes(rs, tree) && k < |rs|
    requires LinkedUpTo(p, t, rs, k)
    ensures LinkedUpTo(p, Link(t, rs[k]), rs, k + 1)
  {
    var r := rs[k];
    assert RecordOk(rs, tree, k) && NodeOk(tree, r.num);
    FoundInTable(t, rs, k);
    if r.num == tree.root {
      assert r.parent == 0;
      LinkRoot(p, t, rs, tree, k);
    } else {
      assert ListOk(tree, r.parent) && NodeOk(tree, r.parent);
      RecordIndex(rs, tree, r.parent);
      var q := IndexOf(rs, r.parent);
      FoundInTable(t, rs, q);
      LinkChild(p, t, rs, k, q);
    }
  }

  /** The root's record links nothing. */
  lemma LinkRoot(p: seq<Inode>, t: seq<Inode>, rs: seq<Record>, tree: Tree, k: nat)
    requires WellFormed(tree) && Describes(rs, tree) && k < |rs| && rs[k].parent == 0
    requires LinkedUpTo(p, t, rs, k) && FindNum(t, rs[k].num) == k
    ensures LinkedUpTo(p, Link(t, rs[k]), rs, k + 1)
  {
    assert ParentSet(t, rs, k, k);
    assert Link(t, rs[k]) == t;
    var m := k + 1;
    forall i | 0 <= i < |rs| ensures ParentSet(t, rs, m, i) && ChainSet(t, rs, m, i) {
      assert ParentSet(t, rs, k, i) && ChainSet(t, rs, k, i);
      assert RecordOk(rs, tree, i) && NodeOk(tree, rs[i].num);
    }
  }

  /** Linking record `k` under the directory in slot `q`. */
  lemma LinkChild(p: seq<Inode>, t: seq<Inode>, rs: seq<Record>, k: nat, q: nat)
    requires k < |rs| && LinkedUpTo(p, t, rs, k) && NumsDiffer(rs)
    requires q < |rs| && q != k && rs[q].num == rs[k].parent && rs[q].kind == FS_TYPE_DIR
    requires rs[k].parent > 0 && HasRecord(rs, rs[k].parent) && q == IndexOf(rs, rs[k].parent)
    requires rs[k].valid == 1 && FindNum(t, rs[k].num) == k && FindNum(t, rs[k].parent) == q
    ensures LinkedUpTo(p, Link(t, rs[k]), rs, k + 1)
  {
    LinkIs(t, rs[k], k, q);
    ChildLinked(p, t, rs, k, q);
  }

  lemma ChildLinked(p: seq<Inode>, t: seq<Inode>, rs: seq<Record>, k: nat, q: nat)
    requires k < |rs| && LinkedUpTo(p, t, rs, k) && NumsDiffer(rs)
    requires q < |rs| && q != k && rs[q].num == rs[k].parent
    requires rs[k].parent > 0 && HasRecord(rs, rs[k].parent) && q == IndexOf(rs, rs[k].parent)
    ensures var u := t[k := t[k].(parent := q, next := t[q].child)][q := t[q].(child := k)];
      LinkedUpTo(p, u, rs, k + 1)
  {
    var u := t[k := t[k].(parent := q, next := t[q].child)][q := t[q].(child := k)];
    var m := k + 1;
    forall i | 0 <= i < |rs|
      ensures SameFields(p, u, i) && ParentSet(u, rs, m, i) && ChainSet(u, rs, m, i)
    {
      assert SameFields(p, t, i) && ParentSet(t, rs, k, i) && ChainSet(t, rs, k, i);
      if rs[i].kind == FS_TYPE_DIR { LinkChildChain(t, rs, k, q, i); }
    }
  }

  lemma LinkIs(t: seq<Inode>, r: Record, k: nat, q: nat)
    requires k < |t| && q < |t| && k != q && r.valid == 1 && r.parent > 0
    requires FindNum(t, r.num) == k && FindNum(t, r.parent) == q && t[q].kind == FS_TYPE_DIR
    ensures Link(t, r) == t[k := t[k].(parent := q, next := t[q].child)][q := t[q].(child := k)]
  {
    LinkUnderIs(t, k, q);
  }

  lemma LinkUnderIs(t: seq<Inode>, k: nat, q: nat)
    requires k < |t| && q < |t| && k != q && t[q].kind == FS_TYPE_DIR
    ensures LinkUnder(t, k, q) == t[k := t[k].(parent := q, next := t[q].child)][q := t[q].(child := k)]
  {
  }

  lemma LinkChildChain(t: seq<Inode>, rs: seq<Record>, k: nat, q: nat, i: nat)
    requires Holds(t, rs) && k < |rs| && q < |rs| && q != k && i < |rs| && NumsDiffer(rs)
    requires rs[q].num == rs[k].parent
    requires Chain(t, t[i].child, KidsUpTo(rs, rs[i].num, k))
    ensures var u := t[k := t[k].(parent := q, next := t[q].child)][q := t[q].(child := k)];
      Chain(u, u[i].child, KidsUpTo(rs, rs[i].num, k + 1))
  {
    var u := t[k := t[k].(parent := q, next := t[q].child)][q := t[q].(child := k)];
    var ns := KidsUpTo(rs, rs[i].num, k);
    NotYetLinked(rs, rs[i].num, k);
    ChainFrame(t, u, t[i].child, ns);
    if i == q {
      var longer := KidsUpTo(rs, rs[i].num, k + 1);
      assert longer == [rs[k].num] + ns && longer[1..] == ns;
    } else if rs[i].num == rs[q].num {
      OneIndex(rs, i, q);
    }
  }

  // ------------------------------------------------------------ representation

  ghost function SlotMap(rs: seq<Record>): map<nat, int>
  {
    map n | n in Nums(rs) :: IndexOf(rs, n)
  }

  ghost function Nums(rs: seq<Record>): (r: set<nat>)
    ensures forall n | n in r :: HasRecord(rs, n)
  {
    set i | 0 <= i < |rs| :: rs[i].num
  }

  lemma SlotMapAt(rs: seq<Record>, i: nat)
    requires NumsDiffer(rs) && i < |rs|
    ensures rs[i].num in SlotMap(rs) && SlotMap(rs)[rs[i].num] == i
  {
    assert rs[i].num in Nums(rs);
    OneIndex(rs, i, IndexOf(rs, rs[i].num));
  }

  /** A fully linked table represents the loaded tree. */
  lemma LinkedRepresents(p: seq<Inode>, t: seq<Inode>, rs: seq<Record>, tree: Tree)
    requires WellFormed(tree) && Describes(rs, tree) && |t| == MAX_INODES
    requires LinkedUpTo(p, t, rs, |rs|) && AllPlacedWell(p, rs, tree)
    ensures Represents(t, SlotMap(rs), LoadedTree(rs, tree))
  {
    forall i | 0 <= i < |t| && t[i].valid ensures SlotOk(t, SlotMap(rs), LoadedTree(rs, tree), i) {
      LinkedSlot(p, t, rs, tree, i);
    }
    forall n | n in tree.nodes ensures NumOk(t, SlotMap(rs), n) {
      RecordIndex(rs, tree, n);
      SlotMapAt(rs, IndexOf(rs, n));
    }
  }

  ghost predicate AllPlacedWell(p: seq<Inode>, rs: seq<Record>, tree: Tree)
  {
    |rs| <= |p| && forall i {:trigger PlacedWell(p[i], rs[i], tree)} | 0 <= i < |rs| :: PlacedWell(p[i], rs[i], tree)
  }

  /** A placed inode carries its record's fields and its file's bytes. */
  ghost predicate PlacedWell(x: Inode, r: Record, tree: Tree)
  {
    && x.name == r.name && x.kind == r.kind && x.size == r.size && x.num == r.num && x.num in tree.nodes
    && Contents(x) == tree.nodes[x.num].bytes
    && (x.kind == FS_TYPE_FILE ==> BufferOk(x))
    && (x.kind == FS_TYPE_DIR ==> x.size == 0)
  }

  lemma LinkedSlot(p: seq<Inode>, t: seq<Inode>, rs: seq<Record>, tree: Tree, i: int)
    requires WellFormed(tree) && Describes(rs, tree)
    requires LinkedUpTo(p, t, rs, |rs|) && AllPlacedWell(p, rs, tree)
    requires 0 <= i < |t| && t[i].valid
    ensures SlotOk(t, SlotMap(rs), LoadedTree(rs, tree), i)
  {
    assert SameFields(p, t, i) && ChainSet(t, rs, |rs|, i);
    assert PlacedWell(p[i], rs[i], tree);
    assert Contents(t[i]) == Contents(p[i]);
    assert RecordOk(rs, tree, i) && NodeOk(tree, rs[i].num);
    SlotMapAt(rs, i);
    LinkedParent(p, t, rs, tree, i);
  }

  lemma LinkedParent(p: seq<Inode>, t: seq<Inode>, rs: seq<Record>, tree: Tree, i: int)
    requires WellFormed(tree) && Describes(rs, tree) && LinkedUpTo(p, t, rs, |rs|) && 0 <= i < |rs|
    ensures ParentNum(t, i) == rs[i].parent
    ensures t[i].parent == NULL || (0 <= t[i].parent < |t| && t[t[i].parent].valid)
  {
    var r := rs[i];
    assert ParentSet(t, rs, |rs|, i) && RecordOk(rs, tree, i) && NodeOk(tree, r.num);
    if r.num != tree.root {
      assert ListOk(tree, r.parent) && NodeOk(tree, r.parent);
      RecordIndex(rs, tree, r.parent);
    }
  }

  // ------------------------------------------------------------ the round trip

  lemma {:induction false} LiveSlotsAscend(t: seq<Inode>, k: nat)
    requires k <= |t|
    ensures forall i, j | 0 <= i < j < |LiveSlots(t, k)| :: LiveSlots(t, k)[i] < LiveSlots(t, k)[j]
    ensures forall i | 0 <= i < k && t[i].valid :: i in LiveSlots(t, k)
  {
    if k > 0 {
      LiveSlotsAscend(t, k - 1);
      if t[k - 1].valid {
        var r := LiveSlots(t, k - 1);
        assert (r + [k - 1])[|r|] == k - 1;
        assert forall i | i in r :: i in r + [k - 1];
      }
    }
  }

  lemma {:induction false} LiveSlotsCount(t: seq<Inode>, k: nat)
    requires k <= |t|
    requires forall i, j | 0 <= i < j < |t| && t[i].valid && t[j].valid :: t[i].num != t[j].num
    ensures |LiveSlots(t, k)| == |ValidNums(t, k)|
  {
    if k > 0 {
      LiveSlotsCount(t, k - 1);
      if t[k - 1].valid { FreshNum(t, k - 1); }
    }
  }

  lemma RepresentedIsSavable(t: seq<Inode>, slot: map<nat, int>, tree: Tree)
    requires Represents(t, slot, tree) && WellFormed(tree) && tree.next <= WORD
    ensures Savable(t)
    ensures |LiveSlots(t, |t|)| == |tree.nodes|
  {
    forall i | 0 <= i < |t| && t[i].valid
      ensures && |t[i].name| <= NAME_MAX && t[i].kind < WORD && t[i].num < WORD && ParentOf(t, t[i]) < WORD
              && t[i].size <= MAX_FILE_SIZE && (t[i].kind == FS_TYPE_FILE ==> |t[i].bytes| == MAX_FILE_SIZE)
    {
      assert SlotOk(t, slot, tree, i) && NodeOk(tree, t[i].num);
      if t[i].parent != NULL {
        assert SlotOk(t, slot, tree, t[i].parent) && NodeOk(tree, t[t[i].parent].num);
      }
    }
    SlotsInjective(t, slot, tree);
    LiveSlotsCount(t, |t|);
    AllNumsValid(t, slot, tree);
  }

  /** Up to 256 inodes the records describe the whole tree. */
  lemma RecordsDescribe(t: seq<Inode>, slot: map<nat, int>, tree: Tree)
    requires Represents(t, slot, tree) && WellFormed(tree) && tree.next <= WORD
    requires |tree.nodes| <= FS_MAX_INODES_ON_DISK
    ensures |Collect(t)| == |tree.nodes|
    ensures Describes(Records(t, Collect(t)), tree)
  {
    RepresentedIsSavable(t, slot, tree);
    LiveSlotsAscend(t, |t|);
    var ns := Collect(t);
    var rs := Records(t, ns);
    forall i, j | 0 <= i < j < |rs| ensures Differ(rs, i, j) {
      assert SlotOk(t, slot, tree, ns[i]) && SlotOk(t, slot, tree, ns[j]);
      assert ns[i] < ns[j];
    }
    forall i | 0 <= i < |rs| ensures RecordOk(rs, tree, i) {
      assert SlotOk(t, slot, tree, ns[i]);
    }
    forall n | n in tree.nodes ensures HasRecord(rs, n) {
      assert NumOk(t, slot, n);
      var i :| 0 <= i < |ns| && ns[i] == slot[n];
      assert rs[i].num == n;
    }
  }

  /** fs_load reads back the very records fs_save wrote. */
  lemma RecordsReadBack(d: Disk, t: seq<Inode>)
    requires Savable(t) && Collect(t) != []
    ensures Header(Save(d, t)) == Some(|Collect(t)|)
    ensures DiskRecords(Save(d, t), |Collect(t)|) == Records(t, Collect(t))
  {
    SavedHeader(d, t);
    SavedTable(d, t);
    var ns := Collect(t);
    RecordsEncodable(t, ns);
    var rs := Records(t, ns);
    forall i | 0 <= i < |rs| ensures DiskRecords(Save(d, t), |ns|)[i] == rs[i] {
      TableBack(rs, i);
    }
  }

  /** First pass on an empty table: record `i` lands in slot `i`, and the root is found by its name. */
  lemma {:induction false} PlacedTable(d: Disk, t: seq<Inode>, rs: seq<Record>, k: nat)
    requires k <= |rs| <= |t| && SaneSizes(rs)
    requires forall i | 0 <= i < |t| :: !t[i].valid
    requires forall i | 0 <= i < |rs| :: rs[i].valid == 1
    ensures PlacedOk(d, Placed(d, t, NULL, rs, k), rs, k)
  {
    if k > 0 {
      PlacedTable(d, t, rs, k - 1);
      var (u, root) := Placed(d, t, NULL, rs, k - 1);
      FreeSlotIs(u, k - 1);
    }
  }

  /** The first `k` records sit in the first `k` slots; the root pointer names a record that is one. */
  ghost predicate PlacedOk(d: Disk, p: (seq<Inode>, int), rs: seq<Record>, k: nat)
    requires k <= |rs| && SaneSizes(rs)
  {
    var (u, root) := p;
    && k <= |u|
    && (forall i {:trigger u[i]} | 0 <= i < k :: u[i] == LoadedInode(d, rs[i]))
    && (forall i {:trigger u[i]} | k <= i < |u| :: !u[i].valid)
    && (root == NULL || (0 <= root < k && IsRoot(rs[root])))
    && (root == NULL ==> forall i {:trigger IsRoot(rs[i])} | 0 <= i < k :: !IsRoot(rs[i]))
  }

  lemma FreeSlotIs(t: seq<Inode>, k: nat)
    requires k < |t| && !t[k].valid && forall i | 0 <= i < k :: t[i].valid
    ensures FreeSlot(t) == k
  {
  }

  /** A file's buffer comes back whole: its sectors from the disk, the rest zero as it always was. */
  lemma FilePlacedWell(d: Disk, t: seq<Inode>, slot: map<nat, int>, tree: Tree, i: nat)
    requires Represents(t, slot, tree) && WellFormed(tree) && Savable(t)
    requires i < |Collect(t)| && (|Collect(t)| <= 117 || !HasData(t[Collect(t)[i]]))
    ensures SaneSizes(Records(t, Collect(t)))
    ensures PlacedWell(LoadedInode(Save(d, t), RecordOf(t, Collect(t), i)), RecordOf(t, Collect(t), i), tree)
  {
    var ns := Collect(t);
    var x := t[ns[i]];
    var r := RecordOf(t, ns, i);
    assert SlotOk(t, slot, tree, ns[i]);
    var y := LoadedInode(Save(d, t), r);
    if x.kind == FS_TYPE_FILE {
      if HasData(x) {
        SavedFile(d, t, i);
        TailIsZero(x, DataOf(x));
      } else {
        TailIsZero(x, []);
        assert [] + Zeros(MAX_FILE_SIZE) == Zeros(MAX_FILE_SIZE);
      }
      assert y.bytes == x.bytes;
    }
    assert Contents(y) == Contents(x);
  }

  lemma TailIsZero(x: Inode, front: seq<byte>)
    requires BufferOk(x) && x.size <= |front| <= MAX_FILE_SIZE && front == x.bytes[..|front|]
    ensures front + Zeros(MAX_FILE_SIZE - |front|) == x.bytes
  {
  }

  /** The table and root pointer fs_load leaves in an empty table. */
  ghost function Load(d: Disk, t: seq<Inode>): (r: Option<(seq<Inode>, int)>)
    requires Header(d).Some? ==> SaneSizes(DiskRecords(d, Header(d).value))
  {
    match Header(d)
    case None => None
    case Some(count) =>
      var rs := DiskRecords(d, count);
      var (u, root) := Placed(d, t, NULL, rs, count);
      if root == NULL then None else Some((LinkAll(u, rs, count), root))
  }

  /** The inode table stays below the file data, or it fits the disk and there is no file data. */
  ghost predicate Preservable(t: seq<Inode>)
  {
    var n := |LiveSlots(t, |t|)|;
    || n <= 117
    || (n <= FS_MAX_INODES_ON_DISK && forall i {:trigger t[i].valid} | 0 <= i < |t| && t[i].valid :: !HasData(t[i]))
  }

  /**
   Save, then load into an empty table: with at most 117 inodes, or at most 256 and
   no file data, the result represents a well-formed tree with the same root and the
   same entry for every inode (name, type, parent, bytes), so also the same children;
   only the order of siblings may differ, and the current directory becomes the root.
   */
  lemma SaveLoadRoundTrip(d: Disk, t: seq<Inode>, slot: map<nat, int>, tree: Tree, empty: seq<Inode>)
    returns (slot2: map<nat, int>, tree2: Tree)
    requires Represents(t, slot, tree) && WellFormed(tree) && tree.next <= WORD
    requires Preservable(t)
    requires |empty| == MAX_INODES && forall i | 0 <= i < |empty| :: !empty[i].valid
    ensures Savable(t)
    ensures Header(Save(d, t)).Some? && SaneSizes(DiskRecords(Save(d, t), Header(Save(d, t)).value))
    ensures var r := Load(Save(d, t), empty);
      && r.Some? && Represents(r.value.0, slot2, tree2)
      && tree2.root in slot2 && r.value.1 == slot2[tree2.root]
    ensures WellFormed(tree2) && tree2 == tree.(kids := tree2.kids, cur := tree.root)
    ensures tree2.kids.Keys == tree.kids.Keys
    ensures forall n | n in tree.kids :: multiset(tree2.kids[n]) == multiset(tree.kids[n])
  {
    SavedLoads(d, t, slot, tree, empty);
    var rs := Records(t, Collect(t));
    slot2, tree2 := SlotMap(rs), LoadedTree(rs, tree);
    RecordsDescribe(t, slot, tree);
    LoadedTreeWellFormed(rs, tree);
    SameEntriesSameChildren(tree, tree2);
  }

  /** The loaded table represents the tree of the saved records, record i in slot i. */
  lemma SavedLoads(d: Disk, t: seq<Inode>, slot: map<nat, int>, tree: Tree, empty: seq<Inode>)
    requires Represents(t, slot, tree) && WellFormed(tree) && tree.next <= WORD
    requires Preservable(t)
    requires |empty| == MAX_INODES && forall i | 0 <= i < |empty| :: !empty[i].valid
    ensures Savable(t) && |tree.nodes| <= FS_MAX_INODES_ON_DISK
    ensures Header(Save(d, t)).Some? && SaneSizes(DiskRecords(Save(d, t), Header(Save(d, t)).value))
    ensures var r, rs := Load(Save(d, t), empty), Records(t, Collect(t));
      && r.Some? && Represents(r.value.0, SlotMap(rs), LoadedTree(rs, tree))
      && tree.root in SlotMap(rs) && r.value.1 == SlotMap(rs)[tree.root]
  {
    RepresentedIsSavable(t, slot, tree);
    RecordsDescribe(t, slot, tree);
    assert RootOk(tree);
    var ns := Collect(t);
    assert |ns| == |tree.nodes| > 0;
    var rs := Records(t, ns);
    RecordsReadBack(d, t);
    forall i | 0 <= i < |rs|
      ensures SaneSizes(rs) && PlacedWell(LoadedInode(Save(d, t), rs[i]), rs[i], tree)
    {
      FilePlacedWell(d, t, slot, tree, i);
    }
    FilePlacedWell(d, t, slot, tree, 0);
    LoadRepresents(Save(d, t), rs, tree, empty);
  }

  /** Loading well-placed records of a tree. */
  lemma LoadRepresents(d: Disk, rs: seq<Record>, tree: Tree, empty: seq<Inode>)
    requires WellFormed(tree) && Describes(rs, tree)
    requires Header(d) == Some(|rs|) && DiskRecords(d, |rs|) == rs && |rs| <= |empty| && SaneSizes(rs)
    requires |empty| == MAX_INODES && forall i | 0 <= i < |empty| :: !empty[i].valid
    requires AllLoadWell(d, rs, tree)
    ensures var r := Load(d, empty);
      && r.Some? && Represents(r.value.0, SlotMap(rs), LoadedTree(rs, tree))
      && tree.root in SlotMap(rs) && r.value.1 == SlotMap(rs)[tree.root]
  {
    var (u, root) := Placed(d, empty, NULL, rs, |rs|);
    PlacedUnlinked(d, rs, tree, empty);
    LinkingRepresents(u, rs, tree);
    LoadIs(d, rs, empty);
  }

  lemma LoadIs(d: Disk, rs: seq<Record>, empty: seq<Inode>)
    requires Header(d) == Some(|rs|) && DiskRecords(d, |rs|) == rs && SaneSizes(rs)
    ensures Load(d, empty) ==
      var (u, root) := Placed(d, empty, NULL, rs, |rs|);
      if root == NULL then None else Some((LinkAll(u, rs, |rs|), root))
  {
  }

  lemma LinkingRepresents(u: seq<Inode>, rs: seq<Record>, tree: Tree)
    requires WellFormed(tree) && Describes(rs, tree) && |u| == MAX_INODES
    requires LinkedUpTo(u, u, rs, 0) && AllPlacedWell(u, rs, tree)
    ensures Represents(LinkAll(u, rs, |rs|), SlotMap(rs), LoadedTree(rs, tree))
  {
    LinkAllLinks(u, rs, tree, |rs|);
    LinkedRepresents(u, LinkAll(u, rs, |rs|), rs, tree);
  }

  /** After the first pass the inodes are in place, unlinked, and the root is known. */
  lemma PlacedUnlinked(d: Disk, rs: seq<Record>, tree: Tree, empty: seq<Inode>)
    requires WellFormed(tree) && Describes(rs, tree) && |rs| <= |empty| && SaneSizes(rs)
    requires forall i | 0 <= i < |empty| :: !empty[i].valid
    requires AllLoadWell(d, rs, tree)
    ensures var (u, root) := Placed(d, empty, NULL, rs, |rs|);
      && LinkedUpTo(u, u, rs, 0) && AllPlacedWell(u, rs, tree)
      && tree.root in SlotMap(rs) && root == SlotMap(rs)[tree.root]
  {
    forall i | 0 <= i < |rs| ensures rs[i].valid == 1 { assert RecordOk(rs, tree, i); }
    PlacedTable(d, empty, rs, |rs|);
    var (u, root) := Placed(d, empty, NULL, rs, |rs|);
    PlacedIsUnlinked(d, (u, root), rs, tree);
    RootRecord(rs, tree);
    assert IsRoot(rs[IndexOf(rs, tree.root)]);
    SlotMapAt(rs, root);
  }

  ghost predicate AllLoadWell(d: Disk, rs: seq<Record>, tree: Tree)
    requires SaneSizes(rs)
  {
    forall i {:trigger PlacedWell(LoadedInode(d, rs[i]), rs[i], tree)} | 0 <= i < |rs| ::
      PlacedWell(LoadedInode(d, rs[i]), rs[i], tree)
  }

  lemma PlacedIsUnlinked(d: Disk, p: (seq<Inode>, int), rs: seq<Record>, tree: Tree)
    requires SaneSizes(rs) && PlacedOk(d, p, rs, |rs|) && AllLoadWell(d, rs, tree)
    ensures LinkedUpTo(p.0, p.0, rs, 0) && AllPlacedWell(p.0, rs, tree)
  {
    var u := p.0;
    forall i | 0 <= i < |rs| ensures PlacedWell(u[i], rs[i], tree) {
      assert PlacedWell(LoadedInode(d, rs[i]), rs[i], tree) && u[i] == LoadedInode(d, rs[i]);
    }
    forall i | 0 <= i < |rs| ensures ParentSet(u, rs, 0, i) && ChainSet(u, rs, 0, i) && SameFields(u, u, i) {
      assert u[i] == LoadedInode(d, rs[i]);
    }
    forall i | 0 <= i < |rs| ensures u[i].valid && u[i].num == rs[i].num && u[i].kind == rs[i].kind {
      assert u[i] == LoadedInode(d, rs[i]);
    }
  }

  /** Only the root's record has the name "/". */
  lemma RootRecord(rs: seq<Record>, tree: Tree)
    requires WellFormed(tree) && Describes(rs, tree)
    ensures HasRecord(rs, tree.root)
    ensures forall i | 0 <= i < |rs| :: IsRoot(rs[i]) <==> i == IndexOf(rs, tree.root)
  {
    assert RootOk(tree);
    RecordIndex(rs, tree, tree.root);
    forall i | 0 <= i < |rs| ensures IsRoot(rs[i]) <==> i == IndexOf(rs, tree.root) {
      assert RecordOk(rs, tree, i) && NodeOk(tree, rs[i].num);
      var s: CString := [SLASH];
      assert SLASH in s;
      if rs[i].num == tree.root { OneIndex(rs, i, IndexOf(rs, tree.root)); }
    }
  }

  /**
   Past 117 inodes the round trip fails: the first byte of the first non-empty
   file comes back right exactly when it happens to equal the ninth byte of the
   name field of the 118th inode.
   */
  lemma SaveLoadClobbers(d: Disk, t: seq<Inode>, i: nat)
    requires Savable(t) && 118 <= |Collect(t)| && i < |Collect(t)|
    requires HasData(t[Collect(t)[i]]) && forall j | 0 <= j < i :: !HasData(t[Collect(t)[j]])
    ensures var ns := Collect(t);
      var x := t[ns[i]];
      var y := LoadedInode(Save(d, t), RecordOf(t, ns, i));
      y.bytes != [] && (y.bytes[0] == x.bytes[0] <==> x.bytes[0] == EncodeName(t[ns[117]].name)[8])
  {
    SavedFileClobbered(d, t, i);
    var ns := Collect(t);
    var n := SectorsFor(t[ns[i]].size);
    assert ReadSectors(Save(d, t), FS_DATA_BLOCKS_LBA, n)[0] == ReadSectors(Save(d, t), FS_DATA_BLOCKS_LBA, 1)[0];
  }

  /** Past 256 inodes the image does not even name them all. */
  lemma SaveDropsInodes(d: Disk, t: seq<Inode>, slot: map<nat, int>, tree: Tree)
    requires Represents(t, slot, tree) && WellFormed(tree) && tree.next <= WORD
    requires |tree.nodes| > FS_MAX_INODES_ON_DISK
    ensures Savable(t) && Header(Save(d, t)) == Some(FS_MAX_INODES_ON_DISK)
    ensures exists n :: n in tree.nodes && !HasRecord(DiskRecords(Save(d, t), FS_MAX_INODES_ON_DISK), n)
  {
    RepresentedIsSavable(t, slot, tree);
    var all := LiveSlots(t, |t|);
    LiveSlotsAscend(t, |t|);
    SlotsInjective(t, slot, tree);
    var ns := Collect(t);
    assert ns == all[..256];
    RecordsReadBack(d, t);
    var rs := Records(t, ns);
    var last := all[256];
    assert SlotOk(t, slot, tree, last);
    assert !HasRecord(rs, t[last].num) by {
      forall j | 0 <= j < |rs| ensures rs[j].num != t[last].num { assert ns[j] == all[j] < last; }
    }
  }

  /**
   The inode counter is not part of the image, so a number may be handed out twice.
   An inode created in the first free slot is the one its number leads to exactly
   unless an inode in a lower slot has that number.  Of two inodes with the same
   number the one in the lower slot is found, and the other one cannot be reached
   through it any more, be it the new one or the old one.  Other numbers lead where they led.
   */
  lemma CreatedIsFound(t: seq<Inode>, slot: map<nat, int>, tree: Tree, x: Inode)
    requires Represents(t, slot, tree) && x.valid && FreeSlot(t) < |t|
    ensures x.num in tree.nodes ==> x.num in slot && slot[x.num] != FreeSlot(t)
    ensures var i, u := FreeSlot(t), t[FreeSlot(t) := x];
      && (FindNum(u, x.num) == i <==> !(x.num in tree.nodes && slot[x.num] < i))
      && (x.num in tree.nodes ==> FindNum(u, x.num) == if slot[x.num] < i then slot[x.num] else i)
      && (forall n: nat {:trigger FindNum(u, n)} | n != x.num :: FindNum(u, n) == FindNum(t, n))
  {
    var i := FreeSlot(t);
    var u := t[i := x];
    if x.num in tree.nodes {
      assert NumOk(t, slot, x.num);
    }
    forall j | 0 <= j < i && HasNum(u[j], x.num) ensures x.num in tree.nodes && slot[x.num] == j {
      assert SlotOk(t, slot, tree, j);
    }
    FindNumIs(u, x.num, if x.num in tree.nodes && slot[x.num] < i then slot[x.num] else i);
    forall n: nat | n != x.num ensures FindNum(u, n) == FindNum(t, n) {
      OthersFound(t, i, x, n);
    }
  }

  lemma OthersFound(t: seq<Inode>, i: nat, x: Inode, n: nat)
    requires i < |t| && !t[i].valid && n != x.num
    ensures FindNum(t[i := x], n) == FindNum(t, n)
  {
    var u := t[i := x];
    forall j | 0 <= j < |t| ensures HasNum(u[j], n) == HasNum(t[j], n) { }
    var k := FindNum(t, n);
    if k != NULL { FindNumIs(u, n, k); }
  }
}
