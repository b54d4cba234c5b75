/**
 When exactly saving and loading preserves a file system, whatever the files hold.
 */
module FsExact {
  import opened Common
  import opened FsTree
  import opened FsTable
  import opened FsImage
  import opened FsLoad

  ghost predicate Empty(t: seq<Inode>)
  {
    |t| == MAX_INODES && forall i | 0 <= i < |t| :: !t[i].valid
  }

  /** The loaded table and root pointer hold the tree, up to the order of siblings. */
  ghost predicate Restores(r: (seq<Inode>, int), slot: map<nat, int>, tree2: Tree, tree: Tree)
  {
    && Represents(r.0, slot, tree2) && WellFormed(tree2)
    && tree2.root in slot && r.1 == slot[tree2.root]
    && tree2 == tree.(kids := tree2.kids, cur := tree.root)
  }

  ghost predicate Loadable(d: Disk)
  {
    Header(d).Some? && SaneSizes(DiskRecords(d, Header(d).value))
  }

  ghost predicate RoundTrips(d: Disk, t: seq<Inode>, tree: Tree, empty: seq<Inode>)
  {
    && Savable(t) && Loadable(Save(d, t)) && Load(Save(d, t), empty).Some?
    && exists slot, tree2 :: Restores(Load(Save(d, t), empty).value, slot, tree2, tree)
  }

  /** The two tables differ in what the files hold, and in nothing else. */
  ghost predicate SameShape(t: seq<Inode>, u: seq<Inode>)
  {
    |u| == |t| && forall i {:trigger u[i]} | 0 <= i < |t| :: u[i] == t[i].(bytes := u[i].bytes)
  }

  /** Saving and loading preserves the table whatever bytes its files hold. */
  ghost predicate AlwaysRoundTrips(d: Disk, t: seq<Inode>, slot: map<nat, int>, empty: seq<Inode>)
  {
    forall u, tree | SameShape(t, u) && Represents(u, slot, tree) && WellFormed(tree) && tree.next <= WORD ::
      RoundTrips(d, u, tree, empty)
  }

  /**
   Round trips for every contents happen exactly with at most 117 inodes, or at most
   256 and no file data: what a caller can check before fs_save.
   */
  lemma SaveLoadExact(d: Disk, t: seq<Inode>, slot: map<nat, int>, tree: Tree, empty: seq<Inode>)
    requires Represents(t, slot, tree) && WellFormed(tree) && tree.next <= WORD && Empty(empty)
    ensures AlwaysRoundTrips(d, t, slot, empty) <==> Preservable(t)
  {
    if Preservable(t) {
      forall u, tree' | SameShape(t, u) && Represents(u, slot, tree') && WellFormed(tree') && tree'.next <= WORD
        ensures RoundTrips(d, u, tree', empty)
      {
        SameLiveSlots(t, u, |t|);
        ShapeKeepsPreservable(t, u);
        var slot2, tree2 := SaveLoadRoundTrip(d, u, slot, tree', empty);
        assert Restores(Load(Save(d, u), empty).value, slot2, tree2, tree');
      }
    } else {
      RepresentedIsSavable(t, slot, tree);
      if |LiveSlots(t, |t|)| > FS_MAX_INODES_ON_DISK {
        assert SameShape(t, t);
        DroppedNotRestored(d, t, slot, tree, empty);
      } else {
        var u, tree' := Unlucky(d, t, slot, tree, empty);
        assert !RoundTrips(d, u, tree', empty);
      }
    }
  }

  lemma {:induction false} SameLiveSlots(t: seq<Inode>, u: seq<Inode>, k: nat)
    requires SameShape(t, u) && k <= |t|
    ensures LiveSlots(u, k) == LiveSlots(t, k)
  {
    if k > 0 {
      SameLiveSlots(t, u, k - 1);
      assert u[k - 1].valid == t[k - 1].valid;
    }
  }

  lemma ShapeKeepsPreservable(t: seq<Inode>, u: seq<Inode>)
    requires SameShape(t, u) && LiveSlots(u, |u|) == LiveSlots(t, |t|) && Preservable(t)
    ensures Preservable(u)
  {
    forall i | 0 <= i < |u| && u[i].valid && HasData(u[i]) ensures t[i].valid && HasData(t[i]) { }
  }

  // ------------------------------------------------------- what a load keeps

  lemma LinkKeepsFields(t: seq<Inode>, r: Record, i: nat)
    requires i < |t|
    ensures SameFields(t, Link(t, r), i)
  {
    var node := FindNum(t, r.num);
    if node != NULL { LinkUnderKeepsFields(t, node, if r.parent > 0 then FindNum(t, r.parent) else t[node].parent, i); }
  }

  lemma LinkUnderKeepsFields(t: seq<Inode>, node: nat, q: int, i: nat)
    requires node < |t| && i < |t|
    ensures SameFields(t, LinkUnder(t, node, q), i)
  {
  }

  lemma {:induction false} LinkAllKeepsFields(t: seq<Inode>, rs: seq<Record>, k: nat, i: nat)
    requires k <= |rs| && i < |t|
    ensures SameFields(t, LinkAll(t, rs, k), i)
  {
    if k > 0 {
      LinkAllKeepsFields(t, rs, k - 1, i);
      LinkKeepsFields(LinkAll(t, rs, k - 1), rs[k - 1], i);
    }
  }

  /** Slot `i` of a loaded table holds record `i` with the bytes read for it; the other slots are free. */
  lemma LoadedSlot(d: Disk, rs: seq<Record>, empty: seq<Inode>, i: nat)
    requires Empty(empty) && |rs| <= |empty| && SaneSizes(rs) && forall j | 0 <= j < |rs| :: rs[j].valid == 1
    requires Header(d) == Some(|rs|) && DiskRecords(d, |rs|) == rs && i < |empty|
    requires Load(d, empty).Some?
    ensures var u := Load(d, empty).value.0;
      && |u| == |empty| && (u[i].valid <==> i < |rs|)
      && (i < |rs| ==> u[i].num == rs[i].num && u[i].kind == rs[i].kind && u[i].size == rs[i].size
                       && u[i].bytes == LoadedBytes(d, rs[i]))
  {
    PlacedTable(d, empty, rs, |rs|);
    LoadIs(d, rs, empty);
    var p := Placed(d, empty, NULL, rs, |rs|).0;
    LinkAllKeepsFields(p, rs, |rs|, i);
    assert i < |rs| ==> p[i] == LoadedInode(d, rs[i]);
    assert i >= |rs| ==> !p[i].valid;
  }

  lemma SavedRecords(d: Disk, t: seq<Inode>, slot: map<nat, int>, tree: Tree)
    requires Represents(t, slot, tree) && WellFormed(tree) && Savable(t) && Collect(t) != []
    ensures var rs := Records(t, Collect(t));
      && Header(Save(d, t)) == Some(|rs|) && DiskRecords(Save(d, t), |rs|) == rs
      && SaneSizes(rs) && forall j | 0 <= j < |rs| :: rs[j].valid == 1
  {
    RecordsReadBack(d, t);
    forall i | 0 <= i < |Collect(t)| ensures t[Collect(t)[i]].size <= MAX_FILE_SIZE {
      assert t[Collect(t)[i]].valid;
    }
  }

  // ---------------------------------------------------------- where it fails

  /** An inode without a record is not in the loaded table. */
  lemma DroppedNotRestored(d: Disk, t: seq<Inode>, slot: map<nat, int>, tree: Tree, empty: seq<Inode>)
    requires Represents(t, slot, tree) && WellFormed(tree) && tree.next <= WORD && Empty(empty)
    requires |LiveSlots(t, |t|)| > FS_MAX_INODES_ON_DISK
    ensures !RoundTrips(d, t, tree, empty)
  {
    RepresentedIsSavable(t, slot, tree);
    SaveDropsInodes(d, t, slot, tree);
    SavedRecords(d, t, slot, tree);
    var rs := Records(t, Collect(t));
    var n :| n in tree.nodes && !HasRecord(rs, n);
    if Load(Save(d, t), empty).Some? {
      var r := Load(Save(d, t), empty).value;
      forall i | 0 <= i < |r.0| && r.0[i].valid ensures r.0[i].num != n {
        LoadedSlot(Save(d, t), rs, empty, i);
        assert r.0[i].num == rs[i].num;
      }
      forall slot2, tree2 ensures !Restores(r, slot2, tree2, tree) {
        assert !NumOk(r.0, slot2, n);
      }
    }
  }

  /** The first inode in saving order that has data. */
  lemma FirstData(t: seq<Inode>) returns (i: nat)
    requires 118 <= |LiveSlots(t, |t|)| <= FS_MAX_INODES_ON_DISK && !Preservable(t)
    ensures i < |Collect(t)| && HasData(t[Collect(t)[i]])
    ensures forall j | 0 <= j < i :: !HasData(t[Collect(t)[j]])
  {
    var ns := Collect(t);
    var k :| 0 <= k < |t| && t[k].valid && HasData(t[k]);
    LiveSlotsAscend(t, |t|);
    assert k in ns;
    i := 0;
    while i < |ns| && !HasData(t[ns[i]])
      invariant i <= |ns| && forall j | 0 <= j < i :: !HasData(t[ns[j]])
    {
      i := i + 1;
    }
  }

  /** Some contents of the same shape do not come back. */
  lemma Unlucky(d: Disk, t: seq<Inode>, slot: map<nat, int>, tree: Tree, empty: seq<Inode>)
    returns (u: seq<Inode>, tree2: Tree)
    requires Represents(t, slot, tree) && WellFormed(tree) && tree.next <= WORD && Empty(empty)
    requires 118 <= |LiveSlots(t, |t|)| <= FS_MAX_INODES_ON_DISK && !Preservable(t)
    ensures SameShape(t, u) && Represents(u, slot, tree2) && WellFormed(tree2) && tree2.next <= WORD
    ensures !RoundTrips(d, u, tree2, empty)
  {
    RepresentedIsSavable(t, slot, tree);
    var ns := Collect(t);
    var i := FirstData(t);
    var k := ns[i];
    assert t[ns[117]].valid && SlotOk(t, slot, tree, k);
    var clobber := EncodeName(t[ns[117]].name)[8];
    var b: byte := if clobber == 0 then 1 else 0;
    u, tree2 := WithFirstByte(t, slot, tree, k, b);
    SameLiveSlots(t, u, |t|);
    RepresentedIsSavable(u, slot, tree2);
    assert u[ns[117]].name == t[ns[117]].name;
    forall j | 0 <= j < i ensures !HasData(u[Collect(u)[j]]) { assert !HasData(t[ns[j]]); }
    ClobberedNotRestored(d, u, slot, tree2, empty, i);
  }

  /** The file in slot `k` with another first byte. */
  lemma WithFirstByte(t: seq<Inode>, slot: map<nat, int>, tree: Tree, k: nat, b: byte)
    returns (u: seq<Inode>, tree2: Tree)
    requires Represents(t, slot, tree) && WellFormed(tree) && k < |t| && t[k].valid && HasData(t[k])
    ensures SameShape(t, u) && Represents(u, slot, tree2) && WellFormed(tree2) && tree2.next == tree.next
    ensures u[k].bytes != [] && u[k].bytes[0] == b
  {
    var x := t[k];
    assert SlotOk(t, slot, tree, k) && NodeOk(tree, x.num);
    var bytes := x.bytes[0 := b];
    SetBytesRepresented(t, slot, tree, k, bytes, x.size);
    SetBytesKeepsWellFormed(tree, x.num, bytes[..x.size]);
    u, tree2 := t[k := x.(bytes := bytes, size := x.size)], SetBytes(tree, x.num, bytes[..x.size]);
  }

  /** From 118 inodes on, a first byte other than the one the table puts in its place is lost. */
  lemma ClobberedNotRestored(d: Disk, t: seq<Inode>, slot: map<nat, int>, tree: Tree, empty: seq<Inode>, i: nat)
    requires Represents(t, slot, tree) && WellFormed(tree) && Savable(t) && Empty(empty)
    requires 118 <= |Collect(t)| && i < |Collect(t)|
    requires HasData(t[Collect(t)[i]]) && forall j | 0 <= j < i :: !HasData(t[Collect(t)[j]])
    requires t[Collect(t)[117]].valid && t[Collect(t)[i]].bytes != []
    requires t[Collect(t)[i]].bytes[0] != EncodeName(t[Collect(t)[117]].name)[8]
    ensures !RoundTrips(d, t, tree, empty)
  {
    var ns := Collect(t);
    var rs := Records(t, ns);
    var x := t[ns[i]];
    SaveLoadClobbers(d, t, i);
    SavedRecords(d, t, slot, tree);
    assert SlotOk(t, slot, tree, ns[i]);
    if Load(Save(d, t), empty).Some? {
      var r := Load(Save(d, t), empty).value;
      LoadedSlot(Save(d, t), rs, empty, i);
      assert rs[i] == RecordOf(t, ns, i);
      var y := r.0[i];
      assert y.bytes[0] != x.bytes[0];
      forall slot2, tree2 ensures !Restores(r, slot2, tree2, tree) {
        if Represents(r.0, slot2, tree2) { OtherContents(r.0, slot2, tree2, i, x); }
      }
    }
  }

  /** A table in which that file has another first byte represents other contents. */
  lemma OtherContents(u: seq<Inode>, slot: map<nat, int>, tree: Tree, i: nat, x: Inode)
    requires Represents(u, slot, tree) && i < |u| && u[i].valid
    requires u[i].num == x.num && u[i].kind == x.kind == FS_TYPE_FILE && u[i].size == x.size > 0
    requires BufferOk(x) && u[i].bytes != [] && u[i].bytes[0] != x.bytes[0]
    ensures x.num in tree.nodes && tree.nodes[x.num].bytes != x.bytes[..x.size]
  {
    assert SlotOk(u, slot, tree, i);
    assert Contents(u[i])[0] == u[i].bytes[0] && x.bytes[..x.size][0] == x.bytes[0];
  }

  // ---------------------------------------------------------- after a reload

  /** The inode counter as every boot starts it; fs_load does not change it. */
  const FIRST_INODE := 1

  /** Slot 0 is saved as record 0 and comes back in slot 0. */
  lemma FirstSlotStays(t: seq<Inode>, slot: map<nat, int>, tree: Tree)
    requires Represents(t, slot, tree) && WellFormed(tree) && tree.next <= WORD
    requires |tree.nodes| <= FS_MAX_INODES_ON_DISK && tree.root in slot && slot[tree.root] == 0
    ensures var m := SlotMap(Records(t, Collect(t))); tree.root in m && m[tree.root] == 0
  {
    assert RootOk(tree) && NumOk(t, slot, tree.root);
    RecordsDescribe(t, slot, tree);
    LiveSlotsAscend(t, |t|);
    RepresentedIsSavable(t, slot, tree);
    var ns := Collect(t);
    assert 0 in ns && ns[0] == 0;
    SlotMapAt(Records(t, ns), 0);
  }

  /**
   After a reboot and a load the counter is 1 again, the root's own number.  So the
   first file created then is never reached through its number: the lookup of fs_read
   and fs_write finds the root directory, and they fail.
   */
  lemma FirstFileAfterReload(d: Disk, t: seq<Inode>, slot: map<nat, int>, tree: Tree, empty: seq<Inode>,
                             name: CString, dir: int, x: Inode)
    requires Represents(t, slot, tree) && WellFormed(tree) && tree.next <= WORD && Preservable(t) && Empty(empty)
    requires tree.root == FIRST_INODE && tree.root in slot && slot[tree.root] == 0
    requires NewInode(x, name, FS_TYPE_FILE, dir, FIRST_INODE)
    ensures Savable(t) && Loadable(Save(d, t)) && Load(Save(d, t), empty).Some?
    ensures var loaded := Load(Save(d, t), empty).value.0;
      && FreeSlot(loaded) < |loaded|
      && var u := loaded[FreeSlot(loaded) := x];
         var found := FindNum(u, x.num);
         0 <= found < |u| && found != FreeSlot(loaded) && u[found].kind == FS_TYPE_DIR
  {
    SavedLoads(d, t, slot, tree, empty);
    var rs := Records(t, Collect(t));
    var slot2, tree2 := SlotMap(rs), LoadedTree(rs, tree);
    RecordsDescribe(t, slot, tree);
    LoadedTreeWellFormed(rs, tree);
    FirstSlotStays(t, slot, tree);
    var loaded := Load(Save(d, t), empty).value.0;
    FreeSlotIffRoom(loaded, slot2, tree2);
    CreatedIsFound(loaded, slot2, tree2, x);
    assert RootOk(tree2) && NumOk(loaded, slot2, 1) && SlotOk(loaded, slot2, tree2, 0);
  }
}
