/**
 fs_save and fs_load of kernel/fs/fs.c in their own form: a record buffer filled in
 a loop, sectors written to a disk, and two passes over the inode table.
 */
module FsStore {
  import opened Common
  import opened FsTree
  import opened FsTable
  import opened FsImage
  import opened FsLoad
  import opened FileSystem

  /** The disk behind the ATA driver; every transfer succeeds. */
  class AtaDisk {
    var sectors: Disk
    constructor (d: Disk) ensures sectors == d { sectors := d; }
  }

  method CollectInodes(inodes: array<Inode>, max: nat) returns (list: seq<int>)
    requires max == FS_MAX_INODES_ON_DISK
    ensures list == Collect(inodes[..])
  {
    list := [];
    var i := 0;
    ghost var t := inodes[..];
    while i < inodes.Length && |list| < max
      invariant 0 <= i <= inodes.Length
      invariant |list| <= max && list == LiveSlots(t, i)
    {
      if inodes[i].valid {
        list := list + [i];
      }
      i := i + 1;
    }
    LiveSlotsPrefix(t, i, |t|);
    assert |list| == max ==> LiveSlots(t, |t|)[..max] == list;
  }

  lemma {:induction false} LiveSlotsPrefix(t: seq<Inode>, i: nat, k: nat)
    requires i <= k <= |t|
    ensures LiveSlots(t, i) <= LiveSlots(t, k)
    decreases k - i
  {
    if i < k { LiveSlotsPrefix(t, i, k - 1); }
  }

  /** Serialises one inode into the record buffer. */
  method PutRecord(buffer: array<byte>, i: nat, r: Record)
    requires Encodable(r) && RECORD * i + RECORD <= buffer.Length
    modifies buffer
    ensures buffer[..] == old(buffer[..RECORD * i]) + EncodeRecord(r) + old(buffer[RECORD * i + RECORD..])
  {
    var b := EncodeRecord(r);
    forall k | 0 <= k < RECORD {
      buffer[RECORD * i + k] := b[k];
    }
  }

  /** One inode of the list: file data goes to disk, its record to the buffer. */
  method SerialiseInode(inodes: array<Inode>, list: seq<int>, i: nat, lba: nat, buffer: array<byte>, dev: AtaDisk,
                        ghost t: seq<Inode>)
    returns (next: nat)
    requires t == inodes[..] && Savable(t) && i < |list| && RECORD * i + RECORD <= buffer.Length
    requires forall j | 0 <= j < |list| :: 0 <= list[j] < |t| && t[list[j]].valid
    requires lba == DataLba(t, list, i) && Encodable(RecordOf(t, list, i))
    modifies buffer, dev
    ensures next == DataLba(t, list, i + 1)
    ensures buffer[..] ==
      old(buffer[..RECORD * i]) + EncodeRecord(RecordOf(t, list, i)) + old(buffer[RECORD * i + RECORD..])
    ensures dev.sectors == var x := t[list[i]];
      if HasData(x) then WriteSectors(old(dev.sectors), lba, DataOf(x)) else old(dev.sectors)
  {
    var x := inodes[list[i]];
    var parent := if 0 <= x.parent < inodes.Length then inodes[x.parent].num else 0;
    var dataLba := 0;
    next := lba;
    if x.kind == FS_TYPE_FILE && x.size > 0 {
      dataLba := lba;
      dev.sectors := WriteSectors(dev.sectors, lba, DataOf(x));
      next := lba + SectorsFor(x.size);
    }
    PutRecord(buffer, i, Record(x.name, x.kind, x.size, x.num, parent, dataLba, 1));
  }

  /** The loop of fs_save over the inode list. */
  method SerialiseInodes(inodes: array<Inode>, list: seq<int>, buffer: array<byte>, dev: AtaDisk, ghost t: seq<Inode>)
    requires t == inodes[..] && Savable(t) && list == Collect(t)
    requires buffer.Length == SectorsFor(RECORD * |list|) * SECTOR && buffer[..] == Zeros(buffer.Length)
    modifies buffer, dev
    ensures buffer[..] == SavedTableBytes(t)
    ensures dev.sectors == WriteFiles(old(dev.sectors), t, list, |list|)
  {
    ghost var rs := Records(t, list);
    RecordsEncodable(t, list);
    var lba := FS_DATA_BLOCKS_LBA;
    var i := 0;
    assert rs[..0] == [];
    while i < |list|
      invariant 0 <= i <= |list| && inodes[..] == t
      invariant lba == DataLba(t, list, i)
      invariant dev.sectors == WriteFiles(old(dev.sectors), t, list, i)
      invariant AllEncodable(rs[..i])
      invariant buffer[..RECORD * i] == Packed(rs[..i])
      invariant buffer[RECORD * i..] == Zeros(buffer.Length - RECORD * i)
    {
      ghost var before := buffer[..];
      assert rs[i] == RecordOf(t, list, i);
      lba := SerialiseInode(inodes, list, i, lba, buffer, dev, t);
      AppendRecord(rs, i, before, buffer[..]);
      i := i + 1;
    }
    assert rs[..|rs|] == rs;
    TableDone(t, list, buffer[..]);
  }

  lemma TableDone(t: seq<Inode>, list: seq<int>, b: seq<byte>)
    requires Savable(t) && list == Collect(t) && AllEncodable(Records(t, list))
    requires |b| == SectorsFor(RECORD * |list|) * SECTOR
    requires b[..RECORD * |list|] == Packed(Records(t, list))
    requires b[RECORD * |list|..] == Zeros(|b| - RECORD * |list|)
    ensures b == SavedTableBytes(t)
  {
    assert b == b[..RECORD * |list|] + b[RECORD * |list|..];
  }

  lemma AppendRecord(rs: seq<Record>, i: nat, before: seq<byte>, after: seq<byte>)
    requires i < |rs| && AllEncodable(rs) && RECORD * i + RECORD <= |before|
    requires before[..RECORD * i] == Packed(rs[..i]) && before[RECORD * i..] == Zeros(|before| - RECORD * i)
    requires after == before[..RECORD * i] + EncodeRecord(rs[i]) + before[RECORD * i + RECORD..]
    ensures AllEncodable(rs[..i + 1])
    ensures after[..RECORD * (i + 1)] == Packed(rs[..i + 1])
    ensures after[RECORD * (i + 1)..] == Zeros(|before| - RECORD * (i + 1))
  {
    var front := rs[..i + 1];
    assert front[..i] == rs[..i] && front[i] == rs[i];
    assert Packed(front) == Packed(rs[..i]) + EncodeRecord(rs[i]);
    assert after[..RECORD * (i + 1)] == before[..RECORD * i] + EncodeRecord(rs[i]);
    assert after[RECORD * (i + 1)..] == before[RECORD * i..][RECORD..];
  }

  method SaveToDisk(fs: FileSystem, dev: AtaDisk) returns (r: int)
    requires Savable(fs.inodes[..])
    modifies dev
    ensures r == if Collect(fs.inodes[..]) == [] then -1 else 0
    ensures dev.sectors == if r == 0 then Save(old(dev.sectors), fs.inodes[..]) else old(dev.sectors)
  {
    ghost var t, d := fs.inodes[..], dev.sectors;
    var list := CollectInodes(fs.inodes, FS_MAX_INODES_ON_DISK);
    if list == [] {
      return -1;
    }
    dev.sectors := WriteSectors(dev.sectors, 0, Superblock(|list|));
    var buffer := new byte[SectorsFor(RECORD * |list|) * SECTOR](i => 0);
    assert buffer[..] == Zeros(buffer.Length);
    SerialiseInodes(fs.inodes, list, buffer, dev, t);
    assert fs.inodes[..] == t;
    assert dev.sectors == SaveData(d, t);
    dev.sectors := WriteSectors(dev.sectors, FS_INODE_TABLE_LBA, buffer[..]);
    r := 0;
  }

  // -------------------------------------------------------------------- loading

  method FindByNum(inodes: array<Inode>, n: nat) returns (i: int)
    ensures i == FindNum(inodes[..], n)
  {
    i := 0;
    while i < inodes.Length && !(inodes[i].valid && inodes[i].num == n)
      invariant 0 <= i <= inodes.Length
      invariant forall j {:trigger HasNum(inodes[j], n)} | 0 <= j < i :: !HasNum(inodes[j], n)
    {
      i := i + 1;
    }
    ghost var t, k := inodes[..], FindNum(inodes[..], n);
    if k != NULL { assert HasNum(t[k], n) && HasNum(inodes[k], n); }
    if i == inodes.Length {
      i := NULL;
    } else {
      assert HasNum(t[i], n);
    }
  }

  method FindFree(inodes: array<Inode>) returns (i: nat)
    ensures i == FreeSlot(inodes[..])
  {
    i := 0;
    while i < inodes.Length && inodes[i].valid
      invariant 0 <= i <= inodes.Length
      invariant forall j | 0 <= j < i :: inodes[j].valid
    {
      i := i + 1;
    }
  }

  lemma {:induction false} PlacedFills(d: Disk, t: seq<Inode>, rs: seq<Record>, k: nat)
    requires k <= |rs| && SaneSizes(rs) && forall i | 0 <= i < |t| :: !t[i].valid
    ensures forall i | k <= i < |t| :: !Placed(d, t, NULL, rs, k).0[i].valid
  {
    if k > 0 {
      PlacedFills(d, t, rs, k - 1);
      var u := Placed(d, t, NULL, rs, k - 1).0;
      if k - 1 < |t| {
        assert !u[k - 1].valid;
        assert FreeSlot(u) <= k - 1;
      }
    }
  }

  /** First pass: a slot for every record in use. */
  method PlaceRecords(fs: FileSystem, rs: seq<Record>, dev: AtaDisk)
    requires SaneSizes(rs) && |rs| <= fs.inodes.Length
    requires fs.root == NULL && forall i | 0 <= i < fs.inodes.Length :: !fs.inodes[i].valid
    modifies fs`root, fs`cur, fs.inodes
    ensures (fs.inodes[..], fs.root) == Placed(dev.sectors, old(fs.inodes[..]), NULL, rs, |rs|)
    ensures fs.cur == if fs.root == NULL then old(fs.cur) else fs.root
  {
    ghost var t := fs.inodes[..];
    var k := 0;
    while k < |rs|
      invariant 0 <= k <= |rs| && dev.sectors == old(dev.sectors)
      invariant (fs.inodes[..], fs.root) == Placed(dev.sectors, t, NULL, rs, k)
      invariant fs.cur == if fs.root == NULL then old(fs.cur) else fs.root
    {
      var r := rs[k];
      if r.valid != 0 {
        var i := FindFree(fs.inodes);
        PlacedFills(dev.sectors, t, rs, k);
        assert !fs.inodes[..][k].valid;
        var x := LoadedInode(dev.sectors, r);
        ghost var u := fs.inodes[..];
        fs.inodes[i] := x;
        assert fs.inodes[..] == u[i := x];
        if r.name == [SLASH] && r.kind == FS_TYPE_DIR {
          fs.root := i;
          fs.cur := i;
        }
      }
      k := k + 1;
    }
  }

  /** Second pass: parents and child lists. */
  method LinkRecords(inodes: array<Inode>, rs: seq<Record>)
    modifies inodes
    ensures inodes[..] == LinkAll(old(inodes[..]), rs, |rs|)
  {
    ghost var t := inodes[..];
    var k := 0;
    while k < |rs|
      invariant 0 <= k <= |rs|
      invariant inodes[..] == LinkAll(t, rs, k)
    {
      LinkRecord(inodes, rs[k]);
      k := k + 1;
    }
  }

  method LinkRecord(inodes: array<Inode>, r: Record)
    modifies inodes
    ensures inodes[..] == Link(old(inodes[..]), r)
  {
    ghost var t := inodes[..];
    if r.valid == 0 {
      return;
    }
    var node := FindByNum(inodes, r.num);
    if node == NULL {
      return;
    }
    if r.parent > 0 {
      var parent := FindByNum(inodes, r.parent);
      inodes[node] := inodes[node].(parent := parent);
      assert inodes[..] == t[node := t[node].(parent := parent)];
    }
    ghost var t1 := inodes[..];
    var q := inodes[node].parent;
    assert t1 == t[node := t[node].(parent := q)];
    if 0 <= q < inodes.Length && inodes[q].kind == FS_TYPE_DIR {
      inodes[node] := inodes[node].(next := inodes[q].child);
      ghost var t2 := inodes[..];
      assert t2 == t1[node := t1[node].(next := t1[q].child)];
      inodes[q] := inodes[q].(child := node);
      assert inodes[..] == t2[q := t2[q].(child := node)];
    }
  }

  /** fs_load as fs_init calls it: the table is empty and there is no root yet. */
  method LoadFromDisk(fs: FileSystem, dev: AtaDisk) returns (r: int)
    requires fs.inodes.Length == MAX_INODES
    requires fs.root == NULL && forall i | 0 <= i < fs.inodes.Length :: !fs.inodes[i].valid
    requires Header(dev.sectors).Some? ==> SaneSizes(DiskRecords(dev.sectors, Header(dev.sectors).value))
    modifies fs`root, fs`cur, fs.inodes
    ensures var l := Load(dev.sectors, old(fs.inodes[..]));
      if l.Some? then r == 0 && fs.inodes[..] == l.value.0 && fs.root == fs.cur == l.value.1 else r == -1
    ensures Header(dev.sectors).None? ==> fs.inodes[..] == old(fs.inodes[..]) && fs.root == NULL
    ensures fs.nextInode == old(fs.nextInode)
  {
    var sb := ReadSectors(dev.sectors, 0, 1);
    var count := WordAt(sb, 8);
    if WordAt(sb, 0) != FS_MAGIC || count == 0 || count > FS_MAX_INODES_ON_DISK {
      return -1;
    }
    var rs := DiskRecords(dev.sectors, count);
    PlaceRecords(fs, rs, dev);
    LinkRecords(fs.inodes, rs);
    r := if fs.root == NULL then -1 else 0;
  }

  /**
   Saving a live file system and loading the image into an empty one succeeds and
   gives a table that represents the same tree, up to the order of siblings.
   */
  method SaveThenLoad(fs: FileSystem, dev: AtaDisk, other: FileSystem)
    returns (r: int, ghost slot2: map<nat, int>, ghost tree2: Tree)
    requires fs.Valid() && fs.nextInode <= WORD && Preservable(fs.inodes[..])
    requires other.inodes != fs.inodes && other.inodes.Length == MAX_INODES
    requires other.root == NULL && forall i | 0 <= i < other.inodes.Length :: !other.inodes[i].valid
    modifies dev, other`root, other`cur, other.inodes
    ensures r == 0
    ensures Represents(other.inodes[..], slot2, tree2) && WellFormed(tree2)
    ensures tree2.root in slot2 && other.root == other.cur == slot2[tree2.root]
    ensures tree2.root == old(fs.tree.root) && tree2.nodes == old(fs.tree.nodes)
    ensures tree2.kids.Keys == old(fs.tree.kids.Keys)
    ensures forall n | n in tree2.kids :: multiset(tree2.kids[n]) == multiset(old(fs.tree.kids)[n])
  {
    RepresentedIsSavable(fs.inodes[..], fs.slot, fs.tree);
    slot2, tree2 := SaveLoadRoundTrip(dev.sectors, fs.inodes[..], fs.slot, fs.tree, other.inodes[..]);
    RecordsDescribe(fs.inodes[..], fs.slot, fs.tree);
    assert fs.tree.root in fs.tree.nodes;
    var saved := SaveToDisk(fs, dev);
    r := LoadFromDisk(other, dev);
  }
}
