/**
 What fs_load of kernel/fs/fs.c makes of any disk, whoever wrote it, and what fs_save
 puts where on it.
 */
module FsForeign {
  import opened Common
  import opened FsTree
  import opened FsTable
  import opened FsImage
  import opened FsLoad
  import opened FsExact

  /** The records marked valid among the first `k`, in order. */
  function ValidAmong(rs: seq<Record>, k: nat): (vs: seq<Record>)
    requires k <= |rs|
    ensures |vs| <= k
    ensures forall j | 0 <= j < |vs| :: vs[j] in rs && vs[j].valid != 0
    ensures SaneSizes(rs) ==> SaneSizes(vs)
  {
    if k == 0 then [] else ValidAmong(rs, k - 1) + if rs[k - 1].valid != 0 then [rs[k - 1]] else []
  }

  /** A directory named "/". */
  predicate NamesRoot(r: Record)
  {
    r.kind == 2 && r.name == [47]
  }

  /** Slot j holds the j-th of the records, the other slots are as they were, and the last root record is the root. */
  ghost predicate PlacedAs(d: Disk, t: seq<Inode>, p: (seq<Inode>, int), vs: seq<Record>)
    requires SaneSizes(vs)
  {
    var (u, root) := p;
    && |vs| <= |u| == |t|
    && (forall j {:trigger u[j]} | 0 <= j < |vs| :: u[j] == LoadedInode(d, vs[j]))
    && (forall j {:trigger u[j]} | |vs| <= j < |u| :: u[j] == t[j])
    && (root == NULL ==> forall j {:trigger NamesRoot(vs[j])} | 0 <= j < |vs| :: !NamesRoot(vs[j]))
    && (root != NULL ==>
          && 0 <= root < |vs| && NamesRoot(vs[root])
          && forall j {:trigger NamesRoot(vs[j])} | root < j < |vs| :: !NamesRoot(vs[j]))
  }

  /** The first pass over any records, into an empty table with room for them: those not valid leave no trace. */
  lemma {:induction false} PlacesTheValid(d: Disk, t: seq<Inode>, rs: seq<Record>, k: nat)
    requires Empty(t) && k <= |rs| <= MAX_INODES && SaneSizes(rs)
    ensures PlacedAs(d, t, Placed(d, t, NULL, rs, k), ValidAmong(rs, k))
  {
    if k > 0 {
      PlacesTheValid(d, t, rs, k - 1);
      var p, vs := Placed(d, t, NULL, rs, k - 1), ValidAmong(rs, k - 1);
      NextSlot(d, t, p, vs);
      if rs[k - 1].valid != 0 {
        PlacesOne(d, t, p, vs, rs[k - 1]);
      }
    }
  }

  /** The first free slot is behind the records placed so far. */
  lemma NextSlot(d: Disk, t: seq<Inode>, p: (seq<Inode>, int), vs: seq<Record>)
    requires Empty(t) && SaneSizes(vs) && |vs| < |t| && PlacedAs(d, t, p, vs)
    ensures FreeSlot(p.0) == |vs|
  {
    FreeSlotIs(p.0, |vs|);
  }

  lemma PlacesOne(d: Disk, t: seq<Inode>, p: (seq<Inode>, int), vs: seq<Record>, r: Record)
    requires SaneSizes(vs) && SaneSizes(vs + [r]) && PlacedAs(d, t, p, vs) && |vs| < |t|
    ensures r.kind == FS_TYPE_FILE ==> r.size <= MAX_FILE_SIZE
    ensures PlacedAs(d, t, (p.0[|vs| := LoadedInode(d, r)], if IsRoot(r) then |vs| else p.1), vs + [r])
  {
    var ws := vs + [r];
    assert ws[|vs|] == r;
    forall j | 0 <= j < |vs| ensures ws[j] == vs[j] { }
  }

  /** The disk has the magic bytes, a possible number of records, and a valid record of a root directory. */
  ghost predicate Bootable(d: Disk)
  {
    var b := SectorAt(d, 0);
    && b[0] == 0x57 && b[1] == 0x4F && b[2] == 0x4C && b[3] == 0x46
    && 1 <= WordAt(b, 8) <= 256
    && exists r :: r in ValidAmong(DiskRecords(d, WordAt(b, 8)), WordAt(b, 8)) && NamesRoot(r)
  }

  /** The first word is the magic number exactly if its bytes are. */
  lemma MagicBytes(b: seq<byte>)
    requires |b| >= 4
    ensures WordAt(b, 0) == FS_MAGIC <==> b[0] == 0x57 && b[1] == 0x4F && b[2] == 0x4C && b[3] == 0x46
  {
  }

  /** What the superblock says. */
  lemma HeaderIs(d: Disk)
    ensures var b := SectorAt(d, 0);
      Header(d) ==
        if b[0] == 0x57 && b[1] == 0x4F && b[2] == 0x4C && b[3] == 0x46 && 1 <= WordAt(b, 8) <= 256
        then Some(WordAt(b, 8)) else None
  {
    var b := ReadSectors(d, 0, 1);
    assert b == SectorAt(d, 0);
    MagicBytes(b);
  }

  /** fs_load refuses a disk exactly when it is not bootable; else the valid records are the table before linking. */
  lemma LoadsIffBootable(d: Disk, t: seq<Inode>)
    requires Empty(t) && (Header(d).Some? ==> SaneSizes(DiskRecords(d, Header(d).value)))
    ensures Load(d, t).Some? <==> Bootable(d)
    ensures Load(d, t).Some? ==> LoadedFrom(d, t, Load(d, t).value)
  {
    HeaderIs(d);
    if Header(d).Some? {
      var n := Header(d).value;
      var rs := DiskRecords(d, n);
      var p := Placed(d, t, NULL, rs, n);
      PlacesTheValid(d, t, rs, n);
      RootFound(d, t, p, ValidAmong(rs, n));
      assert Load(d, t) == if p.1 == NULL then None else Some((LinkAll(p.0, rs, n), p.1));
    }
  }

  /** `r` is the table of the disk's valid records, linked, and the slot of the last root record. */
  ghost predicate LoadedFrom(d: Disk, t: seq<Inode>, r: (seq<Inode>, int))
  {
    var n := WordAt(SectorAt(d, 0), 8);
    var rs := DiskRecords(d, n);
    && SaneSizes(rs)
    && var p := Placed(d, t, NULL, rs, n);
       PlacedAs(d, t, p, ValidAmong(rs, n)) && r == (LinkAll(p.0, rs, n), p.1)
  }

  lemma RootFound(d: Disk, t: seq<Inode>, p: (seq<Inode>, int), vs: seq<Record>)
    requires SaneSizes(vs) && PlacedAs(d, t, p, vs)
    ensures p.1 != NULL <==> exists r :: r in vs && NamesRoot(r)
  {
    if p.1 != NULL { assert vs[p.1] in vs; }
  }

  /** The record of an inode without data names no sector, that of any other a sector of the data area. */
  lemma SectorNamedIff(t: seq<Inode>, ns: seq<int>, i: nat)
    requires i < |ns| && forall j | 0 <= j < |ns| :: 0 <= ns[j] < |t|
    ensures var r := Records(t, ns)[i];
      && (r.lba == 0 <==> !(t[ns[i]].kind == FS_TYPE_FILE && t[ns[i]].size > 0)) && (r.lba != 0 ==> r.lba >= 65)
      && r.valid == 1
  {
  }
}
