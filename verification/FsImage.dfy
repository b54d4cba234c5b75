/**
 The disk image of kernel/fs/fs.c: superblock in sector 0, a table of 280-byte
 inode records from sector 1, file data from sector 65.  Bytes, sectors, records.
 */
module FsImage {
  import opened Common
  import opened FsTree
  import opened FsTable

  const SECTOR := 512
  const RECORD := 280
  const FS_MAGIC := 0x464C4F57
  const FS_INODE_TABLE_LBA := 1
  const FS_DATA_BLOCKS_LBA := 65
  const FS_MAX_INODES_ON_DISK := 256

  function Zeros(n: nat): (r: seq<byte>)
    ensures |r| == n && forall i | 0 <= i < n :: r[i] == 0
  {
    seq(n, i => 0)
  }

  // ------------------------------------------------------------------ sectors

  type Sector = s: seq<byte> | |s| == 512 witness Zeros(512)
  /** Sectors never written read as zeros. */
  type Disk = map<nat, Sector>

  function SectorAt(d: Disk, lba: nat): Sector
  {
    if lba in d then d[lba] else Zeros(512)
  }

  /** ata_write_sectors of a whole number of sectors. */
  function WriteSectors(d: Disk, lba: nat, buf: seq<byte>): Disk
    requires |buf| % SECTOR == 0
  {
    d + map k | lba <= k < lba + |buf| / SECTOR :: Chunk(buf, lba, k)
  }

  /** The part of a transfer starting at `lba` that sector `k` gets. */
  function Chunk(buf: seq<byte>, lba: nat, k: nat): Sector
    requires lba <= k < lba + |buf| / SECTOR
  {
    buf[(k - lba) * SECTOR..(k - lba) * SECTOR + SECTOR]
  }

  function ReadSectors(d: Disk, lba: nat, count: nat): (r: seq<byte>)
    ensures |r| == count * SECTOR
  {
    seq(count * SECTOR, i requires 0 <= i => SectorAt(d, lba + i / SECTOR)[i % SECTOR])
  }

  lemma SectorOfWrite(d: Disk, lba: nat, buf: seq<byte>, k: nat)
    requires |buf| % SECTOR == 0
    ensures SectorAt(WriteSectors(d, lba, buf), k) ==
      if lba <= k < lba + |buf| / SECTOR then Chunk(buf, lba, k) else SectorAt(d, k)
  {
  }

  /** Reading back what was written gives what was written, sector boundaries and all. */
  lemma ReadWrite(d: Disk, lba: nat, buf: seq<byte>)
    requires |buf| % SECTOR == 0
    ensures ReadSectors(WriteSectors(d, lba, buf), lba, |buf| / SECTOR) == buf
  {
    var r := ReadSectors(WriteSectors(d, lba, buf), lba, |buf| / SECTOR);
    forall i | 0 <= i < |buf| ensures r[i] == buf[i] {
      var q := i / SECTOR;
      SectorOfWrite(d, lba, buf, lba + q);
      assert buf[q * SECTOR..q * SECTOR + SECTOR][i % SECTOR] == buf[i];
    }
  }

  lemma ReadWriteCount(d: Disk, lba: nat, buf: seq<byte>, n: nat)
    requires |buf| == n * SECTOR
    ensures ReadSectors(WriteSectors(d, lba, buf), lba, n) == buf
  {
    ReadWrite(d, lba, buf);
  }

  /** A write from sector 1 on that reaches sector 65 replaces that sector. */
  lemma FirstByteOverwritten(d: Disk, buf: seq<byte>, n: nat)
    requires |buf| == n * SECTOR && |buf| > 32768
    ensures ReadSectors(WriteSectors(d, 1, buf), 65, 1)[0] == buf[32768]
  {
    SectorOfWrite(d, 1, buf, 65);
    assert Chunk(buf, 1, 65)[0] == buf[32768];
  }

  /** A write does not disturb sectors outside it. */
  lemma ReadElsewhere(d: Disk, lba: nat, buf: seq<byte>, at: nat, count: nat)
    requires |buf| % SECTOR == 0
    requires at + count <= lba || lba + |buf| / SECTOR <= at
    ensures ReadSectors(WriteSectors(d, lba, buf), at, count) == ReadSectors(d, at, count)
  {
    forall i | 0 <= i < count * SECTOR
      ensures ReadSectors(WriteSectors(d, lba, buf), at, count)[i] == ReadSectors(d, at, count)[i]
    {
      SectorOfWrite(d, lba, buf, at + i / SECTOR);
    }
  }

  function SectorsFor(bytes: nat): (n: nat)
    ensures (n - 1) * SECTOR < bytes <= n * SECTOR
    ensures bytes > 0 ==> n > 0
  {
    (bytes + SECTOR - 1) / SECTOR
  }

  /** A buffer of `n` whole sectors. */
  ghost predicate Whole(b: seq<byte>, n: nat)
  {
    |b| == n * SECTOR && |b| % SECTOR == 0 && |b| / SECTOR == n
  }

  lemma WholeSectors(b: seq<byte>, n: nat)
    requires |b| == n * SECTOR
    ensures Whole(b, n)
  {
  }

  // -------------------------------------------------------------------- words

  /** A 32-bit word, least significant byte first. */
  function Word(x: nat): (r: seq<byte>)
    requires x < WORD
    ensures |r| == 4
  {
    [x % 256, x / 256 % 256, x / 65536 % 256, x / 16777216]
  }

  function WordAt(b: seq<byte>, i: nat): nat
    requires i + 4 <= |b|
  {
    var b0: int, b1: int, b2: int, b3: int := b[i], b[i + 1], b[i + 2], b[i + 3];
    b0 + 256 * b1 + 65536 * b2 + 16777216 * b3
  }

  lemma WordBack(b: seq<byte>, i: nat, x: nat)
    requires x < WORD && i + 4 <= |b| && b[i..i + 4] == Word(x)
    ensures WordAt(b, i) == x
  {
    var w := b[i..i + 4];
    assert w[0] == b[i] && w[1] == b[i + 1] && w[2] == b[i + 2] && w[3] == b[i + 3];
    assert b[i] == x % 256 && b[i + 1] == x / 256 % 256 && b[i + 2] == x / 65536 % 256 && b[i + 3] == x / 16777216;
    assert x / 256 == x / 65536 * 256 + x / 256 % 256;
    assert x / 65536 == x / 16777216 * 256 + x / 65536 % 256;
  }

  // ------------------------------------------------------------------ records

  /** struct disk_inode. */
  datatype Record = Record(name: CString, kind: nat, size: nat, num: nat, parent: nat, lba: nat, valid: nat)

  predicate Encodable(r: Record)
  {
    && |r.name| <= NAME_MAX
    && r.kind < WORD && r.size < WORD && r.num < WORD && r.parent < WORD && r.lba < WORD && r.valid < WORD
  }

  ghost predicate AllEncodable(rs: seq<Record>)
  {
    forall i | 0 <= i < |rs| :: Encodable(rs[i])
  }

  /** strncpy into a zeroed 256-byte field. */
  function EncodeName(name: CString): (b: seq<byte>)
    requires |name| <= NAME_MAX
    ensures |b| == 256
  {
    name + Zeros(256 - |name|)
  }

  /** strncpy out of the field: up to the terminator or 255 characters. */
  function DecodeName(b: seq<byte>): (name: CString)
    ensures |name| <= |b|
  {
    if b == [] || b[0] == 0 then [] else [b[0]] + DecodeName(b[1..])
  }

  function EncodeRecord(r: Record): (b: seq<byte>)
    requires Encodable(r)
    ensures |b| == RECORD
  {
    EncodeName(r.name) + Word(r.kind) + Word(r.size) + Word(r.num) + Word(r.parent) + Word(r.lba) + Word(r.valid)
  }

  function DecodeRecord(b: seq<byte>): (r: Record)
    requires |b| == RECORD
  {
    Record(DecodeName(b[..NAME_MAX]), WordAt(b, 256), WordAt(b, 260), WordAt(b, 264), WordAt(b, 268),
           WordAt(b, 272), WordAt(b, 276))
  }

  lemma {:induction false} NameBack(name: CString, pad: seq<byte>)
    requires pad == [] || pad[0] == 0
    ensures DecodeName(name + pad) == name
    decreases |name|
  {
    if name == [] {
      assert name + pad == pad;
    } else {
      assert (name + pad)[1..] == name[1..] + pad;
      NameBack(name[1..], pad);
    }
  }

  lemma RecordBack(r: Record)
    requires Encodable(r)
    ensures DecodeRecord(EncodeRecord(r)) == r
  {
    var b := EncodeRecord(r);
    var pad := Zeros(NAME_MAX - |r.name|);
    assert b[..NAME_MAX] == r.name + pad;
    NameBack(r.name, pad);
    FieldsOf(r);
    WordBack(b, 256, r.kind);
    WordBack(b, 260, r.size);
    WordBack(b, 264, r.num);
    WordBack(b, 268, r.parent);
    WordBack(b, 272, r.lba);
    WordBack(b, 276, r.valid);
  }

  lemma FieldsOf(r: Record)
    requires Encodable(r)
    ensures var b := EncodeRecord(r);
      && b[256..260] == Word(r.kind) && b[260..264] == Word(r.size) && b[264..268] == Word(r.num)
      && b[268..272] == Word(r.parent) && b[272..276] == Word(r.lba) && b[276..280] == Word(r.valid)
  {
  }

  // -------------------------------------------------------------------- table

  /** The records one after another. */
  function Packed(rs: seq<Record>): (b: seq<byte>)
    requires AllEncodable(rs)
    ensures |b| == RECORD * |rs|
  {
    if rs == [] then []
    else Packed(rs[..|rs| - 1]) + EncodeRecord(rs[|rs| - 1])
  }

  /** The inode table as written: records, then zeros up to a sector boundary. */
  function TableBytes(rs: seq<Record>): (b: seq<byte>)
    requires AllEncodable(rs)
    ensures Whole(b, SectorsFor(RECORD * |rs|))
  {
    var n := SectorsFor(RECORD * |rs|);
    var b := Packed(rs) + Zeros(n * SECTOR - RECORD * |rs|);
    WholeSectors(b, n);
    b
  }

  lemma {:induction false} PackedAt(rs: seq<Record>, i: nat)
    requires i < |rs| && AllEncodable(rs)
    ensures Packed(rs)[RECORD * i..RECORD * i + RECORD] == EncodeRecord(rs[i])
    decreases |rs|
  {
    var last := |rs| - 1;
    var front := rs[..last];
    assert Packed(rs) == Packed(front) + EncodeRecord(rs[last]);
    if i < last {
      assert front[i] == rs[i];
      PackedAt(front, i);
      assert Packed(rs)[RECORD * i..RECORD * i + RECORD] == Packed(front)[RECORD * i..RECORD * i + RECORD];
    } else {
      assert Packed(rs)[RECORD * last..RECORD * last + RECORD] == EncodeRecord(rs[last]);
    }
  }

  /** Records that straddle sectors come back whole. */
  lemma TableBack(rs: seq<Record>, i: nat)
    requires i < |rs| && AllEncodable(rs)
    ensures RECORD * i + RECORD <= |TableBytes(rs)|
    ensures DecodeRecord(TableBytes(rs)[RECORD * i..RECORD * i + RECORD]) == rs[i]
  {
    PackedAt(rs, i);
    assert TableBytes(rs)[RECORD * i..RECORD * i + RECORD] == Packed(rs)[RECORD * i..RECORD * i + RECORD];
    RecordBack(rs[i]);
  }

  // --------------------------------------------------------------- superblock

  function Superblock(count: nat): (b: seq<byte>)
    requires count < WORD
    ensures |b| == SECTOR
  {
    Word(FS_MAGIC) + Word(1) + Word(count) + Word(FS_DATA_BLOCKS_LBA) + Zeros(496)
  }

  lemma SuperblockBack(count: nat)
    requires count < WORD
    ensures WordAt(Superblock(count), 0) == FS_MAGIC
    ensures WordAt(Superblock(count), 8) == count
    ensures WordAt(Superblock(count), 4) == 1 && WordAt(Superblock(count), 12) == FS_DATA_BLOCKS_LBA
    ensures forall i | 16 <= i < SECTOR :: Superblock(count)[i] == 0
  {
    var b := Superblock(count);
    assert b[0..4] == Word(FS_MAGIC) && b[8..12] == Word(count);
    assert b[4..8] == Word(1) && b[12..16] == Word(FS_DATA_BLOCKS_LBA);
    WordBack(b, 0, FS_MAGIC);
    WordBack(b, 4, 1);
    WordBack(b, 8, count);
    WordBack(b, 12, FS_DATA_BLOCKS_LBA);
  }

  // -------------------------------------------------------------------- saving

  /** collect_inodes: the live slots among the first `k`, in order. */
  function LiveSlots(t: seq<Inode>, k: nat): (r: seq<int>)
    requires k <= |t|
    ensures |r| <= k
    ensures forall j | 0 <= j < |r| :: 0 <= r[j] < k && t[r[j]].valid
  {
    if k == 0 then []
    else LiveSlots(t, k - 1) + (if t[k - 1].valid then [k - 1] else [])
  }

  function Collect(t: seq<Inode>): (r: seq<int>)
    ensures |r| <= FS_MAX_INODES_ON_DISK
    ensures forall j | 0 <= j < |r| :: 0 <= r[j] < |t| && t[r[j]].valid
  {
    var all := LiveSlots(t, |t|);
    if |all| <= FS_MAX_INODES_ON_DISK then all else all[..FS_MAX_INODES_ON_DISK]
  }

  predicate HasData(x: Inode)
  {
    x.kind == FS_TYPE_FILE && x.size > 0
  }

  /** First data sector of the i-th saved inode, and where the next one starts. */
  function DataLba(t: seq<Inode>, ns: seq<int>, i: nat): (r: nat)
    requires i <= |ns| && forall j | 0 <= j < |ns| :: 0 <= ns[j] < |t|
    ensures r >= FS_DATA_BLOCKS_LBA
  {
    if i == 0 then FS_DATA_BLOCKS_LBA
    else DataLba(t, ns, i - 1) + (if HasData(t[ns[i - 1]]) then SectorsFor(t[ns[i - 1]].size) else 0)
  }

  function ParentOf(t: seq<Inode>, x: Inode): nat
  {
    if 0 <= x.parent < |t| then t[x.parent].num else 0
  }

  function RecordOf(t: seq<Inode>, ns: seq<int>, i: nat): Record
    requires i < |ns| && forall j | 0 <= j < |ns| :: 0 <= ns[j] < |t|
  {
    var x := t[ns[i]];
    Record(x.name, x.kind, x.size, x.num, ParentOf(t, x), if HasData(x) then DataLba(t, ns, i) else 0, 1)
  }

  function Records(t: seq<Inode>, ns: seq<int>): (r: seq<Record>)
    requires forall j | 0 <= j < |ns| :: 0 <= ns[j] < |t|
    ensures |r| == |ns|
  {
    seq(|ns|, i requires 0 <= i < |ns| => RecordOf(t, ns, i))
  }

  /** The sectors of a file: its buffer up to the sector that holds its last byte. */
  function DataOf(x: Inode): (r: seq<byte>)
    requires |x.bytes| == MAX_FILE_SIZE && x.size <= MAX_FILE_SIZE
    ensures Whole(r, SectorsFor(x.size))
  {
    var r := x.bytes[..SectorsFor(x.size) * SECTOR];
    WholeSectors(r, SectorsFor(x.size));
    r
  }

  /** What fs_save needs of the table: buffers in place, fields that fit their 32-bit slots. */
  ghost predicate Savable(t: seq<Inode>)
  {
    forall i {:trigger t[i].valid} | 0 <= i < |t| && t[i].valid ::
      && |t[i].name| <= NAME_MAX && t[i].kind < WORD && t[i].num < WORD && ParentOf(t, t[i]) < WORD
      && t[i].size <= MAX_FILE_SIZE
      && (t[i].kind == FS_TYPE_FILE ==> |t[i].bytes| == MAX_FILE_SIZE)
  }

  function WriteFiles(d: Disk, t: seq<Inode>, ns: seq<int>, i: nat): Disk
    requires i <= |ns| && forall j | 0 <= j < |ns| :: 0 <= ns[j] < |t| && t[ns[j]].valid
    requires Savable(t)
  {
    if i == 0 then d
    else
      var before := WriteFiles(d, t, ns, i - 1);
      var x := t[ns[i - 1]];
      if HasData(x) then WriteSectors(before, DataLba(t, ns, i - 1), DataOf(x)) else before
  }

  lemma {:induction false} DataLbaBound(t: seq<Inode>, ns: seq<int>, i: nat)
    requires i <= |ns| && forall j | 0 <= j < |ns| :: 0 <= ns[j] < |t| && t[ns[j]].size <= MAX_FILE_SIZE
    ensures DataLba(t, ns, i) <= FS_DATA_BLOCKS_LBA + 128 * i
  {
    if i > 0 { DataLbaBound(t, ns, i - 1); }
  }

  lemma RecordsEncodable(t: seq<Inode>, ns: seq<int>)
    requires |ns| <= FS_MAX_INODES_ON_DISK && Savable(t)
    requires forall j | 0 <= j < |ns| :: 0 <= ns[j] < |t| && t[ns[j]].valid
    ensures AllEncodable(Records(t, ns))
  {
    forall i | 0 <= i < |ns| ensures Encodable(Records(t, ns)[i]) {
      DataLbaBound(t, ns, i);
    }
  }

  function SavedTableBytes(t: seq<Inode>): (b: seq<byte>)
    requires Savable(t)
    ensures Whole(b, SectorsFor(RECORD * |Collect(t)|))
  {
    RecordsEncodable(t, Collect(t));
    TableBytes(Records(t, Collect(t)))
  }

  /** fs_save up to the table: superblock and file data. */
  function SaveData(d: Disk, t: seq<Inode>): Disk
    requires Savable(t)
  {
    var ns := Collect(t);
    WriteFiles(WriteSectors(d, 0, Superblock(|ns|)), t, ns, |ns|)
  }

  /** fs_save: superblock, file data, then the inode table over sectors 1 and on. */
  function Save(d: Disk, t: seq<Inode>): Disk
    requires Savable(t)
  {
    WriteSectors(SaveData(d, t), FS_INODE_TABLE_LBA, SavedTableBytes(t))
  }

  // ------------------------------------------------- what a saved disk reads as

  lemma {:induction false} FilesKeepLow(d: Disk, t: seq<Inode>, ns: seq<int>, i: nat, at: nat, count: nat)
    requires i <= |ns| && Savable(t) && forall j | 0 <= j < |ns| :: 0 <= ns[j] < |t| && t[ns[j]].valid
    requires at + count <= FS_DATA_BLOCKS_LBA
    ensures ReadSectors(WriteFiles(d, t, ns, i), at, count) == ReadSectors(d, at, count)
  {
    if i > 0 {
      FilesKeepLow(d, t, ns, i - 1, at, count);
      var x := t[ns[i - 1]];
      if HasData(x) {
        ReadElsewhere(WriteFiles(d, t, ns, i - 1), DataLba(t, ns, i - 1), DataOf(x), at, count);
      }
    }
  }

  /** The superblock survives: magic and count read back. */
  lemma SavedHeader(d: Disk, t: seq<Inode>)
    requires Savable(t)
    ensures var b := ReadSectors(Save(d, t), 0, 1); WordAt(b, 0) == FS_MAGIC && WordAt(b, 8) == |Collect(t)|
  {
    var ns := Collect(t);
    var d1 := WriteSectors(d, 0, Superblock(|ns|));
    ReadElsewhere(SaveData(d, t), FS_INODE_TABLE_LBA, SavedTableBytes(t), 0, 1);
    FilesKeepLow(d1, t, ns, |ns|, 0, 1);
    ReadWrite(d, 0, Superblock(|ns|));
    SuperblockBack(|ns|);
  }

  /** The table reads back whatever its length: it is written last. */
  lemma SavedTable(d: Disk, t: seq<Inode>)
    requires Savable(t)
    ensures ReadSectors(Save(d, t), FS_INODE_TABLE_LBA, SectorsFor(RECORD * |Collect(t)|)) == SavedTableBytes(t)
  {
    ReadWriteCount(SaveData(d, t), FS_INODE_TABLE_LBA, SavedTableBytes(t), SectorsFor(RECORD * |Collect(t)|));
  }

  /** File extents are disjoint: later writes start where earlier ones end. */
  lemma {:induction false} DataLbaMonotone(t: seq<Inode>, ns: seq<int>, i: nat, j: nat)
    requires i < j <= |ns| && forall k | 0 <= k < |ns| :: 0 <= ns[k] < |t|
    ensures DataLba(t, ns, i) + (if HasData(t[ns[i]]) then SectorsFor(t[ns[i]].size) else 0) <= DataLba(t, ns, j)
    decreases j
  {
    if j > i + 1 { DataLbaMonotone(t, ns, i, j - 1); }
  }

  lemma {:induction false} FileReadsBack(d: Disk, t: seq<Inode>, ns: seq<int>, i: nat, k: nat)
    requires i < k <= |ns| && Savable(t) && forall j | 0 <= j < |ns| :: 0 <= ns[j] < |t| && t[ns[j]].valid
    requires HasData(t[ns[i]])
    ensures ReadSectors(WriteFiles(d, t, ns, k), DataLba(t, ns, i), SectorsFor(t[ns[i]].size)) == DataOf(t[ns[i]])
    decreases k
  {
    var x := t[ns[k - 1]];
    var before := WriteFiles(d, t, ns, k - 1);
    if k == i + 1 {
      ReadWrite(before, DataLba(t, ns, i), DataOf(x));
    } else {
      FileReadsBack(d, t, ns, i, k - 1);
      DataLbaMonotone(t, ns, i, k - 1);
      if HasData(x) {
        ReadElsewhere(before, DataLba(t, ns, k - 1), DataOf(x), DataLba(t, ns, i), SectorsFor(t[ns[i]].size));
      }
    }
  }

  /** The table stays below the data exactly up to 117 inodes. */
  lemma TableFits(n: nat)
    ensures SectorsFor(RECORD * n) <= FS_DATA_BLOCKS_LBA - FS_INODE_TABLE_LBA <==> n <= 117
  {
  }

  /** With at most 117 inodes every file's sectors survive the table write. */
  lemma SavedFile(d: Disk, t: seq<Inode>, i: nat)
    requires Savable(t) && i < |Collect(t)| <= 117 && HasData(t[Collect(t)[i]])
    ensures var ns := Collect(t);
      ReadSectors(Save(d, t), DataLba(t, ns, i), SectorsFor(t[ns[i]].size)) == DataOf(t[ns[i]])
  {
    var ns := Collect(t);
    FileReadsBack(WriteSectors(d, 0, Superblock(|ns|)), t, ns, i, |ns|);
    var b := SavedTableBytes(t);
    assert FS_INODE_TABLE_LBA + |b| / SECTOR <= FS_DATA_BLOCKS_LBA by { TableFits(|ns|); }
    ReadElsewhere(SaveData(d, t), FS_INODE_TABLE_LBA, b, DataLba(t, ns, i), SectorsFor(t[ns[i]].size));
  }

  /**
   From 118 inodes on, the table runs into the data: the first byte of the first
   non-empty file reads back as the ninth byte of the name field of the 118th
   inode, whatever the file held.
   */
  lemma SavedFileClobbered(d: Disk, t: seq<Inode>, i: nat)
    requires Savable(t) && 118 <= |Collect(t)| && i < |Collect(t)|
    requires HasData(t[Collect(t)[i]]) && forall j | 0 <= j < i :: !HasData(t[Collect(t)[j]])
    ensures var ns := Collect(t);
      && DataLba(t, ns, i) == FS_DATA_BLOCKS_LBA
      && ReadSectors(Save(d, t), FS_DATA_BLOCKS_LBA, 1)[0] == EncodeName(t[ns[117]].name)[8]
  {
    var ns := Collect(t);
    FirstDataLba(t, ns, i);
    ByteInTable(t);
    FirstByteOverwritten(SaveData(d, t), SavedTableBytes(t), SectorsFor(RECORD * |ns|));
  }

  lemma ByteInTable(t: seq<Inode>)
    requires Savable(t) && 118 <= |Collect(t)|
    ensures |SavedTableBytes(t)| > 32768
    ensures SavedTableBytes(t)[32768] == EncodeName(t[Collect(t)[117]].name)[8]
  {
    var ns := Collect(t);
    RecordsEncodable(t, ns);
    var rs := Records(t, ns);
    PackedAt(rs, 117);
    assert SavedTableBytes(t)[32768] == Packed(rs)[32768] == Packed(rs)[RECORD * 117..RECORD * 117 + RECORD][8];
  }

  lemma {:induction false} FirstDataLba(t: seq<Inode>, ns: seq<int>, i: nat)
    requires i <= |ns| && forall j | 0 <= j < |ns| :: 0 <= ns[j] < |t|
    requires forall j | 0 <= j < i :: !HasData(t[ns[j]])
    ensures DataLba(t, ns, i) == FS_DATA_BLOCKS_LBA
  {
    if i > 0 { FirstDataLba(t, ns, i - 1); }
  }
}
