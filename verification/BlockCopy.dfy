/**
 The block operations of kernel/lib/string_asm.asm and memmove of kernel/lib/string.c,
 on memory as an array of bytes indexed by address.
 */
module BlockCopy {
  type Byte = bv8

  // -------------------------------------------------------------- the meanings

  /** n bytes from s land at d, all read before any is written. */
  function Snapshot(m: seq<Byte>, d: nat, s: nat, n: nat): (r: seq<Byte>)
    requires d + n <= |m| && s + n <= |m|
    ensures |r| == |m|
  {
    seq(|m|, a requires 0 <= a < |m| => if d <= a < d + n then m[s + (a - d)] else m[a])
  }

  /** n bytes from d become b. */
  function Filled(m: seq<Byte>, d: nat, b: Byte, n: nat): (r: seq<Byte>)
    requires d + n <= |m|
    ensures |r| == |m|
  {
    seq(|m|, a requires 0 <= a < |m| => if d <= a < d + n then b else m[a])
  }

  // ---------------------------------------------------- the string instructions

  /** rep movsb, forward. */
  function CopyBytes(m: seq<Byte>, d: nat, s: nat, n: nat): (r: seq<Byte>)
    requires d + n <= |m| && s + n <= |m|
    ensures |r| == |m|
    decreases n
  {
    if n == 0 then m else CopyBytes(m[d := m[s]], d + 1, s + 1, n - 1)
  }

  /** One movsd: four bytes are read, then written. */
  function PutFour(m: seq<Byte>, d: nat, w: seq<Byte>): (r: seq<Byte>)
    requires d + 4 <= |m| && |w| == 4
    ensures |r| == |m|
  {
    seq(|m|, a requires 0 <= a < |m| => if d <= a < d + 4 then w[a - d] else m[a])
  }

  /** rep movsd, forward. */
  function CopyDwords(m: seq<Byte>, d: nat, s: nat, k: nat): (r: seq<Byte>)
    requires d + 4 * k <= |m| && s + 4 * k <= |m|
    ensures |r| == |m|
    decreases k
  {
    if k == 0 then m else CopyDwords(PutFour(m, d, m[s..s + 4]), d + 4, s + 4, k - 1)
  }

  /** rep stosd of a register holding the bytes w. */
  function FillDwords(m: seq<Byte>, d: nat, w: seq<Byte>, k: nat): (r: seq<Byte>)
    requires d + 4 * k <= |m| && |w| == 4
    ensures |r| == |m|
    decreases k
  {
    if k == 0 then m else FillDwords(PutFour(m, d, w), d + 4, w, k - 1)
  }

  /** The destination does not lie inside the source ahead of it, so that no byte is written before it is read. */
  ghost predicate Safe(d: nat, s: nat, n: nat)
  {
    d <= s || s + n <= d
  }

  lemma {:induction false} BytesAreSnapshot(m: seq<Byte>, d: nat, s: nat, n: nat)
    requires d + n <= |m| && s + n <= |m| && Safe(d, s, n)
    ensures CopyBytes(m, d, s, n) == Snapshot(m, d, s, n)
    decreases n
  {
    if n > 0 {
      BytesAreSnapshot(m[d := m[s]], d + 1, s + 1, n - 1);
    }
  }

  lemma {:induction false} DwordsAreSnapshot(m: seq<Byte>, d: nat, s: nat, k: nat)
    requires d + 4 * k <= |m| && s + 4 * k <= |m| && Safe(d, s, 4 * k)
    ensures CopyDwords(m, d, s, k) == Snapshot(m, d, s, 4 * k)
    decreases k
  {
    if k > 0 {
      DwordsAreSnapshot(PutFour(m, d, m[s..s + 4]), d + 4, s + 4, k - 1);
      DwordThenRest(m, d, s, 4 * k);
    }
  }

  lemma DwordThenRest(m: seq<Byte>, d: nat, s: nat, n: nat)
    requires n >= 4 && d + n <= |m| && s + n <= |m| && Safe(d, s, n)
    ensures Snapshot(PutFour(m, d, m[s..s + 4]), d + 4, s + 4, n - 4) == Snapshot(m, d, s, n)
  {
    var m1 := PutFour(m, d, m[s..s + 4]);
    var x, y := Snapshot(m1, d + 4, s + 4, n - 4), Snapshot(m, d, s, n);
    forall a | 0 <= a < |m| ensures x[a] == y[a] {
      if d + 4 <= a < d + n {
        assert x[a] == m1[s + 4 + (a - (d + 4))];
      } else if d <= a < d + 4 {
        assert m1[a] == m[s..s + 4][a - d];
      }
    }
  }

  /** Two pieces one after the other are the whole. */
  lemma SnapshotsJoin(m: seq<Byte>, d: nat, s: nat, n1: nat, n2: nat)
    requires d + n1 + n2 <= |m| && s + n1 + n2 <= |m| && Safe(d, s, n1 + n2)
    ensures Snapshot(Snapshot(m, d, s, n1), d + n1, s + n1, n2) == Snapshot(m, d, s, n1 + n2)
  {
  }

  // --------------------------------------------------------------- memcpy_asm

  method RepMovsb(mem: array<Byte>, edi: nat, esi: nat, ecx: nat)
    requires edi + ecx <= mem.Length && esi + ecx <= mem.Length
    modifies mem
    ensures mem[..] == CopyBytes(old(mem[..]), edi, esi, ecx)
  {
    var i := 0;
    while i < ecx
      invariant 0 <= i <= ecx
      invariant CopyBytes(mem[..], edi + i, esi + i, ecx - i) == CopyBytes(old(mem[..]), edi, esi, ecx)
    {
      ghost var m := mem[..];
      mem[edi + i] := mem[esi + i];
      assert mem[..] == m[edi + i := m[esi + i]];
      i := i + 1;
    }
  }

  method RepMovsd(mem: array<Byte>, edi: nat, esi: nat, ecx: nat)
    requires edi + 4 * ecx <= mem.Length && esi + 4 * ecx <= mem.Length
    modifies mem
    ensures mem[..] == CopyDwords(old(mem[..]), edi, esi, ecx)
  {
    var i := 0;
    while i < ecx
      invariant 0 <= i <= ecx
      invariant CopyDwords(mem[..], edi + 4 * i, esi + 4 * i, ecx - i) == CopyDwords(old(mem[..]), edi, esi, ecx)
    {
      StoreFour(mem, edi + 4 * i, mem[esi + 4 * i..esi + 4 * i + 4]);
      i := i + 1;
    }
  }

  method StoreFour(mem: array<Byte>, d: nat, w: seq<Byte>)
    requires d + 4 <= mem.Length && |w| == 4
    modifies mem
    ensures mem[..] == PutFour(old(mem[..]), d, w)
  {
    mem[d], mem[d + 1], mem[d + 2], mem[d + 3] := w[0], w[1], w[2], w[3];
  }

  /** What memcpy_asm does for every length and alignment. */
  function MemcpyResult(m: seq<Byte>, d: nat, s: nat, n: nat): (r: seq<Byte>)
    requires d + n <= |m| && s + n <= |m|
    ensures |r| == |m|
  {
    if n < 4 then CopyBytes(m, d, s, n)
    else if d % 4 != 0 then
      var k := 4 - d % 4;
      CopyBytes(CopyBytes(m, d, s, n - k), d + (n - k), s + (n - k), k)
    else
      CopyBytes(CopyDwords(m, d, s, n / 4), d + n / 4 * 4, s + n / 4 * 4, n % 4)
  }

  method MemcpyAsm(mem: array<Byte>, dest: nat, src: nat, n: nat) returns (r: nat)
    requires dest + n <= mem.Length && src + n <= mem.Length
    modifies mem
    ensures r == dest && mem[..] == MemcpyResult(old(mem[..]), dest, src, n)
  {
    r := dest;
    var edi, esi, ecx := dest, src, n;
    if ecx == 0 {
      return;
    }
    if ecx >= 4 {
      var eax := edi % 4;
      if eax != 0 {
        var edx := 4 - eax;
        ecx := ecx - edx;
        RepMovsb(mem, edi, esi, ecx);
        edi, esi, ecx := edi + ecx, esi + ecx, edx;
      }
      CopyBulk(mem, edi, esi, ecx);
      return;
    }
    RepMovsb(mem, edi, esi, ecx);
  }

  /** From the aligned label on: whole dwords, then what is left. */
  method CopyBulk(mem: array<Byte>, dest: nat, src: nat, n: nat)
    requires dest + n <= mem.Length && src + n <= mem.Length
    modifies mem
    ensures mem[..] == CopyBytes(CopyDwords(old(mem[..]), dest, src, n / 4), dest + n / 4 * 4, src + n / 4 * 4, n % 4)
  {
    var edx := n;
    var ecx := n / 4;
    RepMovsd(mem, dest, src, ecx);
    var edi, esi := dest + 4 * ecx, src + 4 * ecx;
    ecx := edx % 4;
    if ecx == 0 {
      return;
    }
    RepMovsb(mem, edi, esi, ecx);
  }

  lemma UnalignedIsSnapshot(m: seq<Byte>, d: nat, s: nat, n: nat, k: nat)
    requires d + n <= |m| && s + n <= |m| && Safe(d, s, n) && k <= n
    ensures CopyBytes(CopyBytes(m, d, s, n - k), d + (n - k), s + (n - k), k) == Snapshot(m, d, s, n)
  {
    var q := n - k;
    BytesAreSnapshot(m, d, s, q);
    BytesAreSnapshot(Snapshot(m, d, s, q), d + q, s + q, k);
    SnapshotsJoin(m, d, s, q, k);
  }

  lemma AlignedIsSnapshot(m: seq<Byte>, d: nat, s: nat, q: nat, k: nat)
    requires d + 4 * q + k <= |m| && s + 4 * q + k <= |m| && Safe(d, s, 4 * q + k)
    ensures CopyBytes(CopyDwords(m, d, s, q), d + 4 * q, s + 4 * q, k) == Snapshot(m, d, s, 4 * q + k)
  {
    DwordsAreSnapshot(m, d, s, q);
    BytesAreSnapshot(Snapshot(m, d, s, 4 * q), d + 4 * q, s + 4 * q, k);
    SnapshotsJoin(m, d, s, 4 * q, k);
  }

  /** memcpy_asm copies exactly n bytes whenever the destination is not ahead inside the source. */
  lemma MemcpyIsSnapshot(m: seq<Byte>, d: nat, s: nat, n: nat)
    requires d + n <= |m| && s + n <= |m| && Safe(d, s, n)
    ensures MemcpyResult(m, d, s, n) == Snapshot(m, d, s, n)
  {
    if n < 4 {
      BytesAreSnapshot(m, d, s, n);
    } else if d % 4 != 0 {
      UnalignedIsSnapshot(m, d, s, n, 4 - d % 4);
    } else {
      AlignedIsSnapshot(m, d, s, n / 4, n % 4);
      assert 4 * (n / 4) + n % 4 == n;
    }
  }

  // ------------------------------------------------- memcpy_asm under overlap

  lemma {:induction false} BytesJoin(m: seq<Byte>, d: nat, s: nat, n1: nat, n2: nat)
    requires d + n1 + n2 <= |m| && s + n1 + n2 <= |m|
    ensures CopyBytes(CopyBytes(m, d, s, n1), d + n1, s + n1, n2) == CopyBytes(m, d, s, n1 + n2)
    decreases n1
  {
    if n1 > 0 { BytesJoin(m[d := m[s]], d + 1, s + 1, n1 - 1, n2); }
  }

  /** Bytes outside the destination stay, and a byte read before the copy reaches it is copied faithfully. */
  lemma {:induction false} ByteOf(m: seq<Byte>, d: nat, s: nat, n: nat, a: nat)
    requires d + n <= |m| && s + n <= |m| && s < d && a < |m|
    ensures !(d <= a < d + n) ==> CopyBytes(m, d, s, n)[a] == m[a]
    ensures d <= a < d + n && s + (a - d) < d ==> CopyBytes(m, d, s, n)[a] == m[s + (a - d)]
    decreases n
  {
    if n > 0 { ByteOf(m[d := m[s]], d + 1, s + 1, n - 1, a); }
  }

  lemma {:induction false} DwordOf(m: seq<Byte>, d: nat, s: nat, k: nat, a: nat)
    requires d + 4 * k <= |m| && s + 4 * k <= |m| && s < d && a < |m|
    ensures !(d <= a < d + 4 * k) ==> CopyDwords(m, d, s, k)[a] == m[a]
    ensures d <= a < d + 4 * k && s + (a - d) < d ==> CopyDwords(m, d, s, k)[a] == m[s + (a - d)]
    decreases k
  {
    if k > 0 { DwordOf(PutFour(m, d, m[s..s + 4]), d + 4, s + 4, k - 1, a); }
  }

  /** Byte by byte into an overlap: the byte as far on as the distance gets the first source byte. */
  lemma BytesWrap(m: seq<Byte>, d: nat, s: nat, n: nat)
    requires d + n <= |m| && s < d < s + n
    ensures CopyBytes(m, d, s, n)[d + (d - s)] == m[s]
  {
    ByteOf(m[d := m[s]], d + 1, s + 1, n - 1, d + (d - s));
  }

  /** Dword by dword into an overlap, at distance 4 or more the same happens; below, byte 4 gets an earlier byte. */
  lemma DwordsWrap(m: seq<Byte>, d: nat, s: nat, k: nat, r: nat)
    requires d + 4 * k + r <= |m| && s < d < s + 4 * k + r && 1 <= k && 5 <= 4 * k + r && r < 4
    ensures var x := CopyBytes(CopyDwords(m, d, s, k), d + 4 * k, s + 4 * k, r);
      if d - s >= 4 then x[d + (d - s)] == m[s] else x[d + 4] == m[s + 4 - (d - s)]
  {
    var delta := if d - s >= 4 then d - s else 4;
    var m1 := PutFour(m, d, m[s..s + 4]);
    var y := CopyDwords(m, d, s, k);
    ByteOf(y, d + 4 * k, s + 4 * k, r, d + delta);
    if delta < 4 * k {
      DwordOf(m1, d + 4, s + 4, k - 1, d + delta);
      assert m1[s + delta] == m[s..s + 4][s + delta - d];
    } else {
      DwordOf(m, d, s, k, s + delta);
      assert y[s + delta] == m[s + (s + delta - d)];
    }
  }

  ghost predicate CorrectForAll(size: nat, d: nat, s: nat, n: nat)
    requires d + n <= size && s + n <= size
  {
    forall m: seq<Byte> | |m| == size :: MemcpyResult(m, d, s, n) == Snapshot(m, d, s, n)
  }

  /** A memory that is zero but for one byte. */
  function Spot(size: nat, a: nat): (m: seq<Byte>)
    ensures |m| == size
  {
    seq(size, i => if i == a then 1 else 0)
  }

  /**
   For overlapping blocks memcpy_asm copies right whatever the contents exactly when
   the destination is not ahead inside the source, or the copy is a single aligned dword.
   */
  lemma MemcpyCorrectIff(size: nat, d: nat, s: nat, n: nat)
    requires d + n <= size && s + n <= size
    ensures CorrectForAll(size, d, s, n) <==> Safe(d, s, n) || (n == 4 && d % 4 == 0)
  {
    if Safe(d, s, n) {
      forall m: seq<Byte> | |m| == size ensures MemcpyResult(m, d, s, n) == Snapshot(m, d, s, n) {
        MemcpyIsSnapshot(m, d, s, n);
      }
    } else if n == 4 && d % 4 == 0 {
      forall m: seq<Byte> | |m| == size ensures MemcpyResult(m, d, s, n) == Snapshot(m, d, s, n) {
        SingleDword(m, d, s);
      }
    } else if n < 4 || d % 4 != 0 {
      ByteOverlapFails(size, d, s, n);
    } else {
      DwordOverlapFails(size, d, s, n);
    }
  }

  lemma SingleDword(m: seq<Byte>, d: nat, s: nat)
    requires d + 4 <= |m| && s + 4 <= |m| && d % 4 == 0
    ensures MemcpyResult(m, d, s, 4) == Snapshot(m, d, s, 4)
  {
    var m1 := PutFour(m, d, m[s..s + 4]);
    assert CopyDwords(m1, d + 4, s + 4, 0) == m1;
    assert CopyDwords(m, d, s, 1) == m1;
    assert m1 == Snapshot(m, d, s, 4);
  }

  lemma ByteOverlapFails(size: nat, d: nat, s: nat, n: nat)
    requires d + n <= size && s < d < s + n && (n < 4 || d % 4 != 0)
    ensures !CorrectForAll(size, d, s, n)
  {
    var m := Spot(size, s);
    if n >= 4 {
      var k := 4 - d % 4;
      BytesJoin(m, d, s, n - k, k);
    }
    assert MemcpyResult(m, d, s, n) == CopyBytes(m, d, s, n);
    BytesWrap(m, d, s, n);
    assert Snapshot(m, d, s, n)[d + (d - s)] == m[d] == 0;
  }

  lemma DwordOverlapFails(size: nat, d: nat, s: nat, n: nat)
    requires d + n <= size && s < d < s + n && n > 4 && d % 4 == 0
    ensures !CorrectForAll(size, d, s, n)
  {
    var far := d - s >= 4;
    var m := Spot(size, if far then s else s + 4 - (d - s));
    var k, r := n / 4, n % 4;
    assert 4 * k + r == n;
    DwordsWrap(m, d, s, k, r);
    var at := if far then d + (d - s) else d + 4;
    assert MemcpyResult(m, d, s, n)[at] == 1;
    assert Snapshot(m, d, s, n)[at] == m[s + (at - d)] == 0;
  }

  // --------------------------------------------------------------- memset_asm

  /** The int argument by its bytes, least significant first. */
  datatype Int32 = Int32(b0: Byte, b1: Byte, b2: Byte, b3: Byte)

  /** eax after the replication: only the lower half is replaced, so the upper bytes are or-ed in. */
  function Pattern(c: Int32): (w: seq<Byte>)
    ensures |w| == 4
  {
    [c.b0, c.b0, c.b0 | c.b2, c.b0 | c.b3]
  }

  /** The fill with register bytes `w`: bytes use al, dwords all four. */
  function FillWith(m: seq<Byte>, d: nat, w: seq<Byte>, n: nat): (r: seq<Byte>)
    requires d + n <= |m| && |w| == 4
    ensures |r| == |m|
  {
    if n < 4 then Filled(m, d, w[0], n)
    else if d % 4 != 0 then
      var k := 4 - d % 4;
      Filled(Filled(m, d, w[0], n - k), d + (n - k), w[0], k)
    else Filled(FillDwords(m, d, w, n / 4), d + n / 4 * 4, w[0], n % 4)
  }

  function MemsetResult(m: seq<Byte>, d: nat, c: Int32, n: nat): (r: seq<Byte>)
    requires d + n <= |m|
    ensures |r| == |m|
  {
    FillWith(m, d, Pattern(c), n)
  }

  method RepStosb(mem: array<Byte>, edi: nat, al: Byte, ecx: nat)
    requires edi + ecx <= mem.Length
    modifies mem
    ensures mem[..] == Filled(old(mem[..]), edi, al, ecx)
  {
    var i := 0;
    while i < ecx
      invariant 0 <= i <= ecx
      invariant mem[..] == Filled(old(mem[..]), edi, al, i)
    {
      mem[edi + i] := al;
      i := i + 1;
    }
  }

  method RepStosd(mem: array<Byte>, edi: nat, eax: seq<Byte>, ecx: nat)
    requires edi + 4 * ecx <= mem.Length && |eax| == 4
    modifies mem
    ensures mem[..] == FillDwords(old(mem[..]), edi, eax, ecx)
  {
    var i := 0;
    while i < ecx
      invariant 0 <= i <= ecx
      invariant FillDwords(mem[..], edi + 4 * i, eax, ecx - i) == FillDwords(old(mem[..]), edi, eax, ecx)
    {
      StoreFour(mem, edi + 4 * i, eax);
      i := i + 1;
    }
  }

  method MemsetAsm(mem: array<Byte>, s: nat, c: Int32, n: nat) returns (r: nat)
    requires s + n <= mem.Length
    modifies mem
    ensures r == s && mem[..] == MemsetResult(old(mem[..]), s, c, n)
  {
    var eax := Pattern(c);
    FillFrom(mem, s, eax, n);
    r := s;
  }

  /** memset_asm once the register is set up. */
  method FillFrom(mem: array<Byte>, s: nat, eax: seq<Byte>, n: nat)
    requires s + n <= mem.Length && |eax| == 4
    modifies mem
    ensures mem[..] == FillWith(old(mem[..]), s, eax, n)
  {
    var edi, ecx := s, n;
    if ecx == 0 {
      FillNothing(mem[..], s, eax[0]);
      return;
    }
    if ecx >= 4 {
      var edx := edi % 4;
      if edx != 0 {
        edx := 4 - edi % 4;
        ecx := ecx - edx;
        RepStosb(mem, edi, eax[0], ecx);
        edi, ecx := edi + ecx, edx;
      }
      edx := ecx;
      ecx := ecx / 4;
      RepStosd(mem, edi, eax, ecx);
      edi := edi + 4 * ecx;
      ecx := edx % 4;
      if ecx == 0 {
        FillNothing(mem[..], edi, eax[0]);
        return;
      }
    }
    RepStosb(mem, edi, eax[0], ecx);
  }

  lemma {:induction false} DwordAt(m: seq<Byte>, d: nat, w: seq<Byte>, k: nat, a: nat)
    requires d + 4 * k <= |m| && |w| == 4 && a < |m|
    ensures FillDwords(m, d, w, k)[a] == if d <= a < d + 4 * k then w[(a - d) % 4] else m[a]
    decreases k
  {
    if k > 0 { DwordAt(PutFour(m, d, w), d + 4, w, k - 1, a); }
  }

  /**
   memset_asm fills with the low byte exactly when the dword loop is not reached
   (fewer than four bytes, or an unaligned start) or the two upper bytes of the
   argument add no bits to the low one.
   */
  lemma MemsetCorrectIff(m: seq<Byte>, d: nat, c: Int32, n: nat)
    requires d + n <= |m|
    ensures MemsetResult(m, d, c, n) == Filled(m, d, c.b0, n) <==>
      n < 4 || d % 4 != 0 || (c.b0 | c.b2 == c.b0 && c.b0 | c.b3 == c.b0)
  {
    if n >= 4 {
      if d % 4 != 0 {
        FillsJoin(m, d, c.b0, n - (4 - d % 4), 4 - d % 4);
      } else if c.b0 | c.b2 == c.b0 && c.b0 | c.b3 == c.b0 {
        MemsetAligned(m, d, c, n);
      } else {
        MemsetBroken(m, d, c, n);
      }
    }
  }

  lemma FillsJoin(m: seq<Byte>, d: nat, b: Byte, n1: nat, n2: nat)
    requires d + n1 + n2 <= |m|
    ensures Filled(Filled(m, d, b, n1), d + n1, b, n2) == Filled(m, d, b, n1 + n2)
  {
  }

  lemma MemsetAligned(m: seq<Byte>, d: nat, c: Int32, n: nat)
    requires d + n <= |m| && n >= 4 && d % 4 == 0 && c.b0 | c.b2 == c.b0 && c.b0 | c.b3 == c.b0
    ensures MemsetResult(m, d, c, n) == Filled(m, d, c.b0, n)
  {
    forall a | 0 <= a < |m| ensures MemsetResult(m, d, c, n)[a] == Filled(m, d, c.b0, n)[a] {
      MemsetAlignedAt(m, d, c, n, a);
    }
  }

  lemma MemsetAlignedAt(m: seq<Byte>, d: nat, c: Int32, n: nat, a: nat)
    requires d + n <= |m| && n >= 4 && d % 4 == 0 && c.b0 | c.b2 == c.b0 && c.b0 | c.b3 == c.b0 && a < |m|
    ensures MemsetResult(m, d, c, n)[a] == if d <= a < d + n then c.b0 else m[a]
  {
    MemsetAt(m, d, c, n, a);
    var w := Pattern(c);
    UniformAt(w, c.b0, (a - d) % 4);
  }

  lemma UniformAt(w: seq<Byte>, b: Byte, j: nat)
    requires |w| == 4 && w[0] == b && w[1] == b && w[2] == b && w[3] == b && j < 4
    ensures w[j] == b
  {
  }

  lemma FillNothing(m: seq<Byte>, d: nat, b: Byte)
    requires d <= |m|
    ensures Filled(m, d, b, 0) == m
  {
  }

  lemma MemsetBroken(m: seq<Byte>, d: nat, c: Int32, n: nat)
    requires d + n <= |m| && n >= 4 && d % 4 == 0 && !(c.b0 | c.b2 == c.b0 && c.b0 | c.b3 == c.b0)
    ensures MemsetResult(m, d, c, n) != Filled(m, d, c.b0, n)
  {
    MemsetAt(m, d, c, n, d + 2);
    MemsetAt(m, d, c, n, d + 3);
    assert Filled(m, d, c.b0, n)[d + 2] == c.b0 && Filled(m, d, c.b0, n)[d + 3] == c.b0;
  }

  lemma MemsetAt(m: seq<Byte>, d: nat, c: Int32, n: nat, a: nat)
    requires d + n <= |m| && n >= 4 && d % 4 == 0 && a < |m|
    ensures MemsetResult(m, d, c, n)[a] ==
      if d <= a < d + n / 4 * 4 then Pattern(c)[(a - d) % 4] else if d <= a < d + n then c.b0 else m[a]
  {
    DwordAt(m, d, Pattern(c), n / 4, a);
  }

  // ------------------------------------------------------------------ memmove

  lemma OneMoreAfter(m: seq<Byte>, d: nat, s: nat, i: nat)
    requires d + i < |m| && s + i < |m|
    ensures Snapshot(m, d, s, i)[d + i := m[s + i]] == Snapshot(m, d, s, i + 1)
  {
  }

  lemma OneMoreBefore(m: seq<Byte>, d: nat, s: nat, i: nat, n: nat)
    requires 0 < i <= n && d + n <= |m| && s + n <= |m|
    ensures Snapshot(m, d + i, s + i, n - i)[d + i - 1 := m[s + i - 1]] == Snapshot(m, d + i - 1, s + i - 1, n - i + 1)
  {
  }

  /** memmove is a snapshot copy under any overlap. */
  method Memmove(mem: array<Byte>, dest: nat, src: nat, n: nat) returns (r: nat)
    requires dest + n <= mem.Length && src + n <= mem.Length
    modifies mem
    ensures r == dest && mem[..] == Snapshot(old(mem[..]), dest, src, n)
  {
    if dest < src {
      MoveUp(mem, dest, src, n);
    } else {
      MoveDown(mem, dest, src, n);
    }
    r := dest;
  }

  method MoveUp(mem: array<Byte>, dest: nat, src: nat, n: nat)
    requires dest + n <= mem.Length && src + n <= mem.Length && dest < src
    modifies mem
    ensures mem[..] == Snapshot(old(mem[..]), dest, src, n)
  {
    ghost var m := mem[..];
    var i := 0;
    while i < n
      invariant 0 <= i <= n
      invariant mem[..] == Snapshot(m, dest, src, i)
    {
      assert mem[..][src + i] == m[src + i];
      ghost var before := mem[..];
      mem[dest + i] := mem[src + i];
      assert mem[..] == before[dest + i := m[src + i]];
      OneMoreAfter(m, dest, src, i);
      i := i + 1;
    }
  }

  method MoveDown(mem: array<Byte>, dest: nat, src: nat, n: nat)
    requires dest + n <= mem.Length && src + n <= mem.Length && src <= dest
    modifies mem
    ensures mem[..] == Snapshot(old(mem[..]), dest, src, n)
  {
    ghost var m := mem[..];
    var i := n;
    while i > 0
      invariant 0 <= i <= n
      invariant mem[..] == Snapshot(m, dest + i, src + i, n - i)
    {
      assert mem[..][src + i - 1] == m[src + i - 1];
      ghost var before := mem[..];
      mem[dest + i - 1] := mem[src + i - 1];
      assert mem[..] == before[dest + i - 1 := m[src + i - 1]];
      OneMoreBefore(m, dest, src, i, n);
      i := i - 1;
    }
  }
}
