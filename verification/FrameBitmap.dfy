/**
 The physical frame allocator of kernel/memory/pmm.c: one bit per 4 KB page in an
 array of 32-bit words.
 */
module FrameBitmap {
  import opened Common

  const MAX_MEMORY := 0x1000_0000
  const BITMAP_ADDRESS := 0x20_0000
  const NO_PAGE := 0xFFFF_FFFF

  // --------------------------------------------------------------------- bits

  /** A 32-bit word as its bits, the least significant first. */
  type Bits = w: seq<bool> | |w| == 32 witness seq(32, i => false)

  const EMPTY: Bits := seq(32, i => false)
  const FULL: Bits := seq(32, i => true)

  /** The masks 1 << j: or-ing one in sets bit j and no other, and-ing its complement clears it and no other. */
  lemma MaskEffect(w: bv32, j: nat, k: nat)
    requires j < 32 && k < 32
    ensures var a, b := (1 as bv32) << j, (1 as bv32) << k;
      && a != 0 && (w | a) & a == a && (w & !a) & a == 0
      && (j != k ==> (w | a) & b == w & b && (w & !a) & b == w & b)
  {
    var a, b := (1 as bv32) << j, (1 as bv32) << k;
    MasksApart(j, k);
    OrSame(w, a);
    ClearSame(w, a);
    if j != k {
      OrOther(w, a, b);
      ClearOther(w, a, b);
    }
  }

  lemma MasksApart(j: nat, k: nat)
    requires j < 32 && k < 32
    ensures (1 as bv32) << j != 0
    ensures j != k ==> ((1 as bv32) << j) & ((1 as bv32) << k) == 0
  {
  }

  lemma OrSame(w: bv32, a: bv32)
    ensures (w | a) & a == a
  {
  }

  lemma OrOther(w: bv32, a: bv32, b: bv32)
    requires a & b == 0
    ensures (w | a) & b == w & b
  {
  }

  lemma ClearSame(w: bv32, a: bv32)
    ensures (w & !a) & a == 0
  {
  }

  lemma ClearOther(w: bv32, a: bv32, b: bv32)
    requires a & b == 0
    ensures (w & !a) & b == w & b
  {
  }

  /** Page `p` is marked in the bitmap. */
  predicate Marked(words: seq<Bits>, p: nat)
    requires p < 32 * |words|
  {
    words[p / 32][p % 32]
  }

  /** The pages below `total` that are marked. */
  ghost function Taken(words: seq<Bits>, total: nat): (s: set<nat>)
    requires total <= 32 * |words|
  {
    set p: nat | p < total && Marked(words, p)
  }

  ghost function Below(n: nat): (s: set<nat>)
    ensures |s| == n && forall p: nat :: p in s <==> p < n
  {
    if n == 0 then {} else Below(n - 1) + {n - 1}
  }

  /** Every page below `n` is in `s`. */
  ghost predicate AllIn(s: set<nat>, n: nat)
  {
    forall p: nat | p < n :: p in s
  }

  lemma SetOne(words: seq<Bits>, p: nat, v: bool)
    requires p < 32 * |words|
    ensures var u := words[p / 32 := words[p / 32][p % 32 := v]];
      forall q: nat | q < 32 * |words| :: Marked(u, q) == if q == p then v else Marked(words, q)
  {
    var u := words[p / 32 := words[p / 32][p % 32 := v]];
    forall q: nat | q < 32 * |words| ensures Marked(u, q) == if q == p then v else Marked(words, q) {
      if q != p && q / 32 == p / 32 { assert q % 32 != p % 32; }
    }
  }

  // ------------------------------------------------------------- memory map

  /** A multiboot memory map entry (low words); kind 1 is available memory. */
  datatype MapEntry = MapEntry(addr: nat, len: nat, kind: nat)

  /** The part of the multiboot information pmm_init reads. */
  datatype Multiboot = Multiboot(hasSizes: bool, lower: nat, upper: nat, entries: seq<MapEntry>)

  function TotalPages(mb: Multiboot): (n: nat)
    ensures n <= MAX_MEMORY / 0x1000
  {
    var bytes := if mb.hasSizes then (mb.lower + mb.upper) * 1024 % WORD else 64 * 1024 * 1024;
    (if bytes > MAX_MEMORY then MAX_MEMORY else bytes) / 0x1000
  }

  function BitmapWords(total: nat): nat
  {
    (total + 31) / 32
  }

  /** Pages of the kernel and the bitmap. */
  function ReservedPages(total: nat): nat
  {
    (BITMAP_ADDRESS + 4 * BitmapWords(total) + 0xFFF) / 0x1000
  }

  /** Where the kernel and the bitmap behind it end. */
  function KernelEnd(total: nat): nat
  {
    BITMAP_ADDRESS + 4 * BitmapWords(total)
  }

  /**
   The bitmap has a bit for every page, and not a word more than that takes; a page is
   reserved at the start exactly if a byte of it belongs to the kernel or the bitmap.
   */
  lemma ReservedExact(total: nat, p: nat)
    ensures total <= 32 * BitmapWords(total) < total + 32
    ensures p < ReservedPages(total) <==> p * 0x1000 < KernelEnd(total)
  {
    assert p < ReservedPages(total) <==> (p + 1) * 0x1000 <= KernelEnd(total) + 0xFFF;
  }

  /** What the boot loader reports; 64 MB if it reports nothing. */
  function InstalledBytes(mb: Multiboot): nat
  {
    if mb.hasSizes then (mb.lower + mb.upper) * 1024 else 0x400_0000
  }

  /** `n` is the number of whole pages of installed memory below the 256 MB limit. */
  predicate CountsPages(mb: Multiboot, n: nat)
  {
    var bytes := InstalledBytes(mb);
    if bytes >= 0x1000_0000 then n == 0x1_0000 else n * 0x1000 <= bytes < (n + 1) * 0x1000
  }

  /** The number of pages is right exactly when the size in bytes fits in 32 bits, or its low word reaches the limit. */
  lemma TotalPagesExact(mb: Multiboot)
    ensures CountsPages(mb, TotalPages(mb)) <==>
      InstalledBytes(mb) < WORD || Wrapped(InstalledBytes(mb)) >= 0x1000_0000
  {
    var bytes := InstalledBytes(mb);
    assert Wrapped(bytes) == bytes % WORD;
  }

  function FirstPage(e: MapEntry): nat
  {
    e.addr / 0x1000
  }

  function EndPage(e: MapEntry): nat
  {
    (e.addr + e.len) % WORD / 0x1000
  }

  ghost predicate Covered(e: MapEntry, p: nat)
  {
    e.kind != 1 && FirstPage(e) <= p < EndPage(e)
  }

  ghost predicate CoveredBySome(es: seq<MapEntry>, p: nat)
  {
    exists i :: 0 <= i < |es| && Covered(es[i], p)
  }

  /** What pmm_init marks: the kernel's pages and those of unavailable regions. */
  ghost predicate InitiallyTaken(mb: Multiboot, p: nat)
  {
    p < ReservedPages(TotalPages(mb)) || CoveredBySome(mb.entries, p)
  }

  /** The page at `addr` has a byte of this unavailable region. */
  predicate Overlaps(e: MapEntry, addr: nat)
  {
    e.kind != 1 && e.addr < WORD && e.len < WORD && addr < e.addr + e.len && e.addr < addr + 0x1000
  }

  /** The region's end wraps, or page `p` is its partly covered last page. */
  predicate Overlooked(e: MapEntry, p: nat)
  {
    e.addr + e.len >= WORD || (p == (e.addr + e.len) / 0x1000 && (e.addr + e.len) % 0x1000 != 0)
  }

  /**
   A page that overlaps an unavailable region is marked for it exactly unless it is
   the region's partly covered last page, which the rounding leaves available, or the
   region's end wraps past 2^32, which marks nothing of it.
   */
  lemma PartialPageMissed(e: MapEntry, p: nat)
    requires Overlaps(e, p * 0x1000)
    ensures Covered(e, p) <==> !Overlooked(e, p)
  {
    assert FirstPage(e) <= p;
    if e.addr + e.len >= WORD {
      assert (e.addr + e.len) % WORD == e.addr + e.len - WORD;
    }
  }

  // ---------------------------------------------------------------- allocator

  /** The allocator's state: bitmap words, number of pages, and the counter of pages in use. */
  datatype Pages = Pages(words: seq<Bits>, total: nat, used: nat)

  ghost predicate Inv(s: Pages)
  {
    && |s.words| == BitmapWords(s.total) && s.total <= MAX_MEMORY / 0x1000
    && s.used == |Taken(s.words, s.total)|
    && forall p: nat {:trigger Marked(s.words, p)} | s.total <= p < 32 * |s.words| :: !Marked(s.words, p)
  }

  function WithBit(words: seq<Bits>, p: nat, v: bool): (r: seq<Bits>)
    requires p < 32 * |words|
    ensures |r| == |words|
  {
    words[p / 32 := words[p / 32][p % 32 := v]]
  }

  /** A linear scan for the lowest clear bit from `p` on; the number of bits if there is none. */
  function FirstClear(words: seq<Bits>, p: nat): (r: nat)
    requires p <= 32 * |words|
    ensures p <= r <= 32 * |words| && (r < 32 * |words| ==> !Marked(words, r))
    ensures forall q: nat {:trigger Marked(words, q)} | p <= q < r :: Marked(words, q)
    decreases 32 * |words| - p
  {
    if p == 32 * |words| || !Marked(words, p) then p else FirstClear(words, p + 1)
  }

  /** pmm_alloc_page. */
  function Alloc(s: Pages): (Pages, nat)
  {
    var p := FirstClear(s.words, 0);
    if p >= s.total || p == 32 * |s.words| then (s, 0)
    else (s.(words := WithBit(s.words, p, true), used := s.used + 1), p * 0x1000)
  }

  /** pmm_free_page. */
  function Free(s: Pages, addr: nat): Pages
  {
    var p := addr / 0x1000;
    if addr == 0 || p >= s.total || p >= 32 * |s.words| || !Marked(s.words, p) then s
    else s.(words := WithBit(s.words, p, false), used := if s.used == 0 then WORD - 1 else s.used - 1)
  }

  /** How many pages are left. */
  function Left(s: Pages): nat
  {
    if s.used <= s.total then s.total - s.used else 0
  }

  /** The counter never exceeds the number of pages, and reaches it exactly when all are in use. */
  lemma LeftMeaning(s: Pages)
    requires Inv(s)
    ensures s.used <= s.total && Left(s) <= 0x1_0000
    ensures Left(s) == 0 <==> AllIn(Taken(s.words, s.total), s.total)
  {
    var used, all := Taken(s.words, s.total), Below(s.total);
    assert used + (all - used) == all;
    if all - used == {} {
      forall p: nat | p < s.total ensures p in used { assert p in all && p !in all - used; }
    } else {
      var p :| p in all - used;
      assert p < s.total && p !in used;
    }
  }

  lemma TakenWith(words: seq<Bits>, total: nat, p: nat, v: bool)
    requires p < total <= 32 * |words|
    ensures Taken(WithBit(words, p, v), total) == if v then Taken(words, total) + {p} else Taken(words, total) - {p}
    ensures forall q: nat {:trigger Marked(WithBit(words, p, v), q)} | q < 32 * |words| && q != p ::
      Marked(WithBit(words, p, v), q) == Marked(words, q)
  {
    SetOne(words, p, v);
  }

  /** The lowest free page is marked and counted; nothing happens exactly when every page is in use. */
  lemma AllocMeaning(s: Pages)
    requires Inv(s)
    ensures var (u, addr) := Alloc(s);
      var used := Taken(s.words, s.total);
      && Inv(u) && u.total == s.total
      && (AllIn(used, s.total) ==> u == s && addr == 0)
      && (!AllIn(used, s.total) ==>
            var p := addr / 0x1000;
            && addr == p * 0x1000 && p < s.total && p !in used && AllIn(used, p)
            && Taken(u.words, s.total) == used + {p})
  {
    var p := FirstClear(s.words, 0);
    var used := Taken(s.words, s.total);
    if p < s.total {
      MarkMeaning(s, p);
      forall q: nat | q < p ensures q in used { assert Marked(s.words, q); }
      assert p !in used;
      assert p * 0x1000 / 0x1000 == p;
    } else {
      forall q: nat | q < s.total ensures q in used { assert Marked(s.words, q); }
    }
  }

  /** Marking a free page and counting it. */
  lemma MarkMeaning(s: Pages, p: nat)
    requires Inv(s) && p < s.total && !Marked(s.words, p)
    ensures var u := s.(words := WithBit(s.words, p, true), used := s.used + 1);
      Inv(u) && Taken(u.words, s.total) == Taken(s.words, s.total) + {p}
  {
    TakenWith(s.words, s.total, p, true);
  }

  /** Exactly the addressed page is free afterwards; NULL, foreign and free pages change nothing. */
  lemma FreeMeaning(s: Pages, addr: nat)
    requires Inv(s)
    ensures var u := Free(s, addr);
      && Inv(u) && u.total == s.total
      && Taken(u.words, s.total) == Taken(s.words, s.total) - (if addr == 0 then {} else {addr / 0x1000})
  {
    var p := addr / 0x1000;
    var used := Taken(s.words, s.total);
    if addr != 0 && p in used {
      TakenWith(s.words, s.total, p, false);
    }
  }

  class Pmm {
    const bitmap: array<Bits>
    const totalPages: nat
    var usedPages: nat

    ghost function State(): Pages
      reads this, bitmap
    {
      Pages(bitmap[..], totalPages, usedPages)
    }

    /** The counter is the number of marked pages; bits past the last page are clear. */
    ghost predicate Valid()
      reads this, bitmap
    {
      Inv(State())
    }

    ghost function Used(): set<nat>
      reads this, bitmap
      requires Valid()
    {
      Taken(bitmap[..], totalPages)
    }

    /** bitmap_set with the counter, for a page not marked yet. */
    method Mark(p: nat)
      requires Valid() && p < totalPages && p !in Used()
      modifies this`usedPages, bitmap
      ensures Valid() && Used() == old(Used()) + {p}
      ensures State() == old(State()).(words := WithBit(old(bitmap[..]), p, true), used := old(usedPages) + 1)
    {
      ghost var words := bitmap[..];
      TakenWith(words, totalPages, p, true);
      bitmap[p / 32] := bitmap[p / 32][p % 32 := true];
      assert bitmap[..] == WithBit(words, p, true);
      usedPages := usedPages + 1;
    }

    /** bitmap_clear with the counter, for a marked page. */
    method Unmark(p: nat)
      requires Valid() && p in Used()
      modifies this`usedPages, bitmap
      ensures Valid() && Used() == old(Used()) - {p}
      ensures State() == old(State()).(words := WithBit(old(bitmap[..]), p, false), used := old(usedPages) - 1)
    {
      ghost var words := bitmap[..];
      TakenWith(words, totalPages, p, false);
      bitmap[p / 32] := bitmap[p / 32][p % 32 := false];
      assert bitmap[..] == WithBit(words, p, false);
      usedPages := usedPages - 1;
    }

    constructor (mb: Multiboot)
      ensures Valid() && fresh(bitmap) && totalPages == TotalPages(mb)
      ensures Started(mb, State())
    {
      totalPages := TotalPages(mb);
      bitmap := new Bits[BitmapWords(TotalPages(mb))](i => EMPTY);
      usedPages := 0;
      new;
      assert Taken(bitmap[..], totalPages) == {};
      ReserveKernel();
      ReserveRegions(mb.entries);
      forall p: nat ensures p in Used() <==> p < totalPages && InitiallyTaken(mb, p) { }
    }

    method ReserveKernel()
      requires Valid() && Used() == {}
      modifies this`usedPages, bitmap
      ensures Valid() && forall p: nat :: p in Used() <==> p < totalPages && p < ReservedPages(totalPages)
    {
      var i, reserved := 0, ReservedPages(totalPages);
      while i < reserved && i < totalPages
        invariant Valid() && 0 <= i <= totalPages && i <= reserved
        invariant forall p: nat :: p in Used() <==> p < i
      {
        assert i !in Used();
        Mark(i);
        i := i + 1;
      }
    }

    method ReserveRegions(es: seq<MapEntry>)
      requires Valid()
      modifies this`usedPages, bitmap
      ensures Valid()
      ensures forall p: nat :: p in Used() <==> p in old(Used()) || (p < totalPages && CoveredBySome(es, p))
    {
      var k := 0;
      while k < |es|
        invariant Valid() && 0 <= k <= |es|
        invariant forall p: nat :: p in Used() <==> p in old(Used()) || (p < totalPages && CoveredBySome(es[..k], p))
      {
        ghost var before := Used();
        if es[k].kind != 1 {
          ReserveRange(FirstPage(es[k]), EndPage(es[k]));
        }
        forall p: nat ensures CoveredBySome(es[..k + 1], p) <==> CoveredBySome(es[..k], p) || Covered(es[k], p) {
          CoveredNext(es, k, p);
        }
        k := k + 1;
      }
      assert es[..|es|] == es;
    }

    method ReserveRange(start: nat, end: nat)
      requires Valid()
      modifies this`usedPages, bitmap
      ensures Valid()
      ensures forall p: nat :: p in Used() <==> p in old(Used()) || (p < totalPages && start <= p < end)
    {
      var i := start;
      while i < end && i < totalPages
        invariant Valid() && start <= i && (i == start || (i <= end && i <= totalPages))
        invariant forall p: nat :: p in Used() <==> p in old(Used()) || (start <= p < i)
        decreases totalPages - i
      {
        if !Marked(bitmap[..], i) {
          Mark(i);
        }
        i := i + 1;
      }
    }

    /** bitmap_first_free: full words are skipped, yet the result is that of the linear scan. */
    method FirstFree() returns (p: nat)
      requires Valid()
      ensures var k := FirstClear(bitmap[..], 0); p == if k == 32 * bitmap.Length then NO_PAGE else k
    {
      var i := 0;
      while i < bitmap.Length
        invariant 0 <= i <= bitmap.Length
        invariant forall q: nat | q < 32 * i :: Marked(bitmap[..], q)
      {
        if bitmap[i] != FULL {
          var j := 0;
          while j < 32
            invariant 0 <= j <= 32
            invariant forall q: nat | q < 32 * i + j :: Marked(bitmap[..], q)
          {
            if !bitmap[i][j] {
              assert (32 * i + j) / 32 == i && (32 * i + j) % 32 == j;
              assert !Marked(bitmap[..], 32 * i + j);
              FirstClearIs(bitmap[..], 0, 32 * i + j);
              return 32 * i + j;
            }
            assert Marked(bitmap[..], 32 * i + j) by {
              assert (32 * i + j) / 32 == i && (32 * i + j) % 32 == j;
            }
            j := j + 1;
          }
        } else {
          forall q: nat | 32 * i <= q < 32 * (i + 1) ensures Marked(bitmap[..], q) {
            assert q / 32 == i && FULL[q % 32];
          }
        }
        i := i + 1;
      }
      FirstClearIs(bitmap[..], 0, 32 * bitmap.Length);
      p := NO_PAGE;
    }

    /**
     pmm_alloc_page: the lowest free page, and nothing exactly when every page is in
     use.  With page 0 in use, as pmm_init leaves it, NULL means just that.
     */
    method AllocPage() returns (addr: nat)
      requires Valid()
      modifies this`usedPages, bitmap
      ensures Valid() && (State(), addr) == Alloc(old(State()))
      ensures 0 in old(Used()) ==> (addr == 0 <==> AllIn(old(Used()), totalPages))
      ensures AllIn(old(Used()), totalPages) ==> addr == 0 && Used() == old(Used())
      ensures !AllIn(old(Used()), totalPages) ==>
        var p := addr / 0x1000;
        && addr == p * 0x1000 && p < totalPages && p !in old(Used())
        && AllIn(old(Used()), p) && Used() == old(Used()) + {p}
    {
      AllocMeaning(State());
      var p := FirstFree();
      if p == NO_PAGE || p >= totalPages {
        return 0;
      }
      Mark(p);
      addr := p * 0x1000;
    }

    /** pmm_free_page: NULL, foreign and free pages are ignored. */
    method FreePage(addr: nat)
      requires Valid()
      modifies this`usedPages, bitmap
      ensures Valid() && State() == Free(old(State()), addr)
      ensures Used() == if addr == 0 then old(Used()) else old(Used()) - {addr / 0x1000}
    {
      FreeMeaning(State(), addr);
      if addr == 0 {
        return;
      }
      var p := addr / 0x1000;
      if p >= totalPages {
        return;
      }
      if Marked(bitmap[..], p) {
        assert p in Used();
        Unmark(p);
      }
    }

    method FreePages() returns (n: nat)
      requires Valid()
      ensures n == |Below(totalPages) - Used()|
    {
      assert Used() <= Below(totalPages);
      assert |Below(totalPages) - Used()| == totalPages - |Used()|;
      n := totalPages - usedPages;
    }
  }

  lemma CoveredNext(es: seq<MapEntry>, k: nat, p: nat)
    requires k < |es|
    ensures CoveredBySome(es[..k + 1], p) <==> CoveredBySome(es[..k], p) || Covered(es[k], p)
  {
    if CoveredBySome(es[..k], p) {
      var i :| 0 <= i < k && Covered(es[..k][i], p);
      assert es[..k + 1][i] == es[i];
    }
    if Covered(es[k], p) { assert es[..k + 1][k] == es[k]; }
    if CoveredBySome(es[..k + 1], p) {
      var i :| 0 <= i < k + 1 && Covered(es[..k + 1][i], p);
      if i < k { assert es[..k][i] == es[i]; }
    }
  }

  lemma {:induction false} FirstClearIs(words: seq<Bits>, p: nat, k: nat)
    requires p <= k <= 32 * |words| && (k < 32 * |words| ==> !Marked(words, k))
    requires forall q: nat {:trigger Marked(words, q)} | p <= q < k :: Marked(words, q)
    ensures FirstClear(words, p) == k
    decreases k - p
  {
    if p < k {
      assert Marked(words, p);
      FirstClearIs(words, p + 1, k);
    }
  }

  // --------------------------------------------------------------------- runs

  /** What pmm_init leaves: exactly the kernel's pages and the covered ones are marked and counted. */
  ghost predicate Started(mb: Multiboot, s: Pages)
  {
    && Inv(s) && s.total == TotalPages(mb)
    && forall p: nat :: p in Taken(s.words, s.total) <==> p < s.total && InitiallyTaken(mb, p)
  }

  ghost function Reserved(mb: Multiboot): set<nat>
  {
    set p: nat | p < TotalPages(mb) && InitiallyTaken(mb, p)
  }

  datatype Call = CallAlloc | CallFree(addr: nat)

  /** The allocator and the pages that callers hold: returned to them and not freed since. */
  datatype Trace = Trace(s: Pages, held: set<nat>)

  function Follow(t: Trace, call: Call): Trace
  {
    match call
    case CallAlloc =>
      var (u, addr) := Alloc(t.s);
      Trace(u, if addr == 0 then t.held else t.held + {addr / 0x1000})
    case CallFree(addr) =>
      Trace(Free(t.s, addr), if addr == 0 then t.held else t.held - {addr / 0x1000})
  }

  /** Callers may free anything but an address in a page that pmm_init reserved. */
  ghost predicate Legal(mb: Multiboot, call: Call)
  {
    call.CallFree? && call.addr != 0 ==> call.addr / 0x1000 !in Reserved(mb)
  }

  ghost predicate Run(mb: Multiboot, ts: seq<Trace>, calls: seq<Call>)
  {
    && |ts| == |calls| + 1 && Started(mb, ts[0].s) && ts[0].held == {}
    && forall i {:trigger calls[i]} | 0 <= i < |calls| :: Legal(mb, calls[i]) && ts[i + 1] == Follow(ts[i], calls[i])
  }

  /** The pages in use are the reserved ones and those held, and nobody holds a reserved one. */
  ghost predicate Accounted(reserved: set<nat>, t: Trace)
  {
    && Inv(t.s) && (t.s.total > 0 ==> 0 in reserved)
    && Taken(t.s.words, t.s.total) == reserved + t.held && reserved !! t.held
  }

  lemma AllocAccounts(reserved: set<nat>, t: Trace)
    requires Accounted(reserved, t)
    ensures Accounted(reserved, Follow(t, CallAlloc))
    ensures var addr := Alloc(t.s).1;
      && (addr == 0 <==> AllIn(reserved + t.held, t.s.total))
      && (addr != 0 ==>
            var p := addr / 0x1000; addr == p * 0x1000 && p < t.s.total && p !in reserved && p !in t.held)
  {
    AllocMeaning(t.s);
    var p := Alloc(t.s).1 / 0x1000;
    if !AllIn(reserved + t.held, t.s.total) { assert p != 0; }
  }

  lemma FreeAccounts(reserved: set<nat>, t: Trace, addr: nat)
    requires Accounted(reserved, t) && (addr != 0 ==> addr / 0x1000 !in reserved)
    ensures Accounted(reserved, Follow(t, CallFree(addr)))
  {
    FreeMeaning(t.s, addr);
  }

  lemma StartAccounts(mb: Multiboot, s: Pages)
    requires Started(mb, s)
    ensures Accounted(Reserved(mb), Trace(s, {}))
  {
    assert Taken(s.words, s.total) == Reserved(mb);
    assert InitiallyTaken(mb, 0);
  }

  lemma {:induction false} RunAccounts(mb: Multiboot, ts: seq<Trace>, calls: seq<Call>, j: nat)
    requires Run(mb, ts, calls) && j <= |calls|
    ensures Accounted(Reserved(mb), ts[j]) && ts[j].s.total == TotalPages(mb)
  {
    if j == 0 {
      StartAccounts(mb, ts[0].s);
    } else {
      RunAccounts(mb, ts, calls, j - 1);
      var t, call := ts[j - 1], calls[j - 1];
      match call
      case CallAlloc =>
        AllocAccounts(Reserved(mb), t);
        AllocMeaning(t.s);
      case CallFree(addr) =>
        FreeAccounts(Reserved(mb), t, addr);
    }
  }

  /**
   On every run from pmm_init: the counter is the number of reserved and held pages,
   the page handed out next is below the total and neither reserved nor held, and
   NULL is returned exactly when all pages are.
   */
  lemma PagesStayDistinct(mb: Multiboot, ts: seq<Trace>, calls: seq<Call>, j: nat)
    requires Run(mb, ts, calls) && j <= |calls|
    ensures Inv(ts[j].s) && ts[j].s.total == TotalPages(mb)
    ensures ts[j].s.used == |Reserved(mb)| + |ts[j].held| && Reserved(mb) !! ts[j].held
    ensures Taken(ts[j].s.words, TotalPages(mb)) == Reserved(mb) + ts[j].held
    ensures var addr := Alloc(ts[j].s).1;
      && (addr == 0 <==> AllIn(Reserved(mb) + ts[j].held, TotalPages(mb)))
      && (addr != 0 ==>
            var p := addr / 0x1000;
            addr == p * 0x1000 && p < TotalPages(mb) && p !in Reserved(mb) && p !in ts[j].held)
  {
    RunAccounts(mb, ts, calls, j);
    AllocAccounts(Reserved(mb), ts[j]);
    DisjointSizes(Reserved(mb), ts[j].held);
  }

  /**
   On every run from pmm_init an address handed out lies behind the kernel and its
   bitmap and inside the counted memory, and overlaps an unavailable region only if it is
   the region's partly covered last page or the region's end wraps.
   */
  lemma HandedOutIsFree(mb: Multiboot, ts: seq<Trace>, calls: seq<Call>, j: nat)
    requires Run(mb, ts, calls) && j <= |calls| && Alloc(ts[j].s).1 != 0
    ensures var addr := Alloc(ts[j].s).1;
      && KernelEnd(TotalPages(mb)) <= addr && addr + 0x1000 <= TotalPages(mb) * 0x1000
      && forall i | 0 <= i < |mb.entries| :: Overlaps(mb.entries[i], addr) ==> Overlooked(mb.entries[i], addr / 0x1000)
  {
    PagesStayDistinct(mb, ts, calls, j);
    var addr := Alloc(ts[j].s).1;
    var p := addr / 0x1000;
    assert !InitiallyTaken(mb, p);
    ReservedExact(TotalPages(mb), p);
    forall i | 0 <= i < |mb.entries| && Overlaps(mb.entries[i], addr) ensures Overlooked(mb.entries[i], p) {
      assert !Covered(mb.entries[i], p);
      PartialPageMissed(mb.entries[i], p);
    }
  }

  lemma DisjointSizes(a: set<nat>, b: set<nat>)
    requires a !! b
    ensures |a + b| == |a| + |b|
  {
  }
}
