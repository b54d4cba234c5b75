/**
 kernel/memory/paging.c: a page directory and page tables in physical frames, taken
 from the frame allocator, refine one flat map from virtual pages to frames
 (32-bit paging, section 4.3 of the Intel Software Developer's Manual, volume 3A).
 */
module Paging {
  import opened Common
  import opened FrameBitmap
  import opened FrameSupply

  const PAGE_PRESENT := 1
  const PAGE_WRITABLE := 2
  const TABLE_FLAGS := PAGE_PRESENT + PAGE_WRITABLE
  const ENTRIES := 1024
  const VIRTUAL_PAGES := 0x10_0000

  // ---------------------------------------------------------- address splitting

  function DirIndex(v: nat): nat { v / 0x40_0000 }

  function TableIndex(v: nat): nat { v / 0x1000 % 0x400 }

  function PageOf(v: nat): nat { v / 0x1000 }

  function Offset(v: nat): nat { v % 0x1000 }

  /** 10 + 10 + 12 bits: the two indices are the page number, and page and offset are the address. */
  lemma AddressSplit(v: nat)
    requires v < WORD
    ensures DirIndex(v) < ENTRIES && TableIndex(v) < ENTRIES && PageOf(v) < VIRTUAL_PAGES
    ensures PageOf(v) == DirIndex(v) * 0x400 + TableIndex(v)
    ensures v == PageOf(v) * 0x1000 + Offset(v)
  {
    assert v / 0x1000 / 0x400 == v / 0x40_0000;
  }

  /** Every pair of indices with an offset is that of exactly one address. */
  lemma AddressJoin(d: nat, t: nat, o: nat)
    requires d < ENTRIES && t < ENTRIES && o < 0x1000
    ensures var v := d * 0x40_0000 + t * 0x1000 + o;
      v < WORD && DirIndex(v) == d && TableIndex(v) == t && Offset(v) == o
    ensures forall v: nat | DirIndex(v) == d && TableIndex(v) == t && Offset(v) == o ::
      v == d * 0x40_0000 + t * 0x1000 + o
  {
    var v := d * 0x40_0000 + t * 0x1000 + o;
    assert v / 0x1000 == d * 0x400 + t;
    forall u: nat | DirIndex(u) == d && TableIndex(u) == t && Offset(u) == o ensures u == v {
      assert u / 0x1000 / 0x400 == u / 0x40_0000;
    }
  }

  /** Different pages differ in one of the two indices. */
  lemma IndicesDetermine(p: nat, q: nat)
    ensures p == q <==> p / 0x400 == q / 0x400 && p % 0x400 == q % 0x400
  {
  }

  // ------------------------------------------------------------------- entries

  /** An entry is a frame address with flags in its low 12 bits. */
  predicate Present(e: nat) { e % 2 == 1 }

  function FrameOf(e: nat): nat { e - e % 0x1000 }

  lemma EntryFields(addr: nat, flags: nat)
    requires addr % 0x1000 == 0 && flags < 0x1000
    ensures FrameOf(addr + flags) == addr && (Present(addr + flags) <==> flags % 2 == 1)
  {
  }

  /** Physical frames that hold page tables, by address. */
  type Frames = map<nat, seq<nat>>

  /** A table without entries. */
  const CLEARED: seq<nat> := seq(ENTRIES, k => 0)

  function SetEntry(frames: Frames, t: nat, k: nat, e: nat): Frames
    requires t in frames && k < |frames[t]|
  {
    var table: seq<nat> := frames[t];
    var table2: seq<nat> := table[k := e];
    frames[t := table2]
  }

  /** The entry for virtual page `p`, or 0 if its directory slot is empty. */
  function EntryOf(dir: seq<nat>, frames: Frames, p: nat): nat
    requires |dir| == ENTRIES && p < VIRTUAL_PAGES
  {
    var e := dir[p / 0x400];
    if Present(e) && FrameOf(e) in frames && |frames[FrameOf(e)]| == ENTRIES then frames[FrameOf(e)][p % 0x400] else 0
  }

  /** The flat view: virtual page to frame address, for pages whose entry is present. */
  ghost function Flat(dir: seq<nat>, frames: Frames): (m: map<nat, nat>)
    requires |dir| == ENTRIES
  {
    map p: nat | p < VIRTUAL_PAGES && Present(EntryOf(dir, frames, p)) :: FrameOf(EntryOf(dir, frames, p))
  }

  /** Directory slot `i`, if present, points to a table of its own, in a frame that is in use. */
  ghost predicate SlotOk(dir: seq<nat>, frames: Frames, used: set<nat>, i: nat)
    requires |dir| == ENTRIES && i < ENTRIES
  {
    Present(dir[i]) ==>
      && FrameOf(dir[i]) in frames && |frames[FrameOf(dir[i])]| == ENTRIES
      && FrameOf(dir[i]) / 0x1000 in used
      && (forall j | 0 <= j < ENTRIES && j != i && Present(dir[j]) :: FrameOf(dir[j]) != FrameOf(dir[i]))
  }

  ghost predicate TablesOk(dir: seq<nat>, frames: Frames, used: set<nat>)
  {
    && |dir| == ENTRIES
    && forall i {:trigger SlotOk(dir, frames, used, i)} | 0 <= i < ENTRIES :: SlotOk(dir, frames, used, i)
  }

  // ------------------------------------------------------------------- changes

  /** Writing one table entry changes the translation of one page. */
  lemma WriteEntry(dir: seq<nat>, frames: Frames, used: set<nat>, p: nat, e: nat)
    requires TablesOk(dir, frames, used) && p < VIRTUAL_PAGES && Present(dir[p / 0x400])
    ensures FrameOf(dir[p / 0x400]) in frames && |frames[FrameOf(dir[p / 0x400])]| == ENTRIES
    ensures var t := FrameOf(dir[p / 0x400]);
      var frames2 := SetEntry(frames, t, p % 0x400, e);
      && TablesOk(dir, frames2, used)
      && (forall q | 0 <= q < VIRTUAL_PAGES ::
            EntryOf(dir, frames2, q) == if q == p then e else EntryOf(dir, frames, q))
  {
    assert SlotOk(dir, frames, used, p / 0x400);
    var t := FrameOf(dir[p / 0x400]);
    var frames2 := SetEntry(frames, t, p % 0x400, e);
    forall i | 0 <= i < ENTRIES ensures SlotOk(dir, frames2, used, i) { assert SlotOk(dir, frames, used, i); }
    forall q | 0 <= q < VIRTUAL_PAGES
      ensures EntryOf(dir, frames2, q) == if q == p then e else EntryOf(dir, frames, q)
    {
      IndicesDetermine(p, q);
      assert SlotOk(dir, frames, used, q / 0x400);
    }
  }

  lemma FlatAfter(dir: seq<nat>, frames: Frames, dir2: seq<nat>, frames2: Frames, p: nat, e: nat)
    requires |dir| == ENTRIES && |dir2| == ENTRIES && p < VIRTUAL_PAGES
    requires forall q | 0 <= q < VIRTUAL_PAGES ::
      EntryOf(dir2, frames2, q) == if q == p then e else EntryOf(dir, frames, q)
    ensures Flat(dir2, frames2) == if Present(e) then Flat(dir, frames)[p := FrameOf(e)] else Flat(dir, frames) - {p}
  {
  }

  lemma SameEntriesSameFlat(dir: seq<nat>, frames: Frames, dir2: seq<nat>, frames2: Frames)
    requires |dir| == ENTRIES && |dir2| == ENTRIES
    requires forall q | 0 <= q < VIRTUAL_PAGES :: EntryOf(dir2, frames2, q) == EntryOf(dir, frames, q)
    ensures Flat(dir2, frames2) == Flat(dir, frames)
  {
  }

  /** Nothing is mapped behind an empty directory slot. */
  lemma AbsentUnmapped(dir: seq<nat>, frames: Frames, p: nat)
    requires |dir| == ENTRIES && p < VIRTUAL_PAGES && !Present(dir[p / 0x400])
    ensures Flat(dir, frames) - {p} == Flat(dir, frames)
  {
    assert EntryOf(dir, frames, p) == 0;
    assert p !in Flat(dir, frames);
  }

  /** A fresh, cleared table in an empty directory slot translates nothing new. */
  lemma NewTable(dir: seq<nat>, frames: Frames, used: set<nat>, i: nat, page: nat)
    requires TablesOk(dir, frames, used) && i < ENTRIES && !Present(dir[i]) && page !in used
    ensures var t := page * 0x1000;
      var dir2, frames2 := dir[i := t + TABLE_FLAGS], frames[t := CLEARED];
      && TablesOk(dir2, frames2, used + {page})
      && (forall q | 0 <= q < VIRTUAL_PAGES :: EntryOf(dir2, frames2, q) == EntryOf(dir, frames, q))
  {
    var t := page * 0x1000;
    var dir2, frames2 := dir[i := t + TABLE_FLAGS], frames[t := CLEARED];
    EntryFields(t, TABLE_FLAGS);
    assert t / 0x1000 == page;
    forall j | 0 <= j < ENTRIES && Present(dir[j]) ensures FrameOf(dir[j]) != t { assert SlotOk(dir, frames, used, j); }
    forall j | 0 <= j < ENTRIES ensures SlotOk(dir2, frames2, used + {page}, j) {
      if j != i { assert SlotOk(dir, frames, used, j); }
    }
    forall q | 0 <= q < VIRTUAL_PAGES ensures EntryOf(dir2, frames2, q) == EntryOf(dir, frames, q) {
      if q / 0x400 != i { assert SlotOk(dir, frames, used, q / 0x400); }
    }
  }

  /** The directory slots that have a table. */
  ghost function TableSlots(dir: seq<nat>): set<nat>
  {
    set i | 0 <= i < |dir| && Present(dir[i])
  }

  /** No table is kept at this address. */
  ghost predicate NoTable(dir: seq<nat>, addr: nat)
  {
    forall i | 0 <= i < |dir| && Present(dir[i]) :: FrameOf(dir[i]) != addr
  }

  lemma FreeFrameNoTable(dir: seq<nat>, frames: Frames, used: set<nat>, addr: nat)
    requires TablesOk(dir, frames, used) && addr / 0x1000 !in used
    ensures NoTable(dir, addr)
  {
    forall i | 0 <= i < |dir| && Present(dir[i]) ensures FrameOf(dir[i]) != addr {
      assert SlotOk(dir, frames, used, i);
    }
  }

  /** More frames are in use, but those that were and held no table still hold none. */
  ghost predicate Extends(used: set<nat>, dir: seq<nat>, used2: set<nat>, dir2: seq<nat>)
  {
    && used <= used2
    && forall a: nat {:trigger NoTable(dir2, a)} | a / 0x1000 in used && NoTable(dir, a) :: NoTable(dir2, a)
  }

  /** A table in a free frame at `t`. */
  lemma NewTableExtends(dir: seq<nat>, used: set<nat>, pd: nat, t: nat)
    requires |dir| == ENTRIES && pd < ENTRIES && !Present(dir[pd]) && t % 0x1000 == 0 && t / 0x1000 !in used
    ensures var dir2 := dir[pd := t + TABLE_FLAGS];
      && TableSlots(dir2) == TableSlots(dir) + {pd}
      && Extends(used, dir, used + {t / 0x1000}, dir2)
  {
    EntryFields(t, TABLE_FLAGS);
    var dir2 := dir[pd := t + TABLE_FLAGS];
    forall a: nat | a / 0x1000 in used && NoTable(dir, a) ensures NoTable(dir2, a) { }
  }

  /** Page `p` is mapped to a frame that is in use and holds no table. */
  ghost predicate HasFrame(view: map<nat, nat>, used: set<nat>, dir: seq<nat>, p: nat)
  {
    p in view && view[p] % 0x1000 == 0 && view[p] / 0x1000 in used && NoTable(dir, view[p])
  }

  ghost predicate Apart(view: map<nat, nat>, p: nat, q: nat)
  {
    p in view && q in view && view[p] != view[q]
  }

  /** Each of the pages from `first` to `end` has a frame of its own. */
  ghost predicate OwnFrames(view: map<nat, nat>, used: set<nat>, dir: seq<nat>, first: nat, end: nat)
  {
    && (forall p: nat {:trigger HasFrame(view, used, dir, p)} | first <= p < end :: HasFrame(view, used, dir, p))
    && (forall p: nat, q: nat {:trigger Apart(view, p, q)} | first <= p < q < end :: Apart(view, p, q))
  }

  /** Those frames were free before, and the other pages are mapped as they were. */
  ghost predicate NewFrames(view0: map<nat, nat>, used0: set<nat>, view: map<nat, nat>, first: nat, n: nat)
  {
    && (forall p: nat | p in view && first <= p < first + n :: view[p] / 0x1000 !in used0)
    && (forall p: nat | !(first <= p < first + n) ::
          (p in view <==> p in view0) && (p in view ==> view[p] == view0[p]))
  }

  lemma TablesStay(dir: seq<nat>, frames: Frames, used: set<nat>, used2: set<nat>)
    requires TablesOk(dir, frames, used) && used <= used2
    ensures TablesOk(dir, frames, used2)
  {
    forall i | 0 <= i < ENTRIES ensures SlotOk(dir, frames, used2, i) { assert SlotOk(dir, frames, used, i); }
  }

  /** The address of a page, taken apart. */
  lemma PageAddress(page: nat)
    requires page < VIRTUAL_PAGES
    ensures var v := page * 0x1000; v < WORD && PageOf(v) == page && DirIndex(v) == Slot(page)
  {
  }

  /** An address space as a value: what is left to map with, the flat view, the frames in use, the directory. */
  datatype Space = Space(supply: Supply, view: map<nat, nat>, used: set<nat>, dir: seq<nat>)

  /** The free frame at `addr` was taken. */
  ghost predicate Takes(s: Space, u: Space, addr: nat)
  {
    && addr % 0x1000 == 0 && addr / 0x1000 !in s.used && u.used == s.used + {addr / 0x1000}
    && s.supply.frames > 0 && u.supply == s.supply.(frames := s.supply.frames - 1)
    && u.view == s.view && u.dir == s.dir && NoTable(s.dir, addr)
  }

  /** Page `page` is mapped to `phys`, or unmapped if the flags say so, if it has a table or one could be had. */
  ghost predicate SetsPage(s: Space, u: Space, page: nat, phys: nat, flags: nat)
  {
    && u.supply == AfterMap(s.supply, page) && Extends(s.used, s.dir, u.used, u.dir)
    && u.view ==
       if Slot(page) !in u.supply.tables then s.view
       else if flags % 2 == 1 then s.view[page := phys] else s.view - {page}
  }

  /** Page `page` got the free frame at `addr`, if its table could be had; nothing happened for address 0. */
  ghost predicate MapsOne(s: Space, u: Space, page: nat, addr: nat)
  {
    && Extends(s.used, s.dir, u.used, u.dir)
    && (addr == 0 ==> u.supply == s.supply && u.view == s.view)
    && (addr != 0 ==>
          && addr % 0x1000 == 0 && addr / 0x1000 in u.used - s.used && NoTable(u.dir, addr)
          && s.supply.frames > 0 && u.supply == AfterMap(s.supply.(frames := s.supply.frames - 1), page)
          && u.view == if Slot(page) in u.supply.tables then s.view[page := addr] else s.view)
  }

  lemma MapsTaken(s: Space, a: Space, u: Space, page: nat, addr: nat)
    requires addr != 0 && Takes(s, a, addr) && SetsPage(a, u, page, addr, PAGE_PRESENT + PAGE_WRITABLE)
    ensures MapsOne(s, u, page, addr)
  {
    ExtendsTwice(s, a, u);
    assert NoTable(u.dir, addr);
  }

  /**
   The outcome of the loop: the supply is what the loop leaves, every mapped page has a
   frame of its own that was free, and nothing else is mapped differently.
   */
  ghost predicate FreshlyMapped(s: Space, u: Space, first: nat, n: nat)
  {
    var g := Grow(s.supply, first, n);
    && u.supply == g.left && Extends(s.used, s.dir, u.used, u.dir)
    && OwnFrames(u.view, u.used, u.dir, first, first + g.mapped) && NewFrames(s.view, s.used, u.view, first, g.mapped)
  }

  /** The loop after `i` pages, `mapped` of which it could map. */
  ghost predicate Progress(s: Space, u: Space, first: nat, n: nat, i: nat, mapped: nat)
    requires i <= n
  {
    && GrowsTo(s.supply, u.supply, first, n, i, mapped) && i + u.supply.frames <= s.supply.frames
    && (mapped == i || u.supply.frames == 0) && Extends(s.used, s.dir, u.used, u.dir)
    && OwnFrames(u.view, u.used, u.dir, first, first + mapped) && NewFrames(s.view, s.used, u.view, first, mapped)
  }

  lemma StartsFresh(s: Space, first: nat, n: nat)
    ensures Progress(s, s, first, n, 0, 0)
  {
  }

  lemma EndsFresh(s: Space, u: Space, first: nat, n: nat, mapped: nat)
    requires Progress(s, u, first, n, n, mapped)
    ensures FreshlyMapped(s, u, first, n) && Grow(s.supply, first, n).ok
  {
  }

  lemma StopsFresh(s: Space, u: Space, w: Space, first: nat, n: nat, i: nat, mapped: nat)
    requires i < n && Progress(s, u, first, n, i, mapped) && MapsOne(u, w, first + i, 0) && u.supply.frames == 0
    ensures FreshlyMapped(s, w, first, n) && !Grow(s.supply, first, n).ok
  {
    ExtendsTwice(s, u, w);
    OwnFramesStay(u.view, u.used, u.dir, w.used, w.dir, first, first + mapped);
  }

  lemma Advance(s: Space, u: Space, w: Space, first: nat, n: nat, i: nat, mapped: nat, addr: nat)
    requires i < n && Progress(s, u, first, n, i, mapped) && MapsOne(u, w, first + i, addr) && addr != 0
    ensures Progress(s, w, first, n, i + 1, if Slot(first + i) in w.supply.tables then mapped + 1 else mapped)
  {
    ExtendsTwice(s, u, w);
    GrowsOn(s.supply, u.supply, first, n, i, mapped);
    if Slot(first + i) in w.supply.tables {
      MapsOneMore(s, u, w, first, mapped, addr);
    } else {
      OwnFramesStay(u.view, u.used, u.dir, w.used, w.dir, first, first + mapped);
    }
  }

  lemma ExtendsTwice(s: Space, u: Space, w: Space)
    requires Extends(s.used, s.dir, u.used, u.dir) && Extends(u.used, u.dir, w.used, w.dir)
    ensures Extends(s.used, s.dir, w.used, w.dir)
  {
  }

  /** One more page is mapped, to a frame that was free. */
  lemma MapsOneMore(s: Space, u: Space, w: Space, first: nat, n: nat, addr: nat)
    requires OwnFrames(u.view, u.used, u.dir, first, first + n) && NewFrames(s.view, s.used, u.view, first, n)
    requires s.used <= u.used && addr % 0x1000 == 0 && addr / 0x1000 in w.used - u.used
    requires Extends(u.used, u.dir, w.used, w.dir) && NoTable(w.dir, addr) && w.view == u.view[first + n := addr]
    ensures OwnFrames(w.view, w.used, w.dir, first, first + n + 1) && NewFrames(s.view, s.used, w.view, first, n + 1)
  {
    forall p: nat | first <= p < first + n + 1 ensures HasFrame(w.view, w.used, w.dir, p) {
      if p < first + n { assert HasFrame(u.view, u.used, u.dir, p) && NoTable(w.dir, u.view[p]); }
    }
    forall p: nat, q: nat | first <= p < q < first + n + 1 ensures Apart(w.view, p, q) {
      assert HasFrame(u.view, u.used, u.dir, p);
      if q < first + n { assert Apart(u.view, p, q); }
    }
  }

  /** More frames in use, and tables in frames that were free, take nothing away. */
  lemma OwnFramesStay(view: map<nat, nat>, used: set<nat>, dir: seq<nat>, used2: set<nat>, dir2: seq<nat>,
                      first: nat, end: nat)
    requires OwnFrames(view, used, dir, first, end) && Extends(used, dir, used2, dir2)
    ensures OwnFrames(view, used2, dir2, first, end)
  {
    forall p: nat | first <= p < end ensures HasFrame(view, used2, dir2, p) {
      assert HasFrame(view, used, dir, p) && NoTable(dir2, view[p]);
    }
  }

  /** Mapped pages have tables. */
  lemma MappedHasTable(dir: seq<nat>, frames: Frames, p: nat)
    requires |dir| == ENTRIES && p in Flat(dir, frames)
    ensures Slot(p) in TableSlots(dir)
  {
    assert Present(EntryOf(dir, frames, p));
  }

  /** These are the `n` pages from `first` on. */
  ghost predicate PagesFrom(s: set<nat>, first: nat, n: nat)
  {
    forall p: nat :: p in s <==> first <= p < first + n
  }

  /** These are the mapped ones of `n` pages, and they have tables. */
  ghost predicate ReachedIn(u: Space, first: nat, n: nat, reached: set<nat>)
  {
    && (forall p: nat :: p in reached <==> first <= p < first + n && p in u.view)
    && (forall p | p in u.view :: Slot(p) in u.supply.tables)
  }

  /** The loop succeeded: all its pages are mapped, or all but the last. */
  lemma LoopPages(s: Space, u: Space, first: nat, n: nat, reached: set<nat>)
    requires FreshlyMapped(s, u, first, n) && Grow(s.supply, first, n).ok && ReachedIn(u, first, n, reached)
    ensures PagesFrom(reached, first, Grow(s.supply, first, n).mapped)
  {
    var g := Grow(s.supply, first, n);
    GrowExact(s.supply, first, n);
    LostHasNoTable(s.supply, first, n);
    forall p: nat | first <= p < first + n ensures p in u.view <==> p < first + g.mapped {
      if p < first + g.mapped { assert HasFrame(u.view, u.used, u.dir, p); }
    }
  }

  /** After the loop the pages before still have their frames, and with the new ones each has its own. */
  lemma FramesJoin(s: Space, u: Space, first: nat, next: nat, n: nat)
    requires first <= next && OwnFrames(s.view, s.used, s.dir, first, next) && FreshlyMapped(s, u, next, n)
    ensures OwnFrames(u.view, u.used, u.dir, first, next)
    ensures OwnFrames(u.view, u.used, u.dir, first, next + Grow(s.supply, next, n).mapped)
  {
    var end := next + Grow(s.supply, next, n).mapped;
    forall p: nat | first <= p < end ensures HasFrame(u.view, u.used, u.dir, p) {
      if p < next {
        assert HasFrame(s.view, s.used, s.dir, p) && NoTable(u.dir, s.view[p]);
      }
    }
    forall p: nat, q: nat | first <= p < q < end ensures Apart(u.view, p, q) {
      if p < next {
        assert HasFrame(s.view, s.used, s.dir, p) && HasFrame(u.view, u.used, u.dir, q);
        if q < next { assert Apart(s.view, p, q); }
      }
    }
  }

  /** The table of the first 4 MB, each page in the frame of its own number. */
  const IDENTITY: seq<nat> := seq(ENTRIES, i requires 0 <= i < ENTRIES => i * 0x1000 + TABLE_FLAGS)

  lemma FirstTable(dir: seq<nat>, frames: Frames, used: set<nat>, first: nat)
    requires |dir| == ENTRIES && dir[0] == first + TABLE_FLAGS && (forall i | 1 <= i < ENTRIES :: dir[i] == 0)
    requires frames == map[first := IDENTITY] && first % 0x1000 == 0 && first / 0x1000 in used
    ensures TablesOk(dir, frames, used)
    ensures Flat(dir, frames) == map p: nat | p < ENTRIES :: p * 0x1000
    ensures forall p: nat | p < ENTRIES :: EntryOf(dir, frames, p) == p * 0x1000 + 3
  {
    EntryFields(first, TABLE_FLAGS);
    forall i | 0 <= i < ENTRIES ensures SlotOk(dir, frames, used, i) { }
    forall p: nat | p < VIRTUAL_PAGES
      ensures EntryOf(dir, frames, p) == if p < ENTRIES then p * 0x1000 + TABLE_FLAGS else 0
    {
      FirstEntry(dir, frames, first, p);
    }
    forall p: nat | p < ENTRIES
      ensures FrameOf(p * 0x1000 + TABLE_FLAGS) == p * 0x1000 && Present(p * 0x1000 + TABLE_FLAGS)
    {
      EntryFields(p * 0x1000, TABLE_FLAGS);
    }
  }

  lemma FirstEntry(dir: seq<nat>, frames: Frames, first: nat, p: nat)
    requires |dir| == ENTRIES && dir[0] == first + TABLE_FLAGS && (forall i | 1 <= i < ENTRIES :: dir[i] == 0)
    requires frames == map[first := IDENTITY] && first % 0x1000 == 0 && p < VIRTUAL_PAGES
    ensures EntryOf(dir, frames, p) == if p < ENTRIES then p * 0x1000 + TABLE_FLAGS else 0
  {
    EntryFields(first, TABLE_FLAGS);
    if p < ENTRIES {
      assert p / 0x400 == 0 && p % 0x400 == p;
    } else {
      assert p / 0x400 > 0;
    }
  }

  class AddressSpace {
    const pmm: Pmm
    const directory: array<nat>
    var frames: Frames

    ghost predicate Valid()
      reads this, directory, pmm, pmm.bitmap
    {
      && pmm.Valid()
      && directory.Length == ENTRIES
      && (pmm.totalPages > 0 ==> 0 in pmm.Used())
      && TablesOk(directory[..], frames, pmm.Used())
    }

    ghost function View(): map<nat, nat>
      reads this, directory
      requires directory.Length == ENTRIES
    {
      Flat(directory[..], frames)
    }

    /** The processor finds a frame for page `p`. */
    predicate Maps(p: nat)
      reads this, directory
      requires directory.Length == ENTRIES
      ensures Maps(p) <==> p in View()
    {
      p < VIRTUAL_PAGES && Present(EntryOf(directory[..], frames, p))
    }

    /** What is left to map pages with. */
    ghost function Supplies(): Supply
      reads directory, pmm, pmm.bitmap
    {
      Supply(Left(pmm.State()), TableSlots(directory[..]))
    }

    ghost function Now(): Space
      reads this, directory, pmm, pmm.bitmap
      requires Valid()
    {
      Space(Supplies(), View(), pmm.Used(), directory[..])
    }

    /** paging_init: the first 4 MB map to themselves through the table at `first`, inside the kernel's pages. */
    constructor (pmm: Pmm, first: nat)
      requires pmm.Valid() && first % 0x1000 == 0 && first / 0x1000 in pmm.Used() && 0 in pmm.Used()
      ensures Valid() && this.pmm == pmm && fresh(directory)
      ensures View() == map p: nat | p < ENTRIES :: p * 0x1000
      ensures forall p: nat | p < ENTRIES :: EntryOf(directory[..], frames, p) == p * 0x1000 + 3
    {
      this.pmm := pmm;
      directory := new nat[ENTRIES](i => 0);
      frames := map[first := IDENTITY];
      new;
      directory[0] := first + TABLE_FLAGS;
      FirstTable(directory[..], frames, pmm.Used(), first);
    }

    /** paging_map_page.  If a table is needed and no frame is left, nothing happens. */
    method MapPage(v: nat, phys: nat, flags: nat)
      requires Valid() && v < WORD && phys % 0x1000 == 0 && flags < 0x1000
      modifies this`frames, directory, pmm`usedPages, pmm.bitmap
      ensures Valid() && SetsPage(old(Now()), Now(), PageOf(v), phys, flags)
      ensures Slot(PageOf(v)) in Supplies().tables ==>
        PageOf(v) < VIRTUAL_PAGES && EntryOf(directory[..], frames, PageOf(v)) == phys + flags
      ensures pmm.State() ==
        if old(Present(directory[DirIndex(v)])) then old(pmm.State()) else Alloc(old(pmm.State())).0
    {
      AddressSplit(v);
      var pd, pt := DirIndex(v), TableIndex(v);
      assert PageOf(v) / 0x400 == pd && PageOf(v) % 0x400 == pt;
      ghost var view := View();
      if !Present(directory[pd]) {
        var ok := CreateTable(pd);
        if !ok {
          return;
        }
      }
      EntryFields(phys, flags);
      PutEntry(PageOf(v), pd, pt, phys + flags);
    }

    /** paging_create_page_table for an empty directory slot. */
    method CreateTable(pd: nat) returns (ok: bool)
      requires Valid() && pd < ENTRIES && !Present(directory[pd])
      modifies this`frames, directory, pmm`usedPages, pmm.bitmap
      ensures Valid() && ok == (old(Supplies()).frames > 0)
      ensures View() == old(View()) && (ok ==> Present(directory[pd]) && directory[pd] == Alloc(old(pmm.State())).1 + 3)
      ensures pmm.State() == Alloc(old(pmm.State())).0
      ensures Extends(old(pmm.Used()), old(directory[..]), pmm.Used(), directory[..])
      ensures Supplies() == AfterTable(old(Supplies()), pd)
    {
      ghost var used := pmm.Used();
      LeftMeaning(pmm.State());
      var t := pmm.AllocPage();
      if t == 0 {
        assert AllIn(used, pmm.totalPages);
        return false;
      }
      NewTableExtends(directory[..], used, pd, t);
      Install(pd, t, used);
      ok := true;
    }

    /** A cleared table in the frame at `t`, which was just taken, for an empty directory slot. */
    method Install(pd: nat, t: nat, ghost used: set<nat>)
      requires pmm.Valid() && (pmm.totalPages > 0 ==> 0 in pmm.Used())
      requires directory.Length == ENTRIES && TablesOk(directory[..], frames, used)
      requires pd < ENTRIES && !Present(directory[pd]) && t % 0x1000 == 0
      requires t / 0x1000 !in used && pmm.Used() == used + {t / 0x1000}
      modifies this`frames, directory
      ensures Valid() && View() == old(View()) && directory[..] == old(directory[..])[pd := t + TABLE_FLAGS]
      ensures Present(directory[pd])
    {
      ghost var dir: seq<nat>, before: Frames := directory[..], frames;
      NewTable(dir, before, used, pd, t / 0x1000);
      EntryFields(t, TABLE_FLAGS);
      frames := frames[t := CLEARED];
      var e: nat := t + TABLE_FLAGS;
      directory[pd] := e;
      assert directory[..] == dir[pd := e];
      SameEntriesSameFlat(dir, before, directory[..], frames);
    }

    /**
     The loop of expand_heap and heap_init: a frame and a mapping for each of the `n`
     pages from `first` on, until no frame is left.
     */
    method MapFresh(first: nat, n: nat) returns (ok: bool)
      requires Valid() && first + 0x1_0000 <= VIRTUAL_PAGES
      modifies this`frames, directory, pmm`usedPages, pmm.bitmap
      ensures Valid() && FreshlyMapped(old(Now()), Now(), first, n)
      ensures ok == Grow(old(Supplies()), first, n).ok && Supplies() == Grow(old(Supplies()), first, n).left
    {
      ghost var s := Now();
      LeftMeaning(pmm.State());
      StartsFresh(s, first, n);
      var i := 0;
      ghost var mapped := 0;
      while i < n
        invariant Valid() && 0 <= i <= n
        invariant Progress(s, Now(), first, n, i, mapped)
      {
        ok, mapped := MapStep(s, first, n, i, mapped);
        if !ok {
          return;
        }
        i := i + 1;
      }
      EndsFresh(s, Now(), first, n, mapped);
      ok := true;
    }

    /** Each of the pages from `first` to `end` has a frame of its own. */
    ghost predicate Owns(first: nat, end: nat)
      reads this, directory, pmm, pmm.bitmap
      requires Valid()
    {
      OwnFrames(View(), pmm.Used(), directory[..], first, end)
    }

    /**
     The loop, for pages from `next` on, behind others that each have a frame of their
     own, and which of them can be reached then.
     */
    method Extend(ghost first: nat, next: nat, n: nat) returns (ok: bool, reached: set<nat>)
      requires Valid() && first <= next && Owns(first, next) && next + 0x1_0000 <= VIRTUAL_PAGES
      modifies this`frames, directory, pmm`usedPages, pmm.bitmap
      ensures Valid() && Owns(first, next)
      ensures var g := Grow(old(Supplies()), next, n);
        && ok == g.ok && Supplies() == g.left
        && (ok ==> Owns(first, next + g.mapped) && PagesFrom(reached, next, g.mapped))
    {
      ghost var s := Now();
      ok := MapBehind(first, next, n);
      reached := Reached(next, n);
      if ok {
        LoopPages(s, Now(), next, n, reached);
      }
    }

    method MapBehind(ghost first: nat, next: nat, n: nat) returns (ok: bool)
      requires Valid() && first <= next && Owns(first, next) && next + 0x1_0000 <= VIRTUAL_PAGES
      modifies this`frames, directory, pmm`usedPages, pmm.bitmap
      ensures Valid() && Owns(first, next) && FreshlyMapped(old(Now()), Now(), next, n)
      ensures var g := Grow(old(Supplies()), next, n);
        ok == g.ok && Supplies() == g.left && Owns(first, next + g.mapped)
    {
      ghost var s := Now();
      ok := MapFresh(next, n);
      FramesJoin(s, Now(), first, next, n);
    }

    /** Those of `n` pages that the processor finds a frame for; they have tables. */
    method Reached(first: nat, n: nat) returns (reached: set<nat>)
      requires Valid()
      ensures ReachedIn(Now(), first, n, reached)
    {
      reached := set p: nat | first <= p < first + n && Maps(p);
      forall p | p in View() ensures Slot(p) in TableSlots(directory[..]) {
        MappedHasTable(directory[..], frames, p);
      }
    }

    /** One turn of the loop. */
    method MapStep(ghost s: Space, first: nat, n: nat, i: nat, ghost mapped: nat) returns (ok: bool, ghost now: nat)
      requires Valid() && i < n && Progress(s, Now(), first, n, i, mapped)
      requires first + s.supply.frames <= VIRTUAL_PAGES
      modifies this`frames, directory, pmm`usedPages, pmm.bitmap
      ensures Valid()
      ensures ok ==> Progress(s, Now(), first, n, i + 1, now)
      ensures !ok ==> FreshlyMapped(s, Now(), first, n) && !Grow(s.supply, first, n).ok
    {
      ghost var u := Now();
      var addr := MapOne(first + i);
      ok, now := addr != 0, mapped;
      if ok {
        Advance(s, u, Now(), first, n, i, mapped, addr);
        now := if Slot(first + i) in Now().supply.tables then mapped + 1 else mapped;
      } else {
        StopsFresh(s, u, Now(), first, n, i, mapped);
      }
    }

    /** A fresh frame for virtual page `page`; its address, or 0 if there is none. */
    method MapOne(page: nat) returns (addr: nat)
      requires Valid() && (Now().supply.frames > 0 ==> page < VIRTUAL_PAGES)
      modifies this`frames, directory, pmm`usedPages, pmm.bitmap
      ensures Valid() && (addr == 0 <==> old(Now()).supply.frames == 0)
      ensures MapsOne(old(Now()), Now(), page, addr)
    {
      ghost var s := Now();
      LeftMeaning(pmm.State());
      addr := pmm.AllocPage();
      if addr == 0 {
        return;
      }
      TablesStay(directory[..], frames, s.used, pmm.Used());
      FreeFrameNoTable(directory[..], frames, s.used, addr);
      ghost var a := Now();
      assert Takes(s, a, addr);
      PageAddress(page);
      MapPage(page * 0x1000, addr, PAGE_PRESENT + PAGE_WRITABLE);
      MapsTaken(s, a, Now(), page, addr);
    }

    /** The store into an existing table. */
    method PutEntry(p: nat, pd: nat, pt: nat, e: nat)
      requires Valid() && p < VIRTUAL_PAGES && pd == p / 0x400 && pt == p % 0x400 && Present(directory[pd])
      modifies this`frames
      ensures Valid() && EntryOf(directory[..], frames, p) == e
      ensures View() == if Present(e) then old(View())[p := FrameOf(e)] else old(View()) - {p}
    {
      ghost var before := frames;
      WriteEntry(directory[..], frames, pmm.Used(), p, e);
      var t := FrameOf(directory[pd]);
      frames := SetEntry(frames, t, pt, e);
      FlatAfter(directory[..], before, directory[..], frames, p, e);
    }

    /** paging_unmap_page. */
    method UnmapPage(v: nat)
      requires Valid() && v < WORD
      modifies this`frames
      ensures Valid() && View() == old(View()) - {PageOf(v)}
      ensures PageOf(v) < VIRTUAL_PAGES && EntryOf(directory[..], frames, PageOf(v)) == 0
    {
      AddressSplit(v);
      var pd, pt := DirIndex(v), TableIndex(v);
      assert PageOf(v) / 0x400 == pd && PageOf(v) % 0x400 == pt;
      if Present(directory[pd]) {
        PutEntry(PageOf(v), pd, pt, 0);
      } else {
        AbsentUnmapped(directory[..], frames, PageOf(v));
      }
    }

    /** paging_get_physical: frame plus offset, 0 where nothing is mapped. */
    method GetPhysical(v: nat) returns (r: nat)
      requires Valid() && v < WORD
      ensures r == if PageOf(v) in View() then View()[PageOf(v)] + Offset(v) else 0
    {
      AddressSplit(v);
      var pd, pt := DirIndex(v), TableIndex(v);
      assert PageOf(v) / 0x400 == pd && PageOf(v) % 0x400 == pt;
      assert SlotOk(directory[..], frames, pmm.Used(), pd);
      if !Present(directory[pd]) {
        return 0;
      }
      var e := frames[FrameOf(directory[pd])][pt];
      if !Present(e) {
        return 0;
      }
      r := FrameOf(e) + Offset(v);
    }
  }
}
