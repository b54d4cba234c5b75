/**
 The heap of kernel/memory/heap.c as the list of blocks it keeps, and what every run
 of kmalloc and kfree does to the set of live ranges.
 */
module HeapSpec {
  import opened Common
  import opened FrameSupply

  const HEAP_START := 0x40_0000
  const HEAP_INITIAL_SIZE := 0x10_0000
  const HEAP_MAX_SIZE := 0x400_0000
  const HEADER := 16
  /** The number of the heap's first page. */
  const FIRST_PAGE := 0x400
  /** No more frames than this exist: 256 MB of memory. */
  const MAX_FRAMES := 65536
  /** The largest request for which no 32-bit sum of kmalloc misleads it. */
  const MAX_REQUEST := 0xFFFF_EFF0

  /** A block: its header's address, its payload size, and whether it is free. */
  datatype Block = Block(addr: nat, size: nat, free: bool)

  datatype HeapState = HeapState(blocks: seq<Block>, size: nat)

  function End(b: Block): nat
  {
    b.addr + HEADER + b.size
  }

  // ---------------------------------------------------------------- invariant

  /** Headers and payloads are 4-aligned, and no payload is empty. */
  ghost predicate Shaped(b: Block)
  {
    b.addr % 4 == 0 && b.size % 4 == 0 && b.size >= 4
  }

  /** Blocks tile a prefix of the heap without gaps. */
  ghost predicate Tiles(bs: seq<Block>)
  {
    && bs != [] && bs[0].addr == HEAP_START
    && (forall i {:trigger Shaped(bs[i])} | 0 <= i < |bs| :: Shaped(bs[i]))
    && (forall i {:trigger End(bs[i])} | 0 <= i < |bs| - 1 :: bs[i + 1].addr == End(bs[i]))
  }

  ghost predicate BothFree(bs: seq<Block>, i: nat)
    requires i + 1 < |bs|
  {
    bs[i].free && bs[i + 1].free
  }

  /** Neighbours are never both free. */
  ghost predicate Coalesced(bs: seq<Block>)
  {
    forall i {:trigger BothFree(bs, i)} | 0 <= i < |bs| - 1 :: !BothFree(bs, i)
  }

  ghost predicate Inv(h: HeapState)
  {
    && Tiles(h.blocks) && Coalesced(h.blocks)
    && End(h.blocks[|h.blocks| - 1]) <= HEAP_START + h.size
    && h.size % 0x1000 == 0 && h.size <= HEAP_MAX_SIZE
  }

  /** heap_init. */
  function Fresh(): (h: HeapState)
    ensures Inv(h)
  {
    HeapState([Block(HEAP_START, HEAP_INITIAL_SIZE - HEADER, true)], HEAP_INITIAL_SIZE)
  }

  /** Later blocks lie behind earlier ones. */
  lemma {:induction false} Ordered(bs: seq<Block>, i: nat, j: nat)
    requires Tiles(bs) && i < j < |bs|
    ensures End(bs[i]) <= bs[j].addr
    decreases j
  {
    assert bs[j].addr == End(bs[j - 1]);
    if i < j - 1 { Ordered(bs, i, j - 1); }
  }

  // --------------------------------------------------------------- operations

  /** (size + 3) & ~3. */
  function RoundUp(size: nat): (r: nat)
    ensures r % 4 == 0 && size <= r < size + 4
  {
    (size + 3) / 4 * 4
  }

  /** Rounding stays below the bound on requests, which is a multiple of 4. */
  lemma RoundUpBelow(request: nat)
    requires request <= MAX_REQUEST
    ensures RoundUp(request) <= MAX_REQUEST && RoundUp(request) + HEADER + 0xFFF < WORD
  {
    assert MAX_REQUEST == 4 * 0x3FFF_FBFC;
  }

  predicate Fits(b: Block, size: nat)
  {
    b.free && b.size >= size
  }

  /** find_free_block: the lowest block that fits, or the number of blocks. */
  function FindFit(bs: seq<Block>, size: nat, from: nat): (i: nat)
    requires from <= |bs|
    ensures from <= i <= |bs|
    ensures i < |bs| ==> Fits(bs[i], size)
    ensures forall j {:trigger Fits(bs[j], size)} | from <= j < i :: !Fits(bs[j], size)
    decreases |bs| - from
  {
    if from == |bs| || Fits(bs[from], size) then from else FindFit(bs, size, from + 1)
  }

  /** split_block. */
  function Split(bs: seq<Block>, i: nat, size: nat): seq<Block>
    requires i < |bs| && size <= bs[i].size
  {
    var b := bs[i];
    if b.size - size >= HEADER + 4 then
      bs[..i] + [b.(size := size), Block(b.addr + HEADER + size, b.size - size - HEADER, true)] + bs[i + 1..]
    else bs
  }

  /** Splitting and marking used. */
  function Take(bs: seq<Block>, i: nat, size: nat): (r: seq<Block>)
    requires i < |bs| && size <= bs[i].size
  {
    var cut := Split(bs, i, size);
    cut[i := cut[i].(free := false)]
  }

  /** The end of kmalloc: block `i` is taken, and its payload handed out. */
  function TakeAt(h: HeapState, i: nat, size: nat): (HeapState, nat)
    requires i < |h.blocks| && size <= h.blocks[i].size
  {
    (h.(blocks := Take(h.blocks, i, size)), h.blocks[i].addr + HEADER)
  }

  function Pages(bytes: nat): nat
  {
    (bytes + 0xFFF) / 0x1000
  }

  /** pages_needed of expand_heap, in 32-bit arithmetic. */
  function PagesNeeded(bytes: nat): nat
  {
    Wrapped(bytes + 0xFFF) / 0x1000
  }

  /** The first page behind a heap of this size. */
  function PageBehind(size: nat): nat
  {
    (HEAP_START + size) / 0x1000
  }

  function NextPage(h: HeapState): nat
  {
    PageBehind(h.size)
  }

  /** Pages are counted from the heap's own start. */
  lemma PageBehindIs(size: nat, n: nat)
    requires size % 0x1000 == 0
    ensures PageBehind(size) == FIRST_PAGE + size / 0x1000 && PageBehind(size + n * 0x1000) == PageBehind(size) + n
  {
  }

  /** The limit check of expand_heap, in 32-bit arithmetic. */
  predicate BelowLimit(h: HeapState, bytes: nat)
  {
    Wrapped(h.size + bytes) <= HEAP_MAX_SIZE
  }

  /** The loop of expand_heap over the new pages. */
  function MapLoop(h: HeapState, bytes: nat, supply: Supply): Growth
  {
    Grow(supply, NextPage(h), PagesNeeded(bytes))
  }

  /** expand_heap returns 1: its limit check passes and its loop finds a frame for every page. */
  predicate CanExpand(h: HeapState, bytes: nat, supply: Supply)
  {
    BelowLimit(h, bytes) && MapLoop(h, bytes, supply).ok
  }

  /** What expand_heap leaves to map pages with. */
  function ExpandLeaves(h: HeapState, bytes: nat, supply: Supply): Supply
  {
    if BelowLimit(h, bytes) then MapLoop(h, bytes, supply).left else supply
  }

  /** If expand_heap returns 1, it has mapped every page. */
  predicate Whole(h: HeapState, bytes: nat, supply: Supply)
  {
    CanExpand(h, bytes, supply) ==> MapLoop(h, bytes, supply).mapped == PagesNeeded(bytes)
  }

  /** The frames an expansion takes: one for each page and each page table that is missing. */
  ghost function FramesFor(h: HeapState, bytes: nat, supply: Supply): nat
  {
    Pages(bytes) + TablesFor(supply.tables, NextPage(h), Pages(bytes))
  }

  /** The heap may grow by that many bytes, and the frames are there. */
  ghost predicate HasRoom(h: HeapState, bytes: nat, supply: Supply)
  {
    h.size + bytes <= HEAP_MAX_SIZE && FramesFor(h, bytes, supply) <= supply.frames
  }

  /** One frame is lacking, for the table that only the last new page needs: its mapping is dropped in silence. */
  ghost predicate LastPageLost(h: HeapState, bytes: nat, supply: Supply)
  {
    && h.size + bytes <= HEAP_MAX_SIZE && FramesFor(h, bytes, supply) == supply.frames + 1
    && OpensTable(supply.tables, NextPage(h), Pages(bytes))
  }

  /** The block list after an expansion: the last block grows, or a new one follows it. */
  function Grown(bs: seq<Block>, size: nat): seq<Block>
    requires bs != []
  {
    var b := bs[|bs| - 1];
    if b.free then bs[|bs| - 1 := b.(size := b.size + size + HEADER)] else bs + [Block(End(b), size, true)]
  }

  function Expanded(h: HeapState, size: nat): HeapState
    requires h.blocks != []
  {
    HeapState(Grown(h.blocks, size), h.size + Pages(size + HEADER) * 0x1000)
  }

  /** kmalloc when no block fits: expansion, else failure. */
  function KmallocGrowing(h: HeapState, size: nat, supply: Supply): (HeapState, nat)
    requires h.blocks != []
  {
    if !CanExpand(h, size + HEADER, supply) then (h, 0)
    else
      var g := Expanded(h, size);
      TakeAt(g, |g.blocks| - 1, size)
  }

  /** kmalloc after rounding: first fit, else expansion, else failure. */
  function KmallocSize(h: HeapState, size: nat, supply: Supply): (HeapState, nat)
    requires h.blocks != []
  {
    var i := FindFit(h.blocks, size, 0);
    if i < |h.blocks| then TakeAt(h, i, size) else KmallocGrowing(h, size, supply)
  }

  /** kmalloc: the new heap and the payload address, 0 for NULL.  `supply` is what the heap can grow from. */
  function Kmalloc(h: HeapState, request: nat, supply: Supply): (HeapState, nat)
    requires h.blocks != [] && request <= MAX_REQUEST
  {
    if request == 0 then (h, 0) else KmallocSize(h, RoundUp(request), supply)
  }

  function MergeNext(bs: seq<Block>, i: nat): seq<Block>
    requires i < |bs|
  {
    if i + 1 < |bs| && bs[i + 1].free then
      bs[..i] + [bs[i].(size := bs[i].size + HEADER + bs[i + 1].size)] + bs[i + 2..]
    else bs
  }

  function MergePrev(bs: seq<Block>, i: nat): seq<Block>
    requires i < |bs|
  {
    if i > 0 && bs[i - 1].free then
      bs[..i - 1] + [bs[i - 1].(size := bs[i - 1].size + HEADER + bs[i].size)] + bs[i + 1..]
    else bs
  }

  lemma MergePrevIsNext(bs: seq<Block>, i: nat)
    requires 0 < i < |bs| && bs[i - 1].free && bs[i].free
    ensures MergePrev(bs, i) == MergeNext(bs, i - 1)
  {
  }

  /** kfree of the block at index `i`. */
  function FreeAt(bs: seq<Block>, i: nat): seq<Block>
    requires i < |bs|
  {
    MergePrev(MergeNext(bs[i := bs[i].(free := true)], i), i)
  }

  predicate StartsAt(b: Block, addr: nat)
  {
    b.addr == addr
  }

  function IndexAt(bs: seq<Block>, addr: nat, from: nat): (i: nat)
    requires from <= |bs|
    ensures from <= i <= |bs|
    ensures i < |bs| ==> bs[i].addr == addr
    ensures forall j {:trigger StartsAt(bs[j], addr)} | from <= j < i :: !StartsAt(bs[j], addr)
    decreases |bs| - from
  {
    if from == |bs| || bs[from].addr == addr then from else IndexAt(bs, addr, from + 1)
  }

  /** NULL, or the payload of a block, live or free: the header kfree reads is one. */
  predicate Freeable(bs: seq<Block>, ptr: nat)
  {
    ptr == 0 || (ptr >= HEADER && IndexAt(bs, ptr - HEADER, 0) < |bs|)
  }

  /** kfree: NULL and a block that is already free are ignored. */
  function Kfree(h: HeapState, ptr: nat): HeapState
    requires Freeable(h.blocks, ptr)
  {
    if ptr == 0 then h
    else
      var i := IndexAt(h.blocks, ptr - HEADER, 0);
      if h.blocks[i].free then h else h.(blocks := FreeAt(h.blocks, i))
  }

  // --------------------------------------------------------------- live ranges

  /** The abstract heap: payload address and size of every live block. */
  ghost function Live(bs: seq<Block>): (m: map<nat, nat>)
    requires Tiles(bs)
  {
    map p | p in LiveAddresses(bs) :: SizeAt(bs, p)
  }

  ghost function LiveAddresses(bs: seq<Block>): set<nat>
  {
    set i | 0 <= i < |bs| && !bs[i].free :: bs[i].addr + HEADER
  }

  ghost function SizeAt(bs: seq<Block>, p: nat): nat
    requires p in LiveAddresses(bs)
  {
    var i :| 0 <= i < |bs| && !bs[i].free && bs[i].addr + HEADER == p;
    bs[i].size
  }

  /** Block addresses are distinct, so a live range is known by its address. */
  lemma SameAddress(bs: seq<Block>, i: nat, j: nat)
    requires Tiles(bs) && i < |bs| && j < |bs| && bs[i].addr == bs[j].addr
    ensures i == j
  {
    if i < j { Ordered(bs, i, j); } else if j < i { Ordered(bs, j, i); }
  }

  lemma LiveAt(bs: seq<Block>, i: nat)
    requires Tiles(bs) && i < |bs| && !bs[i].free
    ensures bs[i].addr + HEADER in Live(bs) && Live(bs)[bs[i].addr + HEADER] == bs[i].size
  {
    var p := bs[i].addr + HEADER;
    assert p in LiveAddresses(bs);
    var j :| 0 <= j < |bs| && !bs[j].free && bs[j].addr + HEADER == p && SizeAt(bs, p) == bs[j].size;
    SameAddress(bs, i, j);
  }

  lemma LiveIndex(bs: seq<Block>, p: nat) returns (i: nat)
    requires Tiles(bs) && p in Live(bs)
    ensures i < |bs| && !bs[i].free && bs[i].addr + HEADER == p && Live(bs)[p] == bs[i].size
  {
    i :| 0 <= i < |bs| && !bs[i].free && bs[i].addr + HEADER == p;
    LiveAt(bs, i);
  }

  /** A live payload is 4-aligned, of whole words, and not empty. */
  lemma LiveRangeAligned(bs: seq<Block>, p: nat)
    requires Tiles(bs) && p in Live(bs)
    ensures p % 4 == 0 && Live(bs)[p] % 4 == 0 && Live(bs)[p] >= 4
  {
    var i := LiveIndex(bs, p);
    assert Shaped(bs[i]);
  }

  /** A live payload is inside the heap, behind its header. */
  lemma LiveRangeInside(h: HeapState, p: nat)
    requires Inv(h) && p in Live(h.blocks)
    ensures HEAP_START + HEADER <= p && p + Live(h.blocks)[p] <= HEAP_START + h.size
  {
    var bs := h.blocks;
    var i := LiveIndex(bs, p);
    if 0 < i { Ordered(bs, 0, i); }
    if i < |bs| - 1 { Ordered(bs, i, |bs| - 1); }
  }

  /** Two live payloads are apart, with room for the header between them. */
  lemma LiveRangesDisjoint(h: HeapState, p: nat, q: nat)
    requires Inv(h) && p in Live(h.blocks) && q in Live(h.blocks) && p < q
    ensures p + Live(h.blocks)[p] + HEADER <= q
  {
    var bs := h.blocks;
    var i := LiveIndex(bs, p);
    var j := LiveIndex(bs, q);
    if j < i { Ordered(bs, j, i); }
    Ordered(bs, i, j);
  }

  /** Live ranges agree when the live blocks do. */
  ghost predicate SameLive(a: seq<Block>, b: seq<Block>)
  {
    && (forall i {:trigger a[i]} | 0 <= i < |a| && !a[i].free :: a[i] in b)
    && (forall i {:trigger b[i]} | 0 <= i < |b| && !b[i].free :: b[i] in a)
  }

  lemma SameLiveSame(a: seq<Block>, b: seq<Block>)
    requires Tiles(a) && Tiles(b) && SameLive(a, b)
    ensures Live(a) == Live(b)
  {
    SubLive(a, b);
    SubLive(b, a);
  }

  lemma SubLive(a: seq<Block>, b: seq<Block>)
    requires Tiles(a) && Tiles(b) && forall i {:trigger a[i]} | 0 <= i < |a| && !a[i].free :: a[i] in b
    ensures forall p | p in Live(a) :: p in Live(b) && Live(b)[p] == Live(a)[p]
  {
    forall p | p in Live(a) ensures p in Live(b) && Live(b)[p] == Live(a)[p] {
      var i := LiveIndex(a, p);
      var j :| 0 <= j < |b| && b[j] == a[i];
      LiveAt(b, j);
    }
  }

  // ------------------------------------------------------------ what calls keep

  function LastEnd(bs: seq<Block>): nat
    requires bs != []
  {
    End(bs[|bs| - 1])
  }

  /** Replacing blocks i..k by others that cover the same bytes keeps the tiling. */
  lemma ReplaceTiles(bs: seq<Block>, i: nat, k: nat, mid: seq<Block>)
    requires Tiles(bs) && i < k <= |bs| && mid != []
    requires mid[0].addr == bs[i].addr && LastEnd(mid) == End(bs[k - 1])
    requires forall j {:trigger Shaped(mid[j])} | 0 <= j < |mid| :: Shaped(mid[j])
    requires forall j {:trigger End(mid[j])} | 0 <= j < |mid| - 1 :: mid[j + 1].addr == End(mid[j])
    ensures Tiles(bs[..i] + mid + bs[k..]) && LastEnd(bs[..i] + mid + bs[k..]) == LastEnd(bs)
  {
    var r := bs[..i] + mid + bs[k..];
    forall j | 0 <= j < |r| ensures Shaped(r[j]) {
      if j < i { assert Shaped(bs[j]); }
      else if j < i + |mid| { assert Shaped(mid[j - i]); }
      else { assert Shaped(bs[j - i - |mid| + k]); }
    }
    forall j | 0 <= j < |r| - 1 ensures r[j + 1].addr == End(r[j]) {
      if j + 1 < i {
        assert bs[j + 1].addr == End(bs[j]);
      } else if j + 1 == i {
        assert bs[i].addr == End(bs[i - 1]);
      } else if j < i + |mid| - 1 {
        assert mid[j - i + 1].addr == End(mid[j - i]);
      } else {
        var m := j - i - |mid| + k;
        assert r[j + 1] == bs[m + 1] && bs[m + 1].addr == End(bs[m]);
      }
    }
  }

  lemma SplitKeeps(bs: seq<Block>, i: nat, size: nat)
    requires Tiles(bs) && i < |bs| && bs[i].free && size % 4 == 0 && 4 <= size <= bs[i].size
    ensures Tiles(Split(bs, i, size)) && LastEnd(Split(bs, i, size)) == LastEnd(bs)
    ensures SameLive(bs, Split(bs, i, size))
    ensures |Split(bs, i, size)| > i && Split(bs, i, size)[i] == bs[i].(size := Split(bs, i, size)[i].size)
    ensures Split(bs, i, size)[i].size >= size
  {
    var b := bs[i];
    var r := Split(bs, i, size);
    if b.size - size >= HEADER + 4 {
      var mid := [b.(size := size), Block(b.addr + HEADER + size, b.size - size - HEADER, true)];
      assert Shaped(b);
      ReplaceTiles(bs, i, i + 1, mid);
      assert r == bs[..i] + mid + bs[i + 1..];
      forall j | 0 <= j < |bs| && !bs[j].free ensures bs[j] in r {
        assert j < i ==> r[j] == bs[j];
        assert j > i ==> r[j + 1] == bs[j];
      }
      forall j | 0 <= j < |r| && !r[j].free ensures r[j] in bs {
        assert j < i ==> r[j] == bs[j];
        assert j > i + 1 ==> r[j] == bs[j - 1];
      }
    }
  }

  lemma SplitCoalesced(bs: seq<Block>, i: nat, size: nat)
    requires Coalesced(bs) && i < |bs| && bs[i].free && size <= bs[i].size
    ensures Coalesced(Take(bs, i, size))
  {
    var r := Take(bs, i, size);
    var shift := |r| - |bs|;
    forall j | 0 <= j < |r| - 1 ensures !BothFree(r, j) {
      if j + 1 < i {
        assert r[j] == bs[j] && r[j + 1] == bs[j + 1] && !BothFree(bs, j);
      } else if j > i + shift {
        assert r[j] == bs[j - shift] && r[j + 1] == bs[j + 1 - shift] && !BothFree(bs, j - shift);
      } else if j == i + 1 && shift == 1 {
        assert r[j + 1] == bs[j];
        assert !BothFree(bs, i);
      }
    }
  }

  ghost predicate HasLive(bs: seq<Block>, p: nat)
  {
    exists i :: 0 <= i < |bs| && !bs[i].free && bs[i].addr + HEADER == p
  }

  /** The map has the payload of block `i`. */
  ghost predicate Listed(bs: seq<Block>, m: map<nat, nat>, i: nat)
    requires i < |bs|
  {
    bs[i].addr + HEADER in m && m[bs[i].addr + HEADER] == bs[i].size
  }

  /** A map that lists the live blocks, and only those, is the live heap. */
  lemma LiveIs(bs: seq<Block>, m: map<nat, nat>)
    requires Tiles(bs)
    requires forall i {:trigger Listed(bs, m, i)} | 0 <= i < |bs| && !bs[i].free :: Listed(bs, m, i)
    requires forall p {:trigger HasLive(bs, p)} | p in m :: HasLive(bs, p)
    ensures Live(bs) == m
  {
    forall p | p in m ensures p in Live(bs) {
      assert HasLive(bs, p);
      var i :| 0 <= i < |bs| && !bs[i].free && bs[i].addr + HEADER == p;
      LiveAt(bs, i);
    }
    forall p | p in Live(bs) ensures p in m && Live(bs)[p] == m[p] {
      var i := LiveIndex(bs, p);
      assert Listed(bs, m, i);
    }
  }

  lemma FlagTiles(bs: seq<Block>, i: nat, free: bool)
    requires Tiles(bs) && i < |bs|
    ensures Tiles(bs[i := bs[i].(free := free)]) && LastEnd(bs[i := bs[i].(free := free)]) == LastEnd(bs)
  {
    var r := bs[i := bs[i].(free := free)];
    forall j | 0 <= j < |r| - 1 ensures r[j + 1].addr == End(r[j]) { assert bs[j + 1].addr == End(bs[j]); }
    forall j | 0 <= j < |r| ensures Shaped(r[j]) { assert Shaped(bs[j]); }
  }

  lemma FreeNotLive(bs: seq<Block>, i: nat)
    requires Tiles(bs) && i < |bs| && bs[i].free
    ensures bs[i].addr + HEADER !in Live(bs)
  {
    forall j | 0 <= j < |bs| && bs[j].addr == bs[i].addr ensures bs[j].free { SameAddress(bs, i, j); }
  }

  /** Marking block `i` used adds its payload to the live ranges. */
  lemma MarkUsed(bs: seq<Block>, i: nat)
    requires Tiles(bs) && i < |bs| && bs[i].free
    ensures var r := bs[i := bs[i].(free := false)];
      Tiles(r) && LastEnd(r) == LastEnd(bs) && Live(r) == Live(bs)[bs[i].addr + HEADER := bs[i].size]
  {
    FlagTiles(bs, i, false);
    var r := bs[i := bs[i].(free := false)];
    var m := Live(bs)[bs[i].addr + HEADER := bs[i].size];
    forall j | 0 <= j < |r| && !r[j].free ensures Listed(r, m, j) {
      UsedListed(bs, i, j);
    }
    forall q | q in m ensures HasLive(r, q) {
      UsedOnly(bs, i, q);
    }
    LiveIs(r, m);
  }

  lemma UsedListed(bs: seq<Block>, i: nat, j: nat)
    requires Tiles(bs) && i < |bs| && j < |bs| && (j != i ==> !bs[j].free)
    ensures var m := Live(bs)[bs[i].addr + HEADER := bs[i].size];
      bs[j].addr + HEADER in m && m[bs[j].addr + HEADER] == bs[j].size
  {
    if j != i {
      LiveAt(bs, j);
      SameAddressOther(bs, i, j);
    }
  }

  lemma UsedOnly(bs: seq<Block>, i: nat, q: nat)
    requires Tiles(bs) && i < |bs| && bs[i].free && (q == bs[i].addr + HEADER || q in Live(bs))
    ensures HasLive(bs[i := bs[i].(free := false)], q)
  {
    var r := bs[i := bs[i].(free := false)];
    if q == bs[i].addr + HEADER {
      assert !r[i].free;
    } else {
      var j := LiveIndex(bs, q);
      assert r[j] == bs[j];
    }
  }

  lemma SameAddressOther(bs: seq<Block>, i: nat, j: nat)
    requires Tiles(bs) && i < |bs| && j < |bs| && i != j
    ensures bs[i].addr != bs[j].addr
  {
    if i < j { Ordered(bs, i, j); } else { Ordered(bs, j, i); }
  }

  lemma TakeKeeps(bs: seq<Block>, i: nat, size: nat)
    requires Tiles(bs) && Coalesced(bs) && i < |bs| && bs[i].free && size % 4 == 0 && 4 <= size <= bs[i].size
    ensures var r := Take(bs, i, size);
      && Tiles(r) && Coalesced(r) && LastEnd(r) == LastEnd(bs)
      && bs[i].addr + HEADER !in Live(bs)
      && i < |r| && r[i].size >= size
      && Live(r) == Live(bs)[bs[i].addr + HEADER := r[i].size]
  {
    SplitKeeps(bs, i, size);
    SplitCoalesced(bs, i, size);
    var cut := Split(bs, i, size);
    SameLiveSame(bs, cut);
    FreeNotLive(bs, i);
    MarkUsed(cut, i);
  }

  lemma GrownTiles(bs: seq<Block>, size: nat)
    requires Tiles(bs) && size % 4 == 0 && size >= 4
    ensures var r := Grown(bs, size);
      && Tiles(r) && LastEnd(r) == LastEnd(bs) + size + HEADER
      && r[|r| - 1].free && r[|r| - 1].size >= size
  {
    var r := Grown(bs, size);
    forall j | 0 <= j < |r| - 1 ensures r[j + 1].addr == End(r[j]) {
      if j < |bs| - 1 { assert bs[j + 1].addr == End(bs[j]); }
    }
    var last := bs[|bs| - 1];
    assert Shaped(last);
    forall j | 0 <= j < |r| ensures Shaped(r[j]) {
      if j < |bs| - 1 { assert Shaped(bs[j]); }
    }
  }

  lemma GrownLive(bs: seq<Block>, size: nat)
    requires bs != []
    ensures SameLive(bs, Grown(bs, size))
    ensures Coalesced(bs) ==> Coalesced(Grown(bs, size))
  {
    var r := Grown(bs, size);
    forall j | 0 <= j < |bs| && !bs[j].free ensures bs[j] in r { assert r[j] == bs[j]; }
    forall j | 0 <= j < |r| && !r[j].free ensures r[j] in bs { assert r[j] == bs[j]; }
    if Coalesced(bs) {
      forall j | 0 <= j < |r| - 1 ensures !BothFree(r, j) {
        if j < |bs| - 1 { assert !BothFree(bs, j); }
      }
    }
  }

  /** `r` is a heap with one live range more than `h`, and its address; it has at least `request` bytes. */
  ghost predicate Allocated(h: HeapState, r: (HeapState, nat), request: nat)
    requires Inv(h)
  {
    var (u, p) := r;
    && Inv(u) && p !in Live(h.blocks) && p in Live(u.blocks) && Live(u.blocks)[p] >= request
    && Live(u.blocks) == Live(h.blocks)[p := Live(u.blocks)[p]]
  }

  lemma FittingAllocates(h: HeapState, i: nat, size: nat)
    requires Inv(h) && i < |h.blocks| && h.blocks[i].free && size % 4 == 0 && 4 <= size <= h.blocks[i].size
    ensures Allocated(h, TakeAt(h, i, size), size)
  {
    TakeKeeps(h.blocks, i, size);
  }

  /** After an expansion the list is still a heap with the same live ranges. */
  lemma GrownInv(h: HeapState, size: nat)
    requires Inv(h) && size % 4 == 0 && 4 <= size && h.size + size + HEADER <= HEAP_MAX_SIZE
    ensures Inv(Expanded(h, size)) && Live(Expanded(h, size).blocks) == Live(h.blocks)
    ensures var bs := Expanded(h, size).blocks; bs[|bs| - 1].free && bs[|bs| - 1].size >= size
  {
    GrownTiles(h.blocks, size);
    GrownLive(h.blocks, size);
    SameLiveSame(h.blocks, Grown(h.blocks, size));
    PagesCover(h.size, size + HEADER);
  }

  lemma GrowingAllocates(h: HeapState, size: nat)
    requires Inv(h) && size % 4 == 0 && 4 <= size && h.size + size + HEADER <= HEAP_MAX_SIZE
    ensures var g := Expanded(h, size);
      && g.blocks != [] && g.blocks[|g.blocks| - 1].size >= size
      && Allocated(h, TakeAt(g, |g.blocks| - 1, size), size)
  {
    GrownInv(h, size);
    var g := Expanded(h, size);
    FittingAllocates(g, |g.blocks| - 1, size);
    AllocatedFrom(h, g, TakeAt(g, |g.blocks| - 1, size), size);
  }

  lemma AllocatedFrom(h: HeapState, g: HeapState, r: (HeapState, nat), size: nat)
    requires Inv(h) && Inv(g) && Live(g.blocks) == Live(h.blocks) && Allocated(g, r, size)
    ensures Allocated(h, r, size)
  {
  }

  /** No block of the heap holds `size` bytes. */
  ghost predicate NothingFits(h: HeapState, size: nat)
  {
    forall i {:trigger Fits(h.blocks[i], size)} | 0 <= i < |h.blocks| :: !Fits(h.blocks[i], size)
  }

  /** When kmalloc should fail: for size 0, and else only when nothing fits and the heap cannot grow. */
  ghost predicate Refused(h: HeapState, request: nat, supply: Supply)
  {
    request == 0 || (NothingFits(h, RoundUp(request)) && !HasRoom(h, RoundUp(request) + HEADER, supply))
  }

  /** kmalloc has to grow the heap, and does so over a page that is not mapped. */
  ghost predicate Overcommits(h: HeapState, request: nat, supply: Supply)
  {
    request != 0 && NothingFits(h, RoundUp(request)) && LastPageLost(h, RoundUp(request) + HEADER, supply)
  }

  /** kmalloc gets as far as the loop of expand_heap. */
  ghost predicate Grows(h: HeapState, request: nat)
  {
    request != 0 && NothingFits(h, RoundUp(request)) && BelowLimit(h, RoundUp(request) + HEADER)
  }

  /** What kmalloc leaves to map pages with. */
  ghost function SupplyAfter(h: HeapState, request: nat, supply: Supply): Supply
  {
    if request != 0 && NothingFits(h, RoundUp(request)) then ExpandLeaves(h, RoundUp(request) + HEADER, supply)
    else supply
  }

  /**
   The live heap grows by a range of at least the requested size, or the call fails and
   nothing changes.  It fails exactly when it should, but for a call that overcommits.
   */
  lemma KmallocMeaning(h: HeapState, request: nat, supply: Supply)
    requires Inv(h) && request <= MAX_REQUEST && supply.frames <= MAX_FRAMES
    ensures var r := Kmalloc(h, request, supply);
      if Refused(h, request, supply) && !Overcommits(h, request, supply) then r == (h, 0)
      else r.1 != 0 && Allocated(h, r, request)
  {
    if request != 0 {
      var size := RoundUp(request);
      RoundUpBelow(request);
      var i := FindFit(h.blocks, size, 0);
      if i < |h.blocks| {
        assert Fits(h.blocks[i], size);
        FittingAllocates(h, i, size);
      } else {
        GrowingMeaning(h, size, supply);
      }
    }
  }

  /** kmalloc when no block fits. */
  lemma GrowingMeaning(h: HeapState, size: nat, supply: Supply)
    requires Inv(h) && size % 4 == 0 && 4 <= size <= MAX_REQUEST && supply.frames <= MAX_FRAMES
    ensures var r := KmallocGrowing(h, size, supply);
      if HasRoom(h, size + HEADER, supply) || LastPageLost(h, size + HEADER, supply) then
        r.1 != 0 && Allocated(h, r, size)
      else r == (h, 0)
  {
    var bytes := size + HEADER;
    ExpandCases(h, bytes, supply);
    if CanExpand(h, bytes, supply) {
      assert h.size + bytes <= HEAP_MAX_SIZE;
      GrowingAllocates(h, size);
    }
  }

  /** Growing by whole pages covers the bytes asked for and respects the limit. */
  lemma PagesCover(size: nat, bytes: nat)
    requires size % 0x1000 == 0 && size + bytes <= HEAP_MAX_SIZE
    ensures bytes <= Pages(bytes) * 0x1000
    ensures (size + Pages(bytes) * 0x1000) % 0x1000 == 0
    ensures size + Pages(bytes) * 0x1000 <= HEAP_MAX_SIZE
  {
    var n, k := Pages(bytes), size / 0x1000;
    assert size == k * 0x1000;
    assert HEAP_MAX_SIZE == 16384 * 0x1000;
  }

  /** First fit: whenever some free block is large enough, the lowest such block is used and the heap does not grow. */
  lemma KmallocFirstFit(h: HeapState, request: nat, supply: Supply, k: nat)
    requires Inv(h) && 0 < request <= MAX_REQUEST && k < |h.blocks| && Fits(h.blocks[k], RoundUp(request))
    ensures exists i ::
      && 0 <= i <= k && Fits(h.blocks[i], RoundUp(request))
      && (forall j {:trigger Fits(h.blocks[j], RoundUp(request))} | 0 <= j < i :: !Fits(h.blocks[j], RoundUp(request)))
      && Kmalloc(h, request, supply).1 == h.blocks[i].addr + HEADER
      && Kmalloc(h, request, supply).0.size == h.size
  {
    var i := FindFit(h.blocks, RoundUp(request), 0);
    assert i <= k;
    assert Fits(h.blocks[i], RoundUp(request));
  }

  /** Two neighbours as one block. */
  lemma ShapedJoin(bs: seq<Block>, i: nat)
    requires Tiles(bs) && i + 1 < |bs|
    ensures var b := bs[i].(size := bs[i].size + HEADER + bs[i + 1].size); Shaped(b) && End(b) == End(bs[i + 1])
  {
    assert Shaped(bs[i]) && Shaped(bs[i + 1]) && bs[i + 1].addr == End(bs[i]);
  }

  lemma MergeNextKeeps(bs: seq<Block>, i: nat)
    requires Tiles(bs) && i < |bs| && bs[i].free
    ensures var r := MergeNext(bs, i);
      && Tiles(r) && LastEnd(r) == LastEnd(bs) && SameLive(bs, r)
      && i < |r| && r[i] == bs[i].(size := r[i].size)
      && (i + 1 < |r| && i + 1 < |bs| && bs[i + 1].free ==> i + 2 < |bs| && r[i + 1] == bs[i + 2])
  {
    var r := MergeNext(bs, i);
    if i + 1 < |bs| && bs[i + 1].free {
      assert bs[i + 1].addr == End(bs[i]);
      var mid := [bs[i].(size := bs[i].size + HEADER + bs[i + 1].size)];
      ShapedJoin(bs, i);
      ReplaceTiles(bs, i, i + 2, mid);
      MergedLive(bs, i, mid[0]);
    }
  }

  /** Joining two free neighbours touches no live block. */
  lemma MergedLive(bs: seq<Block>, i: nat, x: Block)
    requires i + 1 < |bs| && bs[i].free && bs[i + 1].free && x.free
    ensures SameLive(bs, bs[..i] + [x] + bs[i + 2..])
  {
    var r := bs[..i] + [x] + bs[i + 2..];
    forall j | 0 <= j < |bs| && !bs[j].free ensures bs[j] in r {
      assert j < i ==> r[j] == bs[j];
      assert j > i + 1 ==> r[j - 1] == bs[j];
    }
    forall j | 0 <= j < |r| && !r[j].free ensures r[j] in bs {
      assert j < i ==> r[j] == bs[j];
      assert j > i ==> r[j] == bs[j + 1];
    }
  }

  lemma MergePrevKeeps(bs: seq<Block>, i: nat)
    requires Tiles(bs) && i < |bs| && bs[i].free
    ensures var r := MergePrev(bs, i);
      Tiles(r) && LastEnd(r) == LastEnd(bs) && SameLive(bs, r)
  {
    if i > 0 && bs[i - 1].free {
      assert bs[i].addr == End(bs[i - 1]);
      var mid := [bs[i - 1].(size := bs[i - 1].size + HEADER + bs[i].size)];
      ShapedJoin(bs, i - 1);
      ReplaceTiles(bs, i - 1, i + 1, mid);
      MergedLive(bs, i - 1, mid[0]);
    }
  }

  /** With neighbours coalesced everywhere else, merging both ways coalesces everything. */
  lemma FreeCoalesces(bs: seq<Block>, i: nat)
    requires Coalesced(bs) && i < |bs| && !bs[i].free
    ensures Coalesced(FreeAt(bs, i))
  {
    var a := bs[i := bs[i].(free := true)];
    var b := MergeNext(a, i);
    var cut := |a| - |b|;
    forall j | 0 <= j < |b| - 1 && j + 1 != i ensures !BothFree(b, j) {
      if j + 1 < i {
        assert b[j] == bs[j] && b[j + 1] == bs[j + 1] && !BothFree(bs, j);
      } else if j == i {
        if cut == 1 { assert b[j + 1] == bs[i + 2] && !BothFree(bs, i + 1); }
      } else {
        assert b[j] == bs[j + cut] && b[j + 1] == bs[j + cut + 1] && !BothFree(bs, j + cut);
      }
    }
    PrevCoalesces(b, i);
  }

  lemma PrevCoalesces(b: seq<Block>, i: nat)
    requires i < |b| && b[i].free
    requires forall j {:trigger BothFree(b, j)} | 0 <= j < |b| - 1 && j + 1 != i :: !BothFree(b, j)
    ensures Coalesced(MergePrev(b, i))
  {
    var c := MergePrev(b, i);
    if i > 0 && b[i - 1].free {
      forall j | 0 <= j < |c| - 1 ensures !BothFree(c, j) {
        if j + 1 < i - 1 {
          assert c[j] == b[j] && c[j + 1] == b[j + 1] && !BothFree(b, j);
        } else if j + 1 == i - 1 {
          assert c[j] == b[j] && !BothFree(b, j);
        } else if j == i - 1 {
          assert c[j + 1] == b[i + 1] && !BothFree(b, i);
        } else {
          assert c[j] == b[j + 1] && c[j + 1] == b[j + 2] && !BothFree(b, j + 1);
        }
      }
    }
  }

  /** Marking block `i` free takes its payload off the live ranges. */
  lemma MarkFree(bs: seq<Block>, i: nat)
    requires Tiles(bs) && i < |bs| && !bs[i].free
    ensures var r := bs[i := bs[i].(free := true)];
      && Tiles(r) && LastEnd(r) == LastEnd(bs) && Live(r) == Live(bs) - {bs[i].addr + HEADER}
  {
    FlagTiles(bs, i, true);
    var r := bs[i := bs[i].(free := true)];
    var p := bs[i].addr + HEADER;
    var m := Live(bs) - {p};
    forall j | 0 <= j < |r| && !r[j].free ensures Listed(r, m, j) {
      LiveAt(bs, j);
      SameAddressOther(bs, i, j);
    }
    forall q | q in m ensures HasLive(r, q) {
      var j := LiveIndex(bs, q);
      assert r[j] == bs[j];
    }
    LiveIs(r, m);
  }

  lemma FreeAtKeeps(bs: seq<Block>, i: nat)
    requires Tiles(bs) && Coalesced(bs) && i < |bs| && !bs[i].free
    ensures var r := FreeAt(bs, i);
      && Tiles(r) && Coalesced(r) && LastEnd(r) == LastEnd(bs)
      && Live(r) == Live(bs) - {bs[i].addr + HEADER}
  {
    FreeCoalesces(bs, i);
    MarkFree(bs, i);
    var a := bs[i := bs[i].(free := true)];
    MergeNextKeeps(a, i);
    var b := MergeNext(a, i);
    SameLiveSame(a, b);
    MergePrevKeeps(b, i);
    SameLiveSame(b, MergePrev(b, i));
  }

  /** kfree of a live pointer removes exactly that range; of NULL or a free block it does nothing. */
  lemma KfreeMeaning(h: HeapState, ptr: nat)
    requires Inv(h) && Freeable(h.blocks, ptr)
    ensures Inv(Kfree(h, ptr)) && Kfree(h, ptr).size == h.size
    ensures Live(Kfree(h, ptr).blocks) == Live(h.blocks) - {ptr}
    ensures ptr !in Live(h.blocks) ==> Kfree(h, ptr) == h
  {
    if ptr in Live(h.blocks) {
      LiveFreed(h, ptr);
    } else {
      NotLiveIgnored(h, ptr);
      assert Live(h.blocks) - {ptr} == Live(h.blocks);
    }
  }

  lemma LiveFreed(h: HeapState, ptr: nat)
    requires Inv(h) && ptr in Live(h.blocks)
    ensures Freeable(h.blocks, ptr) && Inv(Kfree(h, ptr)) && Kfree(h, ptr).size == h.size
    ensures Live(Kfree(h, ptr).blocks) == Live(h.blocks) - {ptr}
  {
    var k := LiveIndex(h.blocks, ptr);
    KfreeIs(h, k);
    FreeAtKeeps(h.blocks, k);
  }

  lemma IndexAtIs(bs: seq<Block>, k: nat)
    requires Tiles(bs) && k < |bs|
    ensures IndexAt(bs, bs[k].addr, 0) == k
  {
    var i := IndexAt(bs, bs[k].addr, 0);
    assert StartsAt(bs[k], bs[k].addr) && i <= k;
    SameAddress(bs, i, k);
  }

  lemma KfreeIs(h: HeapState, k: nat)
    requires Inv(h) && k < |h.blocks|
    ensures Freeable(h.blocks, h.blocks[k].addr + HEADER)
    ensures Kfree(h, h.blocks[k].addr + HEADER) == if h.blocks[k].free then h else h.(blocks := FreeAt(h.blocks, k))
  {
    IndexAtIs(h.blocks, k);
  }

  lemma NotLiveIgnored(h: HeapState, ptr: nat)
    requires Inv(h) && ptr !in Live(h.blocks) && Freeable(h.blocks, ptr)
    ensures Kfree(h, ptr) == h
  {
    if ptr != 0 {
      var i := IndexAt(h.blocks, ptr - HEADER, 0);
      if !h.blocks[i].free {
        LiveAt(h.blocks, i);
        assert false;
      }
    }
  }

  /**
   A pointer that was just freed may be freed again exactly when the block before it
   was in use: only then is its header still one.  The second call does nothing.
   */
  lemma SecondFree(h: HeapState, i: nat)
    requires Inv(h) && i < |h.blocks| && !h.blocks[i].free
    ensures var ptr := h.blocks[i].addr + HEADER;
      && Freeable(h.blocks, ptr)
      && var u := Kfree(h, ptr);
         && (Freeable(u.blocks, ptr) <==> !(i > 0 && h.blocks[i - 1].free))
         && (Freeable(u.blocks, ptr) ==> Kfree(u, ptr) == u)
  {
    KfreeIs(h, i);
    FreeAtKeeps(h.blocks, i);
    if i > 0 && h.blocks[i - 1].free {
      MergedAway(h.blocks, i);
    } else {
      StillThere(h.blocks, i);
    }
  }

  /** A block behind one in use keeps its header when it is freed. */
  lemma StillThere(bs: seq<Block>, i: nat)
    requires Tiles(bs) && i < |bs| && !(i > 0 && bs[i - 1].free)
    ensures var r := FreeAt(bs, i); i < |r| && r[i].free && IndexAt(r, bs[i].addr, 0) == i
  {
    FlagTiles(bs, i, true);
    var a := bs[i := bs[i].(free := true)];
    MergeNextKeeps(a, i);
    var b := MergeNext(a, i);
    if i > 0 { assert b[i - 1] == bs[i - 1]; }
    IndexAtIs(b, i);
  }

  /** A block merged into its predecessor has no header any more. */
  lemma MergedAway(bs: seq<Block>, i: nat)
    requires Tiles(bs) && 0 < i < |bs| && bs[i - 1].free && Tiles(FreeAt(bs, i))
    ensures IndexAt(FreeAt(bs, i), bs[i].addr, 0) == |FreeAt(bs, i)|
  {
    var r := FreeAt(bs, i);
    FlagTiles(bs, i, true);
    var a := bs[i := bs[i].(free := true)];
    MergeNextKeeps(a, i);
    var b := MergeNext(a, i);
    assert b[i - 1] == bs[i - 1] && b[i].addr == bs[i].addr;
    assert r[i - 1] == b[i - 1].(size := b[i - 1].size + HEADER + b[i].size);
    assert bs[i].addr == End(bs[i - 1]);
    var k := IndexAt(r, bs[i].addr, 0);
    if k < i - 1 { Ordered(r, k, i - 1); } else if i - 1 < k < |r| { Ordered(r, i - 1, k); }
  }

  // ------------------------------------------------------ 32-bit arithmetic

  /** (size + 3) & ~3 on a 32-bit word. */
  function Rounded(request: nat): nat
  {
    Wrapped(request + 3) / 4 * 4
  }

  /** The rounding is right exactly when adding 3 does not wrap; else the size becomes 0. */
  lemma RoundExact(request: nat)
    requires request < WORD
    ensures Rounded(request) == RoundUp(request) <==> request + 3 < WORD
    ensures request + 3 >= WORD ==> Rounded(request) == 0
  {
    if request + 3 >= WORD { assert Wrapped(request + 3) == request + 3 - WORD; }
  }

  /** The sum with the header is right exactly when it does not wrap; else it is below the header's own size. */
  lemma HeaderExact(size: nat)
    requires size < WORD
    ensures Wrapped(size + HEADER) == size + HEADER <==> size + HEADER < WORD
    ensures size + HEADER >= WORD ==> Wrapped(size + HEADER) == size + HEADER - WORD < HEADER
  {
    if size + HEADER >= WORD { assert Wrapped(size + HEADER) == size + HEADER - WORD; }
  }

  /** The 32-bit limit check of expand_heap is right exactly when the sum does not wrap. */
  lemma ExpandGuard(heapSize: nat, bytes: nat)
    requires heapSize <= HEAP_MAX_SIZE && bytes < WORD
    ensures (Wrapped(heapSize + bytes) > HEAP_MAX_SIZE <==> heapSize + bytes > HEAP_MAX_SIZE) <==>
      heapSize + bytes < WORD
  {
    if heapSize + bytes >= WORD {
      assert Wrapped(heapSize + bytes) == heapSize + bytes - WORD;
    }
  }

  /**
   expand_heap as a whole decides right exactly when the page count does not wrap and
   the last page's table can be had: where only the limit check wraps, more frames are
   needed than exist.
   */
  lemma ExpandExact(h: HeapState, bytes: nat, supply: Supply)
    requires Inv(h) && bytes < WORD && supply.frames <= MAX_FRAMES
    ensures (CanExpand(h, bytes, supply) <==> HasRoom(h, bytes, supply)) <==>
      bytes + 0xFFF < WORD && !LastPageLost(h, bytes, supply)
  {
    if bytes + 0xFFF < WORD {
      ExpandCases(h, bytes, supply);
    } else {
      ExpandGuard(h.size, bytes);
      SizeIsPages(h);
      assert Wrapped(bytes + 0xFFF) == bytes + 0xFFF - WORD;
      assert Wrapped(h.size + bytes) == h.size + bytes - WORD;
    }
  }

  /** Where the page count does not wrap: success with every new page mapped, or with the last one lost, or failure. */
  lemma ExpandCases(h: HeapState, bytes: nat, supply: Supply)
    requires Inv(h) && bytes + 0xFFF < WORD && supply.frames <= MAX_FRAMES
    ensures PagesNeeded(bytes) == Pages(bytes)
    ensures CanExpand(h, bytes, supply) <==> HasRoom(h, bytes, supply) || LastPageLost(h, bytes, supply)
    ensures HasRoom(h, bytes, supply) ==> MapLoop(h, bytes, supply).mapped == Pages(bytes)
    ensures LastPageLost(h, bytes, supply) ==> MapLoop(h, bytes, supply).mapped == Pages(bytes) - 1
  {
    ExpandGuard(h.size, bytes);
    assert PagesNeeded(bytes) == Pages(bytes);
    GrowExact(supply, NextPage(h), Pages(bytes));
    if h.size + bytes >= WORD { assert Pages(bytes) > MAX_FRAMES + 1; }
  }

  lemma WholeUnless(h: HeapState, request: nat, supply: Supply)
    requires Inv(h) && 0 < request <= MAX_REQUEST && supply.frames <= MAX_FRAMES && !Overcommits(h, request, supply)
    ensures 4 <= RoundUp(request) <= MAX_REQUEST
    ensures NothingFits(h, RoundUp(request)) ==> Whole(h, RoundUp(request) + HEADER, supply)
  {
    RoundUpBelow(request);
    ExpandCases(h, RoundUp(request) + HEADER, supply);
  }

  /** An expansion that succeeds has room for the block it is made for. */
  lemma RoomFor(h: HeapState, size: nat, supply: Supply)
    requires Inv(h) && size <= MAX_REQUEST && supply.frames <= MAX_FRAMES
    ensures PagesNeeded(size + HEADER) == Pages(size + HEADER)
    ensures CanExpand(h, size + HEADER, supply) ==>
      h.size + size + HEADER <= HEAP_MAX_SIZE && size + HEADER <= Pages(size + HEADER) * 0x1000
  {
    ExpandCases(h, size + HEADER, supply);
    if CanExpand(h, size + HEADER, supply) { PagesCover(h.size, size + HEADER); }
  }

  /** A heap with a block in it has at least a page. */
  lemma SizeIsPages(h: HeapState)
    requires Inv(h)
    ensures h.size >= 0x1000
  {
    var bs := h.blocks;
    assert Shaped(bs[0]);
    if |bs| > 1 { Ordered(bs, 0, |bs| - 1); }
    assert h.size > 0;
  }

  /** kmalloc returns NULL, decided with all its 32-bit sums. */
  predicate ReturnsNull(h: HeapState, request: nat, supply: Supply)
  {
    || request == 0
    || (&& FindFit(h.blocks, Rounded(request), 0) == |h.blocks|
        && !CanExpand(h, Wrapped(Rounded(request) + HEADER), supply))
  }

  /** In every heap, unless it overcommits, kmalloc fails for this request when, and only when, it should. */
  ghost predicate FailsHonestly(request: nat)
  {
    forall h, supply: Supply | Inv(h) && supply.frames <= MAX_FRAMES && !Overcommits(h, request, supply) ::
      ReturnsNull(h, request, supply) <==> Refused(h, request, supply)
  }

  /** Failure is honest in every heap exactly up to the largest request that misleads no sum. */
  lemma KmallocHonestIff(request: nat)
    requires request < WORD
    ensures FailsHonestly(request) <==> request <= MAX_REQUEST
  {
    if request <= MAX_REQUEST {
      forall h, supply: Supply | Inv(h) && supply.frames <= MAX_FRAMES && !Overcommits(h, request, supply)
        ensures ReturnsNull(h, request, supply) <==> Refused(h, request, supply)
      {
        SmallRequestHonest(h, request, supply);
      }
    } else {
      var supply := Supply(1, {0, 1});
      LargeRequestNotRefused(request, supply);
      LargeRequestRefused(Fresh(), request, supply);
    }
  }

  /** Up to that bound failure is honest exactly when the call does not overcommit. */
  lemma SmallRequestHonest(h: HeapState, request: nat, supply: Supply)
    requires Inv(h) && request <= MAX_REQUEST && supply.frames <= MAX_FRAMES
    ensures (ReturnsNull(h, request, supply) <==> Refused(h, request, supply)) <==> !Overcommits(h, request, supply)
  {
    RoundUpBelow(request);
    SmallSums(h, request, supply);
    ExpandCases(h, RoundUp(request) + HEADER, supply);
  }

  /** No sum wraps up to that bound. */
  lemma SmallSums(h: HeapState, request: nat, supply: Supply)
    requires request <= MAX_REQUEST
    ensures ReturnsNull(h, request, supply) <==>
      request == 0 || (NothingFits(h, RoundUp(request)) && !CanExpand(h, RoundUp(request) + HEADER, supply))
  {
    var size := RoundUp(request);
    RoundUpBelow(request);
    RoundExact(request);
    HeaderExact(size);
    var i := FindFit(h.blocks, size, 0);
    if i < |h.blocks| { assert Fits(h.blocks[i], size); }
  }

  /** Past that bound the fresh heap hands out a block: sizes that round to 0 fit, others pass the wrapped checks. */
  lemma LargeRequestNotRefused(request: nat, supply: Supply)
    requires MAX_REQUEST < request < WORD && supply == Supply(1, {0, 1})
    ensures !ReturnsNull(Fresh(), request, supply)
  {
    RoundExact(request);
    if request + 3 >= WORD {
      assert Fits(Fresh().blocks[0], 0);
    } else {
      var size := RoundUp(request);
      HeaderExact(size);
      var bytes := Wrapped(size + HEADER);
      assert PagesNeeded(bytes) <= 1 && Slot(NextPage(Fresh())) == 1;
      assert Grow(Supply(0, {0, 1}), NextPage(Fresh()) + 1, 0).ok;
      assert CanExpand(Fresh(), bytes, supply);
    }
  }

  lemma LargeRequestRefused(h: HeapState, request: nat, supply: Supply)
    requires Inv(h) && request > MAX_REQUEST
    ensures Refused(h, request, supply) && !Overcommits(h, request, supply)
  {
    forall i | 0 <= i < |h.blocks| ensures !Fits(h.blocks[i], RoundUp(request)) {
      if 0 < i { Ordered(h.blocks, 0, i); }
      if i < |h.blocks| - 1 { Ordered(h.blocks, i, |h.blocks| - 1); }
    }
  }

  // --------------------------------------------------------------------- runs

  datatype Op = OpMalloc(request: nat, supply: Supply) | OpFree(ptr: nat)

  /** What callers owe: a size no 32-bit sum garbles, and pointers to blocks. */
  predicate Legal(h: HeapState, op: Op)
  {
    match op
    case OpMalloc(request, supply) => request <= MAX_REQUEST && supply.frames <= MAX_FRAMES
    case OpFree(ptr) => Freeable(h.blocks, ptr)
  }

  function Apply(h: HeapState, op: Op): HeapState
    requires h.blocks != [] && Legal(h, op)
  {
    match op
    case OpMalloc(request, supply) => Kmalloc(h, request, supply).0
    case OpFree(ptr) => Kfree(h, ptr)
  }

  /** The step on live ranges: a new range appears unless the call is refused, or one goes, and no other changes. */
  ghost predicate AbstractStep(l: map<nat, nat>, op: Op, refused: bool, l2: map<nat, nat>)
  {
    match op
    case OpMalloc(request, _) =>
      if refused then l2 == l else exists p :: p !in l && p in l2 && l2[p] >= request > 0 && l2 == l[p := l2[p]]
    case OpFree(ptr) => l2 == l - {ptr}
  }

  ghost predicate IsOvercommit(h: HeapState, op: Op)
  {
    op.OpMalloc? && Overcommits(h, op.request, op.supply)
  }

  ghost predicate IsRefused(h: HeapState, op: Op)
  {
    op.OpMalloc? && Refused(h, op.request, op.supply) && !IsOvercommit(h, op)
  }

  ghost predicate Run(hs: seq<HeapState>, ops: seq<Op>)
  {
    && |hs| == |ops| + 1 && hs[0] == Fresh()
    && forall i {:trigger ops[i]} | 0 <= i < |ops| ::
         hs[i].blocks != [] && Legal(hs[i], ops[i]) && hs[i + 1] == Apply(hs[i], ops[i])
  }

  lemma StepRefines(h: HeapState, op: Op)
    requires Inv(h) && Legal(h, op)
    ensures Inv(Apply(h, op))
    ensures AbstractStep(Live(h.blocks), op, IsRefused(h, op), Live(Apply(h, op).blocks))
  {
    match op
    case OpMalloc(request, supply) => KmallocMeaning(h, request, supply);
    case OpFree(ptr) => KfreeMeaning(h, ptr);
  }

  /**
   On every run of legal calls from heap_init the heap is tiled and fully coalesced,
   and each call is a step on the set of live ranges.
   */
  lemma {:induction false} RunRefines(hs: seq<HeapState>, ops: seq<Op>, j: nat)
    requires Run(hs, ops) && j <= |ops|
    ensures Inv(hs[j])
    ensures j < |ops| ==>
      Inv(hs[j + 1]) && AbstractStep(Live(hs[j].blocks), ops[j], IsRefused(hs[j], ops[j]), Live(hs[j + 1].blocks))
  {
    if j > 0 { RunRefines(hs, ops, j - 1); }
    if j < |ops| {
      var op := ops[j];
      assert hs[j + 1] == Apply(hs[j], op);
      StepRefines(hs[j], op);
    }
  }
}
