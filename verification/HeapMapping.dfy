/**
 Which pages of the heap are mapped, along every run of kmalloc and kfree: all of
 them, exactly as long as no call has grown the heap over a page whose mapping was lost.
 */
module HeapMapping {
  import opened Common
  import opened FrameSupply
  import opened HeapSpec

  ghost function PageRange(first: nat, n: nat): (r: set<nat>)
    ensures forall p: nat :: p in r <==> first <= p < first + n
  {
    if n == 0 then {} else PageRange(first, n - 1) + {first + n - 1}
  }

  /** The pages of the heap. */
  ghost predicate FullyMapped(h: HeapState, mapped: set<nat>)
  {
    forall p: nat | FIRST_PAGE <= p < NextPage(h) :: p in mapped
  }

  /** The mapped pages after a call.  kfree unmaps none, and a failing kmalloc keeps what it mapped. */
  ghost function MappedAfter(h: HeapState, mapped: set<nat>, op: Op): set<nat>
  {
    match op
    case OpMalloc(request, supply) =>
      if Grows(h, request) then
        mapped + PageRange(NextPage(h), MapLoop(h, RoundUp(request) + HEADER, supply).mapped)
      else mapped
    case OpFree(_) => mapped
  }

  /** A mapped page has a page table: paging_unmap_page frees none. */
  ghost predicate HasTables(mapped: set<nat>, op: Op)
  {
    op.OpMalloc? ==> forall p | p in mapped :: Slot(p) in op.supply.tables
  }

  lemma {:induction false} FindsNone(bs: seq<Block>, size: nat, from: nat)
    requires from <= |bs| && forall i {:trigger Fits(bs[i], size)} | from <= i < |bs| :: !Fits(bs[i], size)
    ensures FindFit(bs, size, from) == |bs|
    decreases |bs| - from
  {
    if from < |bs| {
      assert !Fits(bs[from], size);
      FindsNone(bs, size, from + 1);
    }
  }

  /** kmalloc where no block fits. */
  lemma KmallocGrows(h: HeapState, request: nat, supply: Supply)
    requires h.blocks != [] && 0 < request <= MAX_REQUEST && NothingFits(h, RoundUp(request))
    ensures Kmalloc(h, request, supply) == KmallocGrowing(h, RoundUp(request), supply)
  {
    FindsNone(h.blocks, RoundUp(request), 0);
  }

  /** What a growing kmalloc makes of the heap's size. */
  lemma GrownSize(h: HeapState, request: nat, supply: Supply)
    requires Inv(h) && request <= MAX_REQUEST && Grows(h, request)
    ensures var bytes, u := RoundUp(request) + HEADER, Kmalloc(h, request, supply).0;
      NextPage(u) == NextPage(h) + if CanExpand(h, bytes, supply) then Pages(bytes) else 0
  {
    var size := RoundUp(request);
    KmallocGrows(h, request, supply);
    PageBehindIs(h.size, Pages(size + HEADER));
  }

  /** A kmalloc that does not reach the loop leaves the heap's size alone. */
  lemma SameSize(h: HeapState, request: nat, supply: Supply)
    requires Inv(h) && request <= MAX_REQUEST && !Grows(h, request)
    ensures Kmalloc(h, request, supply).0.size == h.size
  {
    if request != 0 {
      var size := RoundUp(request);
      var i := FindFit(h.blocks, size, 0);
      if i < |h.blocks| { assert Fits(h.blocks[i], size); }
    }
  }

  /** The heap ends behind the mapped pages, by one page exactly if the last one was lost. */
  lemma GrowthEnds(h: HeapState, bytes: nat, supply: Supply, end: nat)
    requires Inv(h) && bytes + 0xFFF < WORD && supply.frames <= MAX_FRAMES
    requires end == NextPage(h) + if CanExpand(h, bytes, supply) then Pages(bytes) else 0
    ensures var next := NextPage(h) + MapLoop(h, bytes, supply).mapped;
      if LastPageLost(h, bytes, supply) then end == next + 1 && Slot(next) !in supply.tables
      else NextPage(h) <= end <= next
  {
    ExpandCases(h, bytes, supply);
  }

  /** A heap whose end moved by `n` mapped pages, or by one more that is not. */
  lemma EndMapped(h: HeapState, u: HeapState, mapped: set<nat>, n: nat, lost: bool)
    requires FIRST_PAGE <= NextPage(h)
    requires if lost then NextPage(u) == NextPage(h) + n + 1 && NextPage(h) + n !in mapped
             else NextPage(h) <= NextPage(u) <= NextPage(h) + n
    ensures FullyMapped(u, mapped + PageRange(NextPage(h), n)) <==> FullyMapped(h, mapped) && !lost
  {
    var m := mapped + PageRange(NextPage(h), n);
    if lost {
      assert NextPage(h) + n !in m;
    } else {
      MappedOn(h, u, mapped, m, n);
    }
  }

  /** The heap was fully mapped and the new pages are: so it is again, exactly if the last one was not lost. */
  lemma GrowthMapped(h: HeapState, u: HeapState, mapped: set<nat>, bytes: nat, supply: Supply)
    requires Inv(h) && bytes + 0xFFF < WORD && supply.frames <= MAX_FRAMES
    requires NextPage(u) == NextPage(h) + if CanExpand(h, bytes, supply) then Pages(bytes) else 0
    requires forall p | p in mapped :: Slot(p) in supply.tables
    ensures FullyMapped(u, mapped + PageRange(NextPage(h), MapLoop(h, bytes, supply).mapped)) <==>
      FullyMapped(h, mapped) && !LastPageLost(h, bytes, supply)
  {
    GrowthEnds(h, bytes, supply, NextPage(u));
    PageBehindIs(h.size, 0);
    EndMapped(h, u, mapped, MapLoop(h, bytes, supply).mapped, LastPageLost(h, bytes, supply));
  }

  /** New pages that are all mapped change nothing about the others. */
  lemma MappedOn(h: HeapState, u: HeapState, mapped: set<nat>, m: set<nat>, n: nat)
    requires NextPage(h) <= NextPage(u) <= NextPage(h) + n && m == mapped + PageRange(NextPage(h), n)
    ensures FullyMapped(u, m) <==> FullyMapped(h, mapped)
  {
    if FullyMapped(u, m) {
      forall p: nat | FIRST_PAGE <= p < NextPage(h) ensures p in mapped { assert p in m; }
    }
  }

  lemma SameMapped(h: HeapState, u: HeapState, mapped: set<nat>)
    requires u.size == h.size
    ensures FullyMapped(u, mapped) <==> FullyMapped(h, mapped)
  {
    assert NextPage(u) == NextPage(h);
  }

  /** A call keeps the heap fully mapped exactly unless it overcommits, and never repairs a heap that is not. */
  lemma StepMapped(h: HeapState, mapped: set<nat>, op: Op)
    requires Inv(h) && Legal(h, op) && HasTables(mapped, op)
    ensures FullyMapped(Apply(h, op), MappedAfter(h, mapped, op)) <==> FullyMapped(h, mapped) && !IsOvercommit(h, op)
  {
    match op
    case OpMalloc(request, supply) =>
      if Grows(h, request) {
        StepGrows(h, mapped, request, supply);
      } else {
        SameSize(h, request, supply);
        SameMapped(h, Apply(h, op), mapped);
        NotGrowing(h, request, supply);
      }
    case OpFree(ptr) =>
      KfreeMeaning(h, ptr);
      SameMapped(h, Apply(h, op), mapped);
  }

  lemma StepGrows(h: HeapState, mapped: set<nat>, request: nat, supply: Supply)
    requires Inv(h) && request <= MAX_REQUEST && supply.frames <= MAX_FRAMES && Grows(h, request)
    requires HasTables(mapped, OpMalloc(request, supply))
    ensures var op := OpMalloc(request, supply);
      FullyMapped(Kmalloc(h, request, supply).0, MappedAfter(h, mapped, op)) <==>
        FullyMapped(h, mapped) && !IsOvercommit(h, op)
  {
    var op, bytes := OpMalloc(request, supply), RoundUp(request) + HEADER;
    assert MappedAfter(h, mapped, op) == mapped + PageRange(NextPage(h), MapLoop(h, bytes, supply).mapped);
    assert IsOvercommit(h, op) <==> LastPageLost(h, bytes, supply);
    RoundUpBelow(request);
    GrownSize(h, request, supply);
    GrowthMapped(h, Kmalloc(h, request, supply).0, mapped, bytes, supply);
  }

  lemma NotGrowing(h: HeapState, request: nat, supply: Supply)
    requires Inv(h) && !Grows(h, request)
    ensures !Overcommits(h, request, supply)
  {
    var bytes := RoundUp(request) + HEADER;
    if h.size + bytes <= HEAP_MAX_SIZE { assert Wrapped(h.size + bytes) == h.size + bytes; }
  }

  /** A run together with the pages that are mapped; heap_init maps those of the first block. */
  ghost predicate MappedRun(hs: seq<HeapState>, ms: seq<set<nat>>, ops: seq<Op>)
  {
    && Run(hs, ops) && |ms| == |hs| && ms[0] == PageRange(FIRST_PAGE, HEAP_INITIAL_SIZE / 0x1000)
    && forall i {:trigger ops[i]} | 0 <= i < |ops| ::
         HasTables(ms[i], ops[i]) && ms[i + 1] == MappedAfter(hs[i], ms[i], ops[i])
  }

  /** A call before `j` overcommitted. */
  ghost predicate OvercommitBefore(hs: seq<HeapState>, ops: seq<Op>, j: nat)
    requires j <= |ops| <= |hs|
  {
    exists i :: 0 <= i < j && IsOvercommit(hs[i], ops[i])
  }

  /**
   In every state of every run all pages of the heap are mapped if and only if no call
   so far has overcommitted: a lost page stays lost.
   */
  lemma {:induction false} RunMapped(hs: seq<HeapState>, ms: seq<set<nat>>, ops: seq<Op>, j: nat)
    requires MappedRun(hs, ms, ops) && j <= |ops|
    ensures FullyMapped(hs[j], ms[j]) <==> !OvercommitBefore(hs, ops, j)
  {
    if j == 0 {
      PageBehindIs(HEAP_INITIAL_SIZE, 0);
    } else {
      var i := j - 1;
      RunMapped(hs, ms, ops, i);
      RunRefines(hs, ops, i);
      var op := ops[i];
      assert hs[j] == Apply(hs[i], op) && ms[j] == MappedAfter(hs[i], ms[i], op);
      StepMapped(hs[i], ms[i], op);
      OvercommitNext(hs, ops, i);
    }
  }

  lemma OvercommitNext(hs: seq<HeapState>, ops: seq<Op>, i: nat)
    requires i < |ops| <= |hs|
    ensures OvercommitBefore(hs, ops, i + 1) <==> OvercommitBefore(hs, ops, i) || IsOvercommit(hs[i], ops[i])
  {
  }

  // ----------------------------------------------------------- the failing run

  /** The heap after kmalloc(0xFFFF0) and kmalloc(0x2FFFF0): 4 MB, all of it in use. */
  function FullHeap(): HeapState
  {
    HeapState([Block(HEAP_START, 0xF_FFF0, false), Block(0x50_0000, 0x2F_FFF0, false)], 0x40_0000)
  }

  lemma FirstCall(supply: Supply)
    ensures Kmalloc(Fresh(), 0xF_FFF0, supply) ==
      (HeapState([Block(HEAP_START, 0xF_FFF0, false)], HEAP_INITIAL_SIZE), HEAP_START + HEADER)
  {
    var bs := Fresh().blocks;
    assert Fits(bs[0], 0xF_FFF0) && RoundUp(0xF_FFF0) == 0xF_FFF0;
    assert FindFit(bs, 0xF_FFF0, 0) == 0;
    assert Take(bs, 0, 0xF_FFF0) == [bs[0].(free := false)];
  }

  lemma SecondCall(h: HeapState, supply: Supply)
    requires h == HeapState([Block(HEAP_START, 0xF_FFF0, false)], HEAP_INITIAL_SIZE) && supply == Supply(768, {0, 1})
    ensures Kmalloc(h, 0x2F_FFF0, supply) == (FullHeap(), 0x50_0010)
  {
    var size := 0x2F_FFF0;
    assert RoundUp(size) == size;
    SecondGrows(h, size + HEADER, supply);
    KmallocGrows(h, size, supply);
    SecondTakes(h);
  }

  lemma SecondTakes(h: HeapState)
    requires h == HeapState([Block(HEAP_START, 0xF_FFF0, false)], HEAP_INITIAL_SIZE)
    ensures var g := Expanded(h, 0x2F_FFF0);
      |g.blocks| == 2 && g.blocks[1].size == 0x2F_FFF0 && TakeAt(g, 1, 0x2F_FFF0) == (FullHeap(), 0x50_0010)
  {
    var bs := [h.blocks[0], Block(0x50_0000, 0x2F_FFF0, true)];
    assert Grown(h.blocks, 0x2F_FFF0) == bs;
    assert Split(bs, 1, 0x2F_FFF0) == bs;
    assert Take(bs, 1, 0x2F_FFF0) == FullHeap().blocks;
  }

  lemma SecondGrows(h: HeapState, bytes: nat, supply: Supply)
    requires h.size == HEAP_INITIAL_SIZE && bytes == 0x30_0000 && supply == Supply(768, {0, 1})
    ensures CanExpand(h, bytes, supply)
  {
    var page, n := NextPage(h), PagesNeeded(bytes);
    assert page == 1280 && n == 768;
    NoTableMissing();
    GrowExact(supply, page, n);
  }

  lemma NoTableMissing()
    ensures TablesFor({0, 1}, 1280, 768) == 0
  {
    forall d | d in SlotsOf(1280, 768) ensures d == 1 {
      var p: nat :| 1280 <= p < 1280 + 768 && Slot(p) == d;
    }
    assert SlotsOf(1280, 768) - {0, 1} == {};
  }

  lemma FullHeapReached(first: Op, second: Op)
    requires first == OpMalloc(0xF_FFF0, Supply(0, {0, 1})) && second == OpMalloc(0x2F_FFF0, Supply(768, {0, 1}))
    ensures exists h :: Run([Fresh(), h, FullHeap()], [first, second])
  {
    FirstCall(first.supply);
    var h := Apply(Fresh(), first);
    SecondCall(h, second.supply);
    TwoCalls(h, FullHeap(), first, second);
  }

  lemma TwoCalls(h: HeapState, u: HeapState, first: Op, second: Op)
    requires Legal(Fresh(), first) && h == Apply(Fresh(), first)
    requires h.blocks != [] && Legal(h, second) && u == Apply(h, second)
    ensures Run([Fresh(), h, u], [first, second])
  {
  }

  lemma FullHeapInv()
    ensures Inv(FullHeap()) && NextPage(FullHeap()) == 2048
    ensures forall size: nat :: NothingFits(FullHeap(), size)
  {
    var bs := FullHeap().blocks;
    assert Shaped(bs[0]) && Shaped(bs[1]);
    assert bs[1].addr == End(bs[0]);
  }

  /** In that heap, with a single frame left, kmalloc(4) hands out a block at 0x800010, behind the last mapped page. */
  lemma OneFrameLeft(supply: Supply)
    requires supply == Supply(1, {0, 1})
    ensures Overcommits(FullHeap(), 4, supply) && Kmalloc(FullHeap(), 4, supply).1 == 0x80_0010
  {
    FullHeapInv();
    var h, request := FullHeap(), 4;
    assert RoundUp(request) == request;
    OneFrameLost(h, request + HEADER, supply);
    ExpandCases(h, request + HEADER, supply);
    KmallocGrows(h, request, supply);
    assert Grown(h.blocks, request) == h.blocks + [Block(0x80_0000, 4, true)];
  }

  lemma OneFrameLost(h: HeapState, bytes: nat, supply: Supply)
    requires NextPage(h) == 2048 && h.size == 0x40_0000 && bytes == 20 && supply == Supply(1, {0, 1})
    ensures LastPageLost(h, bytes, supply)
  {
    var page, n := NextPage(h), Pages(bytes);
    assert n == 1 && Slot(page) == 2;
    SlotsOfFirst(page, n);
    assert SlotsOf(page + 1, 0) == {};
    assert SlotsOf(page, n) - supply.tables == {2};
  }

  /** With two frames left, kmalloc(4096) fails although its pages are there. */
  lemma TwoFramesLeft(supply: Supply)
    requires supply == Supply(2, {0, 1})
    ensures
      && Pages(RoundUp(4096) + HEADER) == 2 && Refused(FullHeap(), 4096, supply)
      && Kmalloc(FullHeap(), 4096, supply) == (FullHeap(), 0)
  {
    FullHeapInv();
    var h := FullHeap();
    assert SlotsOf(2048, 2) == {2} by { assert Slot(2048) == 2 && Slot(2049) == 2; }
    assert {2} - {0, 1} == {2};
    KmallocMeaning(h, 4096, supply);
  }

  /** A kmalloc that fails in the loop has used up every frame there was. */
  lemma FailureDrains(h: HeapState, request: nat, supply: Supply)
    requires Inv(h) && request <= MAX_REQUEST && supply.frames <= MAX_FRAMES
    ensures Grows(h, request) && Kmalloc(h, request, supply).1 == 0 ==>
      MapLoop(h, RoundUp(request) + HEADER, supply).left.frames == 0
  {
    if Grows(h, request) {
      var bytes := RoundUp(request) + HEADER;
      KmallocMeaning(h, request, supply);
      ExpandCases(h, bytes, supply);
      GrowDrains(supply, NextPage(h), PagesNeeded(bytes));
    }
  }
}
