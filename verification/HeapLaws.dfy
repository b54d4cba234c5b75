/**
 How much kmalloc of kernel/memory/heap.c takes, and that kfree gives exactly that back.
 */
module HeapLaws {
  import opened Common
  import opened FrameSupply
  import opened HeapSpec

  /** The blocks kmalloc chooses from: those there are if one fits, else those after an expansion. */
  ghost function Choices(h: HeapState, request: nat): seq<Block>
    requires h.blocks != []
  {
    if NothingFits(h, RoundUp(request)) then Grown(h.blocks, RoundUp(request)) else h.blocks
  }

  /**
   Block `i` of `bs` was taken for `size` bytes: with 20 bytes or more to spare it is cut
   to that size, and a free block takes up the rest to its old end; else all of it is
   taken.  No other block changes.
   */
  ghost predicate TakenFor(bs: seq<Block>, i: nat, size: nat, r: seq<Block>)
    requires i < |bs|
  {
    var b := bs[i];
    if b.size >= size + 20 then
      && |r| == |bs| + 1 && r[..i] == bs[..i] && r[i + 2..] == bs[i + 1..]
      && r[i] == Block(b.addr, size, false)
      && r[i + 1].free && r[i + 1].addr == End(r[i]) && End(r[i + 1]) == End(b)
    else
      |r| == |bs| && r[..i] == bs[..i] && r[i + 1..] == bs[i + 1..] && r[i] == Block(b.addr, b.size, false)
  }

  lemma TakeIs(bs: seq<Block>, i: nat, size: nat)
    requires i < |bs| && size <= bs[i].size
    ensures TakenFor(bs, i, size, Take(bs, i, size))
  {
  }

  /** Where the block kmalloc takes is, among those it chooses from. */
  lemma ChosenAt(h: HeapState, request: nat, supply: Supply) returns (i: nat)
    requires Inv(h) && 0 < request <= MAX_REQUEST && supply.frames <= MAX_FRAMES && Kmalloc(h, request, supply).1 != 0
    ensures var bs := Choices(h, request);
      && i < |bs| && Fits(bs[i], RoundUp(request)) && Tiles(bs) && Coalesced(bs)
      && Kmalloc(h, request, supply).1 == bs[i].addr + HEADER
      && Kmalloc(h, request, supply).0.blocks == Take(bs, i, RoundUp(request))
  {
    var size := RoundUp(request);
    RoundUpBelow(request);
    i := FindFit(h.blocks, size, 0);
    if i < |h.blocks| {
      assert Fits(h.blocks[i], size);
    } else {
      i := |Grown(h.blocks, size)| - 1;
      GrownTiles(h.blocks, size);
      GrownLive(h.blocks, size);
    }
  }

  /**
   kmalloc takes no more than it needs: the block it chooses, the lowest that fits or the
   last after an expansion, is cut to the rounded size whenever the rest can hold a block.
   */
  lemma KmallocTakes(h: HeapState, request: nat, supply: Supply)
    requires Inv(h) && 0 < request <= MAX_REQUEST && supply.frames <= MAX_FRAMES && Kmalloc(h, request, supply).1 != 0
    ensures var (u, p) := Kmalloc(h, request, supply);
      var bs := Choices(h, request);
      exists i :: 0 <= i < |bs| && p == bs[i].addr + HEADER && TakenFor(bs, i, RoundUp(request), u.blocks)
  {
    var i := ChosenAt(h, request, supply);
    TakeIs(Choices(h, request), i, RoundUp(request));
  }

  /** So a range is never more than a header larger than the rounded request. */
  lemma KmallocFitsTightly(h: HeapState, request: nat, supply: Supply)
    requires Inv(h) && 0 < request <= MAX_REQUEST && supply.frames <= MAX_FRAMES && Kmalloc(h, request, supply).1 != 0
    ensures var (u, p) := Kmalloc(h, request, supply);
      Inv(u) && p in Live(u.blocks) && RoundUp(request) <= Live(u.blocks)[p] <= RoundUp(request) + HEADER
  {
    HeapAfter(h, request, supply);
    var i := ChosenAt(h, request, supply);
    TakenTightly(Choices(h, request), i, RoundUp(request), Kmalloc(h, request, supply).0.blocks);
  }

  lemma HeapAfter(h: HeapState, request: nat, supply: Supply)
    requires Inv(h) && request <= MAX_REQUEST && supply.frames <= MAX_FRAMES
    ensures Inv(Kmalloc(h, request, supply).0)
  {
    KmallocMeaning(h, request, supply);
  }

  lemma TakenTightly(bs: seq<Block>, i: nat, size: nat, r: seq<Block>)
    requires Tiles(bs) && i < |bs| && size <= bs[i].size && size % 4 == 0 && r == Take(bs, i, size) && Tiles(r)
    ensures bs[i].addr + HEADER in Live(r) && size <= Live(r)[bs[i].addr + HEADER] <= size + HEADER
  {
    TakeIs(bs, i, size);
    assert Shaped(bs[i]);
    LiveAt(r, i);
  }

  /** Freeing a block that was just taken joins what was cut. */
  lemma TakeFreed(bs: seq<Block>, i: nat, size: nat)
    requires Coalesced(bs) && i < |bs| && Fits(bs[i], size)
    ensures i < |Take(bs, i, size)| && FreeAt(Take(bs, i, size), i) == bs
  {
    var r := Take(bs, i, size);
    if i > 0 { assert !BothFree(bs, i - 1); }
    if i + 1 < |bs| { assert !BothFree(bs, i); }
    var a := r[i := r[i].(free := true)];
    assert MergeNext(a, i) == bs;
  }

  /** kfree of a block that was just taken. */
  lemma TakenFreed(g: HeapState, i: nat, size: nat, u: HeapState)
    requires Coalesced(g.blocks) && i < |g.blocks| && Fits(g.blocks[i], size)
    requires Inv(u) && u == HeapState(Take(g.blocks, i, size), g.size)
    ensures Freeable(u.blocks, g.blocks[i].addr + HEADER) && Kfree(u, g.blocks[i].addr + HEADER) == g
  {
    TakeIs(g.blocks, i, size);
    TakeFreed(g.blocks, i, size);
    KfreeIs(u, i);
  }

  /** kfree undoes kmalloc: the heap is as it was before the call, or as the expansion left it. */
  lemma KfreeUndoesKmalloc(h: HeapState, request: nat, supply: Supply)
    requires Inv(h) && 0 < request <= MAX_REQUEST && supply.frames <= MAX_FRAMES && Kmalloc(h, request, supply).1 != 0
    ensures var (u, p) := Kmalloc(h, request, supply);
      && Freeable(u.blocks, p)
      && Kfree(u, p) == if NothingFits(h, RoundUp(request)) then Expanded(h, RoundUp(request)) else h
  {
    var g := if NothingFits(h, RoundUp(request)) then Expanded(h, RoundUp(request)) else h;
    var i := ChosenAt(h, request, supply);
    HeapAfter(h, request, supply);
    SizeAfter(h, request, supply);
    TakenFreed(g, i, RoundUp(request), Kmalloc(h, request, supply).0);
  }

  lemma SizeAfter(h: HeapState, request: nat, supply: Supply)
    requires Inv(h) && 0 < request <= MAX_REQUEST && Kmalloc(h, request, supply).1 != 0
    ensures Kmalloc(h, request, supply).0.size ==
      if NothingFits(h, RoundUp(request)) then h.size + Pages(RoundUp(request) + HEADER) * 0x1000 else h.size
  {
    var i := FindFit(h.blocks, RoundUp(request), 0);
    if i < |h.blocks| { assert Fits(h.blocks[i], RoundUp(request)); }
  }

  /** Two small requests share the first megabyte: the second needs no frame and lies right behind the first. */
  lemma SmallRequestsShare(supply: Supply)
    ensures var (u, p) := Kmalloc(Fresh(), 4, supply);
      u.blocks != [] && p == 0x40_0010 && Kmalloc(u, 4, supply).1 == 0x40_0024
  {
    var bs := Fresh().blocks;
    assert RoundUp(4) == 4 && Fits(bs[0], 4) && FindFit(bs, 4, 0) == 0;
    var u := Kmalloc(Fresh(), 4, supply).0.blocks;
    TakeIs(bs, 0, 4);
    assert !Fits(u[0], 4) && Fits(u[1], 4);
    assert FindFit(u, 4, 1) == 1 && FindFit(u, 4, 0) == 1;
  }
}
