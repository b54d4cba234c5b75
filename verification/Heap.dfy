/**
 kernel/memory/heap.c in its own form: 16-byte headers (size, free, next, prev) that
 live in the heap's own words and are split, merged and appended in place.
 Every method is proved to act on the block list as its namesake in HeapSpec says,
 and to leave the words of all other live payloads alone.
 */
module Heap {
  import opened Common
  import opened FrameSupply
  import opened HeapSpec
  import FrameBitmap
  import Paging

  /** Words of mapped memory by byte address; only multiples of 4 are used. */
  type Memory = map<nat, nat>

  function Word(mem: Memory, a: nat): nat
  {
    if a in mem then mem[a] else 0
  }

  /** A header at `addr` with these four fields. */
  ghost predicate HeaderAt(mem: Memory, addr: nat, size: nat, free: bool, next: nat, prev: nat)
  {
    && Word(mem, addr) == size && Word(mem, addr + 4) == (if free then 1 else 0)
    && Word(mem, addr + 8) == next && Word(mem, addr + 12) == prev
  }

  ghost function NextAddr(bs: seq<Block>, i: nat): nat
    requires i < |bs|
  {
    if i + 1 < |bs| then bs[i + 1].addr else 0
  }

  ghost function PrevAddr(bs: seq<Block>, i: nat): nat
    requires i < |bs|
  {
    if i > 0 then bs[i - 1].addr else 0
  }

  ghost predicate HeaderOk(mem: Memory, bs: seq<Block>, i: nat)
    requires i < |bs|
  {
    HeaderAt(mem, bs[i].addr, bs[i].size, bs[i].free, NextAddr(bs, i), PrevAddr(bs, i))
  }

  /** The headers in memory spell out the block list, with prev the inverse of next. */
  ghost predicate Headers(mem: Memory, bs: seq<Block>)
  {
    forall i {:trigger HeaderOk(mem, bs, i)} | 0 <= i < |bs| :: HeaderOk(mem, bs, i)
  }

  /** All words of a heap of this size are mapped. */
  ghost predicate Mapped(mem: Memory, size: nat)
  {
    forall a | HEAP_START <= a < HEAP_START + size && a % 4 == 0 :: a in mem
  }

  /** No words behind a heap of this size are mapped. */
  ghost predicate Within(mem: Memory, size: nat)
  {
    forall a | a in mem :: a < HEAP_START + size
  }

  ghost predicate MappedTo(mem: Memory, size: nat)
  {
    Mapped(mem, size) && Within(mem, size)
  }

  /** The words of these ranges are the same in both memories. */
  ghost predicate Kept(mem: Memory, mem2: Memory, live: map<nat, nat>)
  {
    forall p, a: nat | p in live && p <= a < p + live[p] :: Word(mem2, a) == Word(mem, a)
  }

  // ----------------------------------------------------------- header surgery

  /** Nothing changed but blocks i..k and the prev field of the block after them. */
  ghost predicate OnlyWithin(mem: Memory, mem2: Memory, bs: seq<Block>, i: nat, k: nat)
    requires i < k <= |bs|
  {
    forall a: nat {:trigger Word(mem2, a)}
      | !(bs[i].addr <= a < End(bs[k - 1])) && !(k < |bs| && a == bs[k].addr + 12) ::
      Word(mem2, a) == Word(mem, a)
  }

  /** Headers of the new blocks `mid` that take the place of blocks i..k. */
  ghost predicate MidHeaders(mem2: Memory, bs: seq<Block>, i: nat, k: nat, mid: seq<Block>)
    requires i < k <= |bs|
  {
    forall j {:trigger mid[j]} | 0 <= j < |mid| ::
      HeaderAt(mem2, mid[j].addr, mid[j].size, mid[j].free,
               if j + 1 < |mid| then mid[j + 1].addr else NextAddr(bs, k - 1),
               if j > 0 then mid[j - 1].addr else PrevAddr(bs, i))
  }

  lemma ReplaceHeaders(mem: Memory, mem2: Memory, bs: seq<Block>, i: nat, k: nat, mid: seq<Block>)
    requires Tiles(bs) && Headers(mem, bs) && i < k <= |bs| && mid != [] && mid[0].addr == bs[i].addr
    requires OnlyWithin(mem, mem2, bs, i, k) && MidHeaders(mem2, bs, i, k, mid)
    requires k < |bs| ==> Word(mem2, bs[k].addr + 12) == mid[|mid| - 1].addr
    ensures Headers(mem2, bs[..i] + mid + bs[k..])
  {
    var r := bs[..i] + mid + bs[k..];
    forall j | 0 <= j < |r| ensures HeaderOk(mem2, r, j) {
      if j < i {
        HeaderBefore(mem, mem2, bs, i, k, mid, j);
      } else if j < i + |mid| {
        HeaderInside(mem2, bs, i, k, mid, j - i);
      } else {
        HeaderAfter(mem, mem2, bs, i, k, mid, j - i - |mid| + k);
      }
    }
  }

  lemma HeaderBefore(mem: Memory, mem2: Memory, bs: seq<Block>, i: nat, k: nat, mid: seq<Block>, j: nat)
    requires Tiles(bs) && Headers(mem, bs) && i < k <= |bs| && mid != [] && mid[0].addr == bs[i].addr
    requires OnlyWithin(mem, mem2, bs, i, k) && j < i
    ensures HeaderOk(mem2, bs[..i] + mid + bs[k..], j)
  {
    HeaderKept(mem, mem2, bs, i, k, j);
    var r := bs[..i] + mid + bs[k..];
    assert r[j] == bs[j] && NextAddr(r, j) == NextAddr(bs, j) && PrevAddr(r, j) == PrevAddr(bs, j);
  }

  lemma HeaderInside(mem2: Memory, bs: seq<Block>, i: nat, k: nat, mid: seq<Block>, j: nat)
    requires i < k <= |bs| && MidHeaders(mem2, bs, i, k, mid) && j < |mid|
    ensures HeaderOk(mem2, bs[..i] + mid + bs[k..], i + j)
  {
    var r := bs[..i] + mid + bs[k..];
    assert r[i + j] == mid[j];
    assert NextAddr(r, i + j) == if j + 1 < |mid| then mid[j + 1].addr else NextAddr(bs, k - 1);
    assert PrevAddr(r, i + j) == if j > 0 then mid[j - 1].addr else PrevAddr(bs, i);
  }

  lemma HeaderAfter(mem: Memory, mem2: Memory, bs: seq<Block>, i: nat, k: nat, mid: seq<Block>, m: nat)
    requires Tiles(bs) && Headers(mem, bs) && i < k <= m < |bs| && mid != []
    requires OnlyWithin(mem, mem2, bs, i, k) && Word(mem2, bs[k].addr + 12) == mid[|mid| - 1].addr
    ensures HeaderOk(mem2, bs[..i] + mid + bs[k..], m - k + i + |mid|)
  {
    HeaderKept(mem, mem2, bs, i, k, m);
    var r := bs[..i] + mid + bs[k..];
    var j := m - k + i + |mid|;
    assert r[j] == bs[m] && NextAddr(r, j) == NextAddr(bs, m);
    assert PrevAddr(r, j) == if m == k then mid[|mid| - 1].addr else PrevAddr(bs, m);
  }

  /** A block outside the replaced ones keeps its header, the prev field of the next one aside. */
  lemma HeaderKept(mem: Memory, mem2: Memory, bs: seq<Block>, i: nat, k: nat, m: nat)
    requires Tiles(bs) && Headers(mem, bs) && i < k <= |bs| && OnlyWithin(mem, mem2, bs, i, k)
    requires m < i || k <= m < |bs|
    ensures Word(mem2, bs[m].addr) == bs[m].size && Word(mem2, bs[m].addr + 4) == (if bs[m].free then 1 else 0)
    ensures Word(mem2, bs[m].addr + 8) == NextAddr(bs, m)
    ensures m != k ==> Word(mem2, bs[m].addr + 12) == PrevAddr(bs, m)
  {
    assert HeaderOk(mem, bs, m);
    if m < i {
      Ordered(bs, m, i);
      if i < k - 1 { Ordered(bs, i, k - 1); }
      if k < |bs| { Ordered(bs, m, k); }
    } else {
      Ordered(bs, k - 1, m);
      if i < k - 1 { Ordered(bs, i, k - 1); }
      if k < m { Ordered(bs, k, m); }
    }
  }

  /** Work on free blocks does not touch live payloads. */
  lemma KeptByReplace(mem: Memory, mem2: Memory, bs: seq<Block>, i: nat, k: nat)
    requires Tiles(bs) && i < k <= |bs| && OnlyWithin(mem, mem2, bs, i, k)
    requires forall m {:trigger bs[m].free} | i <= m < k :: bs[m].free
    ensures Kept(mem, mem2, Live(bs))
  {
    forall p, a | p in Live(bs) && p <= a < p + Live(bs)[p] ensures Word(mem2, a) == Word(mem, a) {
      var m := LiveIndex(bs, p);
      if m < i {
        Ordered(bs, m, i);
        if i < k - 1 { Ordered(bs, i, k - 1); }
        if k < |bs| { Ordered(bs, m, k); }
      } else {
        assert k <= m;
        Ordered(bs, k - 1, m);
        if i < k - 1 { Ordered(bs, i, k - 1); }
        if k < m { Ordered(bs, k, m); }
      }
    }
  }

  /** One word was stored. */
  ghost predicate Stored(mem: Memory, mem2: Memory, at: nat, v: nat)
  {
    && mem2.Keys == mem.Keys && Word(mem2, at) == v
    && (forall a: nat {:trigger Word(mem2, a)} | a != at :: Word(mem2, a) == Word(mem, a))
  }

  /** A whole header was stored. */
  ghost predicate HeaderStored(mem: Memory, mem2: Memory, at: nat, size: nat, free: bool, next: nat, prev: nat)
  {
    && mem2.Keys == mem.Keys && HeaderAt(mem2, at, size, free, next, prev)
    && (forall a: nat {:trigger Word(mem2, a)} | !(at <= a < at + HEADER) :: Word(mem2, a) == Word(mem, a))
  }

  /** The stores of split_block: the new header, the next block's prev, then this block's next and size. */
  lemma SplitStores(mem: Memory, m1: Memory, m2: Memory, m3: Memory, m4: Memory, bs: seq<Block>, i: nat, size: nat)
    requires Tiles(bs) && i < |bs| && HeaderOk(mem, bs, i) && 4 <= size && bs[i].size - size >= HEADER + 4
    requires var b, next := bs[i].addr, NextAddr(bs, i);
      var rest := b + HEADER + size;
      && HeaderStored(mem, m1, rest, bs[i].size - size - HEADER, true, next, b)
      && (if next != 0 then Stored(m1, m2, next + 12, rest) else m2 == m1)
      && Stored(m2, m3, b + 8, rest) && Stored(m3, m4, b, size)
    ensures
      var mid := [bs[i].(size := size), Block(bs[i].addr + HEADER + size, bs[i].size - size - HEADER, true)];
      OnlyWithin(mem, m4, bs, i, i + 1) && MidHeaders(m4, bs, i, i + 1, mid)
    ensures i + 1 < |bs| ==> Word(m4, bs[i + 1].addr + 12) == bs[i].addr + HEADER + size
  {
    if i + 1 < |bs| { Ordered(bs, i, i + 1); }
  }

  /** After the stores of split_block the memory spells out the split list. */
  lemma SplitDone(mem: Memory, m1: Memory, m2: Memory, m3: Memory, m4: Memory, bs: seq<Block>, i: nat, size: nat)
    requires Tiles(bs) && Headers(mem, bs) && i < |bs| && bs[i].free && 4 <= size && bs[i].size - size >= HEADER + 4
    requires var b, next := bs[i].addr, NextAddr(bs, i);
      var rest := b + HEADER + size;
      && HeaderStored(mem, m1, rest, bs[i].size - size - HEADER, true, next, b)
      && (if next != 0 then Stored(m1, m2, next + 12, rest) else m2 == m1)
      && Stored(m2, m3, b + 8, rest) && Stored(m3, m4, b, size)
    ensures Headers(m4, Split(bs, i, size)) && Kept(mem, m4, Live(bs)) && m4.Keys == mem.Keys
  {
    assert HeaderOk(mem, bs, i);
    SplitStores(mem, m1, m2, m3, m4, bs, i, size);
    var mid := [bs[i].(size := size), Block(bs[i].addr + HEADER + size, bs[i].size - size - HEADER, true)];
    ReplaceHeaders(mem, m4, bs, i, i + 1, mid);
    KeptByReplace(mem, m4, bs, i, i + 1);
  }

  /** A header field is in no live payload. */
  lemma FieldNotInPayload(bs: seq<Block>, i: nat, p: nat, a: nat)
    requires Tiles(bs) && i < |bs| && p in Live(bs) && p <= a < p + Live(bs)[p]
    ensures !(bs[i].addr <= a < bs[i].addr + HEADER)
  {
    var m := LiveIndex(bs, p);
    if m < i { Ordered(bs, m, i); } else if i < m { Ordered(bs, i, m); }
  }

  /** The store of a free flag. */
  lemma FlagDone(mem: Memory, mem2: Memory, bs: seq<Block>, i: nat, free: bool)
    requires Tiles(bs) && Headers(mem, bs) && i < |bs|
    requires Stored(mem, mem2, bs[i].addr + 4, if free then 1 else 0)
    ensures Headers(mem2, bs[i := bs[i].(free := free)])
    ensures Kept(mem, mem2, Live(bs))
  {
    assert HeaderOk(mem, bs, i);
    var mid := [bs[i].(free := free)];
    if i + 1 < |bs| { Ordered(bs, i, i + 1); assert HeaderOk(mem, bs, i + 1); }
    assert OnlyWithin(mem, mem2, bs, i, i + 1);
    ReplaceHeaders(mem, mem2, bs, i, i + 1, mid);
    assert bs[..i] + mid + bs[i + 1..] == bs[i := bs[i].(free := free)];
    forall p, a: nat | p in Live(bs) && p <= a < p + Live(bs)[p] ensures Word(mem2, a) == Word(mem, a) {
      FieldNotInPayload(bs, i, p, a);
    }
  }

  /** The stores that join block `i` with the one after it: size, next, and the prev of the block behind both. */
  lemma JoinDone(mem: Memory, m1: Memory, m2: Memory, m3: Memory, bs: seq<Block>, i: nat)
    requires Tiles(bs) && Headers(mem, bs) && i + 1 < |bs| && bs[i].free && bs[i + 1].free
    requires var b, next := bs[i].addr, NextAddr(bs, i + 1);
      && Stored(mem, m1, b, bs[i].size + HEADER + bs[i + 1].size)
      && Stored(m1, m2, b + 8, next)
      && (if next != 0 then Stored(m2, m3, next + 12, b) else m3 == m2)
    ensures Headers(m3, MergeNext(bs, i)) && Kept(mem, m3, Live(bs)) && m3.Keys == mem.Keys
  {
    assert HeaderOk(mem, bs, i);
    Ordered(bs, i, i + 1);
    if i + 2 < |bs| { Ordered(bs, i, i + 2); Ordered(bs, i + 1, i + 2); }
    var mid := [bs[i].(size := bs[i].size + HEADER + bs[i + 1].size)];
    assert OnlyWithin(mem, m3, bs, i, i + 2);
    assert MidHeaders(m3, bs, i, i + 2, mid);
    ReplaceHeaders(mem, m3, bs, i, i + 2, mid);
    KeptByReplace(mem, m3, bs, i, i + 2);
  }

  /** The store that enlarges the last block. */
  lemma EnlargeDone(mem: Memory, mem2: Memory, bs: seq<Block>, size: nat)
    requires Tiles(bs) && Headers(mem, bs) && bs[|bs| - 1].free
    requires Stored(mem, mem2, bs[|bs| - 1].addr, bs[|bs| - 1].size + size + HEADER)
    ensures Headers(mem2, Grown(bs, size)) && Kept(mem, mem2, Live(bs))
  {
    var i := |bs| - 1;
    assert HeaderOk(mem, bs, i);
    var mid := [bs[i].(size := bs[i].size + size + HEADER)];
    assert OnlyWithin(mem, mem2, bs, i, i + 1);
    ReplaceHeaders(mem, mem2, bs, i, i + 1, mid);
    assert bs[..i] + mid + bs[i + 1..] == Grown(bs, size);
    KeptByReplace(mem, mem2, bs, i, i + 1);
  }

  /** The stores that append a block behind a last block in use. */
  lemma AppendDone(mem: Memory, m1: Memory, m2: Memory, bs: seq<Block>, size: nat)
    requires Tiles(bs) && Headers(mem, bs) && !bs[|bs| - 1].free
    requires var last := bs[|bs| - 1];
      HeaderStored(mem, m1, End(last), size, true, 0, last.addr) && Stored(m1, m2, last.addr + 8, End(last))
    ensures Headers(m2, Grown(bs, size)) && Kept(mem, m2, Live(bs))
  {
    var n := |bs| - 1;
    var r := Grown(bs, size);
    forall j | 0 <= j < |r| ensures HeaderOk(m2, r, j) {
      if j < n {
        assert HeaderOk(mem, bs, j);
        Ordered(bs, j, n);
        assert NextAddr(r, j) == NextAddr(bs, j) && PrevAddr(r, j) == PrevAddr(bs, j);
      } else if j == n {
        assert HeaderOk(mem, bs, n);
      }
    }
    forall p, a: nat | p in Live(bs) && p <= a < p + Live(bs)[p] ensures Word(m2, a) == Word(mem, a) {
      FieldNotInPayload(bs, n, p, a);
      var m := LiveIndex(bs, p);
      if m < n { Ordered(bs, m, n); }
    }
  }

  /** Mapping pages behind the blocks changes no header. */
  lemma HeadersBelow(mem: Memory, mem2: Memory, bs: seq<Block>, limit: nat)
    requires Tiles(bs) && Headers(mem, bs) && LastEnd(bs) <= limit
    requires forall a: nat {:trigger Word(mem2, a)} | a < limit :: Word(mem2, a) == Word(mem, a)
    ensures Headers(mem2, bs)
  {
    forall j | 0 <= j < |bs| ensures HeaderOk(mem2, bs, j) {
      assert HeaderOk(mem, bs, j);
      if j < |bs| - 1 { Ordered(bs, j, |bs| - 1); }
    }
  }

  lemma PagesBelow(mem: Memory, mem2: Memory, bs: seq<Block>, limit: nat)
    requires Tiles(bs) && Headers(mem, bs) && LastEnd(bs) <= limit
    requires forall a: nat {:trigger Word(mem2, a)} | a < limit :: Word(mem2, a) == Word(mem, a)
    ensures Headers(mem2, bs) && Kept(mem, mem2, Live(bs))
  {
    HeadersBelow(mem, mem2, bs, limit);
    LiveBelow(mem, mem2, bs, limit);
  }

  lemma LiveBelow(mem: Memory, mem2: Memory, bs: seq<Block>, limit: nat)
    requires Tiles(bs) && LastEnd(bs) <= limit
    requires forall a: nat | a < limit :: Word(mem2, a) == Word(mem, a)
    ensures Kept(mem, mem2, Live(bs))
  {
    forall p, a: nat | p in Live(bs) && p <= a < p + Live(bs)[p] ensures Word(mem2, a) == Word(mem, a) {
      var m := LiveIndex(bs, p);
      if m < |bs| - 1 { Ordered(bs, m, |bs| - 1); }
    }
  }

  /** Changes inside one live payload touch no header and no other live payload. */
  lemma PayloadChange(mem: Memory, mem2: Memory, bs: seq<Block>, q: nat)
    requires Tiles(bs) && Headers(mem, bs) && q in Live(bs)
    requires forall a: nat {:trigger Word(mem2, a)} | !(q <= a < q + Live(bs)[q]) :: Word(mem2, a) == Word(mem, a)
    ensures Headers(mem2, bs) && Kept(mem, mem2, Live(bs) - {q})
  {
    forall j | 0 <= j < |bs| ensures HeaderOk(mem2, bs, j) {
      assert HeaderOk(mem, bs, j);
      forall a: nat | bs[j].addr <= a < bs[j].addr + HEADER ensures Word(mem2, a) == Word(mem, a) {
        if q <= a < q + Live(bs)[q] { FieldNotInPayload(bs, j, q, a); }
      }
    }
    forall p, a: nat | p in Live(bs) && p != q && p <= a < p + Live(bs)[p] ensures Word(mem2, a) == Word(mem, a) {
      LivesApart(bs, p, q);
    }
  }

  /**
   krealloc had to move the block: on failure nothing changed; on success the old
   range is replaced by a larger one that starts with the old words, and every
   other live payload is as it was.
   */
  ghost predicate Moved(h: HeapState, mem: Memory, u: HeapState, mem2: Memory,
                        ptr: nat, q: nat, request: nat, supply: Supply)
    requires Inv(h) && Inv(u) && ptr in Live(h.blocks)
  {
    if q == 0 then Refused(h, request, supply) && u == h && Kept(mem, mem2, Live(h.blocks))
    else
      && !Refused(h, request, supply) && q !in Live(h.blocks)
      && q in Live(u.blocks) && Live(u.blocks)[q] >= request
      && Live(u.blocks) == Live(h.blocks)[q := Live(u.blocks)[q]] - {ptr}
      && (forall k: nat {:trigger WordCopied(mem, mem2, q, ptr, k)} | k < Live(h.blocks)[ptr] && k % 4 == 0 ::
           WordCopied(mem, mem2, q, ptr, k))
      && Kept(mem, mem2, Live(h.blocks) - {ptr})
  }

  /** Through allocation (m1), copy (m2) and release (m3) the words are where they should be. */
  lemma MovedKept(h: HeapState, m0: Memory, u: HeapState, m1: Memory, m2: Memory, m3: Memory, ptr: nat, q: nat)
    requires Inv(h) && Inv(u) && ptr in Live(h.blocks) && q !in Live(h.blocks) && q in Live(u.blocks)
    requires Live(u.blocks) == Live(h.blocks)[q := Live(u.blocks)[q]] && Live(h.blocks)[ptr] <= Live(u.blocks)[q]
    requires Kept(m0, m1, Live(h.blocks)) && Kept(m1, m2, Live(u.blocks) - {q}) && Kept(m2, m3, Live(u.blocks) - {ptr})
    requires Copied(m1, m2, q, ptr, Live(h.blocks)[ptr])
    ensures forall k: nat {:trigger WordCopied(m0, m3, q, ptr, k)} | k < Live(h.blocks)[ptr] && k % 4 == 0 ::
      WordCopied(m0, m3, q, ptr, k)
    ensures Kept(m0, m3, Live(h.blocks) - {ptr})
  {
    var live: map<nat, nat> := Live(h.blocks);
    var live2: map<nat, nat> := Live(u.blocks);
    forall k: nat | k < live[ptr] && k % 4 == 0 ensures WordCopied(m0, m3, q, ptr, k) {
      assert WordCopied(m1, m2, q, ptr, k);
      assert q in live2 - {ptr} && q <= q + k < q + live2[q];
      assert ptr <= ptr + k < ptr + live[ptr];
    }
    forall p, a: nat | p in live - {ptr} && p <= a < p + live[p] ensures Word(m3, a) == Word(m0, a) {
      assert p in live2 - {q} && p in live2 - {ptr} && live2[p] == live[p];
    }
  }

  lemma LivesApart(bs: seq<Block>, p: nat, q: nat)
    requires Tiles(bs) && p in Live(bs) && q in Live(bs) && p != q
    ensures p + Live(bs)[p] <= q || q + Live(bs)[q] <= p
  {
    var i := LiveIndex(bs, p);
    var j := LiveIndex(bs, q);
    if i < j { Ordered(bs, i, j); } else { Ordered(bs, j, i); }
  }

  lemma KeptLess(mem: Memory, mem2: Memory, live: map<nat, nat>, fewer: map<nat, nat>)
    requires Kept(mem, mem2, live)
    requires forall p | p in fewer :: p in live && live[p] == fewer[p]
    ensures Kept(mem, mem2, fewer)
  {
  }

  lemma KeptTwice(m0: Memory, m1: Memory, m2: Memory, live: map<nat, nat>)
    requires Kept(m0, m1, live) && Kept(m1, m2, live)
    ensures Kept(m0, m2, live)
  {
  }

  ghost predicate WordIn(mem: Memory, p: nat, k: nat)
  {
    p + k in mem
  }

  /** The words of the `n` bytes at `p` are mapped. */
  ghost predicate RangeMapped(mem: Memory, p: nat, n: nat)
  {
    forall k: nat {:trigger WordIn(mem, p, k)} | k < n && k % 4 == 0 :: WordIn(mem, p, k)
  }

  ghost predicate WordCopied(m0: Memory, mem: Memory, to: nat, from: nat, k: nat)
  {
    Word(mem, to + k) == Word(m0, from + k)
  }

  /** The first `n` bytes at `to` are those that were at `from`; everything else is as it was. */
  ghost predicate Copied(m0: Memory, mem: Memory, to: nat, from: nat, n: nat)
  {
    && mem.Keys == m0.Keys
    && (forall k: nat {:trigger WordCopied(m0, mem, to, from, k)} | k < n && k % 4 == 0 ::
         WordCopied(m0, mem, to, from, k))
    && (forall a: nat {:trigger Word(mem, a)} | !(to <= a < to + n) :: Word(mem, a) == Word(m0, a))
  }

  lemma CopiedOne(m0: Memory, m1: Memory, m2: Memory, to: nat, from: nat, k: nat)
    requires k % 4 == 0 && Copied(m0, m1, to, from, k)
    requires Stored(m1, m2, to + k, Word(m0, from + k))
    ensures Copied(m0, m2, to, from, k + 4)
  {
    forall j: nat | j < k + 4 && j % 4 == 0 ensures WordCopied(m0, m2, to, from, j) {
      if j < k { assert WordCopied(m0, m1, to, from, j); } else { assert j == k; }
    }
  }

  lemma InPage(limit: nat, a: nat, n: nat)
    requires limit % 0x1000 == 0 && limit <= a
    ensures a / 0x1000 < limit / 0x1000 + n <==> a < limit + n * 0x1000
    ensures limit / 0x1000 <= a / 0x1000
  {
  }

  /** The words of those of these pages that can be reached. */
  function NewWords(limit: nat, pages: nat, reached: set<nat>, dirt: Memory): Memory
  {
    map a: nat | limit <= a < limit + pages * 0x1000 && a % 4 == 0 && a / 0x1000 in reached :: Word(dirt, a)
  }

  lemma NewWordsMapped(mem: Memory, size: nat, pages: nat, reached: set<nat>, dirt: Memory, mapped: nat)
    requires MappedTo(mem, size) && size % 0x1000 == 0 && mapped <= pages
    requires Paging.PagesFrom(reached, PageBehind(size), mapped)
    ensures var mem2 := mem + NewWords(HEAP_START + size, pages, reached, dirt);
      && Mapped(mem2, size + mapped * 0x1000) && Within(mem2, size + mapped * 0x1000)
      && (forall a: nat {:trigger Word(mem2, a)} | a < HEAP_START + size :: Word(mem2, a) == Word(mem, a))
  {
    var limit := HEAP_START + size;
    var mem2 := mem + NewWords(limit, pages, reached, dirt);
    forall a: nat | HEAP_START <= a < limit + mapped * 0x1000 && a % 4 == 0 ensures a in mem2 {
      if a < limit { assert a in mem; } else { InPage(limit, a, mapped); }
    }
    forall a | a in mem2 ensures a < limit + mapped * 0x1000 {
      if limit <= a { InPage(limit, a, mapped); }
    }
  }

  /** heap_init never loses a page: its last page is not the first behind a new table. */
  lemma NothingLost(h: HeapState, pages: nat, supply: Supply)
    requires h.size == 0 && pages == Pages(HEAP_INITIAL_SIZE)
    ensures !OpensTable(supply.tables, NextPage(h), pages) && pages * 0x1000 == HEAP_INITIAL_SIZE
  {
  }

  class Heap {
    const space: Paging.AddressSpace
    var mem: Memory
    var heapStart: nat
    var heapSize: nat
    ghost var blocks: seq<Block>

    ghost predicate Valid()
      reads this
    {
      && heapStart == HEAP_START
      && Inv(HeapState(blocks, heapSize))
      && Headers(mem, blocks) && MappedTo(mem, heapSize)
    }

    ghost function Abs(): HeapState
      reads this
    {
      HeapState(blocks, heapSize)
    }

    /** Mapped, well-headed memory whose tiling may be in the middle of a change. */
    ghost predicate Sound()
      reads this
    {
      && heapStart == HEAP_START
      && Tiles(blocks) && End(blocks[|blocks| - 1]) <= HEAP_START + heapSize
      && Headers(mem, blocks) && MappedTo(mem, heapSize)
    }

    /** Every page of the heap has a frame of its own. */
    ghost predicate Backed()
      reads this`heapSize, space, space.directory, space.pmm, space.pmm.bitmap
    {
      space.Valid() && space.Owns(FIRST_PAGE, PageBehind(heapSize))
    }

    /** No heap yet. */
    constructor (space: Paging.AddressSpace)
      ensures this.space == space && mem == map[] && heapStart == 0 && heapSize == 0
    {
      this.space := space;
      mem, heapStart, heapSize, blocks := map[], 0, 0, [];
    }

    /** heap_init: `dirt` is what the new pages contain.  If a frame is lacking there is still no heap. */
    method Init(dirt: Memory) returns (ok: bool)
      requires mem == map[] && heapSize == 0 && space.Valid()
      modifies this
      modifies space`frames, space.directory, space.pmm`usedPages, space.pmm.bitmap
      ensures space.Valid() && ok == (FramesFor(old(Abs()), HEAP_INITIAL_SIZE, old(space.Supplies())) <=
                                        old(space.Supplies()).frames)
      ensures if ok then Valid() && Backed() && Abs() == Fresh() else heapStart == old(heapStart) && heapSize == 0
    {
      var pages := Pages(HEAP_INITIAL_SIZE);
      NothingLost(Abs(), pages, space.Supplies());
      PageBehindIs(0, pages);
      ok := MapAll(pages, dirt);
      if ok {
        FirstBlock();
      }
    }

    /** The loop of heap_init, over pages none of which it can lose. */
    method MapAll(pages: nat, dirt: Memory) returns (ok: bool)
      requires MappedTo(mem, heapSize) && Backed() && heapSize % 0x1000 == 0 && heapSize <= HEAP_MAX_SIZE
      requires !OpensTable(space.Supplies().tables, PageBehind(heapSize), pages)
      modifies this`mem
      modifies space`frames, space.directory, space.pmm`usedPages, space.pmm.bitmap
      ensures space.Valid()
      ensures ok == (pages + TablesFor(old(space.Supplies()).tables, PageBehind(heapSize), pages) <=
                       old(space.Supplies()).frames)
      ensures ok ==> space.Owns(FIRST_PAGE, PageBehind(heapSize) + pages) && MappedTo(mem, heapSize + pages * 0x1000)
    {
      GrowAll(space.Supplies(), PageBehind(heapSize), pages);
      ok := MapPages(pages, dirt);
    }

    /** The loop over pages behind the heap: those it maps get a frame of their own, and their words can be used. */
    method MapPages(pages: nat, dirt: Memory) returns (ok: bool)
      requires MappedTo(mem, heapSize) && Backed()
      requires heapSize % 0x1000 == 0 && heapSize <= HEAP_MAX_SIZE
      modifies this`mem
      modifies space`frames, space.directory, space.pmm`usedPages, space.pmm.bitmap
      ensures Backed()
      ensures var g := Grow(old(space.Supplies()), PageBehind(heapSize), pages);
        && ok == g.ok && space.Supplies() == g.left
        && (ok ==> space.Owns(FIRST_PAGE, PageBehind(heapSize) + g.mapped))
        && (ok ==> MappedTo(mem, heapSize + g.mapped * 0x1000))
        && (!ok ==> MappedTo(mem, heapSize))
      ensures forall a: nat | a < HEAP_START + heapSize :: Word(mem, a) == Word(old(mem), a)
    {
      var next := PageBehind(heapSize);
      ghost var g := Grow(space.Supplies(), next, pages);
      var reached;
      ok, reached := space.Extend(FIRST_PAGE, next, pages);
      if ok {
        MapWords(pages, reached, g.mapped, dirt);
      }
    }

    /** The end of heap_init: one free block. */
    method FirstBlock()
      requires MappedTo(mem, HEAP_INITIAL_SIZE)
      modifies this
      ensures Valid() && Abs() == Fresh()
    {
      heapSize, heapStart := HEAP_INITIAL_SIZE, HEAP_START;
      StoreHeader(HEAP_START, HEAP_INITIAL_SIZE - HEADER, true, 0, 0);
      blocks := Fresh().blocks;
      assert HeaderOk(mem, blocks, 0);
    }

    /** The words of the pages behind the heap that the processor can reach. */
    method MapWords(pages: nat, reached: set<nat>, ghost mapped: nat, dirt: Memory)
      requires MappedTo(mem, heapSize) && heapSize % 0x1000 == 0
      requires mapped <= pages && Paging.PagesFrom(reached, PageBehind(heapSize), mapped)
      modifies this`mem
      ensures MappedTo(mem, heapSize + mapped * 0x1000)
      ensures forall a: nat | a < HEAP_START + heapSize :: Word(mem, a) == Word(old(mem), a)
    {
      NewWordsMapped(mem, heapSize, pages, reached, dirt, mapped);
      mem := mem + NewWords(HEAP_START + heapSize, pages, reached, dirt);
    }

    /** Block `i` lies in mapped memory, header and payload. */
    lemma BlockMapped(i: nat)
      requires Sound() && i < |blocks|
      ensures HeaderOk(mem, blocks, i)
      ensures HEAP_START <= blocks[i].addr && End(blocks[i]) <= HEAP_START + heapSize
      ensures var b := blocks[i].addr; b in mem && b + 4 in mem && b + 8 in mem && b + 12 in mem
    {
      assert HeaderOk(mem, blocks, i) && Shaped(blocks[i]);
      if 0 < i { Ordered(blocks, 0, i); }
      if i < |blocks| - 1 { Ordered(blocks, i, |blocks| - 1); }
    }

    lemma WordsMapped(a: nat)
      requires Sound() && HEAP_START <= a && a + HEADER <= HEAP_START + heapSize && a % 4 == 0
      ensures a in mem && a + 4 in mem && a + 8 in mem && a + 12 in mem
    {
    }

    method Store(a: nat, v: nat)
      requires a in mem
      modifies this`mem
      ensures Stored(old(mem), mem, a, v)
    {
      mem := mem[a := v];
    }

    method StoreHeader(a: nat, size: nat, free: bool, next: nat, prev: nat)
      requires a in mem && a + 4 in mem && a + 8 in mem && a + 12 in mem
      modifies this`mem
      ensures HeaderStored(old(mem), mem, a, size, free, next, prev)
    {
      Store(a, size);
      Store(a + 4, if free then 1 else 0);
      Store(a + 8, next);
      Store(a + 12, prev);
    }

    method FindFreeBlock(size: nat) returns (block: nat)
      requires Sound()
      ensures var i := FindFit(blocks, size, 0); block == if i < |blocks| then blocks[i].addr else 0
    {
      block := heapStart;
      ghost var i := 0;
      while block != 0
        invariant 0 <= i <= |blocks|
        invariant block == if i < |blocks| then blocks[i].addr else 0
        invariant i < |blocks| ==> block >= HEAP_START
        invariant forall j {:trigger Fits(blocks[j], size)} | 0 <= j < i :: !Fits(blocks[j], size)
        decreases |blocks| - i
      {
        BlockMapped(i);
        if mem[block + 4] != 0 && mem[block] >= size {
          assert Fits(blocks[i], size);
          return;
        }
        block := mem[block + 8];
        i := i + 1;
        if i < |blocks| { BlockMapped(i); }
      }
    }

    /** The stores of split_block, for a block `i` large enough to split. */
    method Cut(block: nat, size: nat, ghost i: nat)
      requires Sound() && i < |blocks| && block == blocks[i].addr && blocks[i].free
      requires size % 4 == 0 && 4 <= size && blocks[i].size - size >= HEADER + 4
      modifies this`mem
      ensures Headers(mem, Split(blocks, i, size)) && Kept(old(mem), mem, Live(blocks)) && mem.Keys == old(mem.Keys)
    {
      CutMapped(i, size);
      var rest := block + HEADER + size;
      var next := mem[block + 8];
      StoreHeader(rest, mem[block] - size - HEADER, true, next, block);
      ghost var m1 := mem;
      if next != 0 {
        Store(next + 12, rest);
      }
      ghost var m2 := mem;
      Store(block + 8, rest);
      ghost var m3 := mem;
      Store(block, size);
      SplitDone(old(mem), m1, m2, m3, mem, blocks, i, size);
    }

    /** The words split_block touches are mapped. */
    lemma CutMapped(i: nat, size: nat)
      requires Sound() && i < |blocks| && size % 4 == 0 && 4 <= size && blocks[i].size - size >= HEADER + 4
      ensures var b, rest := blocks[i].addr, blocks[i].addr + HEADER + size;
        && b in mem && b + 8 in mem && mem[b] == blocks[i].size && mem[b + 8] == NextAddr(blocks, i)
        && rest in mem && rest + 4 in mem && rest + 8 in mem && rest + 12 in mem
        && (NextAddr(blocks, i) != 0 ==> NextAddr(blocks, i) + 12 in mem)
    {
      BlockMapped(i);
      assert Shaped(blocks[i]);
      WordsMapped(blocks[i].addr + HEADER + size);
      if i + 1 < |blocks| { BlockMapped(i + 1); }
    }

    /** split_block on block `i`, which is free. */
    method SplitBlock(block: nat, size: nat, ghost i: nat)
      requires Sound() && i < |blocks| && block == blocks[i].addr && blocks[i].free
      requires size % 4 == 0 && 4 <= size <= blocks[i].size
      modifies this`mem, this`blocks
      ensures Sound() && blocks == Split(old(blocks), i, size)
      ensures Kept(old(mem), mem, Live(old(blocks)))
    {
      BlockMapped(i);
      SplitKeeps(blocks, i, size);
      if mem[block] - size >= HEADER + 4 {
        Cut(block, size, i);
        blocks := Split(blocks, i, size);
      }
    }

    method SetFree(block: nat, free: bool, ghost i: nat)
      requires Sound() && i < |blocks| && block == blocks[i].addr
      modifies this`mem, this`blocks
      ensures Sound() && blocks == old(blocks)[i := old(blocks)[i].(free := free)]
      ensures Kept(old(mem), mem, Live(old(blocks)))
    {
      BlockMapped(i);
      FlagTiles(blocks, i, free);
      Store(block + 4, if free then 1 else 0);
      FlagDone(old(mem), mem, blocks, i, free);
      blocks := blocks[i := blocks[i].(free := free)];
    }

    /** The words a merge touches are mapped. */
    lemma JoinMapped(i: nat)
      requires Sound() && i + 1 < |blocks|
      ensures var b, next, after := blocks[i].addr, blocks[i + 1].addr, NextAddr(blocks, i + 1);
        && b in mem && b + 8 in mem && mem[b] == blocks[i].size && mem[b + 8] == next
        && next in mem && next + 8 in mem && mem[next] == blocks[i + 1].size && mem[next + 8] == after
        && (after != 0 ==> after + 12 in mem)
    {
      BlockMapped(i);
      BlockMapped(i + 1);
      if i + 2 < |blocks| { BlockMapped(i + 2); }
    }

    /** Joins block `i` with its successor; both are free. */
    method Join(block: nat, ghost i: nat)
      requires Sound() && i + 1 < |blocks| && block == blocks[i].addr && blocks[i].free && blocks[i + 1].free
      modifies this`mem, this`blocks
      ensures Sound() && blocks == MergeNext(old(blocks), i)
      ensures Kept(old(mem), mem, Live(old(blocks)))
    {
      MergeNextKeeps(blocks, i);
      JoinMapped(i);
      var next := mem[block + 8];
      var after := mem[next + 8];
      Store(block, mem[block] + HEADER + mem[next]);
      ghost var m1 := mem;
      Store(block + 8, after);
      ghost var m2 := mem;
      if after != 0 {
        Store(after + 12, block);
      }
      JoinDone(old(mem), m1, m2, mem, blocks, i);
      blocks := MergeNext(blocks, i);
    }

    /** merge_blocks on block `i`, which has just become free. */
    method MergeBlocks(block: nat, ghost i: nat)
      requires Sound() && i < |blocks| && block == blocks[i].addr && blocks[i].free
      modifies this`mem, this`blocks
      ensures Sound() && blocks == MergePrev(MergeNext(old(blocks), i), i)
      ensures Live(blocks) == Live(old(blocks)) && Kept(old(mem), mem, Live(blocks))
    {
      MergeForward(block, i);
      MergeBackward(block, i);
    }

    method MergeForward(block: nat, ghost i: nat)
      requires Sound() && i < |blocks| && block == blocks[i].addr && blocks[i].free
      modifies this`mem, this`blocks
      ensures Sound() && blocks == MergeNext(old(blocks), i)
      ensures i < |blocks| && block == blocks[i].addr && blocks[i].free
      ensures Live(blocks) == Live(old(blocks)) && Kept(old(mem), mem, Live(blocks))
    {
      MergeNextKeeps(blocks, i);
      SameLiveSame(blocks, MergeNext(blocks, i));
      BlockMapped(i);
      if i + 1 < |blocks| { BlockMapped(i + 1); }
      var next := mem[block + 8];
      if next != 0 && mem[next + 4] != 0 {
        Join(block, i);
      }
    }

    method MergeBackward(block: nat, ghost i: nat)
      requires Sound() && i < |blocks| && block == blocks[i].addr && blocks[i].free
      modifies this`mem, this`blocks
      ensures Sound() && blocks == MergePrev(old(blocks), i)
      ensures Live(blocks) == Live(old(blocks)) && Kept(old(mem), mem, Live(blocks))
    {
      MergePrevKeeps(blocks, i);
      SameLiveSame(blocks, MergePrev(blocks, i));
      BlockMapped(i);
      if i > 0 { BlockMapped(i - 1); }
      var prev := mem[block + 12];
      if prev != 0 && mem[prev + 4] != 0 {
        MergePrevIsNext(blocks, i);
        Join(prev, i - 1);
      }
    }

    /**
     expand_heap, with the frame allocator and the page tables at work.  It may return 1
     over a heap whose last page is not mapped: Whole says when it does not.
     */
    method ExpandHeap(bytes: nat, dirt: Memory) returns (ok: bool)
      requires MappedTo(mem, heapSize) && Backed()
      requires heapSize % 0x1000 == 0 && heapSize <= HEAP_MAX_SIZE && bytes < WORD
      modifies this`mem, this`heapSize
      modifies space`frames, space.directory, space.pmm`usedPages, space.pmm.bitmap
      ensures space.Valid() && ok == CanExpand(old(Abs()), bytes, old(space.Supplies()))
      ensures heapSize == if ok then old(heapSize) + PagesNeeded(bytes) * 0x1000 else old(heapSize)
      ensures space.Supplies() == ExpandLeaves(old(Abs()), bytes, old(space.Supplies()))
      ensures ok ==> MappedTo(mem, old(heapSize) + MapLoop(old(Abs()), bytes, old(space.Supplies())).mapped * 0x1000)
      ensures !ok ==> MappedTo(mem, heapSize)
      ensures Whole(old(Abs()), bytes, old(space.Supplies())) ==> Backed()
      ensures forall a: nat | a < HEAP_START + old(heapSize) :: Word(mem, a) == Word(old(mem), a)
    {
      if Wrapped(heapSize + bytes) > HEAP_MAX_SIZE {
        return false;
      }
      var pages := PagesNeeded(bytes);
      ok := MapPages(pages, dirt);
      if ok {
        PageBehindIs(heapSize, pages);
        heapSize := heapSize + pages * 0x1000;
      }
    }

    /** The walk to the last block. */
    method LastBlock() returns (block: nat)
      requires Sound()
      ensures block == blocks[|blocks| - 1].addr
    {
      block := heapStart;
      ghost var i := 0;
      BlockMapped(0);
      while mem[block + 8] != 0
        invariant 0 <= i < |blocks| && block == blocks[i].addr
        invariant block + 8 in mem && mem[block + 8] == NextAddr(blocks, i)
        decreases |blocks| - i
      {
        block := mem[block + 8];
        i := i + 1;
        BlockMapped(i);
      }
      if i + 1 < |blocks| { BlockMapped(i + 1); }
    }

    /** The end of the list after expand_heap: the last block grows, or a new one is appended. */
    method GrowLast(size: nat) returns (block: nat)
      requires Sound() && size % 4 == 0 && 4 <= size && LastEnd(blocks) + size + HEADER <= HEAP_START + heapSize
      modifies this`mem, this`blocks
      ensures Sound() && blocks == Grown(old(blocks), size) && block == blocks[|blocks| - 1].addr
      ensures Live(blocks) == Live(old(blocks)) && Kept(old(mem), mem, Live(blocks))
    {
      GrownTiles(blocks, size);
      GrownLive(blocks, size);
      SameLiveSame(blocks, Grown(blocks, size));
      block := LastBlock();
      block := Lengthen(block, size);
      blocks := Grown(blocks, size);
    }

    /** The stores of kmalloc at the last block, `block`. */
    method Lengthen(block: nat, size: nat) returns (last: nat)
      requires Sound() && block == blocks[|blocks| - 1].addr && LastEnd(blocks) + HEADER <= HEAP_START + heapSize
      modifies this`mem
      ensures Headers(mem, Grown(blocks, size)) && Kept(old(mem), mem, Live(blocks)) && mem.Keys == old(mem.Keys)
      ensures var r := Grown(blocks, size); last == r[|r| - 1].addr
    {
      BlockMapped(|blocks| - 1);
      if mem[block + 4] != 0 {
        Store(block, mem[block] + size + HEADER);
        EnlargeDone(old(mem), mem, blocks, size);
        last := block;
      } else {
        last := Append(block, size);
      }
    }

    /** A new last block behind one in use. */
    method Append(block: nat, size: nat) returns (added: nat)
      requires Sound() && LastEnd(blocks) + HEADER <= HEAP_START + heapSize
      requires block == blocks[|blocks| - 1].addr && !blocks[|blocks| - 1].free
      modifies this`mem
      ensures added == LastEnd(blocks) && mem.Keys == old(mem.Keys)
      ensures Headers(mem, Grown(blocks, size)) && Kept(old(mem), mem, Live(blocks))
    {
      ghost var last := |blocks| - 1;
      BlockMapped(last);
      assert Shaped(blocks[last]);
      added := block + HEADER + mem[block];
      WordsMapped(added);
      StoreHeader(added, size, true, 0, block);
      ghost var m1 := mem;
      Store(block + 8, added);
      AppendDone(old(mem), m1, mem, blocks, size);
    }

    /** split_block and the free flag: the end of kmalloc. */
    method TakeBlock(block: nat, size: nat, ghost i: nat)
      requires Sound() && i < |blocks| && block == blocks[i].addr && blocks[i].free
      requires size % 4 == 0 && 4 <= size <= blocks[i].size
      modifies this`mem, this`blocks
      ensures Sound() && blocks == Take(old(blocks), i, size)
      ensures Kept(old(mem), mem, Live(old(blocks)))
    {
      ghost var bs := blocks;
      SplitKeeps(bs, i, size);
      SameLiveSame(bs, Split(bs, i, size));
      SplitBlock(block, size, i);
      ghost var m1 := mem;
      SetFree(block, false, i);
      KeptTwice(old(mem), m1, mem, Live(bs));
    }

    /** kmalloc, for requests that garble no 32-bit sum and lose no page. */
    method Malloc(request: nat, dirt: Memory) returns (ptr: nat)
      requires Valid() && Backed() && request <= MAX_REQUEST && !Overcommits(Abs(), request, space.Supplies())
      modifies this`mem, this`heapSize, this`blocks
      modifies space`frames, space.directory, space.pmm`usedPages, space.pmm.bitmap
      ensures Valid() && Backed() && (Abs(), ptr) == Kmalloc(old(Abs()), request, old(space.Supplies()))
      ensures space.Supplies() == SupplyAfter(old(Abs()), request, old(space.Supplies()))
      ensures Kept(old(mem), mem, Live(old(blocks)))
    {
      if request == 0 {
        return 0;
      }
      FrameBitmap.LeftMeaning(space.pmm.State());
      ghost var h, supply := Abs(), space.Supplies();
      KmallocMeaning(h, request, supply);
      var size := Wrapped(request + 3) / 4 * 4;
      RoundExact(request);
      WholeUnless(h, request, supply);
      ptr := MallocRounded(size, dirt);
    }

    method MallocRounded(size: nat, dirt: Memory) returns (ptr: nat)
      requires Valid() && Backed() && size % 4 == 0 && 4 <= size <= MAX_REQUEST
      requires NothingFits(Abs(), size) ==> Whole(Abs(), size + HEADER, space.Supplies())
      modifies this`mem, this`heapSize, this`blocks
      modifies space`frames, space.directory, space.pmm`usedPages, space.pmm.bitmap
      ensures Sound() && Backed() && (Abs(), ptr) == KmallocSize(old(Abs()), size, old(space.Supplies()))
      ensures space.Supplies() ==
        if NothingFits(old(Abs()), size) then ExpandLeaves(old(Abs()), size + HEADER, old(space.Supplies()))
        else old(space.Supplies())
      ensures Kept(old(mem), mem, Live(old(blocks)))
    {
      var block := FindFreeBlock(size);
      ghost var i := FindFit(blocks, size, 0);
      if i < |blocks| { BlockMapped(i); }
      if block != 0 {
        assert Fits(blocks[i], size);
        TakeBlock(block, size, i);
        ptr := block + HEADER;
      } else {
        ptr := MallocGrowing(size, dirt);
      }
    }

    /** kmalloc when no block fits. */
    method MallocGrowing(size: nat, dirt: Memory) returns (ptr: nat)
      requires Valid() && Backed() && size % 4 == 0 && 4 <= size <= MAX_REQUEST
      requires Whole(Abs(), size + HEADER, space.Supplies())
      modifies this`mem, this`heapSize, this`blocks
      modifies space`frames, space.directory, space.pmm`usedPages, space.pmm.bitmap
      ensures Sound() && Backed() && (Abs(), ptr) == KmallocGrowing(old(Abs()), size, old(space.Supplies()))
      ensures space.Supplies() == ExpandLeaves(old(Abs()), size + HEADER, old(space.Supplies()))
      ensures Kept(old(mem), mem, Live(old(blocks)))
    {
      var ok := MakeRoom(size, dirt);
      if !ok {
        return 0;
      }
      ptr := TakeGrown(size, old(mem), old(Abs()), old(space.Supplies()));
    }

    /** The expansion by a block of `size` bytes and its header. */
    method MakeRoom(size: nat, dirt: Memory) returns (ok: bool)
      requires Valid() && Backed() && size <= MAX_REQUEST && Whole(Abs(), size + HEADER, space.Supplies())
      modifies this`mem, this`heapSize
      modifies space`frames, space.directory, space.pmm`usedPages, space.pmm.bitmap
      ensures Sound() && Backed() && ok == CanExpand(old(Abs()), size + HEADER, old(space.Supplies()))
      ensures heapSize == old(heapSize) + if ok then Pages(size + HEADER) * 0x1000 else 0
      ensures !ok ==> KmallocGrowing(old(Abs()), size, old(space.Supplies())) == (Abs(), 0)
      ensures ok ==> LastEnd(blocks) + size + HEADER <= HEAP_START + heapSize
      ensures space.Supplies() == ExpandLeaves(old(Abs()), size + HEADER, old(space.Supplies()))
      ensures Kept(old(mem), mem, Live(blocks))
    {
      FrameBitmap.LeftMeaning(space.pmm.State());
      RoomFor(Abs(), size, space.Supplies());
      HeaderExact(size);
      ok := ExpandHeap(Wrapped(size + HEADER), dirt);
      PagesBelow(old(mem), mem, blocks, HEAP_START + old(heapSize));
    }

    /** The block behind the old ones, once there is room for it. */
    method TakeGrown(size: nat, ghost before: Memory, ghost h: HeapState, ghost supply: Supply) returns (ptr: nat)
      requires Sound() && h.blocks == blocks && heapSize == Expanded(h, size).size
      requires CanExpand(h, size + HEADER, supply)
      requires size % 4 == 0 && 4 <= size && LastEnd(blocks) + size + HEADER <= HEAP_START + heapSize
      requires Kept(before, mem, Live(blocks))
      modifies this`mem, this`blocks
      ensures Sound() && (Abs(), ptr) == KmallocGrowing(h, size, supply)
      ensures Kept(before, mem, Live(old(blocks)))
    {
      ghost var bs := blocks;
      GrownTiles(bs, size);
      var block := GrowLast(size);
      KeptTwice(before, old(mem), mem, Live(bs));
      ghost var m1 := mem;
      TakeBlock(block, size, |blocks| - 1);
      KeptTwice(before, m1, mem, Live(bs));
      ptr := block + HEADER;
    }

    /** kfree of NULL, of a live block, or of a block that is already free. */
    method Free(ptr: nat)
      requires Valid()
      requires Freeable(blocks, ptr)
      modifies this`mem, this`blocks
      ensures Valid() && Abs() == Kfree(old(Abs()), ptr)
      ensures Kept(old(mem), mem, Live(blocks))
    {
      if ptr == 0 {
        return;
      }
      var block := ptr - HEADER;
      ghost var i := IndexAt(blocks, block, 0);
      BlockMapped(i);
      if mem[block + 4] != 0 {
        return;
      }
      Release(block, i);
    }

    /** kfree of block `i`, which is in use. */
    method Release(block: nat, ghost i: nat)
      requires Valid() && i < |blocks| && block == blocks[i].addr && !blocks[i].free
      modifies this`mem, this`blocks
      ensures Valid() && blocks == FreeAt(old(blocks), i)
      ensures Kept(old(mem), mem, Live(blocks))
    {
      ghost var bs := blocks;
      FreeCoalesces(bs, i);
      MarkFree(bs, i);
      SetFree(block, true, i);
      ghost var m1 := mem;
      ghost var marked := blocks;
      MergeBlocks(block, i);
      KeptLess(old(mem), m1, Live(bs), Live(marked));
      KeptTwice(old(mem), m1, mem, Live(marked));
    }

    // ------------------------------------------------------------- reallocation

    /** memcpy of whole words into a range that the source does not meet. */
    method CopyWords(to: nat, from: nat, n: nat)
      requires n % 4 == 0 && (to + n <= from || from + n <= to)
      requires RangeMapped(mem, to, n) && RangeMapped(mem, from, n)
      modifies this`mem
      ensures Copied(old(mem), mem, to, from, n)
    {
      ghost var m0 := mem;
      var k := 0;
      while k < n
        invariant 0 <= k <= n && k % 4 == 0
        invariant Copied(m0, mem, to, from, k)
      {
        assert WordIn(m0, from, k) && WordIn(m0, to, k);
        assert Word(mem, from + k) == Word(m0, from + k);
        ghost var m1 := mem;
        Store(to + k, mem[from + k]);
        CopiedOne(m0, m1, mem, to, from, k);
        k := k + 4;
      }
    }

    /** A live payload is 4-aligned and mapped. */
    lemma LiveMapped(p: nat)
      requires Sound() && p in Live(blocks)
      ensures p >= HEADER && p % 4 == 0 && Live(blocks)[p] % 4 == 0
      ensures p - HEADER in mem && mem[p - HEADER] == Live(blocks)[p]
      ensures IndexAt(blocks, p - HEADER, 0) < |blocks|
      ensures RangeMapped(mem, p, Live(blocks)[p])
    {
      var i := LiveIndex(blocks, p);
      BlockMapped(i);
      assert Shaped(blocks[i]) && StartsAt(blocks[i], p - HEADER);
    }

    /** krealloc: the block stays if it is large enough; else its words move to a new block and it is freed. */
    method Realloc(ptr: nat, request: nat, dirt: Memory) returns (q: nat)
      requires Valid() && Backed() && request <= MAX_REQUEST && !Overcommits(Abs(), request, space.Supplies())
      requires ptr != 0 ==> ptr in Live(blocks)
      modifies this`mem, this`heapSize, this`blocks
      modifies space`frames, space.directory, space.pmm`usedPages, space.pmm.bitmap
      ensures Valid() && Backed()
      ensures ptr == 0 ==>
        (Abs(), q) == Kmalloc(old(Abs()), request, old(space.Supplies())) && Kept(old(mem), mem, Live(old(blocks)))
      ensures Freeable(old(blocks), ptr)
      ensures ptr != 0 && request == 0 ==>
        q == 0 && Abs() == Kfree(old(Abs()), ptr) && Kept(old(mem), mem, Live(blocks))
      ensures ptr != 0 && 0 < request <= Live(old(blocks))[ptr] ==> q == ptr && Abs() == old(Abs()) && mem == old(mem)
      ensures ptr != 0 && request > Live(old(blocks))[ptr] ==>
        Moved(old(Abs()), old(mem), Abs(), mem, ptr, q, request, old(space.Supplies()))
    {
      if ptr == 0 {
        q := Malloc(request, dirt);
        return;
      }
      LiveMapped(ptr);
      if request == 0 {
        Free(ptr);
        return 0;
      }
      if mem[ptr - HEADER] >= request {
        return ptr;
      }
      q := Move(ptr, request, dirt);
    }

    method Move(ptr: nat, request: nat, dirt: Memory) returns (q: nat)
      requires Valid() && Backed() && request <= MAX_REQUEST && !Overcommits(Abs(), request, space.Supplies())
      requires ptr in Live(blocks) && request > Live(blocks)[ptr]
      modifies this`mem, this`heapSize, this`blocks
      modifies space`frames, space.directory, space.pmm`usedPages, space.pmm.bitmap
      ensures Valid() && Backed() && Moved(old(Abs()), old(mem), Abs(), mem, ptr, q, request, old(space.Supplies()))
    {
      ghost var h := Abs();
      FrameBitmap.LeftMeaning(space.pmm.State());
      KmallocMeaning(h, request, space.Supplies());
      q := Malloc(request, dirt);
      if q != 0 {
        HandOver(ptr, q, h, old(mem), request, old(space.Supplies()));
      }
    }

    /** The end of krealloc: the words go to the new block, and the old one is freed. */
    method HandOver(ptr: nat, q: nat, ghost h: HeapState, ghost before: Memory, ghost request: nat,
                    ghost supply: Supply)
      requires Valid() && Inv(h) && ptr in Live(h.blocks) && request > Live(h.blocks)[ptr]
      requires !Refused(h, request, supply) && Allocated(h, (Abs(), q), request) && Kept(before, mem, Live(h.blocks))
      modifies this`mem, this`blocks
      ensures Valid() && (q != 0 ==> Moved(h, before, Abs(), mem, ptr, q, request, supply))
    {
      ghost var m1 := mem;
      CopyPayload(ptr, q);
      ghost var m2 := mem;
      ghost var u := Abs();
      LiveMapped(ptr);
      KfreeMeaning(u, ptr);
      Free(ptr);
      MovedKept(h, before, u, m1, m2, mem, ptr, q);
    }

    /** The memcpy of krealloc. */
    method CopyPayload(ptr: nat, q: nat)
      requires Valid() && ptr in Live(blocks) && q in Live(blocks) && ptr != q && Live(blocks)[ptr] <= Live(blocks)[q]
      modifies this`mem
      ensures Valid() && Kept(old(mem), mem, Live(blocks) - {q})
      ensures Copied(old(mem), mem, q, ptr, Live(blocks)[ptr])
    {
      LiveMapped(ptr);
      LiveMapped(q);
      LivesApart(blocks, ptr, q);
      var n := mem[ptr - HEADER];
      CopyWords(q, ptr, n);
      PayloadChange(old(mem), mem, blocks, q);
    }
  }
}
