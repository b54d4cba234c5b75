/**
 What it takes to map fresh pages.  Every page needs a frame, and paging_map_page
 takes another one for each page table it has to create; without it the mapping is
 dropped in silence.  The loop is that of expand_heap and heap_init in
 kernel/memory/heap.c; create_kernel_stack in kernel/task/task.c maps a single page so.
 */
module FrameSupply {
  import opened Common

  /** The frames the allocator can still give, and the directory slots that have a page table. */
  datatype Supply = Supply(frames: nat, tables: set<nat>)

  /** What a loop over pages leaves: whether it got a frame for each, and how many it mapped. */
  datatype Growth = Growth(left: Supply, ok: bool, mapped: nat)

  /** The directory slot a page belongs to. */
  function Slot(page: nat): nat
  {
    page / 1024
  }

  /** The supply once slot `d` has a table, if one can be had. */
  function AfterTable(s: Supply, d: nat): Supply
  {
    if d in s.tables || s.frames == 0 then s else Supply(s.frames - 1, s.tables + {d})
  }

  /** The supply after paging_map_page of a page: a table is created if one is missing and can be had. */
  function AfterMap(s: Supply, page: nat): Supply
  {
    AfterTable(s, Slot(page))
  }

  /** A frame and a mapping for each of `n` pages from `page` on; the loop ends when the frame is not there. */
  function Grow(s: Supply, page: nat, n: nat): (g: Growth)
    ensures g.mapped <= n
    decreases n
  {
    if n == 0 then Growth(s, true, 0)
    else if s.frames == 0 then Growth(s, false, 0)
    else
      var u := AfterMap(s.(frames := s.frames - 1), page);
      var g := Grow(u, page + 1, n - 1);
      if Slot(page) in u.tables then g.(mapped := g.mapped + 1) else g
  }

  /** The directory slots of `n` pages from `page` on. */
  ghost function SlotsOf(page: nat, n: nat): set<nat>
  {
    set p: nat | page <= p < page + n :: Slot(p)
  }

  /** How many page tables those pages lack. */
  ghost function TablesFor(tables: set<nat>, page: nat, n: nat): nat
  {
    |SlotsOf(page, n) - tables|
  }

  /** The last of those pages is the one that needs a new table. */
  predicate OpensTable(tables: set<nat>, page: nat, n: nat)
  {
    n > 0 && Slot(page + n - 1) !in tables && (n == 1 || (page + n - 1) % 1024 == 0)
  }

  lemma SlotsOfFirst(page: nat, n: nat)
    requires n > 0
    ensures SlotsOf(page, n) == {Slot(page)} + SlotsOf(page + 1, n - 1)
  {
    forall d ensures d in SlotsOf(page, n) <==> d == Slot(page) || d in SlotsOf(page + 1, n - 1) {
      if d in SlotsOf(page, n) {
        var p: nat :| page <= p < page + n && Slot(p) == d;
        if p != page { assert page + 1 <= p < page + n; }
      }
      if d in SlotsOf(page + 1, n - 1) {
        var p: nat :| page + 1 <= p < page + n && Slot(p) == d;
        assert page <= p < page + n;
      }
      assert page <= page < page + n;
    }
  }

  lemma TablesForFirst(tables: set<nat>, page: nat, n: nat)
    requires n > 0
    ensures var d := Slot(page);
      TablesFor(tables, page, n) == TablesFor(tables + {d}, page + 1, n - 1) + if d in tables then 0 else 1
  {
    SlotsOfFirst(page, n);
    var d, rest := Slot(page), SlotsOf(page + 1, n - 1);
    if d in tables {
      assert ({d} + rest) - tables == rest - (tables + {d});
    } else {
      assert ({d} + rest) - tables == {d} + (rest - (tables + {d}));
    }
  }

  lemma OpensTableFirst(tables: set<nat>, page: nat, n: nat)
    requires n > 1
    ensures OpensTable(tables, page, n) <==> OpensTable(tables + {Slot(page)}, page + 1, n - 1)
  {
    var last := page + n - 1;
    if last % 1024 == 0 {
      assert Slot(last) > Slot(page);
    } else if n == 2 {
      assert Slot(last) == Slot(page);
    }
  }

  /**
   The loop succeeds with every page mapped exactly when there is a frame for each
   page and each missing table.  It also reports success, with the last page left
   unmapped, exactly when one frame is lacking and it is the last page's table.
   */
  ghost predicate Exact(g: Growth, s: Supply, page: nat, n: nat)
  {
    var need := n + TablesFor(s.tables, page, n);
    && (g.ok && g.mapped == n <==> need <= s.frames)
    && (g.ok && g.mapped < n <==> need == s.frames + 1 && OpensTable(s.tables, page, n))
    && (g.ok && g.mapped < n ==> g.mapped == n - 1)
    && (need <= s.frames ==> g.left == Supply(s.frames - need, s.tables + SlotsOf(page, n)))
  }

  lemma {:induction false} GrowExact(s: Supply, page: nat, n: nat)
    ensures Exact(Grow(s, page, n), s, page, n)
    decreases n
  {
    if n == 0 || s.frames == 0 {
      ExactLast(s, page, n);
    } else if s.frames == 1 && Slot(page) !in s.tables {
      GrowLost(s, page, n);
      ExactLost(s, page, n);
    } else {
      var u := AfterMap(s.(frames := s.frames - 1), page);
      var rest := Grow(u, page + 1, n - 1);
      GrowFirst(s, page, n);
      GrowExact(u, page + 1, n - 1);
      ExactFirst(rest, s, u, page, n);
    }
  }

  lemma GrowFirst(s: Supply, page: nat, n: nat)
    requires n > 0 && s.frames > 0 && !(s.frames == 1 && Slot(page) !in s.tables)
    ensures var u := AfterMap(s.(frames := s.frames - 1), page);
      && u.tables == s.tables + {Slot(page)} && s.frames == u.frames + (if Slot(page) in s.tables then 1 else 2)
      && Grow(s, page, n) == var rest := Grow(u, page + 1, n - 1); rest.(mapped := rest.mapped + 1)
  {
  }

  lemma GrowLost(s: Supply, page: nat, n: nat)
    requires n > 0 && s.frames == 1 && Slot(page) !in s.tables
    ensures Grow(s, page, n) == Growth(Supply(0, s.tables), n == 1, 0)
  {
  }

  /** The loop is over, or finds no frame. */
  lemma ExactLast(s: Supply, page: nat, n: nat)
    requires n == 0 || s.frames == 0
    ensures Exact(Growth(s, n == 0, 0), s, page, n)
  {
    if n == 0 {
      assert SlotsOf(page, 0) == {};
      assert s.tables + {} == s.tables && {} - s.tables == {};
    } else {
      TablesForFirst(s.tables, page, n);
      assert OpensTable(s.tables, page, 1) ==> TablesFor(s.tables, page, n) > 0;
    }
  }

  /** The last frame goes to a page whose table is missing: the mapping is lost. */
  lemma ExactLost(s: Supply, page: nat, n: nat)
    requires n > 0 && s.frames == 1 && Slot(page) !in s.tables
    ensures Exact(Growth(Supply(0, s.tables), n == 1, 0), s, page, n)
  {
    TablesForFirst(s.tables, page, n);
    if n == 1 {
      assert SlotsOf(page + 1, 0) == {};
    }
  }

  /** Where no page can be lost, success means that every page is mapped. */
  lemma GrowAll(s: Supply, page: nat, n: nat)
    requires !OpensTable(s.tables, page, n)
    ensures var g := Grow(s, page, n);
      (g.ok <==> n + TablesFor(s.tables, page, n) <= s.frames) && (g.ok ==> g.mapped == n)
  {
    GrowExact(s, page, n);
  }

  /** A page that gets its mapping, before the rest of the loop. */
  lemma ExactFirst(g: Growth, s: Supply, u: Supply, page: nat, n: nat)
    requires n > 0 && s.frames > 0 && u.tables == s.tables + {Slot(page)}
    requires s.frames == u.frames + if Slot(page) in s.tables then 1 else 2
    requires Exact(g, u, page + 1, n - 1)
    ensures Exact(g.(mapped := g.mapped + 1), s, page, n)
  {
    TablesForFirst(s.tables, page, n);
    SlotsOfFirst(page, n);
    assert s.tables + {Slot(page)} + SlotsOf(page + 1, n - 1) == s.tables + SlotsOf(page, n);
    if n > 1 {
      OpensTableFirst(s.tables, page, n);
    } else {
      assert SlotsOf(page + 1, 0) == {};
    }
  }

  /** After `i` pages, `mapped` of them mapped, supply `u` is left of `s`. */
  predicate GrowsTo(s: Supply, u: Supply, page: nat, n: nat, i: nat, mapped: nat)
    requires i <= n
  {
    var g := Grow(u, page + i, n - i);
    Grow(s, page, n) == g.(mapped := g.mapped + mapped)
  }

  lemma GrowsOn(s: Supply, u: Supply, page: nat, n: nat, i: nat, mapped: nat)
    requires i < n && u.frames > 0 && GrowsTo(s, u, page, n, i, mapped)
    ensures var w := AfterMap(u.(frames := u.frames - 1), page + i);
      GrowsTo(s, w, page, n, i + 1, if Slot(page + i) in w.tables then mapped + 1 else mapped)
  {
  }

  /** A loop that cannot map all its pages has used up every frame there was. */
  lemma {:induction false} GrowDrains(s: Supply, page: nat, n: nat)
    ensures var g := Grow(s, page, n); (g.ok && g.mapped == n) || g.left.frames == 0
    decreases n
  {
    if n > 0 && s.frames > 0 {
      var u := AfterMap(s.(frames := s.frames - 1), page);
      GrowDrains(u, page + 1, n - 1);
    }
  }

  /** The page whose mapping was lost has no table. */
  lemma {:induction false} LostHasNoTable(s: Supply, page: nat, n: nat)
    ensures var g := Grow(s, page, n); g.ok && g.mapped < n ==> Slot(page + n - 1) !in g.left.tables
    decreases n
  {
    if n > 0 && s.frames > 0 {
      if s.frames == 1 && Slot(page) !in s.tables {
        GrowLost(s, page, n);
      } else {
        GrowFirst(s, page, n);
        LostHasNoTable(AfterMap(s.(frames := s.frames - 1), page), page + 1, n - 1);
      }
    }
  }

  /**
   A single page, as create_kernel_stack maps it: it gets an address whenever there
   is a frame, but the page behind it is mapped only if a missing table can be had too.
   */
  lemma OnePageExact(s: Supply, page: nat)
    ensures var g := Grow(s, page, 1);
      && (g.ok <==> s.frames >= 1)
      && (g.ok && g.mapped == 1 <==> s.frames >= if Slot(page) in s.tables then 1 else 2)
  {
    assert Grow(AfterMap(s.(frames := if s.frames > 0 then s.frames - 1 else 0), page), page + 1, 0).ok;
  }
}
