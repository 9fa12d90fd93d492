/** realloc_page: what it keeps, what it costs, and exactly when it keeps its promise. */
module Reallocation {
  import opened Machine
  import opened PageTables
  import opened Ownership
  import opened Allocation
  import opened Freeing

  /** A block as the allocators hand it out: n pages from p on, each on a frame of its own. */
  ghost predicate Block(t: Table, p: nat, n: nat) {
    p + n <= PAGES && forall w: Frame :: p <= w < p + n ==> Maps(t, w)
  }

  // ---- the pieces ----

  /** Over entries that are all free, growing in place maps what alloc_page would map. */
  lemma {:induction false} GrowIsFill(s: State, v: nat, n: nat)
    requires v + n <= PAGES && Unmapped(s.table, v, n)
    ensures GrowInPlace(s, v, n) == FillRun(s, v, n).0
    decreases n
  {
    if n == 0 {
    } else {
      var f := FindFree(s.claimed);
      if f == 0 {
        GrowIsFill(s, v + 1, n - 1);
        assert FillRun(s, v + 1, n - 1).0 == s;
      } else {
        GrowIsFill(MapAddr(s, v, f), v + 1, n - 1);
      }
    }
  }

  /** The frames under dst..dst+n-1 are all different, and none is under src..src+n-1. */
  ghost predicate Apart(t: Table, dst: nat, src: nat, n: nat)
    requires dst + n <= PAGES && src + n <= PAGES
  {
    && (forall w: Frame, x: Frame :: dst <= w < x < dst + n ==> t[w].address != t[x].address)
    && (forall w: Frame, x: Frame :: dst <= w < dst + n && src <= x < src + n ==> t[w].address != t[x].address)
  }

  /** s' is s but for pages dst..dst+n-1, which read as src..src+n-1 did. */
  ghost predicate CopiedBlock(s: State, s': State, dst: nat, src: nat, n: nat)
    requires dst + n <= PAGES && src + n <= PAGES
  {
    && s' == s.(mem := s'.mem)
    && (forall w: Frame :: dst <= w < dst + n ==> s'.Read(w) == s.Read(src + (w - dst)))
    && (forall f: Frame :: f !in Targets(s.table, dst, n) ==> s'.mem[f] == s.mem[f])
  }

  lemma CopiedBlockStep(s: State, s': State, dst: Frame, src: Frame, n: nat)
    requires 0 < n && dst + n <= PAGES && src + n <= PAGES && Apart(s.table, dst, src, n)
    requires CopiedBlock(s.Store(s.table[dst].address, s.Read(src)), s', dst + 1, src + 1, n - 1)
    ensures CopiedBlock(s, s', dst, src, n)
  {
    var s1 := s.Store(s.table[dst].address, s.Read(src));
    assert Targets(s.table, dst, n) == {s.table[dst].address} + Targets(s.table, dst + 1, n - 1);
    assert s'.Read(dst) == s1.Read(dst);
    forall w: Frame | dst + 1 <= w < dst + n ensures s'.Read(w) == s.Read(src + (w - dst)) {
      assert s1.Read(src + 1 + (w - (dst + 1))) == s.Read(src + (w - dst));
    }
  }

  lemma {:induction false} CopyPagesExact(s: State, dst: nat, src: nat, n: nat)
    requires dst + n <= PAGES && src + n <= PAGES && Apart(s.table, dst, src, n)
    requires forall w: Frame :: dst <= w < dst + n || src <= w < src + n ==> s.table[w].present
    ensures CopyPages(s, dst, src, n).1 && CopiedBlock(s, CopyPages(s, dst, src, n).0, dst, src, n)
    decreases n
  {
    if n == 0 {
    } else {
      CopyPagesExact(s.Store(s.table[dst].address, s.Read(src)), dst + 1, src + 1, n - 1);
      CopiedBlockStep(s, CopyPages(s, dst, src, n).0, dst, src, n);
    }
  }

  lemma FreeOneCount(s: State, p: Frame, n: nat)
    requires Owned(s) && Block(s.table, p, n) && 0 < n
    ensures
      var s1 := UnmapVaddr(s, p);
      Owned(s1) && Block(s1.table, p + 1, n - 1) && |FreeHigh(s1.claimed)| == |FreeHigh(s.claimed)| + 1
  {
    var s1 := UnmapVaddr(s, p);
    assert Maps(s.table, p);
    assert FreeHigh(s1.claimed) == FreeHigh(s.claimed) + {s.table[p].address};
    UnmapForeign(s, p);
    assert forall w: Frame :: p < w < p + n ==> Maps(s.table, w) && s1.table[w] == s.table[w];
  }

  /** Freeing a block makes as many frames free as it had pages. */
  lemma {:induction false} FreeBlockCount(s: State, p: nat, n: nat)
    requires Owned(s) && Block(s.table, p, n)
    ensures |FreeHigh(FreePage(s, p, n).claimed)| == |FreeHigh(s.claimed)| + n
    decreases n
  {
    if n == 0 {
    } else {
      FreeOneCount(s, p, n);
      FreeBlockCount(UnmapVaddr(s, p), p + 1, n - 1);
    }
  }

  // ---- what a reallocation promises ----

  /** All pages of the new block are present, what is left of the old one is gone, and no other entry changed. */
  ghost predicate EntriesMoved(t: Table, t': Table, p: nat, oldPages: nat, q: nat, newPages: nat) {
    && (forall w: Frame :: q <= w < q + newPages ==> t'[w].present)
    && (forall w: Frame :: p <= w < p + oldPages && !(q <= w < q + newPages) ==> !t'[w].present)
    && (forall w: Frame :: !(p <= w < p + oldPages) && !(q <= w < q + newPages) ==> t'[w] == t[w])
  }

  /**
   The common part of the two blocks reads as before, and so does every other page, but for
   those of the page table and of the kernel's variables.
   */
  ghost predicate ContentsMoved(s: State, s': State, p: nat, oldPages: nat, q: nat, newPages: nat)
    requires p + oldPages <= PAGES && q + newPages <= PAGES
  {
    && (forall w: Frame :: q <= w < q + Min(oldPages, newPages) ==> s'.Read(w) == s.Read(p + (w - q)))
    && (forall w: Frame :: !(p <= w < p + oldPages) && IsData(s, w) ==> s'.Read(w) == s.Read(w))
  }

  /** The block of oldPages at p has become one of newPages at q, and the free frames make up the difference. */
  ghost predicate Reallocated(s: State, s': State, p: nat, oldPages: nat, q: nat, newPages: nat)
    requires p + oldPages <= PAGES && q + newPages <= PAGES
  {
    && EntriesMoved(s.table, s'.table, p, oldPages, q, newPages)
    && ContentsMoved(s, s', p, oldPages, q, newPages)
    && |FreeHigh(s'.claimed)| + newPages == |FreeHigh(s.claimed)| + oldPages
  }

  /** Is there room to grow in place: no present entry and no table end in the way? */
  ghost predicate RoomBehind(t: Table, p: nat, oldPages: nat, newPages: nat)
    requires p + oldPages <= PAGES
  {
    p + newPages <= PAGES && forall w: Frame :: p + oldPages <= w < p + newPages ==> !t[w].present
  }

  /** Is a present entry in the way of growing in place? Neither this nor RoomBehind holds when the table ends first. */
  ghost predicate Blocked(t: Table, p: nat, oldPages: nat, newPages: nat)
    requires p + oldPages <= PAGES
  {
    exists w: Frame :: p + oldPages <= w < p + newPages && t[w].present
  }

  lemma BlockedIff(t: Table, p: nat, oldPages: nat, newPages: nat)
    requires p + oldPages <= PAGES
    ensures Blocked(t, p, oldPages, newPages) <==> NextPresent(t, p + oldPages) < Min(p + newPages, PAGES)
  {
  }

  /** What a caller can check beforehand: whether frames, and if need be a new run, are at hand. */
  ghost predicate Satisfiable(s: State, p: nat, oldPages: nat, newPages: nat)
    requires p + oldPages <= PAGES
  {
    || newPages <= oldPages
    || (RoomBehind(s.table, p, oldPages, newPages) && newPages - oldPages <= |FreeHigh(s.claimed)|)
    || (Blocked(s.table, p, oldPages, newPages) && !NoRun(s.table, newPages) && newPages <= |FreeHigh(s.claimed)|)
  }

  /** A block that may be reallocated: allocated, and none of it guarded. */
  ghost predicate SpareBlock(s: State, guard: set<Frame>, p: nat, n: nat) {
    Sound(s, guard) && Block(s.table, p, n) && Spares(guard, p, n)
  }

  lemma SpareIsOffTable(s: State, guard: set<Frame>, p: nat, n: nat)
    requires SpareBlock(s, guard, p, n)
    ensures OffTable(s, p, n)
    ensures forall w: Frame :: p <= w < p + n ==> s.table[w].present && !TablePage(s, w)
  {
    forall w: Frame | p <= w < p + n ensures s.table[w].present && !TablePage(s, w) {
      assert Wrap(w) == w;
      assert Maps(s.table, w);
    }
    if !OffTable(s, p, n) {
      var w: Frame := if p < s.base then s.base else p;
      assert TablePage(s, w);
    }
  }

  lemma Shrinks(s: State, guard: set<Frame>, p: Frame, oldPages: U32, newPages: U32)
    requires SpareBlock(s, guard, p, oldPages) && newPages <= oldPages
    ensures ReallocPage(s, p, oldPages, newPages).1 == Page(p)
    ensures Reallocated(s, ReallocPage(s, p, oldPages, newPages).0, p, oldPages, p, newPages)
  {
    ReallocShrinks(s, p, oldPages, newPages);
    FreeBehind(s, guard, p, oldPages, newPages);
  }

  lemma FreeBehind(s: State, guard: set<Frame>, p: Frame, oldPages: nat, newPages: nat)
    requires SpareBlock(s, guard, p, oldPages) && newPages <= oldPages
    ensures Reallocated(s, FreePage(s, p + newPages, oldPages - newPages), p, oldPages, p, newPages)
  {
    var v, n := p + newPages, oldPages - newPages;
    var s' := FreePage(s, v, n);
    assert
      && EntriesMoved(s.table, s'.table, p, oldPages, p, newPages)
      && ContentsMoved(s, s', p, oldPages, p, newPages)
    by {
      SpareIsOffTable(s, guard, p, oldPages);
      FreePageExact(s, v, n);
      FreePageData(s, v, n);
      FreedBehind(s, s', guard, p, oldPages, newPages);
    }
    assert |FreeHigh(s'.claimed)| == |FreeHigh(s.claimed)| + n by {
      assert Block(s.table, v, n);
      FreeBlockCount(s, v, n);
    }
  }

  lemma FreedBehind(s: State, s': State, guard: set<Frame>, p: Frame, oldPages: nat, newPages: nat)
    requires SpareBlock(s, guard, p, oldPages) && newPages <= oldPages
    requires Freed(s, s', p + newPages, oldPages - newPages) && OnlyTable(s, s')
    ensures EntriesMoved(s.table, s'.table, p, oldPages, p, newPages) && ContentsMoved(s, s', p, oldPages, p, newPages)
  {
    SpareIsOffTable(s, guard, p, oldPages);
    OffTableFrames(s, guard);
  }

  lemma GrowsInPlace(s: State, guard: set<Frame>, p: Frame, oldPages: U32, newPages: U32)
    requires SpareBlock(s, guard, p, oldPages) && oldPages < newPages
    requires RoomBehind(s.table, p, oldPages, newPages)
    ensures
      var (s', r) := ReallocPage(s, p, oldPages, newPages);
      && r == Page(p)
      && (Reallocated(s, s', p, oldPages, p, newPages) <==> newPages - oldPages <= |FreeHigh(s.claimed)|)
  {
    var s' := FillRun(s, p + oldPages, newPages - oldPages).0;
    assert Reallocated(s, s', p, oldPages, p, newPages) <==> newPages - oldPages <= |FreeHigh(s.claimed)| by {
      FillsBehind(s, guard, p + oldPages, newPages - oldPages);
      GrowthIff(s, s', guard, p, oldPages, newPages);
    }
    ReallocFills(s, p, oldPages, newPages);
  }

  lemma GrowthIff(s: State, s': State, guard: set<Frame>, p: Frame, oldPages: nat, newPages: nat)
    requires SpareBlock(s, guard, p, oldPages) && oldPages < newPages
    requires RoomBehind(s.table, p, oldPages, newPages)
    requires Filled(s, s', p + oldPages, Min(newPages - oldPages, |FreeHigh(s.claimed)|)) && OnlyTable(s, s')
    ensures Reallocated(s, s', p, oldPages, p, newPages) <==> newPages - oldPages <= |FreeHigh(s.claimed)|
  {
    if newPages - oldPages <= |FreeHigh(s.claimed)| {
      FilledBehind(s, s', guard, p, oldPages, newPages);
    } else {
      var w: Frame := p + oldPages + |FreeHigh(s.claimed)|;
      assert s'.table[w] == s.table[w];
      assert p <= w < p + newPages && !s'.table[w].present;
    }
  }

  lemma ReallocGrows(s: State, p: Frame, oldPages: U32, newPages: U32)
    requires p + oldPages <= PAGES && oldPages < newPages && RoomBehind(s.table, p, oldPages, newPages)
    ensures ReallocPage(s, p, oldPages, newPages) == (GrowInPlace(s, p + oldPages, newPages - oldPages), Page(p))
  {
  }

  lemma ReallocShrinks(s: State, p: Frame, oldPages: U32, newPages: U32)
    requires p + oldPages <= PAGES && newPages <= oldPages
    ensures ReallocPage(s, p, oldPages, newPages) == (FreePage(s, p + newPages, oldPages - newPages), Page(p))
  {
  }

  lemma ReallocFills(s: State, p: Frame, oldPages: U32, newPages: U32)
    requires p + oldPages <= PAGES && oldPages < newPages && RoomBehind(s.table, p, oldPages, newPages)
    ensures ReallocPage(s, p, oldPages, newPages) == (FillRun(s, p + oldPages, newPages - oldPages).0, Page(p))
  {
    ReallocGrows(s, p, oldPages, newPages);
    GrowIsFill(s, p + oldPages, newPages - oldPages);
  }

  lemma FillsBehind(s: State, guard: set<Frame>, v: nat, n: nat)
    requires Guarded(s, guard) && v + n <= PAGES && Unmapped(s.table, v, n)
    ensures Filled(s, FillRun(s, v, n).0, v, Min(n, |FreeHigh(s.claimed)|)) && OnlyTable(s, FillRun(s, v, n).0)
  {
    FillRunExact(s, v, n);
    GuardedTable(s, guard);
    FillRunData(s, v, n);
  }

  lemma FilledBehind(s: State, s': State, guard: set<Frame>, p: Frame, oldPages: nat, newPages: nat)
    requires SpareBlock(s, guard, p, oldPages) && oldPages < newPages && p + newPages <= PAGES
    requires RoomBehind(s.table, p, oldPages, newPages)
    requires Filled(s, s', p + oldPages, newPages - oldPages) && OnlyTable(s, s')
    ensures Reallocated(s, s', p, oldPages, p, newPages)
  {
    SpareIsOffTable(s, guard, p, oldPages);
    OffTableFrames(s, guard);
  }

  /** The pages just mapped lie on frames of their own, apart from those of the old block. */
  lemma FilledApart(s: State, s1: State, p: Frame, oldPages: nat, i: Frame, newPages: nat)
    requires Owned(s) && Block(s.table, p, oldPages) && oldPages < newPages && i + newPages <= PAGES
    requires Unmapped(s.table, i, newPages) && Filled(s, s1, i, newPages)
    ensures oldPages == 0 || p + oldPages <= i || i + newPages <= p
    ensures forall w: Frame :: p <= w < p + oldPages ==> s1.table[w] == s.table[w] && s.table[w].present
    ensures Apart(s1.table, i, p, oldPages)
  {
    assert oldPages == 0 || p + oldPages <= i || i + newPages <= p by {
      var w: Frame := if p < i then i else p;
      assert p <= w < p + oldPages ==> Maps(s.table, w);
      assert i <= w < i + newPages ==> !s.table[w].present;
    }
    forall w: Frame | p <= w < p + oldPages
      ensures s1.table[w] == s.table[w] && s.table[w].present
      ensures s1.table[w].address in s.claimed
    {
      assert Maps(s.table, w);
    }
  }

  /** Copying the old block to the new pages and freeing it moves it. */
  lemma MovedBlock(s: State, s1: State, guard: set<Frame>, p: Frame, oldPages: nat, i: Frame, newPages: nat)
    requires SpareBlock(s, guard, p, oldPages) && oldPages < newPages && i + newPages <= PAGES
    requires Unmapped(s.table, i, newPages) && Filled(s, s1, i, newPages) && Owned(s1) && OnlyTable(s, s1)
    ensures
      var (s2, copied) := CopyPages(s1, i, p, oldPages);
      && copied
      && Reallocated(s, FreePage(s2, p, oldPages), p, oldPages, i, newPages)
  {
    FilledApart(s, s1, p, oldPages, i, newPages);
    assert CopyPages(s1, i, p, oldPages).1 && CopiedBlock(s1, CopyPages(s1, i, p, oldPages).0, i, p, oldPages) by {
      CopyPagesExact(s1, i, p, oldPages);
    }
    ThenFreed(s, s1, CopyPages(s1, i, p, oldPages).0, guard, p, oldPages, i, newPages);
  }

  lemma ThenFreed(s: State, s1: State, s2: State, guard: set<Frame>, p: Frame, oldPages: nat, i: Frame, newPages: nat)
    requires SpareBlock(s, guard, p, oldPages) && oldPages < newPages && i + newPages <= PAGES
    requires Unmapped(s.table, i, newPages) && Filled(s, s1, i, newPages) && Owned(s1) && OnlyTable(s, s1)
    requires oldPages == 0 || p + oldPages <= i || i + newPages <= p
    requires forall w: Frame :: p <= w < p + oldPages ==> s1.table[w] == s.table[w]
    requires CopiedBlock(s1, s2, i, p, oldPages)
    ensures Reallocated(s, FreePage(s2, p, oldPages), p, oldPages, i, newPages)
  {
    var s' := FreePage(s2, p, oldPages);
    assert Freed(s2, s', p, oldPages) by {
      FreePageExact(s2, p, oldPages);
    }
    assert ContentsMoved(s, s', p, oldPages, i, newPages) by {
      MovedData(s, s1, s2, guard, p, oldPages, i, newPages);
      MovedContents(s, s1, s2, s', guard, p, oldPages, i, newPages);
    }
    assert |FreeHigh(s'.claimed)| == |FreeHigh(s2.claimed)| + oldPages by {
      forall w: Frame | p <= w < p + oldPages ensures Maps(s2.table, w) {
        assert Maps(s.table, w);
      }
      FreeBlockCount(s2, p, oldPages);
    }
  }

  lemma MovedData(s: State, s1: State, s2: State, guard: set<Frame>, p: Frame, oldPages: nat, i: Frame, newPages: nat)
    requires SpareBlock(s, guard, p, oldPages) && i + newPages <= PAGES
    requires Unmapped(s.table, i, newPages) && SameOutside(s.table, s1.table, i, newPages)
    requires s1.base == s.base && s2.base == s.base && s2.table == s1.table
    ensures forall f: Frame :: !TableFrame(s, f) ==> FreePage(s2, p, oldPages).mem[f] == s2.mem[f]
  {
    SpareIsOffTable(s, guard, p, oldPages);
    FreePageData(s2, p, oldPages);
    GuardedTable(s, guard);
    FreeRunIsOffTable(s, i, newPages);
    SameTable(s, s2);
  }

  lemma MovedContents(
    s: State, s1: State, s2: State, s': State, guard: set<Frame>, p: Frame, oldPages: nat, i: Frame, newPages: nat)
    requires SpareBlock(s, guard, p, oldPages) && oldPages < newPages && i + newPages <= PAGES
    requires Unmapped(s.table, i, newPages) && Filled(s, s1, i, newPages) && OnlyTable(s, s1)
    requires oldPages == 0 || p + oldPages <= i || i + newPages <= p
    requires forall w: Frame :: p <= w < p + oldPages ==> s1.table[w] == s.table[w]
    requires s2.table == s1.table && SameOutside(s2.table, s'.table, p, oldPages)
    requires forall f: Frame :: !TableFrame(s, f) ==> s'.mem[f] == s2.mem[f]
    requires forall w: Frame :: i <= w < i + oldPages ==> s2.Read(w) == s1.Read(p + (w - i))
    requires forall f: Frame :: f !in Targets(s1.table, i, oldPages) ==> s2.mem[f] == s1.mem[f]
    ensures ContentsMoved(s, s', p, oldPages, i, newPages)
  {
    SpareIsOffTable(s, guard, p, oldPages);
    OffTableFrames(s, guard);
    forall w: Frame | i <= w < i + oldPages ensures s'.Read(w) == s.Read(p + (w - i)) {
      var x: Frame := p + (w - i);
      assert s1.table[x] == s.table[x] && s1.Read(x) == s.Read(x);
      assert s2.Read(w) == s1.Read(x);
      assert s'.table[w] == s2.table[w];
      FreshIsNoTable(s, guard, s1.table[w].address);
    }
    forall w: Frame | !(p <= w < p + oldPages) && IsData(s, w) ensures s'.Read(w) == s.Read(w) {
      assert s'.table[w] == s.table[w];
      if Maps(s.table, w) {
        assert s.table[w].address in s.claimed;
      }
      assert s.table[w].address !in Targets(s1.table, i, oldPages);
    }
  }

  /** Given a run and enough frames, alloc_page finds the lowest run and fills it. */
  lemma AllocSucceeds(s: State, guard: set<Frame>, pages: U32) returns (i: Frame)
    requires Sound(s, guard) && 0 < pages && !NoRun(s.table, pages) && pages <= |FreeHigh(s.claimed)|
    ensures AllocPage(s, pages).1 == Page(i) && LowestRun(s.table, pages, i)
    ensures Filled(s, AllocPage(s, pages).0, i, pages)
    ensures Owned(AllocPage(s, pages).0) && OnlyTable(s, AllocPage(s, pages).0)
  {
    i := FirstRun(s.table, pages, KERNEL_SPACE);
    AllocPageExact(s, pages, i);
    AllocConserves(s, guard, pages);
    GuardedTable(s, guard);
    FillRunData(s, i, pages);
  }

  lemma Moves(s: State, guard: set<Frame>, p: Frame, oldPages: U32, newPages: U32)
    requires SpareBlock(s, guard, p, oldPages) && oldPages < newPages
    requires !NoRun(s.table, newPages) && newPages <= |FreeHigh(s.claimed)|
    ensures
      var (s', r) := MoveBlock(s, p, oldPages, newPages);
      && r.Page? && LowestRun(s.table, newPages, r.page)
      && Reallocated(s, s', p, oldPages, r.page, newPages)
  {
    var i := AllocSucceeds(s, guard, newPages);
    MovedBlock(s, AllocPage(s, newPages).0, guard, p, oldPages, i, newPages);
  }

  /**
   realloc_page keeps its promise exactly when the frames, and if the block must move a run
   for it, are at hand. Otherwise it answers something other than a full block: it ignores
   that its own allocations fail.
   */
  lemma ReallocPageIff(s: State, guard: set<Frame>, p: Frame, oldPages: U32, newPages: U32)
    requires SpareBlock(s, guard, p, oldPages)
    ensures
      var (s', r) := ReallocPage(s, p, oldPages, newPages);
      Satisfiable(s, p, oldPages, newPages)
      <==> r.Page? && r.page + newPages <= PAGES && Reallocated(s, s', p, oldPages, r.page, newPages)
  {
    BlockedIff(s.table, p, oldPages, newPages);
    if newPages <= oldPages {
      Shrinks(s, guard, p, oldPages, newPages);
    } else if RoomBehind(s.table, p, oldPages, newPages) {
      GrowsInPlace(s, guard, p, oldPages, newPages);
    } else if Blocked(s.table, p, oldPages, newPages) {
      if !NoRun(s.table, newPages) && newPages <= |FreeHigh(s.claimed)| {
        Moves(s, guard, p, oldPages, newPages);
      } else {
        MoveFails(s, p, oldPages, newPages);
      }
    }
  }

  lemma MoveFails(s: State, p: Frame, oldPages: U32, newPages: U32)
    requires p + oldPages <= PAGES && oldPages < newPages
    requires NoRun(s.table, newPages) || newPages > |FreeHigh(s.claimed)|
    ensures !MoveBlock(s, p, oldPages, newPages).1.Page?
  {
    var i := FirstRun(s.table, newPages, KERNEL_SPACE);
    if i < PAGES {
      FillRunSucceeds(s, i, newPages);
    }
  }
}
