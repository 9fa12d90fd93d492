/**
 What the allocators of memory/memory.c hand out: the lowest run of pages, on exactly
 which frames, when they fail and what a failure leaves behind.
 */
module Allocation {
  import opened Machine
  import opened PageTables
  import opened Ownership

  /** The frames that entries v..v+n-1 point at. */
  ghost function Targets(t: Table, v: nat, n: nat): set<Frame>
    requires v + n <= PAGES
  {
    set w: Frame | v <= w < v + n :: t[w].address
  }

  ghost predicate SameOutside(t: Table, t': Table, v: nat, n: nat) {
    forall w: Frame :: w < v || v + n <= w ==> t'[w] == t[w]
  }

  /** Entries v..v+n-1 map, read-write and in increasing order, frames of `frames`. */
  ghost predicate MapsInOrder(t: Table, t': Table, v: nat, n: nat, frames: set<Frame>)
    requires v + n <= PAGES
  {
    && (forall w: Frame :: v <= w < v + n ==> t'[w] == t[w].MappedTo(t'[w].address) && t'[w].address in frames)
    && (forall w: Frame, x: Frame :: v <= w < x < v + n ==> t'[w].address < t'[x].address)
  }

  function Min(a: nat, b: nat): nat {
    if a < b then a else b
  }

  /** FindFree is the least element of FreeHigh, or 0 when that is empty. */
  lemma FindFreeIsLeast(claimed: set<Frame>)
    ensures FindFree(claimed) == 0 <==> FreeHigh(claimed) == {}
    ensures FindFree(claimed) != 0 ==> FindFree(claimed) in FreeHigh(claimed)
    ensures forall f: Frame :: f in FreeHigh(claimed) ==> FindFree(claimed) <= f
  {
  }

  /** s' is s with entries v..v+k-1 mapped to the k lowest free frames, in order. */
  ghost predicate Filled(s: State, s': State, v: nat, k: nat)
    requires v + k <= PAGES
  {
    && s'.base == s.base && s'.cr3 == s.cr3 && s'.image == s.image
    && SameOutside(s.table, s'.table, v, k)
    && MapsInOrder(s.table, s'.table, v, k, FreeHigh(s.claimed))
    && s'.claimed == s.claimed + Targets(s'.table, v, k)
    && |FreeHigh(s'.claimed)| == |FreeHigh(s.claimed)| - k
    && (forall f: Frame, w: Frame :: f in FreeHigh(s'.claimed) && v <= w < v + k ==> s'.table[w].address < f)
  }

  lemma FilledTable(s: State, s': State, v: Frame, k: nat, f: Frame)
    requires 0 < k && v + k <= PAGES && f in FreeHigh(s.claimed)
    requires forall g: Frame :: g in FreeHigh(s.claimed) ==> f <= g
    requires Filled(MapAddr(s, v, f), s', v + 1, k - 1)
    ensures SameOutside(s.table, s'.table, v, k)
    ensures MapsInOrder(s.table, s'.table, v, k, FreeHigh(s.claimed))
  {
  }

  lemma FilledClaims(s: State, s': State, v: Frame, k: nat, f: Frame)
    requires 0 < k && v + k <= PAGES && Filled(MapAddr(s, v, f), s', v + 1, k - 1)
    ensures s'.claimed == s.claimed + Targets(s'.table, v, k)
  {
    assert s'.table[v] == s.table[v].MappedTo(f);
    assert Targets(s'.table, v, k) == {f} + Targets(s'.table, v + 1, k - 1);
  }

  lemma FilledFrames(s: State, s': State, v: Frame, k: nat, f: Frame)
    requires 0 < k && v + k <= PAGES && f in FreeHigh(s.claimed)
    requires forall g: Frame :: g in FreeHigh(s.claimed) ==> f <= g
    requires Filled(MapAddr(s, v, f), s', v + 1, k - 1)
    ensures |FreeHigh(s'.claimed)| == |FreeHigh(s.claimed)| - k
    ensures forall g: Frame, w: Frame :: g in FreeHigh(s'.claimed) && v <= w < v + k ==> s'.table[w].address < g
  {
    FreeHighStep(s, v, f);
    assert s'.table[v].address == f;
    forall g: Frame | g in FreeHigh(s'.claimed) ensures f < g {
      assert g in FreeHigh(s.claimed) && f in s'.claimed;
    }
  }

  lemma FilledNone(s: State, v: nat)
    requires v <= PAGES
    ensures Filled(s, s, v, 0)
  {
  }

  lemma FilledStep(s: State, s': State, v: Frame, k: nat, f: Frame)
    requires 0 < k && v + k <= PAGES && f in FreeHigh(s.claimed)
    requires forall g: Frame :: g in FreeHigh(s.claimed) ==> f <= g
    requires Filled(MapAddr(s, v, f), s', v + 1, k - 1)
    ensures Filled(s, s', v, k)
  {
    FilledTable(s, s', v, k, f);
    FilledClaims(s, s', v, k, f);
    FilledFrames(s, s', v, k, f);
  }

  lemma FreeHighStep(s: State, v: Frame, f: Frame)
    requires f in FreeHigh(s.claimed)
    ensures |FreeHigh(MapAddr(s, v, f).claimed)| == |FreeHigh(s.claimed)| - 1
  {
    assert FreeHigh(s.claimed) == FreeHigh(MapAddr(s, v, f).claimed) + {f};
  }

  /** FillRun fails exactly when there are too few free frames. */
  lemma {:induction false} FillRunSucceeds(s: State, v: nat, n: nat)
    requires v + n <= PAGES
    ensures FillRun(s, v, n).1 <==> n <= |FreeHigh(s.claimed)|
    decreases n
  {
    var f := FindFree(s.claimed);
    FindFreeIsLeast(s.claimed);
    if n == 0 || f == 0 {
    } else {
      FreeHighStep(s, v, f);
      FillRunSucceeds(MapAddr(s, v, f), v + 1, n - 1);
    }
  }

  /** FillRun maps as many pages as asked for, or as there are free frames. */
  lemma {:induction false} FillRunExact(s: State, v: nat, n: nat)
    requires v + n <= PAGES
    ensures Filled(s, FillRun(s, v, n).0, v, Min(n, |FreeHigh(s.claimed)|))
    decreases n
  {
    var f := FindFree(s.claimed);
    FindFreeIsLeast(s.claimed);
    if n == 0 || f == 0 {
      FilledNone(s, v);
    } else {
      FreeHighStep(s, v, f);
      FillRunExact(MapAddr(s, v, f), v + 1, n - 1);
      FilledStep(s, FillRun(s, v, n).0, v, Min(n, |FreeHigh(s.claimed)|), f);
    }
  }

  /** Nothing is written to `mem` but entries of the page table. */
  lemma {:induction false} FillRunData(s: State, v: nat, n: nat)
    requires v + n <= PAGES && Unmapped(s.table, v, n) && TablePresent(s)
    ensures OnlyTable(s, FillRun(s, v, n).0)
    decreases n
  {
    var f := FindFree(s.claimed);
    if n == 0 || f == 0 {
    } else {
      UpdateData(s, v, s.table[v].MappedTo(f), s.claimed + {f});
      FillRunData(MapAddr(s, v, f), v + 1, n - 1);
    }
  }

  /** What "the lowest run of n free pages in kernel space starts at i" means. */
  ghost predicate LowestRun(t: Table, n: nat, i: nat) {
    && KERNEL_SPACE <= i && i + n <= PAGES
    && Unmapped(t, i, n)
    && forall k :: KERNEL_SPACE <= k < i ==> !Unmapped(t, k, n)
  }

  ghost predicate NoRun(t: Table, n: nat) {
    forall k: nat :: KERNEL_SPACE <= k && k + n <= PAGES ==> !Unmapped(t, k, n)
  }

  /**
   alloc_page, given a run: it succeeds iff enough frames from FIRST_FRAME on are free,
   and then maps the lowest run to the lowest frames. On a shortage it returns null
   having claimed every such frame and mapped them at the front of the run.
   */
  lemma AllocPageExact(s: State, pages: U32, i: nat)
    requires 0 < pages && LowestRun(s.table, pages, i)
    ensures
      var (s', r) := AllocPage(s, pages);
      && r == (if pages <= |FreeHigh(s.claimed)| then Page(i) else Null)
      && Filled(s, s', i, Min(pages, |FreeHigh(s.claimed)|))
      && (r == Null ==> FreeHigh(s'.claimed) == {})
      && (TablePresent(s) ==> SameData(s, s'))
  {
    FillRunSucceeds(s, i, pages);
    FillRunExact(s, i, pages);
    if TablePresent(s) {
      FillRunData(s, i, pages);
    }
  }

  /** alloc_page without a run changes nothing; it indexes past the page table iff the last entry is free. */
  lemma AllocPageWithoutRun(s: State, pages: U32)
    requires 0 < pages < MAX_U32 && NoRun(s.table, pages)
    ensures AllocPage(s, pages) == (s, if s.table[PAGES - 1].present then Null else PastEnd)
  {
    if pages == 1 && !s.table[PAGES - 1].present {
      assert Unmapped(s.table, PAGES - 1, 1);
    }
  }

  // ---- physically contiguous runs ----

  /** s' is s with entries v..v+n-1 mapped to the n frames from f on, wrapping after the last frame. */
  ghost predicate MappedRun(s: State, s': State, v: nat, f: nat, n: nat)
    requires v + n <= PAGES
  {
    && s'.base == s.base && s'.cr3 == s.cr3 && s'.image == s.image
    && SameOutside(s.table, s'.table, v, n)
    && (forall w: Frame :: v <= w < v + n ==> s'.table[w] == s.table[w].MappedTo(Wrap(f + (w - v))))
    && s'.claimed == s.claimed + Targets(s'.table, v, n)
  }

  lemma MappedRunStep(s: State, s': State, v: nat, f: nat, n: nat)
    requires 0 < n && v + n <= PAGES
    requires MappedRun(MapAddr(s, v, Wrap(f)), s', v + 1, f + 1, n - 1)
    ensures MappedRun(s, s', v, f, n)
  {
    var t1 := s.table[v := s.table[v].MappedTo(Wrap(f))];
    assert s'.table[v] == t1[v];
    assert Targets(s'.table, v, n) == {Wrap(f)} + Targets(s'.table, v + 1, n - 1) by {
      assert t1[v].address == Wrap(f);
    }
    forall w: Frame | v < w < v + n ensures s'.table[w] == s.table[w].MappedTo(Wrap(f + (w - v))) {
      assert s'.table[w] == t1[w].MappedTo(Wrap(f + 1 + (w - (v + 1))));
    }
  }

  lemma {:induction false} MapRunExact(s: State, v: nat, f: nat, n: nat)
    requires v + n <= PAGES
    ensures MappedRun(s, MapRun(s, v, f, n), v, f, n)
    decreases n
  {
    if n == 0 {
      assert Targets(s.table, v, 0) == {};
    } else {
      MapRunExact(MapAddr(s, v, Wrap(f)), v + 1, f + 1, n - 1);
      MappedRunStep(s, MapRun(s, v, f, n), v, f, n);
    }
  }

  lemma {:induction false} MapRunData(s: State, v: nat, f: nat, n: nat)
    requires v + n <= PAGES && Unmapped(s.table, v, n) && TablePresent(s)
    ensures OnlyTable(s, MapRun(s, v, f, n))
    decreases n
  {
    if n == 0 {
    } else {
      UpdateData(s, v, s.table[v].MappedTo(Wrap(f)), s.claimed + {Wrap(f)});
      MapRunData(MapAddr(s, v, Wrap(f)), v + 1, f + 1, n - 1);
    }
  }

  ghost predicate AllFree(claimed: set<Frame>, j: nat, n: nat) {
    forall f: Frame :: j <= f < j + n ==> f !in claimed
  }

  /** What "the lowest run of n free frames from FIRST_SEQUENTIAL on starts at j" means. */
  ghost predicate LowestFrames(claimed: set<Frame>, n: nat, j: nat) {
    && FIRST_SEQUENTIAL <= j && j + n <= PAGES
    && AllFree(claimed, j, n)
    && forall k :: FIRST_SEQUENTIAL <= k < j ==> !AllFree(claimed, k, n)
  }

  /** As long as frame 0 is claimed, no run of free frames wraps around the end of memory. */
  lemma RunsDoNotWrap(claimed: set<Frame>, j: Frame, n: nat)
    requires 0 in claimed && FreeFrames(claimed, j, n)
    ensures j + n <= PAGES
  {
    assert Wrap(PAGES) == 0;
  }

  lemma FreeFramesInRange(claimed: set<Frame>, j: nat, n: nat)
    requires j + n <= PAGES
    ensures FreeFrames(claimed, j, n) <==> AllFree(claimed, j, n)
  {
    if FreeFrames(claimed, j, n) {
      forall f: Frame | j <= f < j + n ensures f !in claimed {
        assert Wrap(f) == f;
      }
    }
  }

  lemma FirstFramesIsLowest(claimed: set<Frame>, n: nat, j: nat)
    requires 0 < n && LowestFrames(claimed, n, j)
    ensures FirstFrames(claimed, n, FIRST_SEQUENTIAL) == j
  {
    FreeFramesInRange(claimed, j, n);
    forall k | FIRST_SEQUENTIAL <= k < j ensures !FreeFrames(claimed, k, n) {
      FreeFramesInRange(claimed, k, n);
    }
  }

  /**
   alloc_sequential is first fit in both spaces at once: the lowest run of pages on the
   lowest run of frames, page i+k on frame j+k, and nothing else changed.
   */
  lemma AllocSequentialExact(s: State, pages: U32, i: nat, j: nat)
    requires 0 < pages
    requires LowestRun(s.table, pages, i) && LowestFrames(s.claimed, pages, j)
    ensures
      var (s', r) := AllocSequential(s, pages);
      && r == Page(i)
      && (TablePresent(s) ==> SameData(s, s'))
      && SameOutside(s.table, s'.table, i, pages)
      && (forall w: Frame :: i <= w < i + pages ==> s'.table[w] == s.table[w].MappedTo(j + (w - i)))
      && (forall f: Frame :: f in s'.claimed <==> f in s.claimed || j <= f < j + pages)
  {
    FirstFramesIsLowest(s.claimed, pages, j);
    MapRunExact(s, i, j, pages);
    if TablePresent(s) {
      MapRunData(s, i, j, pages);
    }
    RunInRange(s, AllocSequential(s, pages).0, i, j, pages);
  }

  /** A run of frames that does not wrap. */
  lemma RunInRange(s: State, s': State, i: nat, j: nat, n: nat)
    requires i + n <= PAGES && j + n <= PAGES && MappedRun(s, s', i, j, n)
    ensures forall w: Frame :: i <= w < i + n ==> s'.table[w] == s.table[w].MappedTo(j + (w - i))
    ensures forall f: Frame :: f in s'.claimed <==> f in s.claimed || j <= f < j + n
  {
    forall w: Frame | i <= w < i + n ensures s'.table[w] == s.table[w].MappedTo(j + (w - i)) {
      assert Wrap(j + (w - i)) == j + (w - i);
    }
    forall f: Frame ensures f in Targets(s'.table, i, n) <==> j <= f < j + n {
      if j <= f < j + n {
        assert s'.table[i + (f - j)].address == f;
      }
    }
  }

  /**
   Without a run of pages, or without a run of frames, alloc_sequential changes nothing;
   but it goes on through all of kernel space and so indexes past the page table
   whenever the last entry is free, even when a run of pages was found.
   */
  lemma AllocSequentialWithoutRun(s: State, pages: U32)
    requires 0 < pages < MAX_U32
    requires NoRun(s.table, pages) || forall j: Frame :: FIRST_SEQUENTIAL <= j ==> !FreeFrames(s.claimed, j, pages)
    ensures AllocSequential(s, pages) == (s, if 2 <= pages && !s.table[PAGES - 1].present then PastEnd else Null)
  {
  }

  ghost predicate Contiguous(t: Table, i: nat, n: nat)
    requires i + n <= PAGES
  {
    forall w: Frame :: i <= w < i + n ==> t[w].address == t[i].address + (w - i)
  }

  /**
   `(void *)(k*0x1000)` wraps after the last frame, so a run found at j is contiguous
   iff it ends by the end of memory, which a claimed frame 0 guarantees.
   */
  lemma ContiguousIff(s: State, pages: U32)
    requires AllocSequential(s, pages).1.Page?
    ensures
      var (s', r) := AllocSequential(s, pages);
      var j := FirstFrames(s.claimed, pages, FIRST_SEQUENTIAL);
      && (Contiguous(s'.table, r.page, pages) <==> j + pages <= PAGES)
      && (0 in s.claimed ==> Contiguous(s'.table, r.page, pages))
  {
    var (s', r) := AllocSequential(s, pages);
    var i, j := r.page, FirstFrames(s.claimed, pages, FIRST_SEQUENTIAL);
    MapRunExact(s, i, j, pages);
    if 0 in s.claimed {
      RunsDoNotWrap(s.claimed, j, pages);
    }
    assert s'.table[i].address == j by {
      assert Wrap(j + (i - i)) == j;
    }
    if j + pages > PAGES {
      var w: Frame := i + (PAGES - j);
      assert s'.table[w].address == 0 by {
        assert Wrap(j + (w - i)) == 0;
      }
      assert s'.table[w].address != s'.table[i].address + (w - i);
    } else {
      forall w: Frame | i <= w < i + pages ensures s'.table[w].address == j + (w - i) {
        assert Wrap(j + (w - i)) == j + (w - i);
      }
    }
  }

  /** With only the last frame and frame 0 free, alloc_sequential(2) "succeeds" on frames 0xFFFFF and 0. */
  lemma WrappedRun(s: State)
    requires forall f: Frame :: f in s.claimed <==> f != 0 && f != 0xF_FFFF
    requires Unmapped(s.table, KERNEL_SPACE, 2)
    ensures
      var (s', r) := AllocSequential(s, 2);
      && r == Page(KERNEL_SPACE)
      && s'.table[KERNEL_SPACE].address == 0xF_FFFF
      && s'.table[KERNEL_SPACE + 1].address == 0
  {
    forall k | FIRST_SEQUENTIAL <= k < 0xF_FFFF ensures !FreeFrames(s.claimed, k, 2) {
      assert Wrap(k) in s.claimed;
    }
    forall x: nat | 0xF_FFFF <= x < 0xF_FFFF + 2 ensures Wrap(x) !in s.claimed {
      assert x == 0xF_FFFF || x == PAGES;
    }
    assert FreeFrames(s.claimed, 0xF_FFFF, 2);
    MapRunExact(s, KERNEL_SPACE, 0xF_FFFF, 2);
  }
}
