/** What freeing gives back, and what mapping and unmapping undo. */
module Freeing {
  import opened Machine
  import opened PageTables
  import opened Ownership
  import opened Allocation

  /** s' is s with entries v..v+n-1 cleared and their frames released. */
  ghost predicate Freed(s: State, s': State, v: nat, n: nat)
    requires v + n <= PAGES
  {
    && s'.base == s.base && s'.cr3 == s.cr3 && s'.image == s.image
    && SameOutside(s.table, s'.table, v, n)
    && (forall w: Frame :: v <= w < v + n ==> s'.table[w] == s.table[w].Cleared())
    && s'.claimed == s.claimed - Targets(s.table, v, n)
  }

  lemma FreedStep(s: State, s': State, v: Frame, n: nat)
    requires 0 < n && v + n <= PAGES && Freed(UnmapVaddr(s, v), s', v + 1, n - 1)
    ensures Freed(s, s', v, n)
  {
  }

  /** free_page clears exactly the entries of the block and releases exactly their frames. */
  lemma {:induction false} FreePageExact(s: State, v: nat, n: nat)
    requires v + n <= PAGES
    ensures Freed(s, FreePage(s, v, n), v, n)
    decreases n
  {
    if n == 0 {
      assert Targets(s.table, v, 0) == {};
    } else {
      FreePageExact(UnmapVaddr(s, v), v + 1, n - 1);
      FreedStep(s, FreePage(s, v, n), v, n);
    }
  }

  /** Pages v..v+n-1 hold no part of the page table. */
  predicate OffTable(s: State, v: nat, n: nat) {
    n == 0 || v + n <= s.base || s.base + 1024 <= v
  }

  lemma FreeRunIsOffTable(s: State, v: nat, n: nat)
    requires v + n <= PAGES && Unmapped(s.table, v, n) && TablePresent(s)
    ensures OffTable(s, v, n)
  {
    var w: nat := if v < s.base then s.base else v;
    if n > 0 && w < v + n && w < s.base + 1024 {
      assert TablePage(s, w);
    }
  }

  lemma {:induction false} FreePageData(s: State, v: nat, n: nat)
    requires v + n <= PAGES && OffTable(s, v, n)
    ensures OnlyTable(s, FreePage(s, v, n))
    decreases n
  {
    if n == 0 {
    } else {
      UpdateData(s, v, s.table[v].Cleared(), s.claimed - {s.table[v].address});
      FreePageData(UnmapVaddr(s, v), v + 1, n - 1);
    }
  }

  /** free_page undoes alloc_page: bitmap, data and page table are what they were, but for write bits. */
  lemma FreeUndoesAlloc(s: State, pages: U32)
    requires Owned(s) && AllocPage(s, pages).1.Page?
    ensures
      var (s1, r) := AllocPage(s, pages);
      var s' := FreePage(s1, r.page, pages);
      && s'.claimed == s.claimed && s'.base == s.base && s'.cr3 == s.cr3 && s'.image == s.image
      && (TablePresent(s) ==> OnlyTable(s, s'))
      && SameOutside(s.table, s'.table, r.page, pages)
      && (forall w: Frame :: r.page <= w < r.page + pages ==> s'.table[w] == s.table[w].(rw := false))
  {
    var (s1, r) := AllocPage(s, pages);
    FillRunSucceeds(s, r.page, pages);
    FillRunExact(s, r.page, pages);
    FreeUndoesFill(s, s1, r.page, pages);
    if TablePresent(s) {
      FillRunData(s, r.page, pages);
      FreeAfterData(s, s1, r.page, pages);
    }
  }

  lemma FreeUndoesFill(s: State, s1: State, v: nat, n: nat)
    requires Owned(s) && v + n <= PAGES && Unmapped(s.table, v, n) && Filled(s, s1, v, n)
    ensures
      var s' := FreePage(s1, v, n);
      && s'.claimed == s.claimed && s'.base == s.base && s'.cr3 == s.cr3 && s'.image == s.image
      && SameOutside(s.table, s'.table, v, n)
      && (forall w: Frame :: v <= w < v + n ==> s'.table[w] == s.table[w].(rw := false))
  {
    FreePageExact(s1, v, n);
    assert Targets(s1.table, v, n) !! s.claimed;
  }

  lemma FreeAfterData(s: State, s1: State, v: nat, n: nat)
    requires v + n <= PAGES && Unmapped(s.table, v, n) && TablePresent(s)
    requires s1.base == s.base && SameOutside(s.table, s1.table, v, n) && OnlyTable(s, s1)
    ensures OnlyTable(s, FreePage(s1, v, n))
  {
    FreeRunIsOffTable(s, v, n);
    FreePageData(s1, v, n);
    SameTable(s, s1);
  }

  /** In a sound state the whole state comes back, memory and all, iff no page of the run had a left-over write bit. */
  lemma FreeRestoresIff(s: State, guard: set<Frame>, pages: U32)
    requires Sound(s, guard) && AllocPage(s, pages).1.Page?
    ensures
      var (s1, r) := AllocPage(s, pages);
      FreePage(s1, r.page, pages) == s <==> forall w: Frame :: r.page <= w < r.page + pages ==> !s.table[w].rw
  {
    var (s1, r) := AllocPage(s, pages);
    var s' := FreePage(s1, r.page, pages);
    FreeUndoesAlloc(s, pages);
    if forall w: Frame :: r.page <= w < r.page + pages ==> !s.table[w].rw {
      assert s'.table == s.table;
      AllocConserves(s, guard, pages);
      RunIsSpared(s, guard, r.page, pages);
      FreePageConserves(s1, guard, r.page, pages);
      GuardedTable(s, guard);
      MirrorDetermines(s, s');
    }
  }

  /** The frames of the entries from i on that are both user and present. */
  ghost function UserFrames(t: Table, i: nat): set<Frame> {
    set v: Frame | i <= v && t[v].user && t[v].present :: t[v].address
  }

  /** free_all_user_pages, from entry i on: exactly the present user entries go, and exactly their frames. */
  lemma {:induction false} FreeUserExact(s: State, i: nat)
    requires i <= PAGES
    ensures
      var s' := FreeUserFrom(s, i);
      && s'.base == s.base && s'.cr3 == s.cr3 && s'.image == s.image
      && (forall v: Frame :: s'.table[v] ==
            if i <= v && s.table[v].user && s.table[v].present then s.table[v].Cleared() else s.table[v])
      && s'.claimed == s.claimed - UserFrames(s.table, i)
    decreases PAGES - i
  {
    if i == PAGES {
      assert UserFrames(s.table, i) == {};
    } else if s.table[i].user && s.table[i].present {
      var s1 := UnmapVaddr(s, i);
      FreeUserExact(s1, i + 1);
      assert forall v: Frame :: i < v ==> s1.table[v] == s.table[v];
      forall f: Frame
        ensures f in UserFrames(s.table, i) <==> f == s.table[i].address || f in UserFrames(s1.table, i + 1)
      {
        if f in UserFrames(s1.table, i + 1) {
          var v: Frame :| i + 1 <= v && s1.table[v].user && s1.table[v].present && s1.table[v].address == f;
          assert s.table[v].address == f;
        }
      }
      assert UserFrames(s.table, i) == {s.table[i].address} + UserFrames(s1.table, i + 1);
    } else {
      FreeUserExact(s, i + 1);
      assert UserFrames(s.table, i) == UserFrames(s.table, i + 1);
    }
  }

  /**
   free_all_user_pages leaves no entry both user and present, and keeps claimed the frame
   of every page that stays.
   */
  lemma FreeAllUserPages(s: State)
    requires Owned(s)
    ensures
      var s' := FreeUserFrom(s, 0);
      && (forall v: Frame :: !(s'.table[v].present && s'.table[v].user))
      && (forall v: Frame :: s.table[v].present && !s.table[v].user ==> s'.table[v] == s.table[v])
      && (forall v: Frame :: Maps(s'.table, v) ==> s'.table[v].address in s'.claimed)
      && (forall v: Frame :: s.table[v].present && s.table[v].user ==> s.table[v].address !in s'.claimed)
  {
    FreeUserExact(s, 0);
    var s' := FreeUserFrom(s, 0);
    forall v: Frame | Maps(s'.table, v) ensures s'.table[v].address !in UserFrames(s.table, 0) {
      assert Maps(s.table, v);
    }
  }

  // ---- mapping physical memory in place ----

  /** s' is s with entries v..v+n-1 mapped to the n frames from p on, wrapping, and no frame claimed. */
  ghost predicate MappedInPlace(s: State, s': State, v: nat, p: nat, n: nat)
    requires v + n <= PAGES
  {
    && s'.claimed == s.claimed && s'.base == s.base && s'.cr3 == s.cr3 && s'.image == s.image
    && SameOutside(s.table, s'.table, v, n)
    && (forall w: Frame :: v <= w < v + n ==> s'.table[w] == s.table[w].MappedTo(Wrap(p + (w - v))))
  }

  lemma {:induction false} MapSecretlyEntries(s: State, v: nat, p: nat, n: nat, w: Frame)
    requires v + n <= PAGES
    ensures
      var s' := MapSecretly(s, v, p, n);
      s'.table[w] == if v <= w < v + n then s.table[w].MappedTo(Wrap(p + (w - v))) else s.table[w]
    decreases n
  {
    if n == 0 {
    } else {
      MapSecretlyEntries(MapPageSecretly(s, v, Wrap(p)), v + 1, p + 1, n - 1, w);
      assert v < w ==> p + 1 + (w - (v + 1)) == p + (w - v);
    }
  }

  lemma {:induction false} MapSecretlyRest(s: State, v: nat, p: nat, n: nat)
    requires v + n <= PAGES
    ensures
      var s' := MapSecretly(s, v, p, n);
      s'.claimed == s.claimed && s'.base == s.base && s'.cr3 == s.cr3 && s'.image == s.image
    decreases n
  {
    if n == 0 {
    } else {
      MapSecretlyRest(MapPageSecretly(s, v, Wrap(p)), v + 1, p + 1, n - 1);
    }
  }

  lemma MapSecretlyExact(s: State, v: nat, p: nat, n: nat)
    requires v + n <= PAGES
    ensures MappedInPlace(s, MapSecretly(s, v, p, n), v, p, n)
  {
    MapSecretlyRest(s, v, p, n);
    forall w: Frame
      ensures MapSecretly(s, v, p, n).table[w] ==
                if v <= w < v + n then s.table[w].MappedTo(Wrap(p + (w - v))) else s.table[w]
    {
      MapSecretlyEntries(s, v, p, n, w);
    }
  }

  /** s' is s with entries v..v+n-1 cleared, and no frame released. */
  ghost predicate ClearedInPlace(s: State, s': State, v: nat, n: nat)
    requires v + n <= PAGES
  {
    && s'.claimed == s.claimed && s'.base == s.base && s'.cr3 == s.cr3 && s'.image == s.image
    && SameOutside(s.table, s'.table, v, n)
    && (forall w: Frame :: v <= w < v + n ==> s'.table[w] == s.table[w].Cleared())
  }

  lemma {:induction false} UnmapSecretExact(s: State, v: nat, n: nat)
    requires v + n <= PAGES
    ensures UnmapSecret(s, v, n).1 && ClearedInPlace(s, UnmapSecret(s, v, n).0, v, n)
    decreases n
  {
    if n == 0 {
    } else {
      UnmapSecretExact(TradeVaddr(s, v), v + 1, n - 1);
    }
  }

  /** Only entries of the page table are written, and memory goes on mirroring it. */
  ghost predicate KeepsData(s: State, s': State) {
    OnlyTable(s, s') && Mirrored(s') && TableApart(s')
  }

  lemma UpdateKeepsData(s: State, v: Frame, e: Pte, c: set<Frame>, s': State)
    requires Mirrored(s) && TableApart(s) && !TablePage(s, v)
    ensures Mirrored(s.Update(v, e, c)) && TableApart(s.Update(v, e, c))
    ensures KeepsData(s.Update(v, e, c), s') ==> KeepsData(s, s')
  {
    UpdateData(s, v, e, c);
    UpdateMirrors(s, v, e, c);
  }

  lemma {:induction false} MapSecretlyData(s: State, v: nat, p: nat, n: nat)
    requires v + n <= PAGES && OffTable(s, v, n) && Mirrored(s) && TableApart(s)
    ensures KeepsData(s, MapSecretly(s, v, p, n))
    decreases n
  {
    if n == 0 {
    } else {
      UpdateKeepsData(s, v, s.table[v].MappedTo(Wrap(p)), s.claimed, MapSecretly(s, v, p, n));
      MapSecretlyData(MapPageSecretly(s, v, Wrap(p)), v + 1, p + 1, n - 1);
    }
  }

  lemma {:induction false} UnmapSecretData(s: State, v: nat, n: nat)
    requires v + n <= PAGES && OffTable(s, v, n) && Mirrored(s) && TableApart(s)
    ensures KeepsData(s, UnmapSecret(s, v, n).0)
    decreases n
  {
    if n == 0 {
    } else {
      UpdateKeepsData(s, v, s.table[v].Cleared(), s.claimed, UnmapSecret(s, v, n).0);
      UnmapSecretData(TradeVaddr(s, v), v + 1, n - 1);
    }
  }

  /** get_phys_addr: 32-bit virtual to physical address through the flat table. */
  function GetPhysAddr(t: Table, vaddr: U32): U32 {
    t[vaddr / 0x1000].address * 0x1000 + vaddr % 0x1000
  }

  /** The address that map_paddr returns for physical address p when it maps at page i. */
  function MappedAddress(i: Frame, p: U32): U32 {
    i * 0x1000 + p % 0x1000
  }

  /**
   get_phys_addr inverts map_paddr on every byte of the mapped pages (modulo 2^32, as
   the frame numbers wrap), and the bitmap is not touched.
   */
  lemma MapPaddrRoundTrip(s: State, p: U32, pages: U32, d: nat)
    requires MapPaddr(s, p / 0x1000, pages).1.Page?
    requires p % 0x1000 + d < pages * 0x1000
    ensures
      var (s', r) := MapPaddr(s, p / 0x1000, pages);
      && s'.claimed == s.claimed
      && MappedAddress(r.page, p) + d <= MAX_U32
      && GetPhysAddr(s'.table, MappedAddress(r.page, p) + d) == (p + d) % 0x1_0000_0000
  {
    var (s', r) := MapPaddr(s, p / 0x1000, pages);
    var i := r.page;
    MapSecretlyExact(s, i, p / 0x1000, pages);
    var k := SplitOffset(p, d);
    var v: Frame := i + k;
    assert s'.table[v].address == Wrap(p / 0x1000 + (v - i));
    SplitAddress(i, p % 0x1000 + d, k);
    WrapBytes(p / 0x1000 + k, (p + d) % 0x1000);
  }

  /** Page number k and offset of byte d of a mapping that starts at physical address p. */
  lemma SplitOffset(p: nat, d: nat) returns (k: nat)
    ensures k == (p % 0x1000 + d) / 0x1000
    ensures (p % 0x1000 + d) % 0x1000 == (p + d) % 0x1000
    ensures p + d == (p / 0x1000 + k) * 0x1000 + (p + d) % 0x1000
  {
    k := (p % 0x1000 + d) / 0x1000;
    assert p == p / 0x1000 * 0x1000 + p % 0x1000;
    assert p % 0x1000 + d == k * 0x1000 + (p % 0x1000 + d) % 0x1000;
  }

  lemma SplitAddress(i: nat, o: nat, k: nat)
    requires k == o / 0x1000
    ensures (i * 0x1000 + o) / 0x1000 == i + k && (i * 0x1000 + o) % 0x1000 == o % 0x1000
  {
  }

  lemma WrapBytes(x: nat, o: nat)
    requires o < 0x1000
    ensures Wrap(x) * 0x1000 + o == (x * 0x1000 + o) % 0x1_0000_0000
  {
  }

  lemma UnmapSecretEntries(s: State, v: nat, p: nat, n: nat)
    requires v + n <= PAGES
    ensures
      var (s', done) := UnmapSecret(MapSecretly(s, v, p, n), v, n);
      done && ClearedInPlace(s, s', v, n)
  {
    MapSecretlyExact(s, v, p, n);
    UnmapSecretExact(MapSecretly(s, v, p, n), v, n);
  }

  lemma ClearedIsSame(s: State, s': State, v: nat, n: nat)
    requires Owned(s) && v + n <= PAGES && Unmapped(s.table, v, n) && ClearedInPlace(s, s', v, n)
    ensures s'.table == s.table <==> forall w: Frame :: v <= w < v + n ==> !s.table[w].rw
  {
  }

  /**
   unmap_secret_page after map_paddr restores everything, memory and all, iff no page of the
   run had a left-over write bit; whatever frames were mapped, the page table's own included.
   */
  lemma UnmapSecretUndoesMapPaddr(s: State, guard: set<Frame>, p: Frame, pages: U32)
    requires Sound(s, guard) && MapPaddr(s, p, pages).1.Page?
    ensures
      var (s1, r) := MapPaddr(s, p, pages);
      UnmapSecret(s1, r.page, pages) == (s, true)
      <==> forall w: Frame :: r.page <= w < r.page + pages ==> !s.table[w].rw
  {
    var i := MapPaddr(s, p, pages).1.page;
    var s' := UnmapSecret(MapSecretly(s, i, p, pages), i, pages).0;
    UnmapSecretEntries(s, i, p, pages);
    ClearedIsSame(s, s', i, pages);
    if s'.table == s.table {
      UnmapSecretMemory(s, guard, i, p, pages);
    }
  }

  lemma UnmapSecretMemory(s: State, guard: set<Frame>, v: nat, p: nat, n: nat)
    requires Guarded(s, guard) && Mirrored(s) && v + n <= PAGES && Unmapped(s.table, v, n)
    requires UnmapSecret(MapSecretly(s, v, p, n), v, n).0.table == s.table
    ensures UnmapSecret(MapSecretly(s, v, p, n), v, n).0.mem == s.mem
  {
    GuardedTable(s, guard);
    FreeRunIsOffTable(s, v, n);
    var s1 := MapSecretly(s, v, p, n);
    MapSecretlyExact(s, v, p, n);
    MapSecretlyData(s, v, p, n);
    UnmapSecretExact(s1, v, n);
    UnmapSecretData(s1, v, n);
    SameTable(s, s1);
    MirrorDetermines(s, UnmapSecret(s1, v, n).0);
  }

  /** unmap_secret_page ends properly iff its pages end by the end of the table. */
  lemma {:induction false} UnmapSecretEnds(s: State, v: nat, n: nat)
    requires v <= PAGES
    ensures UnmapSecret(s, v, n).1 <==> v + n <= PAGES
    decreases n
  {
    if n == 0 || v == PAGES {
    } else {
      UnmapSecretEnds(TradeVaddr(s, v), v + 1, n - 1);
    }
  }
}
