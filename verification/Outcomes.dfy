/**
 What single calls come to: entry by entry as the hardware finds it afterwards, and the answer and
 the state left in the cases where a call does not succeed.
 */
module Outcomes {
  import opened Machine
  import opened PageTables
  import opened Ownership
  import opened Allocation
  import opened Freeing
  import opened Reallocation
  import opened Sharing
  import opened AddressSpaces

  // ---- single entries, as the hardware finds them ----

  /** For every page but v the hardware finds what it found before. */
  ghost predicate ElsewhereAsBefore(s: State, s': State, v: Frame) {
    forall w: Frame :: w != v ==> Walk(s'.mem, s'.cr3, w) == Walk(s.mem, s.cr3, w)
  }

  lemma SeenAfterUpdate(s: State, s': State, guard: set<Frame>, v: Frame, e: Pte)
    requires Sound(s, guard) && Sound(s', guard) && s'.table == s.table[v := e]
    ensures Walk(s.mem, s.cr3, v) == s.table[v] && Walk(s'.mem, s'.cr3, v) == e
    ensures ElsewhereAsBefore(s, s', v)
  {
    WalkIsTable(s);
    WalkIsTable(s');
  }

  /** map_addr on a free page and a free frame: present, writable, and for users iff it was so marked. */
  lemma MapAddrSeen(s: State, guard: set<Frame>, v: Frame, f: Frame)
    requires Sound(s, guard) && !s.table[v].present && f !in s.claimed
    ensures
      var s' := MapAddr(s, v, f);
      && Walk(s'.mem, s'.cr3, v) == Pte(true, true, Walk(s.mem, s.cr3, v).user, f)
      && ElsewhereAsBefore(s, s', v) && s'.claimed == s.claimed + {f}
  {
    MapFresh(s, guard, v, f);
    SeenAfterUpdate(s, MapAddr(s, v, f), guard, v, s.table[v].MappedTo(f));
  }

  /** unmap_vaddr: not present any more, nothing left but the user bit, and the frame that was there released. */
  lemma UnmapSeen(s: State, guard: set<Frame>, v: Frame)
    requires Sound(s, guard) && v !in guard
    ensures
      var (s', e) := (UnmapVaddr(s, v), Walk(s.mem, s.cr3, v));
      && Walk(s'.mem, s'.cr3, v) == Pte(false, false, e.user, 0)
      && ElsewhereAsBefore(s, s', v) && s'.claimed == s.claimed - {e.address}
  {
    UnmapConserves(s, guard, v);
    SeenAfterUpdate(s, UnmapVaddr(s, v), guard, v, s.table[v].Cleared());
  }

  /** trade_vaddr: the same, but the frame stays claimed. */
  lemma TradeSeen(s: State, guard: set<Frame>, v: Frame)
    requires Sound(s, guard) && v !in guard
    ensures
      var s' := TradeVaddr(s, v);
      && Walk(s'.mem, s'.cr3, v) == Pte(false, false, Walk(s.mem, s.cr3, v).user, 0)
      && ElsewhereAsBefore(s, s', v) && s'.claimed == s.claimed
  {
    TradeRespects(s, guard, v);
    SeenAfterUpdate(s, TradeVaddr(s, v), guard, v, s.table[v].Cleared());
  }

  /** mark_user sets the user bit as it is told, and changes nothing else. */
  lemma MarkUserSeen(s: State, guard: set<Frame>, v: Frame, user: bool)
    requires Sound(s, guard)
    ensures
      var (s', e) := (MarkUser(s, v, user), Walk(s.mem, s.cr3, v));
      && Walk(s'.mem, s'.cr3, v) == Pte(e.present, e.rw, user, e.address)
      && ElsewhereAsBefore(s, s', v) && s'.claimed == s.claimed
  {
    MarkConserves(s, guard, v, s.table[v].(user := user));
    SeenAfterUpdate(s, MarkUser(s, v, user), guard, v, s.table[v].(user := user));
  }

  /** mark_write does so with the write bit. */
  lemma MarkWriteSeen(s: State, guard: set<Frame>, v: Frame, write: bool)
    requires Sound(s, guard)
    ensures
      var (s', e) := (MarkWrite(s, v, write), Walk(s.mem, s.cr3, v));
      && Walk(s'.mem, s'.cr3, v) == Pte(e.present, write, e.user, e.address)
      && ElsewhereAsBefore(s, s', v) && s'.claimed == s.claimed
  {
    MarkConserves(s, guard, v, s.table[v].(rw := write));
    SeenAfterUpdate(s, MarkWrite(s, v, write), guard, v, s.table[v].(rw := write));
  }

  /** The word of an entry: present, writable and user in bits 0 to 2, and the frame from bit 12 on. */
  lemma WordOfEntry(e: Pte)
    ensures
      var w := Encode(e);
      && (w % 2 == 1 <==> e.present) && (w / 2 % 2 == 1 <==> e.rw) && (w / 4 % 2 == 1 <==> e.user)
      && w / 8 % 512 == 0 && w / 4096 == e.address
  {
    DecodeEncode(e);
    assert Encode(e) / 8 == 512 * e.address;
  }

  // ---- map_page_to ----

  /** map_page_to answers the page iff it is not present and a frame is free; it gets the lowest, or nothing changes. */
  lemma MapPageToExact(s: State, v: Frame)
    ensures
      var (s', r) := MapPageTo(s, v);
      if !s.table[v].present && FreeHigh(s.claimed) != {} then
        && r == Page(v)
        && s'.table == s.table[v := Pte(true, true, s.table[v].user, s'.table[v].address)]
        && s'.table[v].address in FreeHigh(s.claimed)
        && (forall f: Frame :: f in FreeHigh(s.claimed) ==> s'.table[v].address <= f)
        && s'.claimed == s.claimed + {s'.table[v].address}
      else r == Null && s' == s
  {
    FindFreeIsLeast(s.claimed);
  }

  // ---- map_paddr ----

  /** map_paddr answers the lowest run of free pages, and maps it to the frames from p on. */
  lemma MapPaddrExact(s: State, p: Frame, pages: U32, i: nat)
    requires 0 < pages && LowestRun(s.table, pages, i)
    ensures
      var (s', r) := MapPaddr(s, p, pages);
      && r == Page(i) && s'.claimed == s.claimed && SameOutside(s.table, s'.table, i, pages)
      && forall w: Frame :: i <= w < i + pages ==> s'.table[w] == Pte(true, true, s.table[w].user, Wrap(p + (w - i)))
  {
    MapSecretlyExact(s, i, p, pages);
  }

  /** Without one it changes nothing, and indexes past the page table iff the last entry is free. */
  lemma MapPaddrWithoutRun(s: State, p: Frame, pages: U32)
    requires 0 < pages < MAX_U32 && NoRun(s.table, pages)
    ensures MapPaddr(s, p, pages) == (s, if s.table[PAGES - 1].present then Null else PastEnd)
  {
    if pages == 1 && !s.table[PAGES - 1].present {
      assert Unmapped(s.table, PAGES - 1, 1);
    }
  }

  /** Asked for no pages the three allocators answer null and change nothing. */
  lemma NoPages(s: State, p: Frame)
    ensures AllocPage(s, 0) == AllocSequential(s, 0) == MapPaddr(s, p, 0) == (s, Null)
  {
  }

  /** Asked for 2^32 - 1 pages alloc_page and map_paddr count nothing, since pages + 1 is 0: null, and no change. */
  lemma HugeRequest(s: State, p: Frame)
    ensures AllocPage(s, 0xFFFF_FFFF) == MapPaddr(s, p, 0xFFFF_FFFF) == (s, Null)
  {
  }

  /** Where the searches start, in numbers: page 0xC0000, frame 0x800, and for runs of frames 0x1000. */
  lemma SearchesInNumbers(s: State, pages: U32)
    ensures FindFree(s.claimed) != 0 ==> FindFree(s.claimed) >= 0x800
    ensures forall f: Frame :: 0x800 <= f && f !in s.claimed ==> 0 != FindFree(s.claimed) <= f
    ensures AllocPage(s, pages).1.Page? ==> AllocPage(s, pages).1.page >= 0xC_0000
    ensures AllocSequential(s, pages).1.Page? ==>
              AllocSequential(s, pages).1.page >= 0xC_0000
              && AllocSequential(s, pages).0.table[AllocSequential(s, pages).1.page].address >= 0x1000
  {
    FindFreeIsLeast(s.claimed);
    forall f: Frame | 0x800 <= f && f !in s.claimed ensures f in FreeHigh(s.claimed) {
    }
    if AllocSequential(s, pages).1.Page? {
      var i, j := AllocSequential(s, pages).1.page, FirstFrames(s.claimed, pages, FIRST_SEQUENTIAL);
      MapRunExact(s, i, j, pages);
      assert Wrap(j + (i - i)) == j;
    }
  }

  // ---- free_page across the end of the address space ----

  /** Page w is among the n pages from v on, counted around the end of the address space. */
  ghost predicate Met(v: nat, n: nat, w: Frame) {
    exists x: nat :: v <= x < v + n && Wrap(x) == w
  }

  lemma MetFirst(v: nat, n: nat, w: Frame)
    requires n > 0
    ensures Met(v, n, w) <==> w == Wrap(v) || Met(v + 1, n - 1, w)
  {
    if Met(v, n, w) {
      var x: nat :| v <= x < v + n && Wrap(x) == w;
      assert x == v || (v + 1 <= x < v + 1 + (n - 1));
    }
  }

  /** However many pages free_page is given, exactly those it meets are cleared. */
  lemma {:induction false} FreePageWraps(s: State, v: nat, n: nat, w: Frame)
    ensures FreePage(s, v, n).table[w] == if Met(v, n, w) then Pte(false, false, s.table[w].user, 0) else s.table[w]
    decreases n
  {
    if n == 0 {
    } else {
      MetFirst(v, n, w);
      FreePageWraps(UnmapVaddr(s, Wrap(v)), v + 1, n - 1, w);
    }
  }

  // ---- a reallocation that cannot have its block ----

  ghost predicate AllPresent(t: Table, v: nat, n: nat) {
    forall w: Frame :: v <= w < v + n ==> t[w].present
  }

  /** A copy changes `mem` only, and gets through iff all its pages are present. */
  lemma {:induction false} CopyEndsIff(s: State, dst: nat, src: nat, n: nat)
    requires dst + n <= PAGES && src + n <= PAGES
    ensures CopyPages(s, dst, src, n).0 == s.(mem := CopyPages(s, dst, src, n).0.mem)
    ensures CopyPages(s, dst, src, n).1 <==> AllPresent(s.table, dst, n) && AllPresent(s.table, src, n)
    decreases n
  {
    if n == 0 || !s.table[src].present || !s.table[dst].present {
    } else {
      CopyEndsIff(s.Store(s.table[dst].address, s.Read(src)), dst + 1, src + 1, n - 1);
    }
  }

  /** The allocation fails: without a run nothing changes, on a shortage every free frame is gone; the block stays. */
  lemma FailedAlloc(s: State, p: nat, oldPages: nat, newPages: U32)
    requires Block(s.table, p, oldPages) && 0 < newPages
    requires NoRun(s.table, newPages) || newPages > |FreeHigh(s.claimed)|
    ensures
      var (s1, r) := AllocPage(s, newPages);
      && (r == PastEnd || r == Null) && (r == PastEnd ==> s1 == s)
      && (s1 == s || FreeHigh(s1.claimed) == {})
      && forall w: Frame :: p <= w < p + oldPages ==> s1.table[w] == s.table[w] && s.table[w].present
  {
    forall w: Frame | p <= w < p + oldPages
      ensures AllocPage(s, newPages).0.table[w] == s.table[w] && s.table[w].present
    {
      assert Maps(s.table, w);
      AllocSpares(s, newPages, w);
    }
    var i := FirstRun(s.table, newPages, KERNEL_SPACE);
    if i < PAGES {
      AllocPageExact(s, newPages, i);
    }
  }

  /**
   What becomes of the old block when realloc_page has to move it and cannot: if the scan left the page table nothing
   has changed. Otherwise the block is copied to address 0. If the pages there are all present the call answers
   null, and the old block is gone, pages and frames; if one is not, the copy faults there, and the block is
   still mapped.
   */
  lemma MoveFailsExact(s: State, p: Frame, oldPages: U32, newPages: U32)
    requires Owned(s) && Block(s.table, p, oldPages) && oldPages < newPages
    requires NoRun(s.table, newPages) || newPages > |FreeHigh(s.claimed)|
    ensures
      var (s1, r1) := AllocPage(s, newPages);
      var (s', r) := MoveBlock(s, p, oldPages, newPages);
      && (r == PastEnd <==> r1 == PastEnd) && (r == PastEnd ==> s' == s)
      && (r1 == Null && AllPresent(s1.table, 0, oldPages) ==>
            r == Null && forall w: Frame :: p <= w < p + oldPages ==>
                           !s'.table[w].present && s.table[w].address !in s'.claimed)
      && (r1 == Null && !AllPresent(s1.table, 0, oldPages) ==>
            r == Fault && s'.claimed == s1.claimed && s'.table == s1.table
            && forall w: Frame :: p <= w < p + oldPages ==> s'.table[w] == s.table[w])
  {
    var (s1, r1) := AllocPage(s, newPages);
    FailedAlloc(s, p, oldPages, newPages);
    if r1 == Null {
      CopyEndsIff(s1, 0, p, oldPages);
      assert AllPresent(s1.table, p, oldPages);
      if AllPresent(s1.table, 0, oldPages) {
        var s2 := CopyPages(s1, 0, p, oldPages).0;
        FreePageExact(s2, p, oldPages);
        forall w: Frame | p <= w < p + oldPages ensures s.table[w].address in Targets(s2.table, p, oldPages) {
          assert s2.table[w].address == s.table[w].address;
        }
      }
    }
  }

  // ---- clone_tables without its pages ----

  /** If the allocation of clone_tables fails nothing has changed, unless page 0 is present and cleared. */
  lemma CloneTablesFails(s: State)
    requires !AllocSequential(s, 1025).1.Page?
    ensures AllocSequential(s, 1025).1 == PastEnd ==> CloneTables(s) == (s, PastEnd)
    ensures AllocSequential(s, 1025).1 != PastEnd && !s.table[0].present ==> CloneTables(s) == (s, Fault)
  {
    assert AllocSequential(s, 1025).0 == s;
  }

  // ---- what clone_tables writes ----

  /**
   The words behind a new address space, in bits: the entry for page v is its frame in bits 12 up with the bits of
   the flat table below, and each of the 1024 directory entries is present, writable and for users.
   */
  lemma CloneTablesWords(s: State, guard: set<Frame>, i: Frame, v: Frame, k: nat)
    requires Sound(s, guard) && AllocSequential(s, 1025).1 == Page(i) && k < 1024
    ensures
      var s' := CloneTables(s).0;
      var (dir, word) := (s'.mem[s'.table[i].address], s'.mem[s'.table[i + 1 + v / 1024].address][v % 1024]);
      && dir[k] == 4096 * s'.table[i + 1 + k].address + 7
      && word / 4096 == s'.table[v].address
      && (word % 2 == 1 <==> s'.table[v].present)
  {
    CloneTablesExact(s, guard, i);
    var s' := CloneTables(s).0;
    assert s'.mem[s'.cr3][k] == DirectoryTo(s'.table, s'.base, k);
    assert MirroredAt(s', v);
    WordOfEntry(s'.table[v]);
  }

  // ---- growing without moving ----

  /**
   Growing where there is room always answers the old address. It maps free frames, lowest first, behind the block as
   far as they go, and leaves the rest of the room unmapped.
   */
  lemma GrowsExact(s: State, p: Frame, oldPages: U32, newPages: U32)
    requires p + oldPages <= PAGES && oldPages < newPages && RoomBehind(s.table, p, oldPages, newPages)
    ensures
      var (s', r) := ReallocPage(s, p, oldPages, newPages);
      && r == Page(p)
      && Filled(s, s', p + oldPages, Min(newPages - oldPages, |FreeHigh(s.claimed)|))
  {
    ReallocFills(s, p, oldPages, newPages);
    FillRunExact(s, p + oldPages, newPages - oldPages);
  }

  /** Where the table ends before an entry stands in the way, realloc_page reads past it and changes nothing. */
  lemma GrowRunsOff(s: State, p: Frame, oldPages: U32, newPages: U32)
    requires p + oldPages <= PAGES < p + newPages && p + oldPages < MAX_U32 && oldPages < newPages
    requires forall w: Frame :: p + oldPages <= w ==> !s.table[w].present
    ensures ReallocPage(s, p, oldPages, newPages) == (s, PastEnd)
  {
  }
}
