/**
 Who owns which frame: what every operation of the page manager, and so every run
 of them, keeps. Frames from FIRST_FRAME on are the ones handed out; frames below
 belong to the kernel image and may be mapped more than once.
 */
module Ownership {
  import opened Machine
  import opened FrameBitmaps
  import opened PageTables

  predicate Maps(t: Table, v: Frame) {
    t[v].present && t[v].address >= FIRST_FRAME
  }

  /** Mapped frames are claimed, no two entries map the same one, and entries not present hold no address. */
  ghost predicate Owned(s: State) {
    && (forall v: Frame :: !s.table[v].present ==> s.table[v].address == 0)
    && (forall v: Frame :: Maps(s.table, v) ==> s.table[v].address in s.claimed)
    && (forall v: Frame, w: Frame ::
          Maps(s.table, v) && Maps(s.table, w) && s.table[v].address == s.table[w].address ==> v == w)
  }

  ghost predicate Targeted(t: Table, f: Frame) {
    exists v: Frame :: Maps(t, v) && t[v].address == f
  }

  /** Frames that are claimed though this address space does not map them: other address spaces' frames. */
  ghost function Foreign(s: State): set<Frame> {
    set f: Frame | f in s.claimed && f >= FIRST_FRAME && !Targeted(s.table, f)
  }

  ghost function FreeHigh(claimed: set<Frame>): set<Frame> {
    set f: Frame | f !in claimed && f >= FIRST_FRAME
  }

  ghost function MappedHigh(t: Table): set<Frame> {
    set v: Frame | Maps(t, v)
  }

  /** Free frames plus mapped pages. */
  ghost function Total(s: State): nat {
    |FreeHigh(s.claimed)| + |MappedHigh(s.table)|
  }

  /** Ownership holds, the guarded pages are in place, and memory holds the page table. */
  ghost predicate Sound(s: State, guard: set<Frame>) {
    Owned(s) && Guarded(s, guard) && Coherent(s)
  }

  /** All that holds afterwards too, and foreign frames stay foreign and untouched. */
  ghost predicate Respects(s: State, s': State, guard: set<Frame>) {
    && Sound(s', guard) && Steady(s, s', guard) && s'.cr3 == s.cr3
    && Foreign(s) <= Foreign(s')
    && forall f: Frame :: f in Foreign(s) ==> s'.mem[f] == s.mem[f]
  }

  /** Moreover no frame is lost to this address space, and none is won. */
  ghost predicate Conserves(s: State, s': State, guard: set<Frame>) {
    Respects(s, s', guard) && Foreign(s') == Foreign(s)
  }

  // ---- single steps ----

  /** Rewriting entry v to e changes who is targeted only by what entry v was and is. */
  lemma TargetsAfter(t: Table, v: Frame, e: Pte, g: Frame)
    requires g >= FIRST_FRAME
    requires e.present ==> e.address != g
    requires Maps(t, v) ==> t[v].address != g
    ensures Targeted(t[v := e], g) <==> Targeted(t, g)
  {
    if Targeted(t, g) {
      var w: Frame :| Maps(t, w) && t[w].address == g;
      assert Maps(t[v := e], w);
    }
    if Targeted(t[v := e], g) {
      var w: Frame :| Maps(t[v := e], w) && t[v := e][w].address == g;
      assert Maps(t, w);
    }
  }

  /** No word of the page table is on a foreign frame. */
  lemma ForeignHoldsNoTable(s: State, guard: set<Frame>, f: Frame)
    requires Guarded(s, guard) && f in Foreign(s)
    ensures !TableFrame(s, f)
  {
  }

  /** From an update of one entry to all that it respects. */
  lemma UpdateRespects(s: State, guard: set<Frame>, v: Frame, e: Pte, c: set<Frame>)
    requires Sound(s, guard) && Harmless(s, guard, v, e, c)
    requires Owned(s.Update(v, e, c)) && Foreign(s) <= Foreign(s.Update(v, e, c))
    ensures Respects(s, s.Update(v, e, c), guard)
  {
    UpdateKeepsGuard(s, guard, v, e, c);
    UpdateKeepsMirror(s, guard, v, e, c);
    forall f: Frame | f in Foreign(s) ensures s.Update(v, e, c).mem[f] == s.mem[f] {
      ForeignHoldsNoTable(s, guard, f);
    }
  }

  lemma MapFreshForeign(s: State, v: Frame, f: Frame)
    requires Owned(s) && !s.table[v].present && f !in s.claimed
    ensures Owned(MapAddr(s, v, f)) && Foreign(MapAddr(s, v, f)) == Foreign(s)
  {
    var s' := MapAddr(s, v, f);
    forall g: Frame ensures g in Foreign(s') <==> g in Foreign(s) {
      if g >= FIRST_FRAME && g != f {
        TargetsAfter(s.table, v, s'.table[v], g);
      } else if g == f >= FIRST_FRAME {
        assert Maps(s'.table, v);
      }
    }
  }

  lemma MapFresh(s: State, guard: set<Frame>, v: Frame, f: Frame)
    requires Sound(s, guard) && !s.table[v].present && f !in s.claimed
    ensures Conserves(s, MapAddr(s, v, f), guard)
  {
    MapFreshForeign(s, v, f);
    UpdateRespects(s, guard, v, s.table[v].MappedTo(f), s.claimed + {f});
  }

  lemma UnmapForeign(s: State, v: Frame)
    requires Owned(s)
    ensures Owned(UnmapVaddr(s, v)) && Foreign(UnmapVaddr(s, v)) == Foreign(s)
  {
    var s' := UnmapVaddr(s, v);
    forall g: Frame ensures g in Foreign(s') <==> g in Foreign(s) {
      if g >= FIRST_FRAME {
        if g != s.table[v].address {
          TargetsAfter(s.table, v, s'.table[v], g);
        } else {
          assert Maps(s.table, v) && Targeted(s.table, g);
        }
      }
    }
  }

  /** Even on an entry that is not present, where frame 0 is released. */
  lemma UnmapConserves(s: State, guard: set<Frame>, v: Frame)
    requires Sound(s, guard) && v !in guard
    ensures Conserves(s, UnmapVaddr(s, v), guard)
  {
    UnmapForeign(s, v);
    UpdateRespects(s, guard, v, s.table[v].Cleared(), s.claimed - {s.table[v].address});
  }

  lemma TradeForeign(s: State, v: Frame)
    requires Owned(s)
    ensures Owned(TradeVaddr(s, v))
    ensures Foreign(TradeVaddr(s, v)) == Foreign(s) + if Maps(s.table, v) then {s.table[v].address} else {}
  {
    var s' := TradeVaddr(s, v);
    forall g: Frame ensures g in Foreign(s') <==> g in Foreign(s) || (Maps(s.table, v) && g == s.table[v].address) {
      if g >= FIRST_FRAME {
        if g != s.table[v].address {
          TargetsAfter(s.table, v, s'.table[v], g);
        } else {
          assert Maps(s.table, v);
          assert forall w: Frame :: Maps(s'.table, w) ==> Maps(s.table, w) && w != v;
        }
      }
    }
  }

  /** The frame of a traded page becomes foreign. */
  lemma TradeRespects(s: State, guard: set<Frame>, v: Frame)
    requires Sound(s, guard) && v !in guard
    ensures Respects(s, TradeVaddr(s, v), guard)
    ensures Foreign(TradeVaddr(s, v)) == Foreign(s) + if Maps(s.table, v) then {s.table[v].address} else {}
  {
    TradeForeign(s, v);
    UpdateRespects(s, guard, v, s.table[v].Cleared(), s.claimed);
  }

  lemma MarkForeign(s: State, v: Frame, e: Pte)
    requires Owned(s) && e.present == s.table[v].present && e.address == s.table[v].address
    ensures Owned(s.Update(v, e, s.claimed))
    ensures Foreign(s.Update(v, e, s.claimed)) == Foreign(s)
  {
    var s' := s.Update(v, e, s.claimed);
    assert forall w: Frame :: Maps(s'.table, w) <==> Maps(s.table, w);
    forall g: Frame ensures Targeted(s'.table, g) <==> Targeted(s.table, g) {
      if Targeted(s.table, g) {
        var w: Frame :| Maps(s.table, w) && s.table[w].address == g;
        assert Maps(s'.table, w);
      }
      if Targeted(s'.table, g) {
        var w: Frame :| Maps(s'.table, w) && s'.table[w].address == g;
        assert Maps(s.table, w);
      }
    }
  }

  /** Changing an entry's permission bits changes no ownership, even on a guarded page. */
  lemma MarkConserves(s: State, guard: set<Frame>, v: Frame, e: Pte)
    requires Sound(s, guard) && e.present == s.table[v].present && e.address == s.table[v].address
    ensures Conserves(s, s.Update(v, e, s.claimed), guard)
  {
    MarkForeign(s, v, e);
    UpdateRespects(s, guard, v, e, s.claimed);
  }

  /** A write through a present page reaches no foreign frame. */
  lemma StoreConserves(s: State, guard: set<Frame>, v: Frame, c: Content)
    requires Sound(s, guard) && s.table[v].present && v !in guard
    ensures Conserves(s, s.Store(s.table[v].address, c), guard)
  {
    var f := s.table[v].address;
    StoreKeeps(s, guard, f, c);
    assert f >= FIRST_FRAME ==> Maps(s.table, v) && Targeted(s.table, f);
    assert Foreign(s.Store(f, c)) == Foreign(s);
  }

  /** Nor does a change of the kernel's variables. */
  lemma VariablesConserve(s: State, guard: set<Frame>, v: Frame, c: Content)
    requires Sound(s, guard) && s.table[v].present && s.table[v].address in s.image
    ensures Conserves(s, s.Store(s.table[v].address, c), guard)
  {
    var f := s.table[v].address;
    VariableKeeps(s, guard, f, c);
    assert f >= FIRST_FRAME ==> Maps(s.table, v) && Targeted(s.table, f);
    assert Foreign(s.Store(f, c)) == Foreign(s);
  }

  lemma CopyOntoForeign(s: State, i: Frame, f: Frame)
    requires Owned(s) && s.table[i].present && f !in s.claimed && f >= FIRST_FRAME
    ensures Owned(CopyOnto(s, i, f)) && Foreign(s) <= Foreign(CopyOnto(s, i, f))
    ensures Maps(s.table, i) ==> s.table[i].address in Foreign(CopyOnto(s, i, f))
  {
  }

  /** The frame a page is copied away from becomes foreign: it is the parent's now. */
  lemma CopyOntoRespects(s: State, guard: set<Frame>, i: Frame, f: Frame)
    requires Sound(s, guard) && s.table[i].present && i !in guard && f !in s.claimed && f >= FIRST_FRAME
    ensures Respects(s, CopyOnto(s, i, f), guard)
    ensures Maps(s.table, i) ==> s.table[i].address in Foreign(CopyOnto(s, i, f))
  {
    CopyOntoForeign(s, i, f);
    CopyOntoKeeps(s, guard, i, f);
    forall g: Frame | g in Foreign(s) ensures CopyOnto(s, i, f).mem[g] == s.mem[g] {
      ForeignHoldsNoTable(s, guard, g);
    }
  }

  /** The three writes of copying a page: entry, contents, entry. */
  lemma CopyOntoKeeps(s: State, guard: set<Frame>, i: Frame, f: Frame)
    requires Guarded(s, guard) && Coherent(s) && s.table[i].present && i !in guard && f !in s.claimed
    ensures
      var s' := CopyOnto(s, i, f);
      && Guarded(s', guard) && Coherent(s') && Steady(s, s', guard)
      && (forall g: Frame :: g != f && !TableFrame(s, g) ==> s'.mem[g] == s.mem[g])
      && s'.mem[f] == s.Read(i)
  {
    var e := s.table[i].(address := f);
    var s1 := s.Update(i, e.(rw := true), s.claimed + {f});
    UpdateKeepsGuard(s, guard, i, e.(rw := true), s.claimed + {f});
    UpdateKeepsMirror(s, guard, i, e.(rw := true), s.claimed + {f});
    var s2 := s1.Store(f, s.Read(i));
    StoreKeeps(s1, guard, f, s.Read(i));
    UpdateKeepsGuard(s2, guard, i, e, s2.claimed);
    UpdateKeepsMirror(s2, guard, i, e, s2.claimed);
    SteadyTrans(s, s1, s2, guard, guard);
    SteadyTrans(s, s2, CopyOnto(s, i, f), guard, guard);
    SameTableFrames(s, s2, guard);
    FreshIsNoTable(s, guard, f);
  }

  lemma ConservesRefl(s: State, guard: set<Frame>)
    requires Sound(s, guard)
    ensures Conserves(s, s, guard)
  {
  }

  lemma ConservesTrans(a: State, b: State, c: State, guard: set<Frame>)
    requires Conserves(a, b, guard) && Conserves(b, c, guard)
    ensures Conserves(a, c, guard)
  {
  }

  // ---- the loops ----

  lemma {:induction false} FillRunConserves(s: State, guard: set<Frame>, v: nat, n: nat)
    requires Sound(s, guard) && v + n <= PAGES && Unmapped(s.table, v, n)
    ensures Conserves(s, FillRun(s, v, n).0, guard)
    decreases n
  {
    var f := FindFree(s.claimed);
    if n == 0 || f == 0 {
    } else {
      MapFresh(s, guard, v, f);
      FillRunConserves(MapAddr(s, v, f), guard, v + 1, n - 1);
      ConservesTrans(s, MapAddr(s, v, f), FillRun(s, v, n).0, guard);
    }
  }

  lemma WrapInjective(x: nat, y: nat)
    requires x < y < x + PAGES
    ensures Wrap(x) != Wrap(y)
  {
  }

  lemma FreeFramesLeft(claimed: set<Frame>, f: nat, n: nat)
    requires 0 < n <= PAGES && FreeFrames(claimed, f, n)
    ensures Wrap(f) !in claimed && FreeFrames(claimed + {Wrap(f)}, f + 1, n - 1)
  {
    forall x: nat | f + 1 <= x < f + n ensures Wrap(x) !in claimed + {Wrap(f)} {
      WrapInjective(f, x);
    }
  }

  /** Pages v..v+n-1 are free, and so are n frames from f on. */
  ghost predicate RunIsFree(s: State, v: nat, f: nat, n: nat) {
    v + n <= PAGES && Unmapped(s.table, v, n) && FreeFrames(s.claimed, f, n)
  }

  lemma MapRunFirst(s0: State, s: State, guard: set<Frame>, v: nat, f: nat, n: nat)
    requires Conserves(s0, s, guard) && 0 < n && RunIsFree(s, v, f, n)
    ensures Conserves(s0, MapAddr(s, v, Wrap(f)), guard)
    ensures RunIsFree(MapAddr(s, v, Wrap(f)), v + 1, f + 1, n - 1)
  {
    FreeFramesLeft(s.claimed, f, n);
    MapFresh(s, guard, v, Wrap(f));
    ConservesTrans(s0, s, MapAddr(s, v, Wrap(f)), guard);
  }

  lemma {:induction false} MapRunConserves(s0: State, s: State, guard: set<Frame>, v: nat, f: nat, n: nat)
    requires Conserves(s0, s, guard) && RunIsFree(s, v, f, n)
    ensures Conserves(s0, MapRun(s, v, f, n), guard)
    decreases n
  {
    if n == 0 {
    } else {
      MapRunFirst(s0, s, guard, v, f, n);
      MapRunConserves(s0, MapAddr(s, v, Wrap(f)), guard, v + 1, f + 1, n - 1);
    }
  }

  /** None of the n pages from v on, wrapping at the end of the address space, is guarded. */
  ghost predicate Spares(guard: set<Frame>, v: nat, n: nat) {
    forall x: nat :: v <= x < v + n ==> Wrap(x) !in guard
  }

  lemma {:induction false} FreePageConserves(s: State, guard: set<Frame>, v: nat, n: nat)
    requires Sound(s, guard) && Spares(guard, v, n)
    ensures Conserves(s, FreePage(s, v, n), guard)
    decreases n
  {
    if n == 0 {
    } else {
      UnmapConserves(s, guard, Wrap(v));
      FreePageConserves(UnmapVaddr(s, Wrap(v)), guard, v + 1, n - 1);
    }
  }

  /** No guarded page carries the user bit. */
  ghost predicate NoUser(t: Table, guard: set<Frame>) {
    forall w :: w in guard ==> !t[w].user
  }

  lemma {:induction false} FreeUserConserves(s: State, guard: set<Frame>, i: nat)
    requires Sound(s, guard) && NoUser(s.table, guard) && i <= PAGES
    ensures Conserves(s, FreeUserFrom(s, i), guard)
    decreases PAGES - i
  {
    if i == PAGES {
    } else if s.table[i].user && s.table[i].present {
      UnmapConserves(s, guard, i);
      FreeUserConserves(UnmapVaddr(s, i), guard, i + 1);
    } else {
      FreeUserConserves(s, guard, i + 1);
    }
  }

  lemma {:induction false} CopyPagesConserves(s: State, guard: set<Frame>, dst: nat, src: nat, n: nat)
    requires Sound(s, guard) && dst + n <= PAGES && src + n <= PAGES && Spares(guard, dst, n)
    ensures Conserves(s, CopyPages(s, dst, src, n).0, guard)
    decreases n
  {
    if n == 0 || !s.table[src].present || !s.table[dst].present {
    } else {
      assert Wrap(dst) == dst;
      StoreConserves(s, guard, dst, s.Read(src));
      var s1 := s.Store(s.table[dst].address, s.Read(src));
      CopyPagesConserves(s1, guard, dst + 1, src + 1, n - 1);
      ConservesTrans(s, s1, CopyPages(s, dst, src, n).0, guard);
    }
  }

  lemma MapPageToConserves(s: State, guard: set<Frame>, v: Frame)
    requires Sound(s, guard)
    ensures Conserves(s, MapPageTo(s, v).0, guard)
  {
    var f := FindFree(s.claimed);
    if !s.table[v].present && f != 0 {
      MapFresh(s, guard, v, f);
    }
  }

  lemma {:induction false} GrowConserves(s: State, guard: set<Frame>, v: nat, n: nat)
    requires Sound(s, guard) && v + n <= PAGES
    ensures Conserves(s, GrowInPlace(s, v, n), guard)
    decreases n
  {
    if n == 0 {
    } else {
      MapPageToConserves(s, guard, v);
      GrowConserves(MapPageTo(s, v).0, guard, v + 1, n - 1);
    }
  }

  lemma AllocConserves(s: State, guard: set<Frame>, pages: U32)
    requires Sound(s, guard)
    ensures Conserves(s, AllocPage(s, pages).0, guard)
  {
    if pages > 0 {
      var i := FirstRun(s.table, pages, KERNEL_SPACE);
      if i < PAGES {
        FillRunConserves(s, guard, i, pages);
      }
    }
  }

  lemma AllocSequentialConserves(s: State, guard: set<Frame>, pages: U32)
    requires Sound(s, guard)
    ensures Conserves(s, AllocSequential(s, pages).0, guard)
  {
    if pages > 0 {
      var i := FirstRun(s.table, pages, KERNEL_SPACE);
      var j := FirstFrames(s.claimed, pages, FIRST_SEQUENTIAL);
      if i < PAGES && j < PAGES {
        ConservesRefl(s, guard);
        MapRunConserves(s, s, guard, i, j, pages);
      }
    }
  }

  /** The pages that are free before an allocation are not guarded. */
  lemma RunIsSpared(s: State, guard: set<Frame>, i: nat, n: nat)
    requires Guarded(s, guard) && i + n <= PAGES && Unmapped(s.table, i, n)
    ensures Spares(guard, i, n)
  {
  }

  /** The block is not guarded, nor are the pages it is copied to should the allocation fail. */
  ghost predicate MaySpare(guard: set<Frame>, p: nat, oldPages: nat) {
    Spares(guard, p, oldPages) && Spares(guard, 0, oldPages)
  }

  lemma MoveConserves(s: State, guard: set<Frame>, p: Frame, oldPages: U32, newPages: U32)
    requires Sound(s, guard) && p + oldPages <= PAGES && oldPages < newPages && MaySpare(guard, p, oldPages)
    ensures Conserves(s, MoveBlock(s, p, oldPages, newPages).0, guard)
  {
    var (s1, r) := AllocPage(s, newPages);
    AllocConserves(s, guard, newPages);
    if r != PastEnd {
      var dst := if r.Page? then r.page else 0;
      if r.Page? {
        RunIsSpared(s, guard, dst, newPages);
      }
      CopyPagesConserves(s1, guard, dst, p, oldPages);
      FreePageConserves(CopyPages(s1, dst, p, oldPages).0, guard, p, oldPages);
    }
  }

  lemma ReallocConserves(s: State, guard: set<Frame>, p: Frame, oldPages: U32, newPages: U32)
    requires Sound(s, guard) && p + oldPages <= MAX_U32 && MaySpare(guard, p, oldPages)
    ensures Conserves(s, ReallocPage(s, p, oldPages, newPages).0, guard)
  {
    if newPages < oldPages {
      FreePageConserves(s, guard, p + newPages, oldPages - newPages);
    } else if oldPages < newPages && p + oldPages <= PAGES {
      var b := NextPresent(s.table, p + oldPages);
      if b < p + newPages && b < PAGES {
        MoveConserves(s, guard, p, oldPages, newPages);
      } else if p + newPages <= PAGES {
        GrowConserves(s, guard, p + oldPages, newPages - oldPages);
      }
    }
  }

  lemma {:induction false} CloneUserRespects(s: State, guard: set<Frame>, i: nat)
    requires Sound(s, guard) && NoUser(s.table, guard) && i <= PAGES
    ensures Respects(s, CloneUserFrom(s, i).0, guard)
    decreases PAGES - i
  {
    if i == PAGES {
    } else if !(s.table[i].user && s.table[i].present) {
      CloneUserRespects(s, guard, i + 1);
    } else {
      var f := FindFree(s.claimed);
      if f == 0 {
      } else {
        var s1 := CopyOnto(s, i, f);
        CopyOntoRespects(s, guard, i, f);
        CloneUserRespects(s1, guard, i + 1);
        SteadyTrans(s, s1, CloneUserFrom(s1, i + 1).0, guard, guard);
      }
    }
  }

  // ---- accounting ----

  lemma {:induction false} DistinctFrames(t: Table, vs: set<Frame>)
    requires forall v: Frame, w: Frame :: v in vs && w in vs && t[v].address == t[w].address ==> v == w
    ensures |set v | v in vs :: t[v].address| == |vs|
    decreases |vs|
  {
    var frames := set v | v in vs :: t[v].address;
    if vs == {} {
      assert frames == {};
    } else {
      var v :| v in vs;
      DistinctFrames(t, vs - {v});
      assert frames == (set w | w in vs - {v} :: t[w].address) + {t[v].address};
    }
  }

  lemma HighFrames()
    ensures |FreeHigh({})| == PAGES - FIRST_FRAME
  {
    FreeBelowStretch({}, 0, FIRST_FRAME, true);
    FreeBelowStretch({}, FIRST_FRAME, PAGES - FIRST_FRAME, true);
    assert FreeBelow({}, 0) == {};
    assert FreeBelow({}, PAGES) == FreeBelow({}, FIRST_FRAME) + FreeHigh({});
  }

  ghost function MappedFrames(t: Table): set<Frame> {
    set v | v in MappedHigh(t) :: t[v].address
  }

  lemma MappedIffTargeted(t: Table, f: Frame)
    ensures f in MappedFrames(t) <==> Targeted(t, f)
  {
  }

  /** Every frame from FIRST_FRAME on is free, or mapped by exactly one page, or foreign. */
  lemma Accounting(s: State)
    requires Owned(s)
    ensures Total(s) + |Foreign(s)| == PAGES - FIRST_FRAME
  {
    var free, mapped, foreign := FreeHigh(s.claimed), MappedFrames(s.table), Foreign(s);
    DistinctFrames(s.table, MappedHigh(s.table));
    HighFrames();
    forall f: Frame
      ensures f in FreeHigh({}) <==> f in free + mapped + foreign
      ensures f in mapped ==> f !in free && f !in foreign
    {
      MappedIffTargeted(s.table, f);
    }
    assert FreeHigh({}) == free + mapped + foreign;
    assert |free + mapped| == |free| + |mapped|;
    assert |free + mapped + foreign| == |free + mapped| + |foreign|;
  }

  /** free_pages counts the frames that can be handed out, as long as the kernel's are all claimed. */
  lemma FreePagesCounts(claimed: set<Frame>)
    ensures |FreeBelow(claimed, PAGES)| == |FreeHigh(claimed)| + |FreeBelow(claimed, FIRST_FRAME)|
  {
    assert FreeBelow(claimed, PAGES) == FreeHigh(claimed) + FreeBelow(claimed, FIRST_FRAME);
  }
}
