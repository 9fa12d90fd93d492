/**
 The pages that parent and child share after the deep copy: what the child may do to them so that
 the parent finds its frames when use_kernel_map comes back to it, and what it may not.
 */
module Sharing {
  import opened Machine
  import opened PageTables
  import opened Ownership
  import opened Allocation
  import opened UserCopies
  import opened Freeing
  import opened AddressSpaces
  import opened Runs
  import opened DeepCopy
  import opened Isolation

  // ---- one operation ----

  /** The operation frees page v or is asked to reallocate a block that it is in. */
  ghost predicate Releases(a: Space, op: Op, v: Frame) {
    match op
    case Free(start, count) => !Spares({v}, start, count)
    case Realloc(p, oldPages, _) => !Spares({v}, p, oldPages)
    case FreeAllUser => IsUser(a.state.table, v)
    case _ => false
  }

  /** Page v is present, on frame f. */
  predicate On(t: Table, v: Frame, f: Frame) {
    t[v].present && t[v].address == f
  }

  /** Page v is on frame f, or f has become another address space's. */
  ghost predicate Tracked(s: State, v: Frame, f: Frame) {
    On(s.table, v, f) || f in Foreign(s)
  }

  lemma {:induction false} FreeSpares(s: State, start: nat, n: nat, v: Frame)
    requires Spares({v}, start, n)
    ensures FreePage(s, start, n).table[v] == s.table[v]
    decreases n
  {
    if n == 0 {
    } else {
      assert Wrap(start) !in {v};
      FreeSpares(UnmapVaddr(s, Wrap(start)), start + 1, n - 1, v);
    }
  }

  lemma {:induction false} GrowSpares(s: State, i: nat, n: nat, v: Frame)
    requires i + n <= PAGES && s.table[v].present
    ensures GrowInPlace(s, i, n).table[v] == s.table[v]
    decreases n
  {
    if n == 0 {
    } else {
      GrowSpares(MapPageTo(s, i).0, i + 1, n - 1, v);
    }
  }

  lemma {:induction false} CopySpares(s: State, dst: nat, src: nat, n: nat)
    requires dst + n <= PAGES && src + n <= PAGES
    ensures CopyPages(s, dst, src, n).0.table == s.table
    decreases n
  {
    if n == 0 || !s.table[src].present || !s.table[dst].present {
    } else {
      CopySpares(s.Store(s.table[dst].address, s.Read(src)), dst + 1, src + 1, n - 1);
    }
  }

  lemma AllocSpares(s: State, pages: U32, v: Frame)
    requires s.table[v].present
    ensures AllocPage(s, pages).0.table[v] == s.table[v]
  {
    if pages > 0 {
      var i := FirstRun(s.table, pages, KERNEL_SPACE);
      if i < PAGES {
        FillRunExact(s, i, pages);
      }
    }
  }

  lemma AllocSequentialSpares(s: State, pages: U32, v: Frame)
    requires s.table[v].present
    ensures AllocSequential(s, pages).0.table[v] == s.table[v]
  {
    if pages > 0 {
      var i := FirstRun(s.table, pages, KERNEL_SPACE);
      var j := FirstFrames(s.claimed, pages, FIRST_SEQUENTIAL);
      if i < PAGES && j < PAGES {
        MapRunExact(s, i, j, pages);
      }
    }
  }

  lemma ReallocSpares(s: State, p: Frame, oldPages: U32, newPages: U32, v: Frame)
    requires p + oldPages <= MAX_U32 && s.table[v].present && Spares({v}, p, oldPages)
    ensures ReallocPage(s, p, oldPages, newPages).0.table[v] == s.table[v]
  {
    if newPages < oldPages {
      FreeSpares(s, p + newPages, oldPages - newPages, v);
    } else if oldPages < newPages && p + oldPages <= PAGES {
      var b := NextPresent(s.table, p + oldPages);
      if b < p + newPages && b < PAGES {
        MoveSpares(s, p, oldPages, newPages, v);
      } else if p + newPages <= PAGES {
        GrowSpares(s, p + oldPages, newPages - oldPages, v);
      }
    }
  }

  lemma MoveSpares(s: State, p: Frame, oldPages: U32, newPages: U32, v: Frame)
    requires p + oldPages <= PAGES && oldPages < newPages && s.table[v].present && Spares({v}, p, oldPages)
    ensures MoveBlock(s, p, oldPages, newPages).0.table[v] == s.table[v]
  {
    var (s1, r) := AllocPage(s, newPages);
    AllocSpares(s, newPages, v);
    if r != PastEnd {
      var dst := if r.Page? then r.page else 0;
      CopySpares(s1, dst, p, oldPages);
      FreeSpares(CopyPages(s1, dst, p, oldPages).0, p, oldPages, v);
    }
  }

  /** clone_user_pages either leaves a page where it is or leaves its frame behind, to the parent. */
  lemma {:induction false} CloneUserTracks(s: State, guard: set<Frame>, i: nat, v: Frame, f: Frame)
    requires Sound(s, guard) && NoUser(s.table, guard) && i <= PAGES && f >= FIRST_FRAME && Tracked(s, v, f)
    ensures Tracked(CloneUserFrom(s, i).0, v, f)
    decreases PAGES - i
  {
    if f in Foreign(s) {
      CloneUserRespects(s, guard, i);
    } else if i == PAGES {
    } else if !(s.table[i].user && s.table[i].present) {
      CloneUserTracks(s, guard, i + 1, v, f);
    } else {
      var g := FindFree(s.claimed);
      if g == 0 {
      } else {
        CopyOntoRespects(s, guard, i, g);
        CloneUserTracks(CopyOnto(s, i, g), guard, i + 1, v, f);
      }
    }
  }

  lemma CloneSpares(a: Space, v: Frame)
    requires SoundSpace(a) && Legal(a, Clone) && a.state.table[v].present
    ensures Step(a, Clone).state.table[v] == a.state.table[v]
  {
    var i :| MayClone(a.state, i);
    CloneTablesExact(a.state, a.guard, i);
    ClonedPagesPresent(a.state, i);
  }

  /** An operation that is neither a trade nor a copy leaves a page it does not release where it is. */
  lemma StepSpares(a: Space, op: Op, v: Frame, f: Frame)
    requires SoundSpace(a) && Legal(a, op) && !op.GivesAway() && !Releases(a, op, v) && On(a.state.table, v, f)
    ensures On(Step(a, op).state.table, v, f)
  {
    var s := a.state;
    match op
    case Alloc(pages) => AllocSpares(s, pages, v);
    case AllocSeq(pages) => AllocSequentialSpares(s, pages, v);
    case Free(start, count) => FreeSpares(s, start, count, v);
    case Realloc(p, oldPages, newPages) => ReallocSpares(s, p, oldPages, newPages, v);
    case FreeAllUser => FreeUserExact(s, 0);
    case Clone => CloneSpares(a, v);
    case _ =>
  }

  lemma StepTracks(a: Space, op: Op, v: Frame, f: Frame)
    requires SoundSpace(a) && Legal(a, op) && !Releases(a, op, v) && f >= FIRST_FRAME && Tracked(a.state, v, f)
    ensures Tracked(Step(a, op).state, v, f)
  {
    if f in Foreign(a.state) {
      StepKeeps(a, op);
    } else if op.CloneUser? {
      CloneUserTracks(a.state, a.guard, 0, v, f);
    } else if op.Trade? {
      TradeRespects(a.state, a.guard, op.v);
    } else {
      StepSpares(a, op, v, f);
    }
  }

  // ---- runs ----

  /** No operation of the run releases page v in the space it meets. */
  ghost predicate RunSpares(a: Space, ops: seq<Op>, v: Frame)
    requires LegalRun(a, ops)
    decreases ops
  {
    ops == [] || (!Releases(a, ops[0], v) && RunSpares(Step(a, ops[0]), ops[1..], v))
  }

  /** Over every such run the frame that page v was on stays claimed. */
  lemma {:induction false} RunTracks(a: Space, ops: seq<Op>, v: Frame, f: Frame)
    requires SoundSpace(a) && LegalRun(a, ops) && RunSpares(a, ops, v) && f >= FIRST_FRAME && Tracked(a.state, v, f)
    ensures f in Run(a, ops).state.claimed
    decreases ops
  {
    if ops == [] {
      assert On(a.state.table, v, f) ==> Maps(a.state.table, v);
    } else {
      StepKeeps(a, ops[0]);
      StepTracks(a, ops[0], v, f);
      RunTracks(Step(a, ops[0]), ops[1..], v, f);
    }
  }

  /**
   If the child frees and reallocates no page it shares with the parent, use_kernel_map comes back to a
   parent that is sound, whatever else the child did, trading, copying and writing these pages included.
   */
  lemma ReturnSound(s: State, guard: set<Frame>, i: Frame, ops: seq<Op>, d: Frame)
    requires Cloned(s, guard, i) && LegalRun(ChildSpace(s, guard, i), ops)
    requires s.base == KERNEL_BASE && ParentTable(s)[d].address == s.cr3
    requires forall v: Frame :: Shared(s, v) ==> RunSpares(ChildSpace(s, guard, i), ops, v)
    ensures SoundSpace(Space(UseKernelMap(Run(ChildSpace(s, guard, i), ops).state, d), Guard(guard, i)))
  {
    var a := ChildSpace(s, guard, i);
    ChildSpaceSound(s, guard, i);
    forall v: Frame | Shared(s, v) ensures ParentTable(s)[v].address in Run(a, ops).state.claimed {
      SharedPage(s, guard, i, v);
      RunTracks(a, ops, v, ParentTable(s)[v].address);
    }
    ReturnSoundIff(s, guard, i, ops, d);
  }

  lemma SharedPage(s: State, guard: set<Frame>, i: Frame, v: Frame)
    requires Cloned(s, guard, i) && Shared(s, v)
    ensures On(Copied(s).table, v, ParentTable(s)[v].address)
  {
    ChildSound(s, guard, i);
    CloneUserTable(Child(s), 0);
  }

  /** If it frees just one of them, legally, the parent comes back mapping a frame that is free to be handed out. */
  lemma ReturnUnsound(s: State, guard: set<Frame>, i: Frame, v: Frame, d: Frame)
    requires Cloned(s, guard, i) && Shared(s, v) && v !in Guard(guard, i)
    requires s.base == KERNEL_BASE && ParentTable(s)[d].address == s.cr3
    ensures
      var a := ChildSpace(s, guard, i);
      && LegalRun(a, [Free(v, 1)])
      && var back := UseKernelMap(Run(a, [Free(v, 1)]).state, d);
         Maps(back.table, v) && back.table[v].address !in back.claimed && !Owned(back)
  {
    var a, op := ChildSpace(s, guard, i), Free(v, 1);
    OnePage(Guard(guard, i), v);
    assert [op][0] == op && [op][1..] == [];
    assert LegalRun(Step(a, op), []);
    assert Run(a, [op]) == Run(Step(a, op), []) == Step(a, op);
    SharedPage(s, guard, i, v);
    FreePageExact(Copied(s), v, 1);
    assert ParentTable(s)[v].address in Targets(Copied(s).table, v, 1);
    Returns(s, guard, i, [op], d);
  }

  lemma OnePage(guard: set<Frame>, v: Frame)
    requires v !in guard
    ensures Spares(guard, v, 1)
  {
    assert Wrap(v) == v;
  }
}
