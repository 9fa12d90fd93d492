/**
 Whole runs of one address space: any sequence of calls of the page manager and of writes
 through its pages, as long as the pages that hold page tables and directories are left alone.
 */
module Runs {
  import opened Machine
  import opened PageTables
  import opened Ownership
  import opened AddressSpaces

  /**
   An address space, and the pages in it that are guarded: those that hold page tables and directories,
   its own and its ancestors', and those of the kernel's image.
   */
  datatype Space = Space(state: State, guard: set<Frame>)

  /**
   Calls of the page manager, `Write`s of the program through its pages, and at any time any change
   of the kernel's own variables.
   */
  datatype Op =
    | Alloc(pages: U32)
    | AllocSeq(pages: U32)
    | MapTo(v: Frame)
    | Free(start: Frame, count: U32)
    | Realloc(p: Frame, oldPages: U32, newPages: U32)
    | FreeAllUser
    | SetUser(v: Frame, user: bool)
    | SetWrite(v: Frame, write: bool)
    | Trade(v: Frame)
    | CloneUser
    | Clone
    | Write(v: Frame, c: Content)
    | Variables(v: Frame, c: Content)
  {
    /** Operations that hand frames over to another address space. */
    predicate GivesAway() {
      Trade? || CloneUser?
    }
  }

  /** The state is sound, and its directory and the kernel's variables are under guarded pages. */
  ghost predicate SoundSpace(a: Space) {
    Sound(a.state, a.guard) && Reaches(a.state, a.guard)
  }

  /**
   The operation frees, trades, moves, copies and writes no guarded page; the end of a block to
   be reallocated does not overflow 32 bits, and clone_tables gets its pages.
   */
  ghost predicate Legal(a: Space, op: Op) {
    match op
    case Alloc(_) | AllocSeq(_) | MapTo(_) | SetUser(_, _) | SetWrite(_, _) => true
    case Free(start, count) => Spares(a.guard, start, count)
    case Realloc(p, oldPages, _) => p + oldPages <= MAX_U32 && MaySpare(a.guard, p, oldPages)
    case FreeAllUser => NoUser(a.state.table, a.guard)
    case CloneUser => NoUser(a.state.table, a.guard)
    case Trade(v) => v !in a.guard
    case Write(v, _) => v !in a.guard
    case Variables(v, _) => a.state.table[v].present && a.state.table[v].address in a.state.image
    case Clone => exists i :: MayClone(a.state, i)
  }

  ghost function Step(a: Space, op: Op): Space
    requires Legal(a, op)
  {
    var s := a.state;
    match op
    case Alloc(pages) => a.(state := AllocPage(s, pages).0)
    case AllocSeq(pages) => a.(state := AllocSequential(s, pages).0)
    case MapTo(v) => a.(state := MapPageTo(s, v).0)
    case Free(start, count) => a.(state := FreePage(s, start, count))
    case Realloc(p, oldPages, newPages) => a.(state := ReallocPage(s, p, oldPages, newPages).0)
    case FreeAllUser => a.(state := FreeUserFrom(s, 0))
    case SetUser(v, user) => a.(state := MarkUser(s, v, user))
    case SetWrite(v, write) => a.(state := MarkWrite(s, v, write))
    case Trade(v) => a.(state := TradeVaddr(s, v))
    case CloneUser => a.(state := CloneUserFrom(s, 0).0)
    case Clone => AfterClone(a)
    case Write(v, c) => if s.table[v].present then a.(state := s.Store(s.table[v].address, c)) else a
    case Variables(v, c) => a.(state := s.Store(s.table[v].address, c))
  }

  /** The child that clone_tables switches to. */
  ghost function AfterClone(a: Space): Space
    requires exists i :: MayClone(a.state, i)
  {
    Space(CloneTables(a.state).0, a.guard + NewPages(AllocSequential(a.state, 1025).1.page))
  }

  /**
   The space is sound, the guarded pages are where they were, those of ancestors' page tables and
   of directories hold what they held, and foreign frames stayed foreign and were not written.
   */
  ghost predicate Keeps(a: Space, b: Space) {
    && SoundSpace(b) && a.guard <= b.guard
    && Steady(a.state, b.state, a.guard)
    && Foreign(a.state) <= Foreign(b.state)
    && forall f: Frame :: f in Foreign(a.state) ==> b.state.mem[f] == a.state.mem[f]
  }

  lemma CloneKeeps(a: Space)
    requires SoundSpace(a) && Legal(a, Clone)
    ensures Keeps(a, Step(a, Clone)) && Foreign(Step(a, Clone).state) == Foreign(a.state)
  {
    var i :| MayClone(a.state, i);
    CloneTablesExact(a.state, a.guard, i);
    CloneTablesSound(a.state, a.guard, i);
    ReachesInClone(a.state, CloneTables(a.state).0, a.guard, i);
  }

  lemma GivingKeeps(a: Space, op: Op)
    requires SoundSpace(a) && Legal(a, op) && op.GivesAway()
    ensures Keeps(a, Step(a, op))
  {
    match op {
      case Trade(v) => TradeRespects(a.state, a.guard, v);
      case CloneUser => CloneUserRespects(a.state, a.guard, 0);
    }
    ReachesStays(a.state, Step(a, op).state, a.guard);
  }

  lemma StepConserves(a: Space, op: Op)
    requires SoundSpace(a) && Legal(a, op) && !op.GivesAway() && op != Clone
    ensures Step(a, op).guard == a.guard && Conserves(a.state, Step(a, op).state, a.guard)
  {
    var s, guard := a.state, a.guard;
    match op
    case Alloc(pages) => AllocConserves(s, guard, pages);
    case AllocSeq(pages) => AllocSequentialConserves(s, guard, pages);
    case MapTo(v) => MapPageToConserves(s, guard, v);
    case Free(start, count) => FreePageConserves(s, guard, start, count);
    case Realloc(p, oldPages, newPages) => ReallocConserves(s, guard, p, oldPages, newPages);
    case FreeAllUser => FreeUserConserves(s, guard, 0);
    case SetUser(v, user) => MarkConserves(s, guard, v, s.table[v].(user := user));
    case SetWrite(v, write) => MarkConserves(s, guard, v, s.table[v].(rw := write));
    case Write(v, c) =>
      ConservesRefl(s, guard);
      if s.table[v].present {
        StoreConserves(s, guard, v, c);
      }
    case Variables(v, c) => VariablesConserve(s, guard, v, c);
  }

  lemma StepKeeps(a: Space, op: Op)
    requires SoundSpace(a) && Legal(a, op)
    ensures Keeps(a, Step(a, op))
    ensures !op.GivesAway() ==> Foreign(Step(a, op).state) == Foreign(a.state)
  {
    if op.GivesAway() {
      GivingKeeps(a, op);
    } else if op == Clone {
      CloneKeeps(a);
    } else {
      StepConserves(a, op);
      ReachesStays(a.state, Step(a, op).state, a.guard);
    }
  }

  lemma KeepsTrans(a: Space, b: Space, c: Space)
    requires Keeps(a, b) && Keeps(b, c)
    ensures Keeps(a, c)
  {
  }

  // ---- runs ----

  /** Each operation is legal in the space it meets. */
  ghost predicate LegalRun(a: Space, ops: seq<Op>)
    decreases ops
  {
    ops == [] || (Legal(a, ops[0]) && LegalRun(Step(a, ops[0]), ops[1..]))
  }

  ghost function Run(a: Space, ops: seq<Op>): Space
    requires LegalRun(a, ops)
    decreases ops
  {
    if ops == [] then a else Run(Step(a, ops[0]), ops[1..])
  }

  /**
   Over every legal run: no frame is ever mapped twice, every mapped frame is claimed, memory
   holds the page table, the tables and directories of ancestors stay as they are, and the
   frames of other address spaces are neither handed out, nor released, nor written.
   */
  lemma {:induction false} RunKeeps(a: Space, ops: seq<Op>)
    requires SoundSpace(a) && LegalRun(a, ops)
    ensures Keeps(a, Run(a, ops))
    decreases ops
  {
    if ops == [] {
    } else {
      var b := Step(a, ops[0]);
      StepKeeps(a, ops[0]);
      RunKeeps(b, ops[1..]);
      KeepsTrans(a, b, Run(b, ops[1..]));
    }
  }

  /**
   After every legal run the hardware, walking memory from cr3, goes by the flat table the kernel
   goes by, and the kernel reads that same table in memory.
   */
  lemma RunTranslates(a: Space, ops: seq<Op>)
    requires SoundSpace(a) && LegalRun(a, ops)
    ensures
      var s := Run(a, ops).state;
      && (forall v: Frame :: Walk(s.mem, s.cr3, v) == s.table[v])
      && TableAt(s.mem, s.table, s.base) == s.table
  {
    RunKeeps(a, ops);
    WalkIsTable(Run(a, ops).state);
    ViewIsTable(Run(a, ops).state);
  }

  ghost predicate KeepsAll(ops: seq<Op>) {
    forall k :: 0 <= k < |ops| ==> !ops[k].GivesAway()
  }

  lemma {:induction false} ForeignKept(a: Space, ops: seq<Op>)
    requires SoundSpace(a) && LegalRun(a, ops) && KeepsAll(ops)
    ensures Foreign(Run(a, ops).state) == Foreign(a.state)
    decreases ops
  {
    if ops == [] {
    } else {
      StepKeeps(a, ops[0]);
      ForeignKept(Step(a, ops[0]), ops[1..]);
    }
  }

  /** Over every legal run that gives nothing away, free frames plus mapped pages stay the same in number. */
  lemma RunConserves(a: Space, ops: seq<Op>)
    requires SoundSpace(a) && LegalRun(a, ops) && KeepsAll(ops)
    ensures Total(Run(a, ops).state) == Total(a.state) && Foreign(Run(a, ops).state) == Foreign(a.state)
  {
    ForeignKept(a, ops);
    RunKeeps(a, ops);
    Accounting(a.state);
    Accounting(Run(a, ops).state);
  }

  // ---- ancestors ----

  /**
   The table and directory of p lie under guarded pages of a that are not those of a's own table,
   nor of variables.
   */
  ghost predicate Ancestor(p: State, a: Space) {
    && Coherent(p) && p.mem == a.state.mem && p.image == a.state.image
    && (forall w: Frame :: TablePage(p, w) ==> Holds(a, w, p.table[w].address))
    && exists d :: Holds(a, d, p.cr3)
  }

  /** Guarded page w is on frame f, which holds a table or directory other than the table in use. */
  ghost predicate Holds(a: Space, w: Frame, f: Frame) {
    w in a.guard && !TablePage(a.state, w) && a.state.table[w].address == f && f !in a.state.image
  }

  lemma AncestorCoherent(p: State, a: Space, ops: seq<Op>)
    requires SoundSpace(a) && LegalRun(a, ops) && Ancestor(p, a)
    ensures Coherent(p.(mem := Run(a, ops).state.mem))
  {
    RunKeeps(a, ops);
    var p' := p.(mem := Run(a, ops).state.mem);
    forall v: Frame ensures MirroredAt(p', v) {
      assert MirroredAt(p, v);
      assert TablePage(p, p.base + v / 1024);
    }
    assert Directed(p');
  }

  /** No legal run changes what an ancestor's directory leads to: its translations stay, page by page. */
  lemma AncestorTranslates(p: State, a: Space, ops: seq<Op>)
    requires SoundSpace(a) && LegalRun(a, ops) && Ancestor(p, a)
    ensures forall v: Frame :: Walk(Run(a, ops).state.mem, p.cr3, v) == p.table[v]
  {
    AncestorCoherent(p, a, ops);
    WalkIsTable(p.(mem := Run(a, ops).state.mem));
  }

  /** After every legal run use_kernel_map gets back to the ancestor whose table is the kernel's, entry by entry. */
  lemma AncestorReturns(p: State, a: Space, ops: seq<Op>, d: Frame)
    requires SoundSpace(a) && LegalRun(a, ops) && Ancestor(p, a)
    requires p.base == KERNEL_BASE && p.table[d].address == p.cr3
    ensures UseKernelMap(Run(a, ops).state, d) == p.(claimed := Run(a, ops).state.claimed, mem := Run(a, ops).state.mem)
  {
    var s := Run(a, ops).state;
    assert TableAt(s.mem, s.table, KERNEL_BASE) == p.table by {
      AncestorCoherent(p, a, ops);
      ViewIsTable(p.(mem := s.mem));
      AncestorInPlace(p, a, ops);
      SameView(s.mem, s.table, p.table, p.base);
    }
    AncestorInPlace(p, a, ops);
  }

  lemma AncestorInPlace(p: State, a: Space, ops: seq<Op>)
    requires SoundSpace(a) && LegalRun(a, ops) && Ancestor(p, a)
    ensures forall w: Frame :: TablePage(p, w) ==> Run(a, ops).state.table[w].address == p.table[w].address
    ensures Run(a, ops).state.image == p.image
  {
    RunKeeps(a, ops);
  }

  lemma SameView(mem: Memory, t: Table, t': Table, b: TableBase)
    requires forall w: Frame :: b <= w < b + 1024 ==> t[w].address == t'[w].address
    ensures TableAt(mem, t, b) == TableAt(mem, t', b)
  {
  }
}
