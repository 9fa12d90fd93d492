/**
 clone_tables: a second page table and directory, made of words in memory, that the
 hardware and the kernel go by from then on.
 */
module AddressSpaces {
  import opened Machine
  import opened PageTables
  import opened Ownership
  import opened Allocation
  import opened Freeing
  import opened Reallocation

  // ---- the 1025 pages ----

  /** Pages i..i+1024 lie on consecutive frames, as alloc_sequential maps them. */
  ghost predicate OnFrames(t: Table, i: nat, j: nat)
    requires i + 1025 <= PAGES
  {
    forall w: Frame :: i <= w <= i + 1024 ==> t[w].present && t[w].address == Wrap(j + (w - i))
  }

  lemma {:induction false} ZeroPagesExact(s: State, v: nat, n: nat)
    requires v + n <= PAGES && forall w: Frame :: v <= w < v + n ==> s.table[w].present
    ensures
      var (s', done) := ZeroPages(s, v, n);
      && done && s' == s.(mem := s'.mem)
      && (forall f: Frame :: f !in Targets(s.table, v, n) ==> s'.mem[f] == s.mem[f])
    decreases n
  {
    if n == 0 {
    } else {
      ZeroPagesExact(s.Store(s.table[v].address, Zeroes()), v + 1, n - 1);
      assert Targets(s.table, v, n) == {s.table[v].address} + Targets(s.table, v + 1, n - 1);
    }
  }

  /** Entries v..v+n-1 point at different frames. */
  ghost predicate Distinct(t: Table, v: nat, n: nat)
    requires v + n <= PAGES
  {
    forall w: Frame, x: Frame :: v <= w < x < v + n ==> t[w].address != t[x].address
  }

  lemma ConsecutiveAreDistinct(t: Table, i: nat, j: nat)
    requires i + 1025 <= PAGES && OnFrames(t, i, j)
    ensures Distinct(t, i, 1025)
  {
    forall w: Frame, x: Frame | i <= w < x < i + 1025 ensures t[w].address != t[x].address {
      WrapInjective(j + (w - i), j + (x - i));
    }
  }

  lemma {:induction false} WriteDirectoryExact(s: State, p: nat, i: nat)
    requires p + 1025 <= PAGES && i <= 1024
    ensures
      var s' := WriteDirectory(s, p, i);
      var dir := s.table[p].address;
      && s' == s.(mem := s'.mem)
      && (forall f: Frame :: f != dir ==> s'.mem[f] == s.mem[f])
      && (forall k :: 0 <= k < i ==> s'.mem[dir][k] == s.mem[dir][k])
      && (forall k :: i <= k < 1024 ==> s'.mem[dir][k] == DirectoryWord(s.table, p, k))
    decreases 1024 - i
  {
    if i == 1024 {
    } else {
      var f := s.table[p].address;
      WriteDirectoryExact(s.Store(f, s.mem[f][i := DirectoryWord(s.table, p, i)]), p, i + 1);
    }
  }

  lemma WrapTwice(x: nat, k: nat)
    ensures Wrap(Wrap(x) + k) == Wrap(x + k)
  {
    WrapIsRemainder(x);
    WrapIsRemainder(Wrap(x) + k);
    WrapIsRemainder(x + k);
  }

  /**
   The directory is filled in by counting on from the frame of the first table page; it points
   at the frame of every table page because these are consecutive, even where they wrap.
   */
  lemma DirectoryWordExact(t: Table, i: nat, j: nat, k: nat)
    requires i + 1025 <= PAGES && OnFrames(t, i, j) && k < 1024
    ensures DirectoryWord(t, i, k) == DirectoryTo(t, i + 1, k)
  {
    assert t[i + 1].address == Wrap(j + (i + 1 - i));
    assert t[i + 1 + k].address == Wrap(j + (i + 1 + k - i));
    WrapTwice(j + 1, k);
  }

  // ---- what the call builds ----

  /** The parent's table once clone_tables has mapped its 1025 pages there. */
  ghost function ParentTable(s: State): Table {
    AllocSequential(s, 1025).0.table
  }

  lemma RunWasFree(s: State, s1: State, i: nat, j: nat)
    requires i + 1025 <= PAGES && MappedRun(s, s1, i, j, 1025) && FreeFrames(s.claimed, j, 1025)
    ensures OnFrames(s1.table, i, j) && Targets(s1.table, i, 1025) !! s.claimed
  {
  }

  /** The 1025 pages clone_tables is given: consecutive frames, none of them in use, and none of the pages guarded. */
  lemma PagesForClone(s: State, guard: set<Frame>, i: Frame) returns (j: nat)
    requires Sound(s, guard) && AllocSequential(s, 1025).1 == Page(i)
    ensures
      var s1 := AllocSequential(s, 1025).0;
      && j == FirstFrames(s.claimed, 1025, FIRST_SEQUENTIAL)
      && OnFrames(s1.table, i, j) && Spares(guard, i, 1025)
      && Conserves(s, s1, guard) && OnlyTable(s, s1)
      && s1.base == s.base && s1.cr3 == s.cr3 && s1.image == s.image
      && SameOutside(s.table, s1.table, i, 1025)
      && s1.claimed == s.claimed + Targets(s1.table, i, 1025)
      && Targets(s1.table, i, 1025) !! s.claimed
  {
    j := FirstFrames(s.claimed, 1025, FIRST_SEQUENTIAL);
    MapRunExact(s, i, j, 1025);
    AllocSequentialConserves(s, guard, 1025);
    RunIsSpared(s, guard, i, 1025);
    GuardedTable(s, guard);
    MapRunData(s, i, j, 1025);
    RunWasFree(s, AllocSequential(s, 1025).0, i, j);
  }

  /** The new pages are on frames apart from each other and from those of the table in use. */
  lemma NewPagesApart(s: State, guard: set<Frame>, i: nat, j: nat)
    requires Guarded(s, guard) && i + 1025 <= PAGES && OnFrames(s.table, i, j) && Spares(guard, i, 1025)
    ensures Distinct(s.table, i, 1025) && Apart(s.table, i + 1, s.base, 1024)
    ensures forall w :: w in guard ==> s.table[w].address !in Targets(s.table, i, 1025)
  {
    ConsecutiveAreDistinct(s.table, i, j);
    forall w: Frame, x: Frame | w in guard && i <= x < i + 1025 ensures s.table[w].address != s.table[x].address {
      assert Wrap(x) == x;
    }
    forall x: Frame | s.base <= x < s.base + 1024 ensures x in guard {
      assert TablePage(s, x);
    }
  }

  /** s' holds in the table behind page i the words of s, and otherwise differs only under pages i..i+1024. */
  ghost predicate TableAtCopied(s: State, s': State, i: nat)
    requires i + 1025 <= PAGES
  {
    && s' == s.(mem := s'.mem)
    && (forall f: Frame :: f !in Targets(s.table, i, 1025) ==> s'.mem[f] == s.mem[f])
    && Mirrored(s'.(base := i + 1))
  }

  /** The new pages zeroed, and the words of the table in use copied behind the first of them. */
  lemma TableCopied(s: State, guard: set<Frame>, i: nat, j: nat)
    requires Guarded(s, guard) && Mirrored(s)
    requires i + 1025 <= PAGES && OnFrames(s.table, i, j) && Spares(guard, i, 1025)
    ensures
      var (s2, zeroed) := ZeroPages(s, i, 1025);
      var (s3, copied) := CopyPages(s2, i + 1, s2.base, 1024);
      zeroed && copied && TableAtCopied(s, s3, i)
  {
    NewPagesApart(s, guard, i, j);
    ZeroPagesExact(s, i, 1025);
    ThenCopied(s, ZeroPages(s, i, 1025).0, guard, i);
  }

  lemma ThenCopied(s: State, s2: State, guard: set<Frame>, i: nat)
    requires Guarded(s, guard) && Mirrored(s) && i + 1025 <= PAGES && s2 == s.(mem := s2.mem)
    requires forall w: Frame :: i <= w <= i + 1024 ==> s.table[w].present
    requires Apart(s.table, i + 1, s.base, 1024)
    requires forall w :: w in guard ==> s.table[w].address !in Targets(s.table, i, 1025)
    requires forall f: Frame :: f !in Targets(s.table, i, 1025) ==> s2.mem[f] == s.mem[f]
    ensures
      var (s3, copied) := CopyPages(s2, i + 1, s2.base, 1024);
      copied && TableAtCopied(s, s3, i)
  {
    CopiesTable(s2, i) by {
      TablePagesPresent(s, guard);
    }
    var s3 := CopyPages(s2, i + 1, s.base, 1024).0;
    CopyMirrors(s, s2, s3, guard, i);
    CopyLeaves(s, s2, s3, i);
  }

  lemma CopyLeaves(s: State, s2: State, s3: State, i: nat)
    requires i + 1025 <= PAGES && s2.table == s.table
    requires forall f: Frame :: f !in Targets(s.table, i, 1025) ==> s2.mem[f] == s.mem[f]
    requires forall f: Frame :: f !in Targets(s.table, i + 1, 1024) ==> s3.mem[f] == s2.mem[f]
    ensures forall f: Frame :: f !in Targets(s.table, i, 1025) ==> s3.mem[f] == s.mem[f]
  {
  }

  lemma TablePagesPresent(s: State, guard: set<Frame>)
    requires Guarded(s, guard)
    ensures forall x: Frame :: s.base <= x < s.base + 1024 ==> s.table[x].present
  {
  }

  /** In s' the pages behind i read as the pages of the table in use do in s. */
  ghost predicate WordsCopied(s: State, s': State, i: nat)
    requires i + 1025 <= PAGES
  {
    forall w: Frame :: i + 1 <= w < i + 1 + 1024 ==> s'.Read(w) == s.Read(s.base + (w - (i + 1)))
  }

  lemma CopiesTable(s: State, i: nat)
    requires i + 1025 <= PAGES && Apart(s.table, i + 1, s.base, 1024)
    requires forall w: Frame :: i <= w <= i + 1024 ==> s.table[w].present
    requires forall x: Frame :: s.base <= x < s.base + 1024 ==> s.table[x].present
    ensures
      var (s', copied) := CopyPages(s, i + 1, s.base, 1024);
      && copied && s' == s.(mem := s'.mem)
      && WordsCopied(s, s', i)
      && (forall f: Frame :: f !in Targets(s.table, i + 1, 1024) ==> s'.mem[f] == s.mem[f])
  {
    CopyPagesExact(s, i + 1, s.base, 1024);
  }

  lemma CopyMirrors(s: State, s2: State, s3: State, guard: set<Frame>, i: nat)
    requires Guarded(s, guard) && Mirrored(s) && i + 1025 <= PAGES
    requires forall w :: w in guard ==> s.table[w].address !in Targets(s.table, i, 1025)
    requires forall f: Frame :: f !in Targets(s.table, i, 1025) ==> s2.mem[f] == s.mem[f]
    requires s2.table == s.table && s3.table == s.table
    requires s2.base == s.base && WordsCopied(s2, s3, i)
    ensures Mirrored(s3.(base := i + 1))
  {
    var c := s3.(base := i + 1);
    forall v: Frame ensures MirroredAt(c, v) {
      var w: Frame := i + 1 + v / 1024;
      var x: Frame := s.base + v / 1024;
      assert TablePage(s, x) && x in guard;
      assert s3.Read(w) == s2.Read(s.base + (w - (i + 1)));
      assert MirroredAt(s, v);
    }
  }

  /** Where s had its table words in the pages behind i, s' goes by them, and by a directory in page i. */
  ghost predicate Entered(s: State, s': State, i: nat)
    requires i + 1025 <= PAGES
  {
    && s' == State(s.claimed, s.table, s'.mem, i + 1, s.table[i].address, s.image)
    && (forall f: Frame :: f !in Targets(s.table, i, 1025) ==> s'.mem[f] == s.mem[f])
    && Coherent(s')
  }

  /** EnterClone writes the directory, and nothing but the directory. */
  lemma EnterCloneExact(s: State, i: nat, j: nat)
    requires i + 1025 <= PAGES && OnFrames(s.table, i, j) && Mirrored(s.(base := i + 1))
    ensures Entered(s, EnterClone(s, i), i)
  {
    var s1 := s.Store(s.table[i].address, Zeroes());
    var s2 := WriteDirectory(s1, i, 0);
    WriteDirectoryExact(s1, i, 0);
    var d := State(s.claimed, s.table, s2.mem, i + 1, s.table[i].address, s.image);
    DirectoryKeepsMirror(s, d, i, j);
    forall k: nat | k < 1024 ensures d.mem[d.cr3][k] == DirectoryTo(d.table, d.base, k) {
      DirectoryWordExact(s.table, i, j, k);
    }
    ViewIsTable(d);
    assert EnterClone(s, i) == d;
    assert s.table[i].address in Targets(s.table, i, 1025);
  }

  lemma DirectoryKeepsMirror(s: State, d: State, i: nat, j: nat)
    requires i + 1025 <= PAGES && OnFrames(s.table, i, j) && Mirrored(s.(base := i + 1))
    requires d.table == s.table && d.base == i + 1
    requires forall f: Frame :: f != s.table[i].address ==> d.mem[f] == s.mem[f]
    ensures Mirrored(d)
  {
    ConsecutiveAreDistinct(s.table, i, j);
    forall v: Frame ensures MirroredAt(d, v) {
      assert MirroredAt(s.(base := i + 1), v);
    }
  }

  lemma EnteredFrom(s: State, s3: State, s': State, i: nat)
    requires i + 1025 <= PAGES && TableAtCopied(s, s3, i) && Entered(s3, s', i)
    ensures Entered(s, s', i)
  {
  }

  /** The parent as clone_tables leaves it: its own directory and table, and the memory they now share. */
  ghost function Parent(s: State, s': State): State {
    State(s'.claimed, ParentTable(s), s'.mem, s.base, s.cr3, s.image)
  }

  /** What CloneTables comes to, step by step. */
  lemma CloneSteps(s: State, s1: State, s2: State, s3: State, i: Frame)
    requires AllocSequential(s, 1025) == (s1, Page(i)) && ZeroPages(s1, i, 1025) == (s2, true)
    requires CopyPages(s2, i + 1, s2.base, 1024) == (s3, true)
    ensures CloneTables(s) == (EnterClone(s3, i), Page(s3.table[i].address))
  {
  }

  /** clone_tables is entering what was built on the pages it was given. */
  lemma CloneTablesEnters(s: State, guard: set<Frame>, i: Frame, j: nat)
    requires AllocSequential(s, 1025).1 == Page(i)
    requires Sound(AllocSequential(s, 1025).0, guard) && Spares(guard, i, 1025)
    requires OnFrames(AllocSequential(s, 1025).0.table, i, j)
    ensures
      var s1 := AllocSequential(s, 1025).0;
      CloneTables(s).1 == Page(s1.table[i].address) && Entered(s1, CloneTables(s).0, i)
  {
    var s1 := AllocSequential(s, 1025).0;
    var s2 := ZeroPages(s1, i, 1025).0;
    var s3 := CopyPages(s2, i + 1, s2.base, 1024).0;
    TableCopied(s1, guard, i, j);
    CloneSteps(s, s1, s2, s3, i);
    EnterCloneExact(s3, i, j);
    EnteredFrom(s1, s3, EnterClone(s3, i), i);
  }

  lemma ParentCoherent(s: State, s1: State, s': State, guard: set<Frame>, i: Frame, j: nat)
    requires Guarded(s, guard) && Sound(s1, guard)
    requires i + 1025 <= PAGES && OnFrames(s1.table, i, j) && Spares(guard, i, 1025)
    requires s1.cr3 == s.cr3 && Targets(s1.table, i, 1025) !! s.claimed && Entered(s1, s', i)
    ensures Coherent(s1.(mem := s'.mem))
  {
    NewPagesApart(s1, guard, i, j);
    WordsStay(s1, s1.(mem := s'.mem));
  }

  /**
   clone_tables, when its allocation succeeds: the new directory and the parent's both lead the
   hardware, page by page, to the parent's table, which is the new flat table as well; and every
   frame claimed before still holds the same, but for the words that map the new pages and the
   kernel's variables.
   */
  lemma CloneTablesExact(s: State, guard: set<Frame>, i: Frame)
    requires Sound(s, guard) && AllocSequential(s, 1025).1 == Page(i)
    ensures
      var (s', r) := CloneTables(s);
      var t := ParentTable(s);
      && r == Page(t[i].address)
      && s'.table == t && s'.base == i + 1 && s'.cr3 == t[i].address && s'.image == s.image
      && SameOutside(s.table, t, i, 1025)
      && s'.claimed == s.claimed + Targets(t, i, 1025) && Targets(t, i, 1025) !! s.claimed
      && Coherent(s') && (forall v: Frame :: Walk(s'.mem, s'.cr3, v) == t[v])
      && Coherent(Parent(s, s')) && (forall v: Frame :: Walk(s'.mem, s.cr3, v) == t[v])
      && (forall f: Frame :: f in s.claimed && !TableFrame(s, f) && f !in s.image ==> s'.mem[f] == s.mem[f])
  {
    var j := PagesForClone(s, guard, i);
    CloneTablesEnters(s, guard, i, j);
    var s1 := AllocSequential(s, 1025).0;
    var s' := CloneTables(s).0;
    ParentCoherent(s, s1, s', guard, i, j);
    assert Parent(s, s') == s1.(mem := s'.mem);
    WalkIsTable(s');
    WalkIsTable(Parent(s, s'));
  }

  /** As far as `mem` goes, clone_tables does not write the kernel's variables either. */
  lemma CloneTablesMemory(s: State, guard: set<Frame>, i: Frame)
    requires Sound(s, guard) && AllocSequential(s, 1025).1 == Page(i)
    ensures forall f: Frame :: f in s.claimed && !TableFrame(s, f) ==> CloneTables(s).0.mem[f] == s.mem[f]
  {
    var j := PagesForClone(s, guard, i);
    CloneTablesEnters(s, guard, i, j);
  }

  // ---- from then on ----

  predicate NewPage(i: Frame, w: Frame) {
    i <= w <= i + 1024
  }

  ghost function NewPages(i: Frame): set<Frame> {
    set w: Frame | NewPage(i, w)
  }

  /** The allocation of clone_tables succeeds, at page i, and does not wrap around the end of memory. */
  ghost predicate MayClone(s: State, i: Frame) {
    AllocSequential(s, 1025).1 == Page(i) && FirstFrames(s.claimed, 1025, FIRST_SEQUENTIAL) + 1025 <= PAGES
  }

  /** The new pages are guarded pages of whoever goes by this table. */
  lemma NewPagesGuarded(s: State, s1: State, guard: set<Frame>, i: Frame, j: nat)
    requires Owned(s) && Guarded(s1, guard) && i + 1025 <= PAGES && FIRST_SEQUENTIAL <= j && j + 1025 <= PAGES
    requires OnFrames(s1.table, i, j) && SameOutside(s.table, s1.table, i, 1025)
    requires s1.claimed == s.claimed + Targets(s1.table, i, 1025) && Targets(s1.table, i, 1025) !! s.claimed
    ensures Guarded(s1, guard + NewPages(i))
  {
  }

  lemma GuardedInClone(s: State, s1: State, s': State, guard: set<Frame>, i: Frame)
    requires i + 1025 <= PAGES && Guarded(s, guard) && Guarded(s1, guard + NewPages(i))
    requires s1.image == s.image && Targets(s1.table, i, 1025) !! s.claimed
    requires s' == State(s1.claimed, s1.table, s'.mem, i + 1, s1.table[i].address, s1.image)
    ensures Guarded(s', guard + NewPages(i))
  {
    forall w: Frame | i <= w <= i + 1024 ensures w in guard + NewPages(i) && s1.table[w].address !in s.image {
      assert NewPage(i, w) && s1.table[w].address in Targets(s1.table, i, 1025);
    }
  }

  /** Memory apart, the parent afterwards is the parent with its 1025 pages mapped. */
  lemma GuardedInParent(s1: State, s': State, guard: set<Frame>)
    requires Guarded(s1, guard) && s' == s1.(mem := s'.mem)
    ensures Guarded(s', guard)
  {
  }

  /**
   Both address spaces are sound after clone_tables, with the new pages guarded too; what was
   guarded stayed as it was, and no foreign frame was won, lost or written.
   */
  lemma CloneTablesSound(s: State, guard: set<Frame>, i: Frame)
    requires Sound(s, guard) && MayClone(s, i)
    ensures
      var s' := CloneTables(s).0;
      && Sound(s', guard + NewPages(i)) && Sound(Parent(s, s'), guard + NewPages(i))
      && Steady(s, s', guard) && NewPages(i) !! guard
      && Foreign(s') == Foreign(s) && Foreign(Parent(s, s')) == Foreign(s)
      && (forall f: Frame :: f in Foreign(s) ==> s'.mem[f] == s.mem[f])
  {
    var j := PagesForClone(s, guard, i);
    var s1 := AllocSequential(s, 1025).0;
    var s' := CloneTables(s).0;
    CloneTablesExact(s, guard, i);
    CloneTablesMemory(s, guard, i);
    NewPagesGuarded(s, s1, guard, i, j);
    GuardedInClone(s, s1, s', guard, i);
    GuardedInParent(s1, Parent(s, s'), guard + NewPages(i));
    SameOwners(s1, s');
    SameOwners(s1, Parent(s, s'));
    NewPagesSpared(guard, i);
    CloneSteady(s, s', guard, i);
    forall f: Frame | f in Foreign(s) ensures s'.mem[f] == s.mem[f] {
      ForeignHoldsNoTable(s, guard, f);
    }
  }

  /** The child reaches its directory through the first of the new pages. */
  lemma ReachesInClone(s: State, s': State, guard: set<Frame>, i: Frame)
    requires Reaches(s, guard) && Steady(s, s', guard) && s'.cr3 == s'.table[i].address
    ensures Reaches(s', guard + NewPages(i))
  {
    forall f: Frame | Reserved(s', f) ensures Under(s'.table, guard + NewPages(i), f) {
      if f == s'.cr3 {
        assert NewPage(i, i);
      } else {
        assert Reserved(s, f) && Under(s.table, guard, f);
        var w :| w in guard && s.table[w].address == f;
        assert s'.table[w].address == f;
      }
    }
  }

  lemma SameOwners(s: State, s': State)
    requires Owned(s) && s'.table == s.table && s'.claimed == s.claimed
    ensures Owned(s') && Foreign(s') == Foreign(s)
  {
  }

  lemma NewPagesSpared(guard: set<Frame>, i: Frame)
    requires i + 1025 <= PAGES && Spares(guard, i, 1025)
    ensures NewPages(i) !! guard
  {
    forall w | w in NewPages(i) ensures w !in guard {
      assert Wrap(w) == w;
    }
  }

  lemma CloneSteady(s: State, s': State, guard: set<Frame>, i: Frame)
    requires Guarded(s, guard) && i + 1025 <= PAGES && NewPages(i) !! guard
    requires SameOutside(s.table, s'.table, i, 1025) && s'.base == i + 1 && s'.image == s.image
    requires forall f: Frame :: f in s.claimed && !TableFrame(s, f) ==> s'.mem[f] == s.mem[f]
    ensures Steady(s, s', guard)
  {
  }
}
