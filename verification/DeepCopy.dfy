/**
 clone_user_pages after clone_tables: the child's user pages read like the parent's but
 lie on frames of their own, and the two stay apart over every later run of either.
 */
module DeepCopy {
  import opened Machine
  import opened PageTables
  import opened Ownership
  import opened Allocation
  import opened UserCopies
  import opened Reallocation
  import opened AddressSpaces
  import opened Runs


  /** Copying changes at most the address in an entry. */
  ghost predicate SameButAddress(t: Table, t': Table) {
    forall v: Frame :: t'[v] == t[v].(address := t'[v].address)
  }

  /** The user pages from entry i on lie on frames that were free. */
  ghost predicate FreshFrom(s: State, s': State, i: nat) {
    forall v: Frame :: i <= v && IsUser(s.table, v) ==>
      s'.table[v].address >= FIRST_FRAME && s'.table[v].address !in s.claimed
  }

  /**
   s' is s but for the frames under user pages from entry i on; if all of them were copied, they
   are on frames that were free.
   */
  ghost predicate CopiedFrom(s: State, s': State, i: nat, done: bool) {
    && SameButAddress(s.table, s'.table)
    && s.claimed <= s'.claimed && s'.base == s.base && s'.cr3 == s.cr3 && s'.image == s.image
    && (forall v: Frame :: v < i || !IsUser(s.table, v) ==> s'.table[v] == s.table[v])
    && (done ==> FreshFrom(s, s', i))
  }

  lemma CopiedStep(s: State, s': State, i: Frame, f: Frame, done: bool)
    requires Owned(s) && IsUser(s.table, i) && f !in s.claimed && f >= FIRST_FRAME
    requires CopiedFrom(CopyOnto(s, i, f), s', i + 1, done)
    ensures CopiedFrom(s, s', i, done)
  {
  }

  /**
   clone_user_pages from entry i on, whether or not it runs out of frames midway, keeps the
   permission bits of every page. When it succeeds every user page is on a frame that was free.
   */
  lemma {:induction false} CloneUserTable(s: State, i: nat)
    requires Owned(s) && i <= PAGES
    ensures CopiedFrom(s, CloneUserFrom(s, i).0, i, CloneUserFrom(s, i).1)
    decreases PAGES - i
  {
    if i == PAGES {
    } else if !IsUser(s.table, i) {
      CloneUserTable(s, i + 1);
    } else {
      var f := FindFree(s.claimed);
      if f == 0 {
      } else {
        CopyOntoForeign(s, i, f);
        CloneUserTable(CopyOnto(s, i, f), i + 1);
        CopiedStep(s, CloneUserFrom(s, i).0, i, f, CloneUserFrom(s, i).1);
      }
    }
  }

  /**
   Every page of data reads in s' as in s, and every claimed frame but the page table's and those of
   the kernel's variables holds what it held.
   */
  ghost predicate SameReads(s: State, s': State) {
    && (forall v: Frame :: IsData(s, v) ==> s'.Read(v) == s.Read(v))
    && (forall f: Frame :: (f in s.claimed || f < FIRST_FRAME) && !TableFrame(s, f) && f !in s.image
          ==> s'.mem[f] == s.mem[f])
  }

  lemma CopyOneReads(s: State, guard: set<Frame>, i: Frame, f: Frame, s': State)
    requires Sound(s, guard) && s.table[i].present && i !in guard && f !in s.claimed && f >= FIRST_FRAME
    requires SameReads(CopyOnto(s, i, f), s')
    ensures SameReads(s, s')
  {
  }

  /** And the contents seen through every page stay the same. */
  lemma {:induction false} CloneUserReads(s: State, guard: set<Frame>, i: nat)
    requires Sound(s, guard) && NoUser(s.table, guard) && i <= PAGES
    ensures SameReads(s, CloneUserFrom(s, i).0)
    decreases PAGES - i
  {
    if i == PAGES {
    } else if !IsUser(s.table, i) {
      CloneUserReads(s, guard, i + 1);
    } else {
      var f := FindFree(s.claimed);
      if f == 0 {
      } else {
        var s1 := CopyOnto(s, i, f);
        assert SameReads(s1, CloneUserFrom(s1, i + 1).0) by {
          CopyOntoRespects(s, guard, i, f);
          CloneUserReads(s1, guard, i + 1);
        }
        CopyOneReads(s, guard, i, f, CloneUserFrom(s1, i + 1).0);
      }
    }
  }

  /** The child right after clone_tables, and after clone_user_pages. */
  ghost function Child(s: State): State {
    CloneTables(s).0
  }

  ghost function Copied(s: State): State {
    CloneUserFrom(Child(s), 0).0
  }

  /** There are frames for copying all user pages. */
  ghost predicate CopiesAll(s: State) {
    |UserPages(s.table, 0)| <= |FreeHigh(s.claimed)|
  }

  /** The parent at that time, its own table and directory in the same memory. */
  ghost function Left(s: State): State {
    Parent(s, Copied(s))
  }

  /** What both then have to leave alone. */
  ghost function Guard(guard: set<Frame>, i: Frame): set<Frame> {
    guard + NewPages(i)
  }

  /**
   There are pages, at page i, and frames for clone_tables, and after that frames for clone_user_pages;
   and no page that is or becomes part of a page table carries a user bit (TablesStayIff says why).
   */
  ghost predicate Cloned(s: State, guard: set<Frame>, i: Frame) {
    && SoundSpace(Space(s, guard)) && MayClone(s, i)
    && NoUser(s.table, Guard(guard, i))
    && |UserPages(s.table, 0)| + 1025 <= |FreeHigh(s.claimed)|
  }

  lemma ClonedPagesPresent(s: State, i: Frame)
    requires AllocSequential(s, 1025).1 == Page(i)
    ensures SameOutside(s.table, ParentTable(s), i, 1025) && Unmapped(s.table, i, 1025)
    ensures forall w: Frame :: i <= w <= i + 1024 ==>
              ParentTable(s)[w] == s.table[w].MappedTo(ParentTable(s)[w].address)
    ensures forall w: Frame :: i <= w <= i + 1024 ==> ParentTable(s)[w].address in Targets(ParentTable(s), i, 1025)
  {
    MapRunExact(s, i, FirstFrames(s.claimed, 1025, FIRST_SEQUENTIAL), 1025);
  }

  lemma NewFramesFree(s: State, guard: set<Frame>, i: Frame)
    requires Sound(s, guard) && MayClone(s, i)
    ensures Targets(ParentTable(s), i, 1025) <= FreeHigh(s.claimed)
    ensures |Targets(ParentTable(s), i, 1025)| == 1025
  {
    var j := PagesForClone(s, guard, i);
    var t := ParentTable(s);
    forall w: Frame | i <= w <= i + 1024 ensures t[w].address == j + (w - i) {
      assert Wrap(j + (w - i)) == j + (w - i);
    }
    forall f: Frame ensures f in Targets(t, i, 1025) <==> j <= f < j + 1025 {
      if j <= f < j + 1025 {
        assert t[i + (f - j)].address == f;
      }
    }
    RunSize(Targets(t, i, 1025), j, 1025);
  }

  lemma {:induction false} RunSize(frames: set<Frame>, j: nat, n: nat)
    requires j + n <= PAGES && forall f: Frame :: f in frames <==> j <= f < j + n
    ensures |frames| == n
    decreases n
  {
    if n == 0 {
      assert frames == {};
    } else {
      RunSize(frames - {j + n - 1}, j, n - 1);
    }
  }

  /** What clone_tables takes of the free frames, and that it makes no user page. */
  lemma AfterTables(s: State, guard: set<Frame>, i: Frame)
    requires Sound(s, guard) && MayClone(s, i) && NoUser(s.table, NewPages(i))
    ensures |FreeHigh(Child(s).claimed)| == |FreeHigh(s.claimed)| - 1025
    ensures UserPages(Child(s).table, 0) == UserPages(s.table, 0)
  {
    assert Child(s).table == ParentTable(s) && Child(s).claimed == s.claimed + Targets(ParentTable(s), i, 1025) by {
      CloneTablesExact(s, guard, i);
    }
    FewerFree(s, guard, i);
    SameUsers(s, i);
  }

  lemma FewerFree(s: State, guard: set<Frame>, i: Frame)
    requires Sound(s, guard) && MayClone(s, i)
    ensures |FreeHigh(s.claimed + Targets(ParentTable(s), i, 1025))| == |FreeHigh(s.claimed)| - 1025
  {
    var new_ := Targets(ParentTable(s), i, 1025);
    NewFramesFree(s, guard, i);
    assert FreeHigh(s.claimed + new_) == FreeHigh(s.claimed) - new_;
  }

  lemma SameUsers(s: State, i: Frame)
    requires AllocSequential(s, 1025).1 == Page(i) && NoUser(s.table, NewPages(i))
    ensures UserPages(ParentTable(s), 0) == UserPages(s.table, 0)
  {
    ClonedPagesPresent(s, i);
    forall v: Frame ensures IsUser(ParentTable(s), v) <==> IsUser(s.table, v) {
      assert i <= v <= i + 1024 ==> NewPage(i, v) && v in NewPages(i);
    }
  }

  lemma EnoughFrames(s: State, guard: set<Frame>, i: Frame)
    requires Cloned(s, guard, i)
    ensures CopiesAll(Child(s))
  {
    AfterTables(s, guard, i);
  }

  /** So the frame count beforehand decides whether the deep copy succeeds. */
  lemma DeepCopySucceedsIff(s: State, guard: set<Frame>, i: Frame)
    requires SoundSpace(Space(s, guard)) && MayClone(s, i) && NoUser(s.table, Guard(guard, i))
    ensures CloneTables(s).1.Page?
    ensures CloneUserFrom(Child(s), 0).1 <==> Cloned(s, guard, i)
  {
    CloneTablesExact(s, guard, i);
    AfterTables(s, guard, i);
    CloneUserSucceedsIff(Child(s), 0);
  }

  /** The child before and after its user pages are copied. */
  lemma ChildSound(s: State, guard: set<Frame>, i: Frame)
    requires Cloned(s, guard, i)
    ensures
      var (s1, s2) := (Child(s), Copied(s));
      && s1.table == ParentTable(s) && NoUser(s1.table, Guard(guard, i))
      && Sound(s1, Guard(guard, i)) && Respects(s1, s2, Guard(guard, i))
  {
    CloneTablesExact(s, guard, i);
    CloneTablesSound(s, guard, i);
    ClonedPagesPresent(s, i);
    forall w | w in Guard(guard, i) ensures !Child(s).table[w].user {
      assert Child(s).table[w].user == s.table[w].user;
    }
    CloneUserRespects(Child(s), Guard(guard, i), 0);
  }

  /**
   Parent and child read the same through every page but the child's page table, and the parent reads
   what it read before, but for its page table and the kernel's variables.
   */
  lemma SameContents(s: State, guard: set<Frame>, i: Frame)
    requires Cloned(s, guard, i)
    ensures
      var (t, s2) := (ParentTable(s), Copied(s));
      && SameButAddress(t, s2.table)
      && (forall v: Frame :: t[v].present && !TablePage(s2, v) ==> s2.Read(v) == Left(s).Read(v))
      && (forall v: Frame :: IsData(s, v) && s.table[v].address in s.claimed
            ==> t[v] == s.table[v] && Left(s).Read(v) == s.Read(v))
  {
    ChildSound(s, guard, i);
    CloneUserReads(Child(s), Guard(guard, i), 0);
    CloneUserTable(Child(s), 0);
    OffTableFrames(Child(s), Guard(guard, i));
    CopyingKeepsTarget(s, guard, i);
    ParentReads(s, guard, i);
    forall v: Frame | ParentTable(s)[v].present && ParentTable(s)[v].address in s.image
      ensures Copied(s).table[v] == ParentTable(s)[v]
    {
      VariablesShared(s, guard, i, v);
    }
  }

  /** What the parent's pages of data are on is not written while the child's are copied. */
  lemma CopyingKeepsTarget(s: State, guard: set<Frame>, i: Frame)
    requires Cloned(s, guard, i)
    ensures forall v: Frame :: IsData(Child(s), v)
              ==> Copied(s).mem[ParentTable(s)[v].address] == Child(s).mem[ParentTable(s)[v].address]
  {
    ChildSound(s, guard, i);
    CloneUserReads(Child(s), Guard(guard, i), 0);
    OffTableFrames(Child(s), Guard(guard, i));
    forall v: Frame | IsData(Child(s), v)
      ensures Copied(s).mem[ParentTable(s)[v].address] == Child(s).mem[ParentTable(s)[v].address]
    {
      assert Maps(Child(s).table, v) ==> Child(s).table[v].address in Child(s).claimed;
    }
  }

  /** Pages of variables are not copied: parent and child share them. */
  lemma VariablesShared(s: State, guard: set<Frame>, i: Frame, v: Frame)
    requires Cloned(s, guard, i) && ParentTable(s)[v].present && ParentTable(s)[v].address in s.image
    ensures Copied(s).table[v] == ParentTable(s)[v]
  {
    assert Child(s).table == ParentTable(s) && Child(s).image == s.image by {
      CloneTablesExact(s, guard, i);
    }
    assert !IsUser(Child(s).table, v) by {
      ChildSound(s, guard, i);
      assert Reserved(Child(s), Child(s).table[v].address);
    }
    assert Owned(Child(s)) by {
      ChildSound(s, guard, i);
    }
    CloneUserTable(Child(s), 0);
  }

  lemma ParentReads(s: State, guard: set<Frame>, i: Frame)
    requires Cloned(s, guard, i)
    ensures forall v: Frame :: IsData(s, v) && s.table[v].address in s.claimed
              ==> ParentTable(s)[v] == s.table[v] && Left(s).Read(v) == s.Read(v)
  {
    CloneTablesExact(s, guard, i);
    ClonedPagesPresent(s, i);
    OffTableFrames(s, guard);
    CopyingKeepsTarget(s, guard, i);
  }

  // ---- frames ----

  /** A copied page is on no frame that any page was on before. */
  lemma CopyIsApart(s1: State, v: Frame, w: Frame)
    requires Owned(s1) && CopiesAll(s1)
    requires IsUser(s1.table, v) && s1.table[w].present
    ensures CloneUserFrom(s1, 0).0.table[v].address != s1.table[w].address
  {
    CloneUserTable(s1, 0);
    CloneUserSucceedsIff(s1, 0);
    assert Maps(s1.table, w) ==> s1.table[w].address in s1.claimed;
  }

  /** No page is left on a frame that a copied page was on. */
  lemma OriginalIsApart(s1: State, v: Frame, w: Frame)
    requires Owned(s1) && CopiesAll(s1)
    requires IsUser(s1.table, v) && Maps(s1.table, v) && CloneUserFrom(s1, 0).0.table[w].present
    ensures CloneUserFrom(s1, 0).0.table[w].address != s1.table[v].address
  {
    CloneUserTable(s1, 0);
    CloneUserSucceedsIff(s1, 0);
    assert s1.table[v].address in s1.claimed;
  }

  /** So the frames that copied pages were on are foreign afterwards. */
  lemma OriginalsAreForeign(s1: State, v: Frame)
    requires Owned(s1) && CopiesAll(s1)
    requires IsUser(s1.table, v) && Maps(s1.table, v)
    ensures s1.table[v].address in Foreign(CloneUserFrom(s1, 0).0)
  {
    var s2 := CloneUserFrom(s1, 0).0;
    assert s1.table[v].address in s2.claimed by {
      CloneUserTable(s1, 0);
    CloneUserSucceedsIff(s1, 0);
      assert s1.table[v].address in s1.claimed;
    }
    forall w: Frame | Maps(s2.table, w) ensures s2.table[w].address != s1.table[v].address {
      OriginalIsApart(s1, v, w);
    }
  }

  /** The copies are claimed. */
  lemma CopiesAreMapped(s1: State, guard: set<Frame>, v: Frame)
    requires Sound(s1, guard) && NoUser(s1.table, guard) && CopiesAll(s1) && IsUser(s1.table, v)
    ensures Maps(CloneUserFrom(s1, 0).0.table, v)
  {
    CloneUserTable(s1, 0);
    CloneUserSucceedsIff(s1, 0);
  }

  /**
   The child is sound. No user page of the child is on
   a frame that any page of the parent is on, and no page of the child, user or kernel, is
   on a frame of a user page of the parent: each one's user frames are foreign to the other.
   */
  lemma Apartness(s: State, guard: set<Frame>, i: Frame)
    requires Cloned(s, guard, i)
    ensures Sound(Copied(s), Guard(guard, i))
    ensures forall v: Frame, w: Frame :: IsUser(ParentTable(s), v) && ParentTable(s)[w].present
              ==> Copied(s).table[v].address != ParentTable(s)[w].address
    ensures forall v: Frame :: IsUser(ParentTable(s), v) && Maps(ParentTable(s), v)
              ==> ParentTable(s)[v].address in Foreign(Copied(s))
    ensures forall v: Frame :: IsUser(ParentTable(s), v) ==> Copied(s).table[v].address in Foreign(Left(s))
  {
    var s1, t := Child(s), ParentTable(s);
    ChildSound(s, guard, i);
    EnoughFrames(s, guard, i);
    forall v: Frame, w: Frame | IsUser(t, v) && t[w].present ensures Copied(s).table[v].address != t[w].address {
      CopyIsApart(s1, v, w);
    }
    forall v: Frame | IsUser(t, v) && Maps(t, v) ensures t[v].address in Foreign(Copied(s)) {
      OriginalsAreForeign(s1, v);
    }
    forall v: Frame | IsUser(t, v) ensures Copied(s).table[v].address in Foreign(Left(s)) {
      CopiesAreMapped(s1, Guard(guard, i), v);
    }
  }

  /**
   free_page leaves the user bit behind, so a page the clone's tables are put in may carry
   one. clone_user_pages then moves that page off the frame the directory points at: the
   tables stay where the hardware looks for them iff none of these pages has the bit.
   */
  lemma TablesStayIff(s: State, guard: set<Frame>, i: Frame)
    requires Sound(s, guard) && AllocSequential(s, 1025).1 == Page(i) && CopiesAll(Child(s))
    ensures
      (forall w: Frame :: i <= w <= i + 1024 ==> Copied(s).table[w] == ParentTable(s)[w])
      <==> NoUser(s.table, NewPages(i))
  {
    forall w: Frame | i <= w <= i + 1024
      ensures w in NewPages(i) && (Copied(s).table[w] == ParentTable(s)[w] <==> !s.table[w].user)
    {
      TablePageStaysIff(s, guard, i, w);
    }
    assert forall w :: w in NewPages(i) ==> i <= w <= i + 1024;
  }

  lemma TablePageStaysIff(s: State, guard: set<Frame>, i: Frame, w: Frame)
    requires Sound(s, guard) && AllocSequential(s, 1025).1 == Page(i) && CopiesAll(Child(s))
    requires i <= w <= i + 1024
    ensures Copied(s).table[w] == ParentTable(s)[w] <==> !s.table[w].user
  {
    CloneOwned(s, guard, i);
    CloneTablesExact(s, guard, i);
    CloneUserTable(Child(s), 0);
    CloneUserSucceedsIff(Child(s), 0);
    ClonedPagesPresent(s, i);
    assert ParentTable(s)[w].address in Child(s).claimed;
  }

  lemma CloneOwned(s: State, guard: set<Frame>, i: Frame)
    requires Sound(s, guard) && AllocSequential(s, 1025).1 == Page(i)
    ensures Owned(Child(s))
  {
    AllocSequentialConserves(s, guard, 1025);
    CloneTablesExact(s, guard, i);
    var j := PagesForClone(s, guard, i);
    SameOwners(AllocSequential(s, 1025).0, Child(s));
  }
}
