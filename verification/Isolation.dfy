/**
 After the deep copy: parent and child share the bitmap and memory, and each leaves the other's
 user pages and translations alone over every later run.
 */
module Isolation {
  import opened Machine
  import opened PageTables
  import opened Ownership
  import opened Allocation
  import opened UserCopies
  import opened Freeing
  import opened Reallocation
  import opened AddressSpaces
  import opened Runs
  import opened DeepCopy

  /** The two address spaces after clone_tables and clone_user_pages. */
  ghost function ChildSpace(s: State, guard: set<Frame>, i: Frame): Space {
    Space(Copied(s), Guard(guard, i))
  }

  ghost function ParentSpace(s: State, guard: set<Frame>, i: Frame): Space {
    Space(Left(s), Guard(guard, i))
  }

  // ---- where everything is ----

  /** The child's table and directory, and the guarded pages, which parent and child have alike. */
  lemma Places(s: State, guard: set<Frame>, i: Frame)
    requires Cloned(s, guard, i)
    ensures Copied(s).base == i + 1 && Copied(s).cr3 == ParentTable(s)[i].address && Copied(s).image == s.image
    ensures forall w :: w in Guard(guard, i) ==> Copied(s).table[w] == ParentTable(s)[w] && ParentTable(s)[w].present
    ensures forall w :: w in guard ==> ParentTable(s)[w].address == s.table[w].address
  {
    ChildSound(s, guard, i);
    CloneTablesExact(s, guard, i);
    CloneTablesSound(s, guard, i);
    CloneUserTable(Child(s), 0);
  }

  lemma NewPagesFree(s: State, guard: set<Frame>, i: Frame, w: Frame)
    requires Cloned(s, guard, i) && i <= w <= i + 1024
    ensures w in Guard(guard, i) && !TablePage(s, w)
  {
    ClonedPagesPresent(s, i);
    assert NewPage(i, w) && !s.table[w].present;
  }

  lemma ParentGuarded(s: State, guard: set<Frame>, i: Frame)
    requires Cloned(s, guard, i)
    ensures Owned(Left(s)) && Guarded(Left(s), Guard(guard, i))
  {
    CloneTablesSound(s, guard, i);
    CloneTablesExact(s, guard, i);
    CloneUserTable(Child(s), 0);
    MoreClaimed(Parent(s, Child(s)), Left(s), Guard(guard, i));
  }

  lemma MoreClaimed(s: State, s': State, guard: set<Frame>)
    requires Owned(s) && Guarded(s, guard) && s.claimed <= s'.claimed
    requires s' == s.(claimed := s'.claimed, mem := s'.mem)
    ensures Owned(s') && Guarded(s', guard)
  {
  }

  /** Copying the child's user pages does not touch the parent's page table and directory. */
  lemma ParentWords(s: State, guard: set<Frame>, i: Frame, f: Frame)
    requires Cloned(s, guard, i) && f !in s.image
    requires f == s.cr3 || exists w: Frame :: TablePage(s, w) && ParentTable(s)[w].address == f
    ensures Copied(s).mem[f] == Child(s).mem[f]
  {
    ChildSound(s, guard, i);
    CloneUserReads(Child(s), Guard(guard, i), 0);
    ParentFrames(s, guard, i, f);
  }

  lemma ParentFrames(s: State, guard: set<Frame>, i: Frame, f: Frame)
    requires Cloned(s, guard, i)
    requires f == s.cr3 || exists w: Frame :: TablePage(s, w) && ParentTable(s)[w].address == f
    ensures f in Child(s).claimed && !TableFrame(Child(s), f) && f !in Child(s).image
  {
    assert Reserved(s, s.cr3);
    assert f in s.claimed && f !in s.image by {
      if w: Frame :| TablePage(s, w) && ParentTable(s)[w].address == f {
        Places(s, guard, i);
        assert w in guard && s.table[w].address == f;
      }
    }
    NewFramesFresh(s, guard, i);
  }

  /** The child's page table is on frames that nobody had claimed. */
  lemma NewFramesFresh(s: State, guard: set<Frame>, i: Frame)
    requires Cloned(s, guard, i)
    ensures s.claimed <= Child(s).claimed && Child(s).image == s.image
    ensures forall g: Frame :: TableFrame(Child(s), g) ==> g !in s.claimed
  {
    CloneTablesExact(s, guard, i);
    ClonedPagesPresent(s, i);
  }

  lemma ParentCoherentStill(s: State, guard: set<Frame>, i: Frame)
    requires Cloned(s, guard, i)
    ensures Coherent(Left(s))
  {
    var p := Parent(s, Child(s));
    CloneTablesExact(s, guard, i);
    forall w: Frame | TablePage(s, w)
      ensures Copied(s).mem[ParentTable(s)[w].address] == Child(s).mem[ParentTable(s)[w].address]
    {
      ParentFramesApart(s, guard, i, w);
      ParentWords(s, guard, i, ParentTable(s)[w].address);
    }
    ParentFramesApart(s, guard, i, s.base);
    ParentWords(s, guard, i, s.cr3);
    WordsStay(p, Left(s));
  }

  lemma ParentFramesApart(s: State, guard: set<Frame>, i: Frame, w: Frame)
    requires Cloned(s, guard, i) && TablePage(s, w)
    ensures ParentTable(s)[w].address !in s.image && s.cr3 !in s.image
  {
    Places(s, guard, i);
    assert w in guard && !Reserved(s, s.table[w].address);
  }

  // ---- both are sound, and each is the other's ancestor ----

  lemma ChildSpaceSound(s: State, guard: set<Frame>, i: Frame)
    requires Cloned(s, guard, i)
    ensures SoundSpace(ChildSpace(s, guard, i))
  {
    ChildSound(s, guard, i);
    ReachesBoth(s, guard, i);
  }

  lemma ParentSpaceSound(s: State, guard: set<Frame>, i: Frame)
    requires Cloned(s, guard, i)
    ensures SoundSpace(ParentSpace(s, guard, i))
  {
    ParentGuarded(s, guard, i);
    ParentCoherentStill(s, guard, i);
    ReachesBoth(s, guard, i);
  }

  lemma ReachesBoth(s: State, guard: set<Frame>, i: Frame)
    requires Cloned(s, guard, i)
    ensures Reaches(Copied(s), Guard(guard, i)) && Reaches(Left(s), Guard(guard, i))
  {
    var t := ParentTable(s);
    Places(s, guard, i);
    forall f: Frame | Reserved(s, f) || f == t[i].address
      ensures Under(t, Guard(guard, i), f) && Under(Copied(s).table, Guard(guard, i), f)
    {
      if f == t[i].address {
        assert NewPage(i, i);
        assert i in Guard(guard, i);
      } else {
        assert Under(s.table, guard, f);
        var w :| w in guard && s.table[w].address == f;
        assert w in Guard(guard, i) && t[w].address == f;
      }
    }
  }

  /** The parent's table and directory are among the pages that the child leaves alone. */
  lemma ParentIsAncestor(s: State, guard: set<Frame>, i: Frame)
    requires Cloned(s, guard, i)
    ensures Ancestor(Left(s), ChildSpace(s, guard, i))
  {
    var a := ChildSpace(s, guard, i);
    ParentCoherentStill(s, guard, i);
    Places(s, guard, i);
    forall w | w in guard && s.table[w].address !in s.image ensures Holds(a, w, s.table[w].address) {
      NewPagesNotGuarded(s, guard, i);
    }
    forall w: Frame | TablePage(s, w) ensures Holds(a, w, ParentTable(s)[w].address) {
      ParentFramesApart(s, guard, i, w);
    }
    assert Reserved(s, s.cr3) && Under(s.table, guard, s.cr3);
    var d :| d in guard && s.table[d].address == s.cr3;
    assert Holds(a, d, s.cr3);
  }

  lemma NewPagesNotGuarded(s: State, guard: set<Frame>, i: Frame)
    requires Cloned(s, guard, i)
    ensures forall w :: w in guard ==> !TablePage(Copied(s), w)
  {
    Places(s, guard, i);
    ClonedPagesPresent(s, i);
  }

  /** And the other way round. */
  lemma ChildIsAncestor(s: State, guard: set<Frame>, i: Frame)
    requires Cloned(s, guard, i)
    ensures Ancestor(Copied(s), ParentSpace(s, guard, i))
  {
    var a := ParentSpace(s, guard, i);
    ChildSound(s, guard, i);
    Places(s, guard, i);
    forall w: Frame | i <= w <= i + 1024 ensures Holds(a, w, Copied(s).table[w].address) {
      NewPagesFree(s, guard, i, w);
      NewFramesNoVariables(s, guard, i, w);
    }
  }

  lemma NewFramesNoVariables(s: State, guard: set<Frame>, i: Frame, w: Frame)
    requires Cloned(s, guard, i) && i <= w <= i + 1024
    ensures ParentTable(s)[w].address !in s.image
  {
    assert Targets(ParentTable(s), i, 1025) !! s.claimed by {
      CloneTablesExact(s, guard, i);
    }
    ClonedPagesPresent(s, i);
  }

  // ---- isolation ----

  /**
   Deep copy isolates, for good: whatever the child then allocates, frees, moves, gives
   away, copies again or writes, leaving the guarded pages alone, the parent's user pages stay
   claimed and read what they read before the copy.
   */
  lemma ParentIsUntouched(s: State, guard: set<Frame>, i: Frame, ops: seq<Op>, v: Frame)
    requires Cloned(s, guard, i) && LegalRun(ChildSpace(s, guard, i), ops)
    requires IsUser(s.table, v) && Maps(s.table, v)
    ensures
      var (t, s3) := (ParentTable(s), Run(ChildSpace(s, guard, i), ops).state);
      && s3.mem[t[v].address] == s.Read(v)
      && t[v].address in s3.claimed
      && (forall w: Frame :: Maps(s3.table, w) ==> s3.table[w].address != t[v].address)
  {
    var a := ChildSpace(s, guard, i);
    UserPageReads(s, guard, i, v);
    ChildSpaceSound(s, guard, i);
    RunKeeps(a, ops);
    assert ParentTable(s)[v].address in Foreign(Run(a, ops).state);
  }

  lemma UserPageReads(s: State, guard: set<Frame>, i: Frame, v: Frame)
    requires Cloned(s, guard, i) && IsUser(s.table, v) && Maps(s.table, v)
    ensures ParentTable(s)[v].address in Foreign(Copied(s)) && Copied(s).mem[ParentTable(s)[v].address] == s.Read(v)
  {
    SameContents(s, guard, i);
    assert v !in Guard(guard, i) && IsData(s, v) by {
      assert Reserved(s, s.table[v].address) ==> v in guard;
    }
    assert s.table[v].address in s.claimed;
    Apartness(s, guard, i);
  }

  /**
   Whatever the child then maps, unmaps or does otherwise, its directory goes on leading to its own
   table and the parent's directory goes on leading to the parent's, page by page.
   */
  lemma TranslationsStay(s: State, guard: set<Frame>, i: Frame, ops: seq<Op>)
    requires Cloned(s, guard, i) && LegalRun(ChildSpace(s, guard, i), ops)
    ensures
      var s3 := Run(ChildSpace(s, guard, i), ops).state;
      && (forall v: Frame :: Walk(s3.mem, s3.cr3, v) == s3.table[v])
      && (forall v: Frame :: Walk(s3.mem, s.cr3, v) == ParentTable(s)[v])
  {
    ChildSpaceSound(s, guard, i);
    ParentIsAncestor(s, guard, i);
    RunTranslates(ChildSpace(s, guard, i), ops);
    AncestorTranslates(Left(s), ChildSpace(s, guard, i), ops);
  }

  /**
   The same the other way round: whatever the parent does leaves the child's translations alone, and
   its own follow its table.
   */
  lemma ChildTranslates(s: State, guard: set<Frame>, i: Frame, ops: seq<Op>)
    requires Cloned(s, guard, i) && LegalRun(ParentSpace(s, guard, i), ops)
    ensures
      var s3 := Run(ParentSpace(s, guard, i), ops).state;
      && (forall w: Frame :: Walk(s3.mem, s3.cr3, w) == s3.table[w])
      && (forall w: Frame :: Walk(s3.mem, Copied(s).cr3, w) == Copied(s).table[w])
  {
    ParentSpaceSound(s, guard, i);
    ChildIsAncestor(s, guard, i);
    RunTranslates(ParentSpace(s, guard, i), ops);
    AncestorTranslates(Copied(s), ParentSpace(s, guard, i), ops);
  }

  /** And so do the child's user pages stay claimed, unmapped in the parent, and as they are. */
  lemma ChildIsUntouched(s: State, guard: set<Frame>, i: Frame, ops: seq<Op>, v: Frame)
    requires Cloned(s, guard, i) && LegalRun(ParentSpace(s, guard, i), ops) && IsUser(Copied(s).table, v)
    ensures
      var s3 := Run(ParentSpace(s, guard, i), ops).state;
      var f := Copied(s).table[v].address;
      && s3.mem[f] == Copied(s).Read(v)
      && f in s3.claimed
      && (forall w: Frame :: Maps(s3.table, w) ==> s3.table[w].address != f)
  {
    var a := ParentSpace(s, guard, i);
    ParentSpaceSound(s, guard, i);
    RunKeeps(a, ops);
    assert Copied(s).table[v].address in Foreign(Left(s)) by {
      CopiedUser(s, guard, i, v);
      Apartness(s, guard, i);
    }
    assert Copied(s).table[v].address in Foreign(Run(a, ops).state);
  }

  lemma CopiedUser(s: State, guard: set<Frame>, i: Frame, v: Frame)
    requires Cloned(s, guard, i)
    ensures IsUser(Copied(s).table, v) <==> IsUser(ParentTable(s), v)
  {
    ChildSound(s, guard, i);
    CloneUserTable(Child(s), 0);
  }

  // ---- coming back ----

  /** use_kernel_map, after whatever the child did, is back at the parent's own table and directory. */
  lemma Returns(s: State, guard: set<Frame>, i: Frame, ops: seq<Op>, d: Frame)
    requires Cloned(s, guard, i) && LegalRun(ChildSpace(s, guard, i), ops)
    requires s.base == KERNEL_BASE && ParentTable(s)[d].address == s.cr3
    ensures
      var s3 := Run(ChildSpace(s, guard, i), ops).state;
      var back := UseKernelMap(s3, d);
      && back == State(s3.claimed, ParentTable(s), s3.mem, s.base, s.cr3, s.image)
      && Coherent(back) && Reaches(back, Guard(guard, i))
  {
    var a := ChildSpace(s, guard, i);
    ChildSpaceSound(s, guard, i);
    ParentIsAncestor(s, guard, i);
    ReachesBoth(s, guard, i);
    AncestorReturns(Left(s), a, ops, d);
    assert Coherent(Left(s).(mem := Run(a, ops).state.mem)) by {
      AncestorCoherent(Left(s), a, ops);
    }
    WordsStay(Left(s).(mem := Run(a, ops).state.mem), UseKernelMap(Run(a, ops).state, d));
    assert forall f: Frame :: Reserved(UseKernelMap(Run(a, ops).state, d), f) <==> Reserved(Left(s), f);
  }

  /** The frames of guarded pages stay claimed whatever the child does, and those of the parent's user pages too. */
  lemma StaysClaimed(s: State, guard: set<Frame>, i: Frame, ops: seq<Op>)
    requires Cloned(s, guard, i) && LegalRun(ChildSpace(s, guard, i), ops)
    ensures
      var (t, s3) := (ParentTable(s), Run(ChildSpace(s, guard, i), ops).state);
      && (forall v: Frame :: IsUser(t, v) && Maps(t, v) ==> t[v].address in s3.claimed)
      && (forall w :: w in Guard(guard, i) ==> t[w].address in s3.claimed)
  {
    var a := ChildSpace(s, guard, i);
    var (t, b) := (ParentTable(s), Run(a, ops));
    assert Keeps(a, b) by {
      ChildSpaceSound(s, guard, i);
      RunKeeps(a, ops);
    }
    forall v: Frame | IsUser(t, v) && Maps(t, v) ensures t[v].address in b.state.claimed {
      Apartness(s, guard, i);
      assert t[v].address in Foreign(b.state);
    }
    Places(s, guard, i);
  }

  /** A page of the parent that is not user is shared with the child. */
  ghost predicate Shared(s: State, v: Frame) {
    Maps(ParentTable(s), v) && !IsUser(ParentTable(s), v)
  }

  /** The parent is sound again iff the frames of the pages they share are still claimed. */
  lemma ReturnSoundIff(s: State, guard: set<Frame>, i: Frame, ops: seq<Op>, d: Frame)
    requires Cloned(s, guard, i) && LegalRun(ChildSpace(s, guard, i), ops)
    requires s.base == KERNEL_BASE && ParentTable(s)[d].address == s.cr3
    ensures
      var s3 := Run(ChildSpace(s, guard, i), ops).state;
      SoundSpace(Space(UseKernelMap(s3, d), Guard(guard, i)))
      <==> forall v: Frame :: Shared(s, v) ==> ParentTable(s)[v].address in s3.claimed
  {
    var s3 := Run(ChildSpace(s, guard, i), ops).state;
    Returns(s, guard, i, ops, d);
    StaysClaimed(s, guard, i, ops);
    ParentGuarded(s, guard, i);
    VariablesClaimed(s, guard, i, s3.claimed);
    BackSound(Left(s), UseKernelMap(s3, d), Guard(guard, i));
  }

  lemma VariablesClaimed(s: State, guard: set<Frame>, i: Frame, claimed: set<Frame>)
    requires Cloned(s, guard, i)
    requires forall w :: w in Guard(guard, i) ==> ParentTable(s)[w].address in claimed
    ensures s.image <= claimed && s.cr3 in claimed
  {
    ReachesBoth(s, guard, i);
    forall f: Frame | Reserved(s, f) ensures f in claimed {
      assert Reserved(Left(s), f) && Under(ParentTable(s), Guard(guard, i), f);
    }
    assert Reserved(s, s.cr3) && forall f :: f in s.image ==> Reserved(s, f);
  }

  /** With the same table, and the guarded frames still claimed, soundness is a matter of which frames are claimed. */
  lemma BackSound(p: State, b: State, guard: set<Frame>)
    requires Owned(p) && Guarded(p, guard) && Coherent(b)
    requires b == p.(claimed := b.claimed, mem := b.mem) && b.image <= b.claimed && b.cr3 in b.claimed
    requires forall w :: w in guard ==> p.table[w].address in b.claimed
    ensures Sound(b, guard) <==> forall v: Frame :: Maps(p.table, v) ==> p.table[v].address in b.claimed
  {
  }
}
