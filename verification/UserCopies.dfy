/**
 clone_user_pages: when it succeeds, and exactly which page gets which frame, also when it runs
 out of frames midway.
 */
module UserCopies {
  import opened Machine
  import opened PageTables
  import opened Ownership
  import opened Allocation

  predicate IsUser(t: Table, v: Frame) {
    t[v].user && t[v].present
  }

  /** The present user pages from entry i on. */
  ghost function UserPages(t: Table, i: nat): set<Frame> {
    set v: Frame | i <= v && IsUser(t, v)
  }

  /** Those of them in front of page v. */
  ghost function UserBefore(t: Table, i: nat, v: nat): set<Frame> {
    set w: Frame | i <= w < v && IsUser(t, w)
  }

  /** The free frames below frame f that can be handed out. */
  ghost function FreeBefore(claimed: set<Frame>, f: nat): set<Frame> {
    set g: Frame | g in FreeHigh(claimed) && g < f
  }

  /** Page v is among as many user pages, counted from entry i, as there are free frames. */
  ghost predicate GetsFrame(s: State, i: nat, v: Frame) {
    i <= v && IsUser(s.table, v) && |UserBefore(s.table, i, v)| < |FreeHigh(s.claimed)|
  }

  /** Entry v of s' is that of s, on the free frame with as many free ones below it as user pages come before v. */
  ghost predicate OnNthFree(s: State, s': State, i: nat, v: Frame) {
    && s'.table[v] == s.table[v].(address := s'.table[v].address)
    && s'.table[v].address in FreeHigh(s.claimed)
    && |FreeBefore(s.claimed, s'.table[v].address)| == |UserBefore(s.table, i, v)|
  }

  ghost function NewFrames(s: State, s': State, i: nat): set<Frame> {
    set v: Frame | GetsFrame(s, i, v) :: s'.table[v].address
  }

  /**
   The k-th present user page from entry i on is on the k-th lowest free frame, as far as these go; no
   other entry has changed, and exactly these frames are claimed as well.
   */
  ghost predicate CopiedInOrder(s: State, s': State, i: nat) {
    && (forall v: Frame :: GetsFrame(s, i, v) ==> OnNthFree(s, s', i, v))
    && (forall v: Frame :: !GetsFrame(s, i, v) ==> s'.table[v] == s.table[v])
    && s'.claimed == s.claimed + NewFrames(s, s', i)
  }

  // ---- one page ----

  lemma FirstUser(t: Table, i: Frame)
    ensures IsUser(t, i) ==> UserPages(t, i) == UserPages(t, i + 1) + {i}
    ensures !IsUser(t, i) ==> UserPages(t, i) == UserPages(t, i + 1)
  {
  }

  lemma FirstBefore(t: Table, i: Frame, v: nat)
    requires i < v
    ensures IsUser(t, i) ==> |UserBefore(t, i, v)| == |UserBefore(t, i + 1, v)| + 1
    ensures !IsUser(t, i) ==> UserBefore(t, i, v) == UserBefore(t, i + 1, v)
  {
    if IsUser(t, i) {
      assert UserBefore(t, i, v) == UserBefore(t, i + 1, v) + {i};
    }
  }

  /** Copying page i leaves the other pages as they were, and one free frame less. */
  lemma OneCopied(s: State, i: Frame, f: Frame)
    requires IsUser(s.table, i) && f in FreeHigh(s.claimed) && forall g: Frame :: g in FreeHigh(s.claimed) ==> f <= g
    ensures
      var s1 := CopyOnto(s, i, f);
      && s1.table == s.table[i := s.table[i].(address := f)] && s1.claimed == s.claimed + {f}
      && |FreeHigh(s1.claimed)| == |FreeHigh(s.claimed)| - 1
      && UserPages(s1.table, i + 1) == UserPages(s.table, i + 1)
  {
    var s1 := CopyOnto(s, i, f);
    assert FreeHigh(s.claimed) == FreeHigh(s1.claimed) + {f};
  }

  lemma BeforeLater(s: State, i: Frame, f: Frame, v: nat)
    requires i < v
    ensures UserBefore(CopyOnto(s, i, f).table, i + 1, v) == UserBefore(s.table, i + 1, v)
  {
  }

  lemma OneFreeLess(claimed: set<Frame>, f: Frame, g: Frame)
    requires f in FreeHigh(claimed) && f < g && forall h: Frame :: h in FreeHigh(claimed) ==> f <= h
    ensures |FreeBefore(claimed, g)| == |FreeBefore(claimed + {f}, g)| + 1
  {
    assert FreeBefore(claimed, g) == FreeBefore(claimed + {f}, g) + {f};
  }

  // ---- success ----

  /** clone_user_pages from entry i on succeeds iff there are as many free frames as user pages. */
  lemma {:induction false} CloneUserSucceedsIff(s: State, i: nat)
    requires i <= PAGES
    ensures CloneUserFrom(s, i).1 <==> |UserPages(s.table, i)| <= |FreeHigh(s.claimed)|
    decreases PAGES - i
  {
    if i == PAGES {
      assert UserPages(s.table, i) == {};
    } else if !IsUser(s.table, i) {
      FirstUser(s.table, i);
      CloneUserSucceedsIff(s, i + 1);
    } else {
      var f := FindFree(s.claimed);
      FindFreeIsLeast(s.claimed);
      FirstUser(s.table, i);
      if f == 0 {
        assert i in UserPages(s.table, i);
      } else {
        OneCopied(s, i, f);
        CloneUserSucceedsIff(CopyOnto(s, i, f), i + 1);
      }
    }
  }

  // ---- the outcome ----

  lemma GetsLater(s: State, i: Frame, v: Frame)
    requires i < v && IsUser(s.table, i) && FreeHigh(s.claimed) != {}
    requires forall g: Frame :: g in FreeHigh(s.claimed) ==> FindFree(s.claimed) <= g
    requires FindFree(s.claimed) in FreeHigh(s.claimed)
    ensures GetsFrame(s, i, v) <==> GetsFrame(CopyOnto(s, i, FindFree(s.claimed)), i + 1, v)
  {
    OneCopied(s, i, FindFree(s.claimed));
    BeforeLater(s, i, FindFree(s.claimed), v);
    FirstBefore(s.table, i, v);
  }

  lemma NthFreeLater(s: State, s': State, i: Frame, v: Frame, f: Frame)
    requires i < v && IsUser(s.table, i) && f in FreeHigh(s.claimed)
    requires forall g: Frame :: g in FreeHigh(s.claimed) ==> f <= g
    requires OnNthFree(CopyOnto(s, i, f), s', i + 1, v)
    ensures OnNthFree(s, s', i, v)
  {
    OneCopied(s, i, f);
    BeforeLater(s, i, f, v);
    FirstBefore(s.table, i, v);
    assert s'.table[v].address in FreeHigh(s.claimed) && s'.table[v].address != f;
    OneFreeLess(s.claimed, f, s'.table[v].address);
  }

  lemma FirstGets(s: State, i: Frame, f: Frame)
    requires IsUser(s.table, i) && f in FreeHigh(s.claimed) && forall g: Frame :: g in FreeHigh(s.claimed) ==> f <= g
    ensures GetsFrame(s, i, i) && UserBefore(s.table, i, i) == {} && FreeBefore(s.claimed, f) == {}
  {
    assert UserBefore(s.table, i, i) == {};
    assert |FreeHigh(s.claimed)| > 0;
  }

  lemma CopiedInOrderStep(s: State, s': State, i: Frame, f: Frame)
    requires IsUser(s.table, i) && f == FindFree(s.claimed) && f in FreeHigh(s.claimed)
    requires forall g: Frame :: g in FreeHigh(s.claimed) ==> f <= g
    requires CopiedInOrder(CopyOnto(s, i, f), s', i + 1)
    ensures CopiedInOrder(s, s', i)
  {
    var s1 := CopyOnto(s, i, f);
    OneCopied(s, i, f);
    FirstGets(s, i, f);
    assert s'.table[i] == s1.table[i];
    forall v: Frame | i < v ensures GetsFrame(s, i, v) <==> GetsFrame(s1, i + 1, v) {
      GetsLater(s, i, v);
    }
    forall v: Frame | GetsFrame(s, i, v) ensures OnNthFree(s, s', i, v) {
      if v > i {
        NthFreeLater(s, s', i, v, f);
      }
    }
    forall g: Frame ensures g in NewFrames(s, s', i) <==> g == f || g in NewFrames(s1, s', i + 1) {
      if g in NewFrames(s1, s', i + 1) {
        var v: Frame :| GetsFrame(s1, i + 1, v) && s'.table[v].address == g;
        assert GetsFrame(s, i, v);
      }
    }
  }

  lemma NoneGets(s: State, i: nat)
    requires i >= PAGES || FreeHigh(s.claimed) == {}
    ensures CopiedInOrder(s, s, i)
  {
    assert forall v: Frame :: !GetsFrame(s, i, v);
    assert NewFrames(s, s, i) == {};
  }

  lemma NotUserGets(s: State, s': State, i: Frame)
    requires !IsUser(s.table, i) && CopiedInOrder(s, s', i + 1)
    ensures CopiedInOrder(s, s', i)
  {
    forall v: Frame ensures GetsFrame(s, i, v) <==> GetsFrame(s, i + 1, v) {
      if i < v {
        FirstBefore(s.table, i, v);
      }
    }
    forall v: Frame | GetsFrame(s, i, v) ensures OnNthFree(s, s', i, v) {
      FirstBefore(s.table, i, v);
      assert OnNthFree(s, s', i + 1, v);
    }
    assert NewFrames(s, s', i) == NewFrames(s, s', i + 1);
  }

  /** What clone_user_pages leaves, on success and on a shortage. */
  lemma {:induction false} CloneUserInOrder(s: State, i: nat)
    requires i <= PAGES
    ensures CopiedInOrder(s, CloneUserFrom(s, i).0, i)
    decreases PAGES - i
  {
    if i == PAGES {
      NoneGets(s, i);
    } else if !IsUser(s.table, i) {
      CloneUserInOrder(s, i + 1);
      NotUserGets(s, CloneUserFrom(s, i).0, i);
    } else {
      var f := FindFree(s.claimed);
      FindFreeIsLeast(s.claimed);
      if f == 0 {
        NoneGets(s, i);
      } else {
        CloneUserInOrder(CopyOnto(s, i, f), i + 1);
        CopiedInOrderStep(s, CloneUserFrom(s, i).0, i, f);
      }
    }
  }

  /** When it fails no frame is left that could be handed out. */
  lemma {:induction false} FailureLeavesNone(s: State, i: nat)
    requires i <= PAGES && !CloneUserFrom(s, i).1
    ensures FreeHigh(CloneUserFrom(s, i).0.claimed) == {}
    decreases PAGES - i
  {
    if i == PAGES {
    } else if !IsUser(s.table, i) {
      FailureLeavesNone(s, i + 1);
    } else {
      var f := FindFree(s.claimed);
      FindFreeIsLeast(s.claimed);
      if f == 0 {
      } else {
        FailureLeavesNone(CopyOnto(s, i, f), i + 1);
      }
    }
  }

  /**
   clone_user_pages: it succeeds iff as many frames from 0x800 on are free as there are present user
   pages. The k-th of these pages gets the k-th lowest free frame, as far as they go, and no other
   frame is claimed; after a failure none is left.
   */
  lemma CloneUserExact(s: State)
    ensures
      var (s', done) := CloneUserFrom(s, 0);
      && (done <==> |UserPages(s.table, 0)| <= |FreeHigh(s.claimed)|)
      && CopiedInOrder(s, s', 0)
      && (!done ==> FreeHigh(s'.claimed) == {})
  {
    CloneUserSucceedsIff(s, 0);
    CloneUserInOrder(s, 0);
    if !CloneUserFrom(s, 0).1 {
      FailureLeavesNone(s, 0);
    }
  }
}
