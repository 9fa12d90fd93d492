/**
 The page table as words in memory: what the hardware's two-level walk finds there, and
 what keeps it in step with the flat table that the kernel goes by.
 */
module PageTables {
  import opened Machine
  import opened Arithmetic

  lemma DecodeEncode(e: Pte)
    ensures Decode(Encode(e)) == e
  {
    var p, r, u := if e.present then 1 else 0, if e.rw then 1 else 0, if e.user then 1 else 0;
    var w := Encode(e);
    DivUnique(w, 2, 2048 * e.address + 2 * u + r, p);
    DivUnique(w / 2, 2, 1024 * e.address + u, r);
    DivUnique(w, 4, 1024 * e.address + u, 2 * r + p);
    DivUnique(w / 4, 2, 512 * e.address, u);
    DivUnique(w, 4096, e.address, 4 * u + 2 * r + p);
  }

  // ---- the hardware's view ----

  /** The directory entry for page v, given the frame of the directory. */
  function DirectoryEntry(mem: Memory, dir: Frame, v: Frame): Pte {
    Decode(mem[dir][v / 1024])
  }

  /** The entry that the two-level walk through the directory in frame `dir` ends at. */
  function Walk(mem: Memory, dir: Frame, v: Frame): Pte {
    Decode(mem[DirectoryEntry(mem, dir, v).address][v % 1024])
  }

  // ---- the pages and frames of the table in use ----

  /** Page w holds part of the page table in use. */
  predicate TablePage(s: State, w: Frame) {
    s.base <= w < s.base + 1024
  }

  ghost predicate TableFrame(s: State, f: Frame) {
    exists w: Frame :: TablePage(s, w) && s.table[w].address == f
  }

  /** `mem` is the same but for the words of the page table. */
  ghost predicate OnlyTable(s: State, s': State) {
    forall f: Frame :: !TableFrame(s, f) ==> s'.mem[f] == s.mem[f]
  }

  /** Every frame holds the same but for the page table's, and the kernel's variables. */
  ghost predicate SameData(s: State, s': State) {
    forall f: Frame :: !TableFrame(s, f) && f !in s.image ==> s'.mem[f] == s.mem[f]
  }

  /** A page that is present, and holds neither part of the page table nor variables of the kernel. */
  predicate IsData(s: State, w: Frame) {
    s.table[w].present && !TablePage(s, w) && s.table[w].address !in s.image
  }

  ghost predicate TablePresent(s: State) {
    forall w: Frame :: TablePage(s, w) ==> s.table[w].present
  }

  /** Updating an entry whose page holds no part of the table changes words of the table only. */
  lemma UpdateData(s: State, v: Frame, e: Pte, c: set<Frame>)
    requires !TablePage(s, v)
    ensures OnlyTable(s, s.Update(v, e, c))
    ensures forall f: Frame :: TableFrame(s.Update(v, e, c), f) <==> TableFrame(s, f)
  {
    var s' := s.Update(v, e, c);
    assert TablePage(s, s.base + v / 1024);
    forall f: Frame ensures TableFrame(s', f) <==> TableFrame(s, f) {
      assert forall w: Frame :: TablePage(s, w) ==> s'.table[w] == s.table[w];
    }
  }

  ghost predicate MirroredAt(s: State, v: Frame) {
    s.mem[s.Home(v)][v % 1024] == Encode(s.table[v])
  }

  /** The words under the table's pages are those of the flat table. */
  ghost predicate Mirrored(s: State) {
    forall v: Frame :: MirroredAt(s, v)
  }

  function DirectoryTo(t: Table, b: TableBase, k: nat): U32
    requires k < 1024
  {
    Encode(Pte(true, true, true, t[b + k].address))
  }

  /** The directory's 1024 entries point at the frames under the table's pages. */
  ghost predicate Directed(s: State) {
    forall k: nat :: k < 1024 ==> s.mem[s.cr3][k] == DirectoryTo(s.table, s.base, k)
  }

  ghost predicate Coherent(s: State) {
    Mirrored(s) && Directed(s)
  }

  /** In a coherent state the hardware goes by the kernel's flat table, for every page. */
  lemma WalkIsTable(s: State)
    requires Coherent(s)
    ensures forall v: Frame :: Walk(s.mem, s.cr3, v) == s.table[v]
  {
    forall v: Frame ensures Walk(s.mem, s.cr3, v) == s.table[v] {
      assert s.mem[s.cr3][v / 1024] == DirectoryTo(s.table, s.base, v / 1024);
      DecodeEncode(Pte(true, true, true, s.Home(v)));
      assert MirroredAt(s, v);
      DecodeEncode(s.table[v]);
    }
  }

  /** And the kernel reads the same table through its own mapping. */
  lemma ViewIsTable(s: State)
    requires Mirrored(s)
    ensures TableAt(s.mem, s.table, s.base) == s.table
  {
    var view := TableAt(s.mem, s.table, s.base);
    forall v | 0 <= v < PAGES ensures view[v] == s.table[v] {
      assert MirroredAt(s, v);
      DecodeEncode(s.table[v]);
    }
  }

  // ---- the pages that must be left alone ----

  /** The frames that no program page may be on: those of the kernel's variables, and the directory's. */
  predicate Reserved(s: State, f: Frame) {
    f in s.image || f == s.cr3
  }

  /** Reserved frames are claimed, hold no page table, and only guarded pages are on them. */
  ghost predicate ReservedApart(s: State, guard: set<Frame>) {
    && s.image <= s.claimed && s.cr3 in s.claimed && !Reserved(s, 0) && s.cr3 !in s.image
    && (forall w: Frame :: TablePage(s, w) ==> !Reserved(s, s.table[w].address))
    && (forall v: Frame :: s.table[v].present && Reserved(s, s.table[v].address) ==> v in guard)
  }

  /**
   `guard` is a set of pages, among them those of the page table in use and all that are on
   reserved frames: they are present, and nothing else is on their frames.
   */
  ghost predicate Guarded(s: State, guard: set<Frame>) {
    && (forall w: Frame :: TablePage(s, w) ==> w in guard)
    && (forall w :: w in guard ==> s.table[w].present && s.table[w].address != 0 && s.table[w].address in s.claimed)
    && (forall w: Frame, v: Frame ::
          w in guard && s.table[v].present && v != w ==> s.table[v].address != s.table[w].address)
    && ReservedApart(s, guard)
  }

  ghost predicate Under(t: Table, guard: set<Frame>, f: Frame) {
    exists w :: w in guard && t[w].address == f
  }

  /** The directory and the kernel's variables are under guarded pages. */
  ghost predicate Reaches(s: State, guard: set<Frame>) {
    forall f: Frame :: Reserved(s, f) ==> Under(s.table, guard, f)
  }

  lemma ReachesStays(s: State, s': State, guard: set<Frame>)
    requires Reaches(s, guard) && Steady(s, s', guard) && s'.cr3 == s.cr3
    ensures Reaches(s', guard)
  {
    forall f: Frame | Reserved(s', f) ensures Under(s'.table, guard, f) {
      assert Reserved(s, f) && Under(s.table, guard, f);
      var w :| w in guard && s.table[w].address == f;
      assert s'.table[w].address == f;
    }
  }

  /**
   The guarded pages stay on their frames, and these, but for the table in use and the kernel's
   variables, hold what they held.
   */
  ghost predicate Steady(s: State, s': State, guard: set<Frame>) {
    s'.image == s.image
    && forall w :: w in guard ==>
      && s'.table[w].present && s'.table[w].address == s.table[w].address
      && (!TablePage(s, w) ==> !TablePage(s', w))
      && (!TablePage(s, w) && s.table[w].address !in s.image ==>
            s'.mem[s.table[w].address] == s.mem[s.table[w].address])
  }

  /** An update of one entry that leaves the guarded pages where they are. */
  ghost predicate Harmless(s: State, guard: set<Frame>, v: Frame, e: Pte, c: set<Frame>) {
    && (v in guard ==> e.present && e.address == s.table[v].address)
    && (forall w :: w in guard ==> s.table[w].address in c)
    && (v !in guard && e.present ==> forall w :: w in guard ==> s.table[w].address != e.address)
    && s.image <= c && s.cr3 in c && (v !in guard && e.present ==> !Reserved(s, e.address))
  }

  lemma UpdateKeepsGuard(s: State, guard: set<Frame>, v: Frame, e: Pte, c: set<Frame>)
    requires Guarded(s, guard) && Harmless(s, guard, v, e, c)
    ensures Guarded(s.Update(v, e, c), guard)
    ensures OnlyTable(s, s.Update(v, e, c)) && Steady(s, s.Update(v, e, c), guard)
  {
  }

  lemma SameTable(s: State, s1: State)
    requires s1.base == s.base && forall w: Frame :: TablePage(s, w) ==> s1.table[w].address == s.table[w].address
    ensures forall f: Frame :: TableFrame(s1, f) <==> TableFrame(s, f)
  {
  }

  lemma GuardedTable(s: State, guard: set<Frame>)
    requires Guarded(s, guard)
    ensures TablePresent(s) && TableApart(s)
  {
  }

  /** Pages other than the page table's are not on its frames. */
  lemma OffTableFrames(s: State, guard: set<Frame>)
    requires Guarded(s, guard)
    ensures forall w: Frame :: s.table[w].present && !TablePage(s, w) ==> !TableFrame(s, s.table[w].address)
  {
  }

  lemma SameTableFrames(s: State, s': State, guard: set<Frame>)
    requires Guarded(s, guard) && Steady(s, s', guard) && s'.base == s.base
    ensures forall g: Frame :: TableFrame(s', g) <==> TableFrame(s, g)
  {
  }

  lemma FreshIsNoTable(s: State, guard: set<Frame>, f: Frame)
    requires Guarded(s, guard) && f !in s.claimed
    ensures !TableFrame(s, f)
  {
  }

  lemma UpdateKeepsMirror(s: State, guard: set<Frame>, v: Frame, e: Pte, c: set<Frame>)
    requires Guarded(s, guard) && Harmless(s, guard, v, e, c) && Coherent(s)
    ensures Coherent(s.Update(v, e, c))
  {
    var s' := s.Update(v, e, c);
    var p: Frame := s.base + v / 1024;
    assert TablePage(s, p) && p in guard;
    forall x: Frame ensures MirroredAt(s', x) {
      var q: Frame := s.base + x / 1024;
      assert TablePage(s, q) && q in guard;
      assert MirroredAt(s, x);
      if q == p && x % 1024 == v % 1024 {
        assert x == v;
      }
    }
    forall k: nat | k < 1024 ensures s'.mem[s'.cr3][k] == DirectoryTo(s'.table, s'.base, k) {
      var q: Frame := s.base + k;
      assert TablePage(s, q) && q in guard;
    }
  }

  /** The pages of the table in use are on frames of their own. */
  ghost predicate TableApart(s: State) {
    forall w: Frame, x: Frame ::
      TablePage(s, w) && TablePage(s, x) && s.table[w].address == s.table[x].address ==> w == x
  }

  lemma UpdateMirrors(s: State, v: Frame, e: Pte, c: set<Frame>)
    requires Mirrored(s) && TableApart(s) && !TablePage(s, v)
    ensures Mirrored(s.Update(v, e, c)) && TableApart(s.Update(v, e, c))
  {
    var s' := s.Update(v, e, c);
    var p: Frame := s.base + v / 1024;
    assert TablePage(s, p);
    forall x: Frame ensures MirroredAt(s', x) {
      var q: Frame := s.base + x / 1024;
      assert TablePage(s, q) && MirroredAt(s, x);
      if q == p && x % 1024 == v % 1024 {
        assert x == v;
      }
    }
  }

  /** Memory is determined by the table it mirrors and by the data. */
  lemma MirrorDetermines(s: State, s': State)
    requires Mirrored(s) && Mirrored(s') && s'.table == s.table && s'.base == s.base && OnlyTable(s, s')
    ensures s'.mem == s.mem
  {
    forall f: Frame ensures s'.mem[f] == s.mem[f] {
      if TableFrame(s, f) {
        var w: Frame :| TablePage(s, w) && s.table[w].address == f;
        forall k | 0 <= k < 1024 ensures s'.mem[f][k] == s.mem[f][k] {
          var v: Frame := 1024 * (w - s.base) + k;
          assert v / 1024 == w - s.base && v % 1024 == k;
          assert MirroredAt(s, v) && MirroredAt(s', v);
        }
      }
    }
  }

  /** A write to a frame under no guarded page. */
  lemma StoreKeeps(s: State, guard: set<Frame>, f: Frame, c: Content)
    requires Guarded(s, guard) && Coherent(s) && f != s.cr3
    requires forall w :: w in guard ==> s.table[w].address != f
    ensures Guarded(s.Store(f, c), guard) && Coherent(s.Store(f, c)) && Steady(s, s.Store(f, c), guard)
  {
    var s' := s.Store(f, c);
    forall x: Frame ensures MirroredAt(s', x) {
      var q: Frame := s.base + x / 1024;
      assert TablePage(s, q) && q in guard;
      assert MirroredAt(s, x);
    }
    assert Directed(s');
  }

  /** So does a write to the kernel's own variables. */
  lemma VariableKeeps(s: State, guard: set<Frame>, f: Frame, c: Content)
    requires Guarded(s, guard) && Coherent(s) && f in s.image
    ensures Guarded(s.Store(f, c), guard) && Coherent(s.Store(f, c)) && Steady(s, s.Store(f, c), guard)
  {
    var s' := s.Store(f, c);
    forall x: Frame ensures MirroredAt(s', x) {
      assert TablePage(s, s.base + x / 1024) && Reserved(s, f);
      assert MirroredAt(s, x);
    }
    assert Directed(s');
  }

  /** With the same words under the pages of the table, and in the directory, a state stays coherent. */
  lemma WordsStay(s: State, s': State)
    requires Coherent(s) && s'.table == s.table && s'.base == s.base && s'.cr3 == s.cr3
    requires forall w: Frame :: TablePage(s, w) ==> s'.mem[s.table[w].address] == s.mem[s.table[w].address]
    requires s'.mem[s.cr3] == s.mem[s.cr3]
    ensures Coherent(s')
  {
    forall v: Frame ensures MirroredAt(s', v) {
      assert MirroredAt(s, v) && TablePage(s, s.base + v / 1024);
    }
    assert Directed(s');
  }

  lemma SteadyTrans(a: State, b: State, c: State, guard: set<Frame>, guard': set<Frame>)
    requires Steady(a, b, guard) && Steady(b, c, guard') && guard <= guard'
    ensures Steady(a, c, guard)
  {
  }

  // ---- the guard is needed ----

  /** A write through a page of the table keeps memory and flat table in step iff it writes what is there already. */
  lemma TableWriteIff(s: State, guard: set<Frame>, w: Frame, c: Content)
    requires Guarded(s, guard) && Coherent(s) && TablePage(s, w)
    ensures Coherent(s.Store(s.table[w].address, c)) <==> c == s.Read(w)
  {
    var s' := s.Store(s.table[w].address, c);
    if Coherent(s') {
      forall k | 0 <= k < 1024 ensures c[k] == s.Read(w)[k] {
        var v: Frame := 1024 * (w - s.base) + k;
        assert v / 1024 == w - s.base && v % 1024 == k;
        assert MirroredAt(s, v) && MirroredAt(s', v);
      }
    }
    assert c == s.Read(w) ==> s'.mem == s.mem;
  }

  /** The same of a write to the directory. */
  lemma DirectoryWriteIff(s: State, guard: set<Frame>, c: Content)
    requires Guarded(s, guard) && Coherent(s)
    ensures Coherent(s.Store(s.cr3, c)) <==> c == s.mem[s.cr3]
  {
    var s' := s.Store(s.cr3, c);
    if Coherent(s') {
      forall k | 0 <= k < 1024 ensures c[k] == s.mem[s.cr3][k] {
        assert s.mem[s.cr3][k] == DirectoryTo(s.table, s.base, k);
        assert s'.mem[s'.cr3][k] == DirectoryTo(s'.table, s'.base, k);
      }
    }
    assert c == s.mem[s.cr3] ==> s'.mem == s.mem;
  }

  /** Freeing a page of the table leaves its frame to be handed out, while the directory still points there. */
  lemma FreedTablePage(s: State, guard: set<Frame>, w: Frame)
    requires Guarded(s, guard) && Coherent(s) && TablePage(s, w)
    ensures
      var s' := UnmapVaddr(s, w);
      var f := s.table[w].address;
      f !in s'.claimed && Decode(s'.mem[s'.cr3][w - s.base]) == Pte(true, true, true, f)
  {
    var p: Frame := s.base + w / 1024;
    assert TablePage(s, p) && p in guard;
    assert s.mem[s.cr3][w - s.base] == DirectoryTo(s.table, s.base, w - s.base);
    DecodeEncode(Pte(true, true, true, s.table[w].address));
  }
}
