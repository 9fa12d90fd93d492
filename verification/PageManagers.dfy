/**
 The page manager of memory/memory.c: the frame bitmap, the flat page table that
 `kernel_tables` points at, and physical memory, all updated in place.
 Addresses that the code only ever divides by 0x1000 are page and frame numbers here.
 */
module PageManagers {
  import M = Machine
  import opened FrameBitmaps
  type Frame = M.Frame
  type U32 = M.U32
  type Outcome = M.Outcome

  class PageManager {
    /** pmem_used */
    const bitmap: FrameBitmap
    /** kernel_tables, which switch_tables points elsewhere */
    var tables: array<M.Pte>
    /** what each frame holds, the words of page tables and directories included */
    const ram: array<M.Content>
    /** page number of kernel_tables, and the directory's frame */
    var base: nat
    var cr3: Frame
    /** the frames of the kernel's variables */
    const image: set<Frame>

    ghost predicate Valid()
      reads this, bitmap, bitmap.bytes
    {
      bitmap.Valid() && tables.Length == M.PAGES && ram.Length == M.PAGES && base + 1024 <= M.PAGES
    }

    ghost function Footprint(): set<object>
      reads this
    {
      {bitmap, bitmap.bytes, tables, ram}
    }

    ghost function State(): M.State
      requires Valid()
      reads this, bitmap, bitmap.bytes, tables, ram
    {
      M.State(bitmap.claimed, tables[..], ram[..], base, cr3, image)
    }

    constructor (frames: set<Frame>)
      ensures Valid() && fresh(Footprint()) && image == frames
    {
      image := frames;
      bitmap := new FrameBitmap();
      tables := new M.Pte[M.PAGES](_ => M.EMPTY);
      ram := new M.Content[M.PAGES](_ => M.Zeroes());
      base, cr3 := 0, 0;
    }

    // ---- single entries ----

    /**
     Write one page-table entry: the kernel's flat view of it, and the word in the frame under
     that part of the table. The bit-field assignments between two TLB flushes are one write.
     */
    method SetEntry(v: Frame, e: M.Pte)
      requires Valid()
      modifies tables, ram
      ensures Valid() && State() == old(State()).Update(v, e, old(State()).claimed)
    {
      var f := tables[base + v / 1024].address;
      tables[v] := e;
      ram[f] := ram[f][v % 1024 := M.Encode(e)];
    }

    method MapAddr(v: Frame, f: Frame)
      requires Valid()
      modifies bitmap, bitmap.bytes, tables, ram
      ensures Valid() && State() == M.MapAddr(old(State()), v, f)
    {
      bitmap.Claim(f);
      SetEntry(v, tables[v].(address := f, rw := true, present := true));
    }

    method UnmapVaddr(v: Frame)
      requires Valid()
      modifies bitmap, bitmap.bytes, tables, ram
      ensures Valid() && State() == M.UnmapVaddr(old(State()), v)
    {
      bitmap.Release(tables[v].address);
      SetEntry(v, tables[v].(address := 0, rw := false, present := false));
    }

    /** Clear the entry but keep its frame claimed: the page was given to another address space. */
    method TradeVaddr(v: Frame)
      requires Valid()
      modifies tables, ram
      ensures Valid() && State() == M.TradeVaddr(old(State()), v)
    {
      SetEntry(v, tables[v].(address := 0, rw := false, present := false));
    }

    method MarkUser(v: Frame, user: bool)
      requires Valid()
      modifies tables, ram
      ensures Valid() && State() == M.MarkUser(old(State()), v, user)
    {
      SetEntry(v, tables[v].(user := user));
    }

    method MarkWrite(v: Frame, write: bool)
      requires Valid()
      modifies tables, ram
      ensures Valid() && State() == M.MarkWrite(old(State()), v, write)
    {
      SetEntry(v, tables[v].(rw := write));
    }

    /** Null means the page was present already, or no frame is free. */
    method MapPageTo(v: Frame) returns (r: Outcome)
      requires Valid()
      modifies bitmap, bitmap.bytes, tables, ram
      ensures Valid() && (State(), r) == M.MapPageTo(old(State()), v)
    {
      if tables[v].present {
        return M.Null;
      }
      var mapped := MapNextFree(v);
      return if mapped then M.Page(v) else M.Null;
    }

    /** Map page v to the lowest free frame; false if there is none. */
    method MapNextFree(v: Frame) returns (mapped: bool)
      requires Valid()
      modifies bitmap, bitmap.bytes, tables, ram
      ensures Valid() && mapped == (M.FindFree(old(State()).claimed) != 0)
      ensures State() == if mapped then M.MapAddr(old(State()), v, M.FindFree(old(State()).claimed)) else old(State())
    {
      var f := bitmap.FindFreePhysPage();
      if f == 0 {
        return false;
      }
      MapAddr(v, f);
      return true;
    }

    method MapPageSecretly(v: Frame, f: Frame)
      requires Valid()
      modifies tables, ram
      ensures Valid() && State() == M.MapPageSecretly(old(State()), v, f)
    {
      SetEntry(v, tables[v].(address := f, rw := true, present := true));
    }

    // ---- the virtual-run scan ----

    /**
     The inner loop of the three allocators: count non-present entries from i on,
     up to `pages`. It reports `pastEnd` where the C code reads entry 0x100000.
     */
    method CountRun(i: nat, pages: U32) returns (successful: nat, pastEnd: bool)
      requires Valid() && i < M.PAGES && !tables[i].present && 0 < pages
      ensures pastEnd <==> pages < M.MAX_U32 && i + pages > M.PAGES && M.Unmapped(tables[..], i, M.PAGES - i)
      ensures !pastEnd ==> (successful == pages <==> i + pages <= M.PAGES && M.Unmapped(tables[..], i, pages))
    {
      successful, pastEnd := 1, false;
      var j := i + 1;
      while j - i < (pages + 1) % 0x1_0000_0000
        invariant 1 <= successful == j - i <= pages && j <= M.PAGES
        invariant M.Unmapped(tables[..], i, successful)
        decreases pages + 1 - (j - i)
      {
        if successful == pages {
          break;
        }
        if j == M.PAGES {
          return successful, true;
        }
        if !tables[j].present {
          successful := successful + 1;
        } else {
          break;
        }
        j := j + 1;
      }
    }

    /** The outer loop of alloc_page and of map_paddr. */
    method FindRun(pages: U32) returns (r: Outcome)
      requires Valid() && 0 < pages
      ensures r == M.FindRun(tables[..], pages)
    {
      var i := M.KERNEL_SPACE;
      while i < M.PAGES
        invariant M.KERNEL_SPACE <= i <= M.PAGES
        invariant M.FirstRun(tables[..], pages, i) == M.FirstRun(tables[..], pages, M.KERNEL_SPACE)
        invariant i == M.PAGES ==> !M.Overruns(tables[..], pages)
      {
        if !tables[i].present {
          var successful, pastEnd := CountRun(i, pages);
          if pastEnd {
            return M.PastEnd;
          }
          if successful == pages {
            return M.Page(i);
          }
        }
        i := i + 1;
      }
      return M.Null;
    }

    method AllocPage(pages: U32) returns (r: Outcome)
      requires Valid()
      modifies bitmap, bitmap.bytes, tables, ram
      ensures Valid() && (State(), r) == M.AllocPage(old(State()), pages)
    {
      if pages == 0 {
        return M.Null;
      }
      r := FindRun(pages);
      if r.Page? {
        var filled := FillRun(r.page, pages);
        if !filled {
          return M.Null;
        }
      }
    }

    method FillRun(i: nat, pages: nat) returns (filled: bool)
      requires Valid() && i + pages <= M.PAGES
      modifies bitmap, bitmap.bytes, tables, ram
      ensures Valid() && (State(), filled) == M.FillRun(old(State()), i, pages)
    {
      ghost var s := State();
      ghost var goal := M.FillRun(s, i, pages);
      var v: nat, n: nat := i, pages;
      while n > 0
        invariant Valid() && s == State() && v + n == i + pages
        invariant M.FillRun(s, v, n) == goal
      {
        var mapped := FillNext(v, n, goal);
        if !mapped {
          return false;
        }
        s, v, n := State(), v + 1, n - 1;
      }
      return true;
    }

    /** One iteration of FillRun, with n pages to go. */
    method FillNext(v: nat, ghost n: nat, ghost goal: (M.State, bool)) returns (mapped: bool)
      requires Valid() && 0 < n && v + n <= M.PAGES && M.FillRun(State(), v, n) == goal
      modifies bitmap, bitmap.bytes, tables, ram
      ensures Valid()
      ensures goal == if mapped then M.FillRun(State(), v + 1, n - 1) else (State(), false)
    {
      M.FillRunStep(State(), v, n);
      mapped := MapNextFree(v);
    }

    /** Like AllocPage, but the frames are consecutive too: a byte-skipping scan inside the table scan. */
    method AllocSequential(pages: U32) returns (r: Outcome)
      requires Valid()
      modifies bitmap, bitmap.bytes, tables, ram
      ensures Valid() && (State(), r) == M.AllocSequential(old(State()), pages)
    {
      if pages == 0 {
        return M.Null;
      }
      var i := M.KERNEL_SPACE;
      while i < M.PAGES
        invariant M.KERNEL_SPACE <= i <= M.PAGES
        invariant Valid() && State() == old(State())
        invariant M.FirstRun(tables[..], pages, i) == M.FirstRun(tables[..], pages, M.KERNEL_SPACE)
               || M.FirstFrames(bitmap.claimed, pages, M.FIRST_SEQUENTIAL) == M.PAGES
        invariant i == M.PAGES ==> !M.Overruns(tables[..], pages)
      {
        if !tables[i].present {
          var successful, pastEnd := CountRun(i, pages);
          if pastEnd {
            return M.PastEnd;
          }
          if successful == pages {
            var j := FindFrames(pages);
            if j < M.PAGES {
              MapFrames(i, j, pages);
              return M.Page(i);
            }
          }
        }
        i := i + 1;
      }
      return M.Null;
    }

    /** The physical scan of alloc_sequential; M.PAGES where the C loop runs out of frames. */
    method FindFrames(pages: U32) returns (j: nat)
      requires Valid() && 0 < pages <= M.PAGES
      ensures j == M.FirstFrames(bitmap.claimed, pages, M.FIRST_SEQUENTIAL)
    {
      j := M.FIRST_SEQUENTIAL;
      while j < M.PAGES
        invariant M.FIRST_SEQUENTIAL <= j <= M.PAGES
        invariant forall k :: M.FIRST_SEQUENTIAL <= k < j ==> !M.FreeFrames(bitmap.claimed, k, pages)
        invariant j % 8 == 0 || exists f: Frame :: f / 8 == j / 8 && f !in bitmap.claimed
        decreases M.PAGES - j
      {
        var b := bitmap.Cluster(j);
        if b == 255 {
          NoRunInFullByte(j, pages);
          j := j + 7;
        } else {
          var claimed := bitmap.Check(j);
          if !claimed {
            var successful := CountFrames(j, pages);
            if successful == pages {
              return;
            }
          } else {
            assert M.Wrap(j) in bitmap.claimed;
          }
        }
        j := j + 1;
      }
    }

    lemma NoRunInFullByte(j: nat, pages: nat)
      requires Valid() && 0 < pages && j % 8 == 0 && j < M.PAGES
      requires forall f: Frame | f / 8 == j / 8 :: f in bitmap.claimed
      ensures forall k :: j <= k < j + 8 ==> !M.FreeFrames(bitmap.claimed, k, pages)
    {
      forall k | j <= k < j + 8 ensures !M.FreeFrames(bitmap.claimed, k, pages) {
        assert M.Wrap(k) == k && k / 8 == j / 8;
      }
    }

    /** The innermost loop of alloc_sequential; (void *)(k*0x1000) wraps after the last frame. */
    method CountFrames(j: Frame, pages: U32) returns (successful: nat)
      requires Valid() && 0 < pages <= M.PAGES && j !in bitmap.claimed
      ensures successful == pages <==> M.FreeFrames(bitmap.claimed, j, pages)
    {
      successful := 1;
      var k := j + 1;
      while k - j < (pages + 1) % 0x1_0000_0000
        invariant 1 <= successful == k - j <= pages
        invariant M.FreeFrames(bitmap.claimed, j, successful)
        decreases pages + 1 - (k - j)
      {
        if successful == pages {
          break;
        }
        var claimed := bitmap.Check(M.Wrap(k));
        if !claimed {
          successful := successful + 1;
        } else {
          break;
        }
        k := k + 1;
      }
    }

    method MapFrames(i: Frame, j: nat, pages: nat)
      requires Valid() && i + pages <= M.PAGES
      modifies bitmap, bitmap.bytes, tables, ram
      ensures Valid() && State() == M.MapRun(old(State()), i, j, pages)
    {
      ghost var s := State();
      ghost var goal, n := M.MapRun(s, i, j, pages), pages;
      var v: nat, f: nat := i, j;
      while v < i + pages
        invariant Valid() && s == State() && v + n == i + pages
        invariant M.MapRun(s, v, f, n) == goal
        decreases n
      {
        MapNextFrame(v, f, n, goal);
        s, v, f, n := State(), v + 1, f + 1, n - 1;
      }
    }

    /** One iteration of MapFrames, with n pages to go. */
    method MapNextFrame(v: nat, f: nat, ghost n: nat, ghost goal: M.State)
      requires Valid() && 0 < n && v + n <= M.PAGES && M.MapRun(State(), v, f, n) == goal
      modifies bitmap, bitmap.bytes, tables, ram
      ensures Valid() && M.MapRun(State(), v + 1, f + 1, n - 1) == goal
    {
      M.MapRunStep(State(), v, f, n);
      MapAddr(v, M.Wrap(f));
    }

    method MapPaddr(p: Frame, pages: U32) returns (r: Outcome)
      requires Valid()
      modifies tables, ram
      ensures Valid() && (State(), r) == M.MapPaddr(old(State()), p, pages)
    {
      if pages == 0 {
        return M.Null;
      }
      r := FindRun(pages);
      if r.Page? {
        MapSecretly(r.page, p, pages);
      }
    }

    method MapSecretly(i: nat, p: nat, pages: nat)
      requires Valid() && i + pages <= M.PAGES
      modifies tables, ram
      ensures Valid() && State() == M.MapSecretly(old(State()), i, p, pages)
    {
      ghost var goal := M.MapSecretly(State(), i, p, pages);
      for step := 0 to pages
        invariant Valid() && M.MapSecretly(State(), i + step, p + step, pages - step) == goal
      {
        MapPageSecretly(i + step, M.Wrap(p + step));
      }
    }

    /** The model stops, and answers false, where the C code writes past the table. */
    method UnmapSecretPage(start: Frame, pages: U32) returns (done: bool)
      requires Valid()
      modifies tables, ram
      ensures Valid() && (State(), done) == M.UnmapSecret(old(State()), start, pages)
    {
      ghost var goal := M.UnmapSecret(State(), start, pages);
      var v: nat, n: nat := start, pages;
      while n > 0
        invariant Valid() && v <= M.PAGES && M.UnmapSecret(State(), v, n) == goal
      {
        if v == M.PAGES {
          return false;
        }
        UnmapNext(v, n, goal);
        v, n := v + 1, n - 1;
      }
      return true;
    }

    /** One iteration of UnmapSecretPage, with n pages to go. */
    method UnmapNext(v: nat, ghost n: nat, ghost goal: (M.State, bool))
      requires Valid() && v < M.PAGES && 0 < n && M.UnmapSecret(State(), v, n) == goal
      modifies tables, ram
      ensures Valid() && M.UnmapSecret(State(), v + 1, n - 1) == goal
    {
      TradeVaddr(v);
    }

    // ---- freeing and reallocating ----

    method FreePage(start: nat, pages: U32)
      requires Valid()
      modifies bitmap, bitmap.bytes, tables, ram
      ensures Valid() && State() == M.FreePage(old(State()), start, pages)
    {
      ghost var goal := M.FreePage(State(), start, pages);
      var v: nat, n: nat := start, pages;
      while n > 0
        invariant Valid() && M.FreePage(State(), v, n) == goal
      {
        FreeNext(v, n, goal);
        v, n := v + 1, n - 1;
      }
    }

    /** One iteration of FreePage, with n pages to go. */
    method FreeNext(v: nat, ghost n: nat, ghost goal: M.State)
      requires Valid() && 0 < n && M.FreePage(State(), v, n) == goal
      modifies bitmap, bitmap.bytes, tables, ram
      ensures Valid() && M.FreePage(State(), v + 1, n - 1) == goal
    {
      UnmapVaddr(M.Wrap(v));
    }

    method FreeAllUserPages()
      requires Valid()
      modifies bitmap, bitmap.bytes, tables, ram
      ensures Valid() && State() == M.FreeUserFrom(old(State()), 0)
    {
      for i := 0 to M.PAGES
        invariant Valid() && M.FreeUserFrom(State(), i) == M.FreeUserFrom(old(State()), 0)
      {
        if tables[i].user && tables[i].present {
          ghost var s := State();
          FreePage(i, 1);
          assert M.FreePage(s, i, 1) == M.UnmapVaddr(s, i);
        }
      }
    }

    /** memcpy between page-aligned blocks; false on the page fault that stops it. */
    method CopyPages(dst: nat, src: nat, n: nat) returns (done: bool)
      requires Valid() && dst + n <= M.PAGES && src + n <= M.PAGES
      modifies ram
      ensures Valid() && (State(), done) == M.CopyPages(old(State()), dst, src, n)
    {
      for k := 0 to n
        invariant Valid() && M.CopyPages(State(), dst + k, src + k, n - k) == M.CopyPages(old(State()), dst, src, n)
      {
        if !tables[src + k].present || !tables[dst + k].present {
          return false;
        }
        ram[tables[dst + k].address] := ram[tables[src + k].address];
      }
      return true;
    }

    method ReallocPage(p: Frame, oldPages: U32, newPages: U32) returns (r: Outcome)
      requires Valid() && p + oldPages <= M.MAX_U32
      modifies bitmap, bitmap.bytes, tables, ram
      ensures Valid() && (State(), r) == M.ReallocPage(old(State()), p, oldPages, newPages)
    {
      if oldPages == newPages {
        return M.Page(p);
      } else if oldPages < newPages {
        var amount := newPages - oldPages;
        var failed, pastEnd := ScanBehind(p + oldPages, amount);
        if pastEnd {
          return M.PastEnd;
        } else if failed {
          r := MoveBlock(p, oldPages, newPages);
        } else {
          GrowInPlace(p + oldPages, amount);
          return M.Page(p);
        }
      } else {
        FreePage(p + newPages, oldPages - newPages);
        return M.Page(p);
      }
    }

    /**
     Is a present entry among the `amount` entries from v on? `pastEnd` where the C code reads
     entry 0x100000 or later.
     */
    method ScanBehind(v: nat, amount: nat) returns (failed: bool, pastEnd: bool)
      requires Valid() && 0 < amount
      ensures failed <==>
        && v <= M.PAGES
        && M.NextPresent(tables[..], v) < v + amount && M.NextPresent(tables[..], v) < M.PAGES
      ensures pastEnd <==> !failed && v + amount > M.PAGES
    {
      failed, pastEnd := false, false;
      var i := 0;
      while i < amount
        invariant i <= amount && (i > 0 ==> v + i <= M.PAGES)
        invariant v + i <= M.PAGES ==> M.NextPresent(tables[..], v + i) == M.NextPresent(tables[..], v)
      {
        if v + i >= M.PAGES {
          return false, true;
        }
        if tables[v + i].present {
          return true, false;
        }
        i := i + 1;
      }
    }

    method MoveBlock(p: Frame, oldPages: U32, newPages: U32) returns (r: Outcome)
      requires Valid() && p + oldPages <= M.PAGES && oldPages < newPages
      modifies bitmap, bitmap.bytes, tables, ram
      ensures Valid() && (State(), r) == M.MoveBlock(old(State()), p, oldPages, newPages)
    {
      r := AllocPage(newPages);
      if r == M.PastEnd {
        return;
      }
      var done := CopyPages(if r.Page? then r.page else 0, p, oldPages);
      if !done {
        return M.Fault;
      }
      FreePage(p, oldPages);
    }

    method GrowInPlace(v: nat, n: nat)
      requires Valid() && v + n <= M.PAGES
      modifies bitmap, bitmap.bytes, tables, ram
      ensures Valid() && State() == M.GrowInPlace(old(State()), v, n)
    {
      for i := 0 to n
        invariant Valid() && M.GrowInPlace(State(), v + i, n - i) == M.GrowInPlace(old(State()), v, n)
      {
        var _ := MapPageTo(v + i);
      }
    }

    // ---- address spaces ----

    /** Page i is read into a buffer, the entry is pointed at frame f, and the buffer is written back. */
    method ClonePage(i: Frame, f: Frame)
      requires Valid()
      modifies bitmap, bitmap.bytes, tables, ram
      ensures Valid() && State() == M.CopyOnto(old(State()), i, f)
    {
      var cloneData := ram[tables[i].address];
      bitmap.Claim(f);
      var rw := tables[i].rw;
      SetEntry(i, tables[i].(address := f, rw := true));
      ram[tables[i].address] := cloneData;
      SetEntry(i, tables[i].(rw := rw));
    }

    method CloneUserPages() returns (done: bool)
      requires Valid()
      modifies bitmap, bitmap.bytes, tables, ram
      ensures Valid() && (State(), done) == M.CloneUserFrom(old(State()), 0)
    {
      for i := 0 to M.PAGES
        invariant Valid() && M.CloneUserFrom(State(), i) == M.CloneUserFrom(old(State()), 0)
      {
        if tables[i].user && tables[i].present {
          var f := bitmap.FindFreePhysPage();
          if f == 0 {
            return false;
          }
          ClonePage(i, f);
        }
      }
      return true;
    }

    method ZeroPages(v: nat, n: nat) returns (done: bool)
      requires Valid() && v + n <= M.PAGES
      modifies ram
      ensures Valid() && (State(), done) == M.ZeroPages(old(State()), v, n)
    {
      for k := 0 to n
        invariant Valid() && M.ZeroPages(State(), v + k, n - k) == M.ZeroPages(old(State()), v, n)
      {
        if !tables[v + k].present {
          return false;
        }
        ram[tables[v + k].address] := M.Zeroes();
      }
      return true;
    }

    method WriteDirectory(p: nat)
      requires Valid() && p + 1025 <= M.PAGES
      modifies ram
      ensures Valid() && State() == M.WriteDirectory(old(State()), p, 0)
    {
      ghost var goal := M.WriteDirectory(State(), p, 0);
      for i := 0 to 1024
        invariant Valid() && M.WriteDirectory(State(), p, i) == goal
      {
        var f := tables[p].address;
        ram[f] := ram[f][i := M.DirectoryWord(tables[..], p, i)];
      }
    }

    method SwitchTables(t: array<M.Pte>, b: M.TableBase)
      requires Valid() && t.Length == M.PAGES
      modifies this
      ensures Valid() && tables == t && base == b && cr3 == old(cr3)
    {
      tables, base := t, b;
    }

    /** The page table in use is the new one afterwards; the old one stays as alloc_sequential left it. */
    method CloneTables() returns (r: Outcome)
      requires Valid()
      modifies this, bitmap, bitmap.bytes, tables, ram
      ensures Valid() && (State(), r) == M.CloneTables(old(State()))
      ensures r.Page? ==> fresh(tables)
      ensures old(tables)[..] == M.AllocSequential(old(State()), 1025).0.table
    {
      var new_ := AllocSequential(1025);
      if new_ == M.PastEnd {
        return new_;
      }
      r := FillClone(if new_.Page? then new_.page else 0);
    }

    method FillClone(p: nat) returns (r: Outcome)
      requires Valid() && p + 1025 <= M.PAGES
      modifies this, ram
      ensures Valid() && (State(), r) == M.FillClone(old(State()), p)
      ensures old(tables)[..] == old(tables[..]) && (r.Page? ==> fresh(tables))
    {
      var zeroed := ZeroPages(p, 1025);
      if !zeroed {
        return M.Fault;
      }
      var copied := CopyPages(p + 1, base, 1024);
      if !copied {
        return M.Fault;
      }
      EnterClone(p);
      return M.Page(cr3);
    }

    /** Make page p a directory of the tables behind it, and switch. */
    method EnterClone(p: nat)
      requires Valid() && p + 1025 <= M.PAGES
      modifies this, ram
      ensures Valid() && State() == M.EnterClone(old(State()), p)
      ensures fresh(tables)
    {
      var dir := tables[p].address;
      ram[dir] := M.Zeroes();
      WriteDirectory(p);
      var t := NewTables(p + 1);
      SwitchTables(t, p + 1);
      cr3 := dir;
    }

    /** kernel_page_dir is in page d. */
    method UseKernelMap(d: Frame)
      requires Valid()
      modifies this
      ensures Valid() && State() == M.UseKernelMap(old(State()), d)
      ensures fresh(tables)
    {
      var t := NewTables(0xC_0400);
      SwitchTables(t, 0xC_0400);
      cr3 := tables[d].address;
    }

    /** The array that the pages from b on are, read as page-table entries. */
    method NewTables(b: M.TableBase) returns (t: array<M.Pte>)
      requires Valid()
      ensures fresh(t) && t[..] == M.TableAt(ram[..], tables[..], b)
    {
      var view := M.TableAt(ram[..], tables[..], b);
      t := new M.Pte[M.PAGES](i requires 0 <= i < M.PAGES => view[i]);
    }
  }
}
