/**
 The state that memory/memory.c works on, as a value, and what each of its
 operations does to that value. The operations themselves, with their loops over
 the bitmap and the page table, are the methods of PageManagers.PageManager; each
 is proved equal to the function of the same name here.
 */
module Machine {

  /** Number of virtual pages, and of page frames, of a 32-bit address space. */
  const PAGES: nat := 0x10_0000
  /** First virtual page the kernel's allocators search. */
  const KERNEL_SPACE: nat := 0xC_0000
  /** First frame handed out page by page; everything below 8 MiB is the kernel's. */
  const FIRST_FRAME: nat := 0x800
  /** First frame handed out in physically contiguous runs. */
  const FIRST_SEQUENTIAL: nat := 0x1000

  type U32 = n: nat | n < 0x1_0000_0000
  const MAX_U32: U32 := 0xFFFF_FFFF

  /** A page or frame number: 20 bits. */
  type Frame = f: nat | f < 0x10_0000

  datatype Pte = Pte(present: bool, rw: bool, user: bool, address: Frame) {
    /** Mapping an entry leaves its user bit alone. */
    function MappedTo(f: Frame): Pte {
      this.(present := true, rw := true, address := f)
    }

    /** Clearing an entry leaves its user bit alone. */
    function Cleared(): Pte {
      this.(present := false, rw := false, address := 0)
    }
  }

  const EMPTY := Pte(false, false, false, 0)

  /** The 4 KiB held by one frame, as 32-bit words. */
  type Content = c: seq<U32> | |c| == 1024 witness seq(1024, _ => 0)

  function Zeroes(): Content {
    seq(1024, _ => 0)
  }

  type Table = t: seq<Pte> | |t| == PAGES witness seq(PAGES, _ => EMPTY)
  type Memory = m: seq<Content> | |m| == PAGES witness seq<Content>(PAGES, _ => Zeroes())

  /** A page-table or directory entry as the 32-bit word the hardware reads. */
  function Encode(e: Pte): U32 {
    (if e.present then 1 else 0) + (if e.rw then 2 else 0) + (if e.user then 4 else 0) + 4096 * e.address
  }

  function Decode(w: U32): Pte {
    Pte(w % 2 == 1, w / 2 % 2 == 1, w / 4 % 2 == 1, w / 4096)
  }

  /** First of the 1024 virtual pages that hold a flat page table. */
  type TableBase = b: nat | b <= 0xF_FC00
  /** Where the kernel's own page table is. */
  const KERNEL_BASE: TableBase := 0xC_0400

  /**
   `claimed` is the bitmap, `mem` what every frame holds, `cr3` the frame of the page
   directory the hardware starts from, and `base` the page number of `kernel_tables`.
   `table` is the flat page table as the kernel goes by it; its words are in `mem` as well,
   on the frames under pages base..base+1023. `image` are the frames of the kernel's own
   variables, pmem_used and clone_data among them: what is in these is modelled by the other
   fields, not by `mem`.
   */
  datatype State = State(
    claimed: set<Frame>, table: Table, mem: Memory, base: TableBase, cr3: Frame, image: set<Frame>)
  {
    /** What the program reads through virtual page v. */
    function Read(v: Frame): Content {
      mem[table[v].address]
    }

    function Store(f: Frame, c: Content): State {
      this.(mem := mem[f := c])
    }

    /** The frame that the word of entry v is written to. */
    function Home(v: Frame): Frame {
      table[base + v / 1024].address
    }

    /** Give entry v a new value, in the table and as a word in memory, and the bitmap too. */
    function Update(v: Frame, e: Pte, c: set<Frame>): State {
      State(c, table[v := e], mem[Home(v) := mem[Home(v)][v % 1024 := Encode(e)]], base, cr3, image)
    }
  }

  /**
   How a call ends: with the null pointer, with a page, by indexing the page table
   past its last entry, or by touching a page that is not present.
   */
  datatype Outcome = Null | Page(page: Frame) | PastEnd | Fault

  /** Addresses are 32 bits wide: `(void *)(k*0x1000)` keeps 20 bits of k. */
  function Wrap(x: nat): (f: Frame)
    ensures x < PAGES ==> f == x
    ensures PAGES <= x < 2 * PAGES ==> f == x - PAGES
  {
    if x < PAGES then x else Wrap(x - PAGES)
  }

  lemma {:induction false} WrapIsRemainder(x: nat)
    ensures Wrap(x) == x % 0x10_0000
  {
    if x < PAGES {
    } else {
      WrapIsRemainder(x - PAGES);
    }
  }

  // ---- single entries and single frames ----

  function MapAddr(s: State, v: Frame, f: Frame): State {
    s.Update(v, s.table[v].MappedTo(f), s.claimed + {f})
  }

  function UnmapVaddr(s: State, v: Frame): State {
    s.Update(v, s.table[v].Cleared(), s.claimed - {s.table[v].address})
  }

  function TradeVaddr(s: State, v: Frame): State {
    s.Update(v, s.table[v].Cleared(), s.claimed)
  }

  function MarkUser(s: State, v: Frame, user: bool): State {
    s.Update(v, s.table[v].(user := user), s.claimed)
  }

  function MarkWrite(s: State, v: Frame, write: bool): State {
    s.Update(v, s.table[v].(rw := write), s.claimed)
  }

  function MapPageSecretly(s: State, v: Frame, f: Frame): State {
    s.Update(v, s.table[v].MappedTo(f), s.claimed)
  }

  // ---- searches ----

  /** The lowest unclaimed frame at or above `from`, or PAGES if there is none. */
  ghost function LowestFree(claimed: set<Frame>, from: nat): (r: nat)
    requires from <= PAGES
    ensures from <= r <= PAGES
    ensures forall f: Frame :: from <= f < r ==> f in claimed
    ensures r < PAGES ==> r !in claimed
    decreases PAGES - from, claimed
  {
    if from == PAGES || from !in claimed then from else LowestFree(claimed, from + 1)
  }

  /** What find_free_phys_page returns: the lowest unclaimed frame from FIRST_FRAME on, 0 if none. */
  ghost function FindFree(claimed: set<Frame>): Frame {
    var f := LowestFree(claimed, FIRST_FRAME);
    if f == PAGES then 0 else f
  }

  ghost predicate Unmapped(t: Table, i: nat, n: nat)
    requires i + n <= PAGES
  {
    forall v :: i <= v < i + n ==> !t[v].present
  }

  /** The lowest run of n non-present entries at or above `from`, or PAGES if there is none. */
  ghost function FirstRun(t: Table, n: nat, from: nat): (i: nat)
    requires 0 < n && from <= PAGES
    ensures i == PAGES || (from <= i && i + n <= PAGES && Unmapped(t, i, n))
    ensures forall k :: from <= k < i && k + n <= PAGES ==> !Unmapped(t, k, n)
    decreases PAGES - from, t
  {
    if from + n > PAGES then PAGES
    else if Unmapped(t, from, n) then from
    else FirstRun(t, n, from + 1)
  }

  /** Frames j, j+1, ... j+n-1 (wrapping after the last frame) are all unclaimed. */
  ghost predicate FreeFrames(claimed: set<Frame>, j: nat, n: nat) {
    forall x: nat :: j <= x < j + n ==> Wrap(x) !in claimed
  }

  /** The lowest start of n consecutive unclaimed frames at or above `from`, or PAGES. */
  ghost function FirstFrames(claimed: set<Frame>, n: nat, from: nat): (j: nat)
    requires from <= PAGES
    ensures from <= j <= PAGES
    ensures j < PAGES ==> FreeFrames(claimed, j, n)
    ensures forall k :: from <= k < j ==> !FreeFrames(claimed, k, n)
    decreases PAGES - from, claimed
  {
    if from == PAGES || FreeFrames(claimed, from, n) then from else FirstFrames(claimed, n, from + 1)
  }

  /** The lowest present entry at or above `from`, or PAGES. */
  ghost function NextPresent(t: Table, from: nat): (i: nat)
    requires from <= PAGES
    ensures from <= i <= PAGES
    ensures i < PAGES ==> t[i].present
    ensures Unmapped(t, from, i - from)
    decreases PAGES - from, t
  {
    if from == PAGES || t[from].present then from else NextPresent(t, from + 1)
  }

  /**
   An unsuccessful search for a run of `pages` entries has indexed the table past
   its end: the last entry is free, and counting on from it was not stopped.
   (`j-i<pages+1` is a 32-bit comparison, so with MAX_U32 pages nothing is counted.)
   */
  predicate Overruns(t: Table, pages: U32) {
    !t[PAGES - 1].present && 2 <= pages < MAX_U32
  }

  /** The run of free entries that the scan of alloc_page and map_paddr settles on. */
  ghost function FindRun(t: Table, pages: U32): (r: Outcome)
    requires 0 < pages
    ensures r.Page? ==> r.page + pages <= PAGES
  {
    var i := FirstRun(t, pages, KERNEL_SPACE);
    if i < PAGES then Page(i) else if Overruns(t, pages) then PastEnd else Null
  }

  // ---- allocation ----

  /** Map `n` pages from v on, each to the lowest free frame, until frames run out. */
  ghost function FillRun(s: State, v: nat, n: nat): (r: (State, bool))
    requires v + n <= PAGES
    decreases n, s
  {
    if n == 0 then (s, true)
    else
      var f := FindFree(s.claimed);
      if f == 0 then (s, false) else FillRun(MapAddr(s, v, f), v + 1, n - 1)
  }

  lemma FillRunStep(s: State, v: nat, n: nat)
    requires 0 < n && v + n <= PAGES
    ensures FindFree(s.claimed) == 0 ==> FillRun(s, v, n) == (s, false)
    ensures FindFree(s.claimed) != 0 ==> FillRun(s, v, n) == FillRun(MapAddr(s, v, FindFree(s.claimed)), v + 1, n - 1)
  {
  }

  ghost function AllocPage(s: State, pages: U32): (r: (State, Outcome))
    ensures r.1.Page? ==> r.1.page + pages <= PAGES
  {
    if pages == 0 then (s, Null)
    else
      var r := FindRun(s.table, pages);
      if !r.Page? then (s, r)
      else
        var (s', ok) := FillRun(s, r.page, pages);
        (s', if ok then r else Null)
  }

  /** Map `n` pages from v on to consecutive frames from f on. */
  ghost function MapRun(s: State, v: nat, f: nat, n: nat): State
    requires v + n <= PAGES
    decreases n, s
  {
    if n == 0 then s else MapRun(MapAddr(s, v, Wrap(f)), v + 1, f + 1, n - 1)
  }

  lemma MapRunStep(s: State, v: nat, f: nat, n: nat)
    requires 0 < n && v + n <= PAGES
    ensures MapRun(s, v, f, n) == MapRun(MapAddr(s, v, Wrap(f)), v + 1, f + 1, n - 1)
  {
  }

  ghost function AllocSequential(s: State, pages: U32): (r: (State, Outcome))
    ensures r.1.Page? ==> r.1.page + pages <= PAGES
  {
    if pages == 0 then (s, Null)
    else
      var i := FirstRun(s.table, pages, KERNEL_SPACE);
      var j := FirstFrames(s.claimed, pages, FIRST_SEQUENTIAL);
      if i == PAGES || j == PAGES then (s, if Overruns(s.table, pages) then PastEnd else Null)
      else (MapRun(s, i, j, pages), Page(i))
  }

  ghost function MapPageTo(s: State, v: Frame): (State, Outcome) {
    var f := FindFree(s.claimed);
    if s.table[v].present || f == 0 then (s, Null) else (MapAddr(s, v, f), Page(v))
  }

  // ---- mapping without claiming ----

  /** Map n entries from v on to consecutive frames from p on, leaving the bitmap alone. */
  ghost function MapSecretly(s: State, v: nat, p: nat, n: nat): State
    requires v + n <= PAGES
    decreases n, s
  {
    if n == 0 then s
    else MapSecretly(MapPageSecretly(s, v, Wrap(p)), v + 1, p + 1, n - 1)
  }

  /** Clear n entries from v on; false where the table ends first and the C code writes past it. */
  ghost function UnmapSecret(s: State, v: nat, n: nat): (State, bool)
    requires v <= PAGES
    decreases n, s
  {
    if n == 0 then (s, true)
    else if v == PAGES then (s, false)
    else UnmapSecret(TradeVaddr(s, v), v + 1, n - 1)
  }

  ghost function MapPaddr(s: State, p: Frame, pages: U32): (r: (State, Outcome))
    ensures r.1.Page? ==> r.1.page + pages <= PAGES
  {
    if pages == 0 then (s, Null)
    else
      var r := FindRun(s.table, pages);
      if !r.Page? then (s, r) else (MapSecretly(s, r.page, p, pages), r)
  }

  // ---- freeing ----

  function FreePage(s: State, v: nat, n: nat): State
    decreases n, s
  {
    if n == 0 then s else FreePage(UnmapVaddr(s, Wrap(v)), v + 1, n - 1)
  }

  /** Unmap every entry from i on that is both user and present. */
  function FreeUserFrom(s: State, i: nat): State
    requires i <= PAGES
    decreases PAGES - i, s
  {
    if i == PAGES then s
    else FreeUserFrom(if s.table[i].user && s.table[i].present then UnmapVaddr(s, i) else s, i + 1)
  }

  // ---- reallocation ----

  /** memcpy between page-aligned blocks; false when it meets a page that is not present. */
  function CopyPages(s: State, dst: nat, src: nat, n: nat): (State, bool)
    requires dst + n <= PAGES && src + n <= PAGES
    decreases n, s
  {
    if n == 0 then (s, true)
    else if !s.table[src].present || !s.table[dst].present then (s, false)
    else CopyPages(s.Store(s.table[dst].address, s.Read(src)), dst + 1, src + 1, n - 1)
  }

  /** map_page_to on n pages from v on, ignoring failures as realloc_page does. */
  ghost function GrowInPlace(s: State, v: nat, n: nat): State
    requires v + n <= PAGES
    decreases n, s
  {
    if n == 0 then s else GrowInPlace(MapPageTo(s, v).0, v + 1, n - 1)
  }

  /** The page number behind the block has 32 bits. */
  ghost function ReallocPage(s: State, p: Frame, oldPages: U32, newPages: U32): (State, Outcome)
    requires p + oldPages <= MAX_U32
  {
    if oldPages == newPages then (s, Page(p))
    else if newPages < oldPages then (FreePage(s, p + newPages, oldPages - newPages), Page(p))
    else if p + oldPages > PAGES then (s, PastEnd)
    else if NextPresent(s.table, p + oldPages) < p + newPages && NextPresent(s.table, p + oldPages) < PAGES then
      MoveBlock(s, p, oldPages, newPages)
    else if p + newPages > PAGES then (s, PastEnd)
    else (GrowInPlace(s, p + oldPages, newPages - oldPages), Page(p))
  }

  /** The failed allocation is not noticed: the block is then copied to address 0. */
  ghost function MoveBlock(s: State, p: Frame, oldPages: U32, newPages: U32): (State, Outcome)
    requires p + oldPages <= PAGES && oldPages < newPages
  {
    var (s1, r) := AllocPage(s, newPages);
    if r == PastEnd then (s1, r)
    else
      var dst := if r.Page? then r.page else 0;
      var (s2, copied) := CopyPages(s1, dst, p, oldPages);
      if copied then (FreePage(s2, p, oldPages), r) else (s2, Fault)
  }

  // ---- address spaces ----

  /**
   Give entry i a fresh frame f holding what it holds now. The page is writable while
   the contents are copied in.
   */
  function CopyOnto(s: State, i: Frame, f: Frame): State {
    var e := s.table[i].(address := f);
    var s1 := s.Update(i, e.(rw := true), s.claimed + {f});
    var s2 := s1.Store(f, s.Read(i));
    s2.Update(i, e, s2.claimed)
  }

  /** clone_user_pages from entry i on. */
  ghost function CloneUserFrom(s: State, i: nat): (State, bool)
    requires i <= PAGES
    decreases PAGES - i, s
  {
    if i == PAGES then (s, true)
    else if !(s.table[i].user && s.table[i].present) then CloneUserFrom(s, i + 1)
    else
      var f := FindFree(s.claimed);
      if f == 0 then (s, false) else CloneUserFrom(CopyOnto(s, i, f), i + 1)
  }

  ghost function ZeroPages(s: State, v: nat, n: nat): (State, bool)
    requires v + n <= PAGES
    decreases n, s
  {
    if n == 0 then (s, true)
    else if !s.table[v].present then (s, false)
    else ZeroPages(s.Store(s.table[v].address, Zeroes()), v + 1, n - 1)
  }

  /** The directory entry for table number i, when table 0 is reached through page p+1. */
  function DirectoryWord(t: Table, p: nat, i: nat): U32
    requires p + 1025 <= PAGES
  {
    Encode(Pte(true, true, true, Wrap(t[p + 1].address + i)))
  }

  /** Fill in the directory in page p from entry i on. */
  function WriteDirectory(s: State, p: nat, i: nat): State
    requires p + 1025 <= PAGES && i <= 1024
    decreases 1024 - i, p
  {
    if i == 1024 then s
    else
      var f := s.table[p].address;
      WriteDirectory(s.Store(f, s.mem[f][i := DirectoryWord(s.table, p, i)]), p, i + 1)
  }

  /** The flat table that code sees which takes the pages from b on to be its page table. */
  function TableAt(mem: Memory, t: Table, b: TableBase): Table {
    seq(PAGES, v requires 0 <= v < PAGES => Decode(mem[t[b + v / 1024].address][v % 1024]))
  }

  /** Make page p a directory of the tables in the pages after it, and switch to both. */
  function EnterClone(s: State, p: nat): State
    requires p + 1025 <= PAGES
  {
    var s1 := s.Store(s.table[p].address, Zeroes());
    var s2 := WriteDirectory(s1, p, 0);
    State(s.claimed, TableAt(s2.mem, s.table, p + 1), s2.mem, p + 1, s.table[p].address, s.image)
  }

  /** Zero pages p..p+1024, copy the page table behind the first of them, page by page, and enter the result. */
  ghost function FillClone(s: State, p: nat): (State, Outcome)
    requires p + 1025 <= PAGES
  {
    var (s2, zeroed) := ZeroPages(s, p, 1025);
    if !zeroed then (s2, Fault)
    else
      var (s3, copied) := CopyPages(s2, p + 1, s2.base, 1024);
      if !copied then (s3, Fault) else (EnterClone(s3, p), Page(s3.table[p].address))
  }

  /** clone_tables. The page of the outcome is the physical page of the new directory. */
  ghost function CloneTables(s: State): (State, Outcome) {
    var (s1, r) := AllocSequential(s, 1025);
    if r == PastEnd then (s1, r) else FillClone(s1, if r.Page? then r.page else 0)
  }

  /** use_kernel_map: back to the kernel's table, and to its directory, which page d maps. */
  function UseKernelMap(s: State, d: Frame): State {
    var t := TableAt(s.mem, s.table, KERNEL_BASE);
    State(s.claimed, t, s.mem, KERNEL_BASE, t[d].address, s.image)
  }
}
