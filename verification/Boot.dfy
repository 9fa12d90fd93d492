/** paging_init: the first page table, and the frame bitmap made from the boot loader's memory map. */
module Boot {
  import opened Machine
  import opened PageTables
  import opened Ownership
  import opened Runs
  import opened FrameBitmaps
  import opened PageManagers

  type U64 = n: nat | n < 0x1_0000_0000_0000_0000
  const U64_SIZE: nat := 0x1_0000_0000_0000_0000

  /** One entry of the Multiboot memory map; kind 1 is usable RAM. */
  datatype Region = Region(addr: U64, len: U64, kind: U32) {
    /** `addr + len` as the scan computes it. */
    function End(): U64 {
      (addr + len) % U64_SIZE
    }

    /** Number of pages the scan releases: none if the sum wraps, else those the region begins. */
    function Pages(): nat {
      if addr + len >= U64_SIZE then 0 else PageCount(len)
    }

    /** The 64-bit loop counter reaches the end without wrapping. */
    predicate Terminates() {
      addr + 0x1000 * Pages() < U64_SIZE
    }

    /** The loop counter after n steps. */
    function Counter(n: nat): U64 {
      (addr + 0x1000 * n) % U64_SIZE
    }
  }

  /** The scan of a region ends iff its counter does not have to wrap; otherwise it never ends. */
  lemma ScanEndsIff(r: Region)
    ensures r.Terminates() <==> exists n: nat :: r.Counter(n) >= r.End()
  {
    if r.Terminates() {
      assert r.Counter(r.Pages()) >= r.End();
    } else {
      forall n: nat ensures r.Counter(n) < r.End() {
        CounterStays(r, n);
      }
    }
  }

  /** Every value of the counter is a multiple of the page size away from the last one before the wrap. */
  lemma CounterStays(r: Region, n: nat)
    requires !r.Terminates()
    ensures r.Counter(n) < r.End()
  {
  }

  /** The scan looks at fifteen entries, whatever the map's length. */
  type MemoryMap = m: seq<Region> | |m| == 15 witness seq(15, _ => Region(0, 0, 0))

  // ---- the bitmap ----

  /** The frame released for the n-th page of a region: the address is cut to 32 bits. */
  function FrameAt(addr: U64, n: nat): Frame {
    (addr + 0x1000 * n) % 0x1_0000_0000 / 0x1000
  }

  /** The frames released for the first n pages from addr on. */
  ghost function Frames(addr: U64, n: nat): set<Frame> {
    set k: nat | k < n :: FrameAt(addr, k)
  }

  /** Number of pages that a region of len bytes begins. */
  function PageCount(len: nat): nat {
    (len + 0xFFF) / 0x1000
  }

  /** The bitmap after the entries from i on have been scanned. */
  ghost function ScanFrom(claimed: set<Frame>, mmap: MemoryMap, i: nat): set<Frame>
    requires i <= 15
    decreases 15 - i, mmap
  {
    if i == 15 || (i > 0 && mmap[i].addr == 0) then claimed
    else ScanFrom(if mmap[i].kind == 1 then claimed - Frames(mmap[i].addr, mmap[i].Pages()) else claimed, mmap, i + 1)
  }

  /** The scan gets to entry k: it stops at the first entry after entry 0 that starts at address 0. */
  ghost predicate Reached(mmap: MemoryMap, k: nat) {
    k < 15 && forall m :: 0 < m <= k ==> mmap[m].addr != 0
  }

  ghost predicate ScanEnds(mmap: MemoryMap) {
    forall k: nat :: Reached(mmap, k) && mmap[k].kind == 1 ==> mmap[k].Terminates()
  }

  method ReleaseRegion(bitmap: FrameBitmap, r: Region)
    requires bitmap.Valid() && r.kind == 1 && r.Terminates()
    modifies bitmap, bitmap.bytes
    ensures bitmap.Valid() && bitmap.claimed == old(bitmap.claimed) - Frames(r.addr, r.Pages())
  {
    var p: nat := r.addr;
    ghost var n := 0;
    while p < (r.addr + r.len) % 0x1_0000_0000_0000_0000
      invariant bitmap.Valid() && p == r.addr + 0x1000 * n && n <= r.Pages()
      invariant bitmap.claimed == old(bitmap.claimed) - Frames(r.addr, n)
      decreases r.Pages() - n
    {
      bitmap.Release(p % 0x1_0000_0000 / 0x1000);
      assert Frames(r.addr, n + 1) == Frames(r.addr, n) + {FrameAt(r.addr, n)};
      p := (p + 0x1000) % 0x1_0000_0000_0000_0000;
      n := n + 1;
    }
    assert n == r.Pages();
  }

  method ScanMemoryMap(bitmap: FrameBitmap, mmap: MemoryMap)
    requires bitmap.Valid() && ScanEnds(mmap)
    modifies bitmap, bitmap.bytes
    ensures bitmap.Valid() && bitmap.claimed == ScanFrom(old(bitmap.claimed), mmap, 0)
  {
    for i := 0 to 15
      invariant bitmap.Valid()
      invariant forall m :: 0 < m < i ==> mmap[m].addr != 0
      invariant ScanFrom(bitmap.claimed, mmap, i) == ScanFrom(old(bitmap.claimed), mmap, 0)
    {
      if i > 0 && mmap[i].addr == 0 {
        break;
      }
      assert Reached(mmap, i);
      if mmap[i].kind == 1 {
        ReleaseRegion(bitmap, mmap[i]);
      }
    }
  }

  // ---- the page table ----

  /** The kernel image at 0xC0100000, the VGA buffer at 0xC03FF000, and the page table itself at 0xC0400000. */
  function KernelEntry(v: Frame): Pte {
    if 0xC_0100 <= v < 0xC_03FF then Pte(true, true, false, v - 0xC_0000)
    else if v == 0xC_03FF then Pte(true, true, false, 0xB8)
    else if 0xC_0400 <= v < 0xC_0800 then Pte(true, true, false, 0x400 + (v - 0xC_0400))
    else EMPTY
  }

  function KernelTable(): Table {
    seq(PAGES, v requires 0 <= v < PAGES => KernelEntry(v))
  }

  /** The words of part k of a flat page table. */
  function TableWords(t: Table, k: nat): Content
    requires k < 1024
  {
    var words: seq<U32> := seq<U32>(1024, j requires 0 <= j < 1024 => Encode(t[1024 * k + j]));
    words
  }

  function KernelDirectory(): Content {
    seq<U32>(1024, k requires 0 <= k < 1024 => Encode(Pte(true, true, true, 0x400 + k)))
  }

  function BootFrame(mem: Memory, d: Frame, f: Frame): Content {
    if f == d then KernelDirectory() else if 0x400 <= f < 0x800 then TableWords(KernelTable(), f - 0x400) else mem[f]
  }

  /** Memory with the first page table in frames 0x400..0x7FF and the directory in frame d. */
  function BootMemory(mem: Memory, d: Frame): Memory {
    var frames: seq<Content> := seq<Content>(PAGES, f requires 0 <= f < PAGES => BootFrame(mem, d, f));
    frames
  }

  /** identity_map: nothing happens when the page is mapped to itself already. */
  function IdentityMap(s: State, p: Frame): State {
    if s.table[p].present && s.table[p].rw && s.table[p].address == p then s else MapAddr(s, p, p)
  }

  /** kernel_page_dir lies in the kernel image, which stage 1 maps from frame 0x100 on. */
  type ImageFrame = d: Frame | 0x100 <= d < 0x3FF witness 0x100

  predicate InImage(f: nat) {
    0x100 <= f < 0x3FF
  }

  /** The frames of the kernel's image, but for the directory's, which is the one variable that `mem` holds. */
  function ImageFrames(d: ImageFrame): set<Frame> {
    (set f: Frame | InImage(f)) - {d}
  }

  function WithTable(mem: Memory, d: ImageFrame): State {
    State({}, KernelTable(), BootMemory(mem, d), KERNEL_BASE, d, ImageFrames(d))
  }

  /** The state that paging_init leaves; d is the frame of kernel_page_dir, mbi the page of the boot information. */
  ghost function Booted(mem: Memory, d: ImageFrame, mbi: Frame, mmap: MemoryMap): State {
    IdentityMap(WithTable(mem, d), mbi)
      .(claimed := ScanFrom(FreeBelow({}, PAGES), mmap, 0) + FreeBelow({}, FIRST_FRAME))
  }

  /**
   The words of `kernel_tables`, which stage 2 has put on frames 0x400.., are those of the array;
   other frames are as before.
   */
  ghost predicate HoldsWords(pm: PageManager, before: seq<Content>)
    requires pm.Valid() && |before| == PAGES
    reads pm, pm.bitmap, pm.bitmap.bytes, pm.tables, pm.ram
  {
    && (forall v: Frame :: pm.ram[0x400 + v / 1024][v % 1024] == Encode(pm.tables[v]))
    && (forall f: Frame :: !(0x400 <= f < 0x800) ==> pm.ram[f] == before[f])
  }

  /** Write entry v while kernel_tables is reached through the mapping of stage 2. */
  method WriteEntry(pm: PageManager, v: Frame, e: Pte, ghost before: seq<Content>)
    requires pm.Valid() && |before| == PAGES && HoldsWords(pm, before)
    modifies pm.tables, pm.ram
    ensures pm.Valid() && pm.tables[..] == old(pm.tables[..])[v := e] && HoldsWords(pm, before)
  {
    var f := 0x400 + v / 1024;
    pm.tables[v] := e;
    pm.ram[f] := pm.ram[f][v % 1024 := Encode(e)];
    forall x: Frame ensures pm.ram[0x400 + x / 1024][x % 1024] == Encode(pm.tables[x]) {
      if x / 1024 == v / 1024 && x % 1024 == v % 1024 {
        assert x == v;
      }
    }
  }

  method ClearTable(pm: PageManager)
    requires pm.Valid()
    modifies pm.tables, pm.ram
    ensures pm.Valid() && (forall v: Frame :: pm.tables[v] == EMPTY) && HoldsWords(pm, old(pm.ram[..]))
  {
    for i := 0 to PAGES
      invariant forall v :: 0 <= v < i ==> pm.tables[v] == EMPTY
      invariant pm.ram[..] == old(pm.ram[..])
    {
      pm.tables[i] := EMPTY;
    }
    for k := 0 to 1024
      invariant forall v: Frame :: pm.tables[v] == EMPTY
      invariant forall f: Frame :: 0x400 <= f < 0x400 + k ==> pm.ram[f] == Zeroes()
      invariant forall f: Frame :: !(0x400 <= f < 0x800) ==> pm.ram[f] == old(pm.ram[..])[f]
    {
      pm.ram[0x400 + k] := Zeroes();
    }
  }

  method BuildKernelTable(pm: PageManager)
    requires pm.Valid()
    modifies pm.tables, pm.ram
    ensures pm.Valid() && pm.tables[..] == KernelTable() && HoldsWords(pm, old(pm.ram[..]))
  {
    ghost var before := pm.ram[..];
    var t := pm.tables;
    ClearTable(pm);
    for i := 0 to 1023
      invariant HoldsWords(pm, before)
      invariant forall v: Frame :: t[v] == if v < 0xC_0000 + i then KernelEntry(v) else EMPTY
    {
      if i * 0x1000 >= 0x10_0000 {
        WriteEntry(pm, 768 * 1024 + i, Pte(true, true, t[768 * 1024 + i].user, i), before);
      }
    }
    WriteEntry(pm, 768 * 1024 + 1023, Pte(true, true, t[768 * 1024 + 1023].user, 0xB8), before);
    for i := 0 to 1024
      invariant HoldsWords(pm, before)
      invariant forall v: Frame :: t[v] == if v < 0xC_0400 + i then KernelEntry(v) else EMPTY
    {
      WriteEntry(pm, 769 * 1024 + i, Pte(true, true, t[769 * 1024 + i].user, 0x40_0000 / 0x1000 + i), before);
    }
  }

  method BuildDirectory(ram: array<Content>, d: Frame)
    requires ram.Length == PAGES
    modifies ram
    ensures ram[..] == old(ram[..])[d := KernelDirectory()]
  {
    for i := 0 to 1024
      invariant forall k :: 0 <= k < i ==> ram[d][k] == Encode(Pte(true, true, true, 0x400 + k))
      invariant forall f: Frame :: f != d ==> ram[f] == old(ram[..])[f]
    {
      ram[d] := ram[d][i := Encode(Pte(true, true, true, 0x400 + i))];
    }
    assert ram[d] == KernelDirectory();
  }

  method IdentityMapPage(pm: PageManager, p: Frame)
    requires pm.Valid()
    modifies pm.bitmap, pm.bitmap.bytes, pm.tables, pm.ram
    ensures pm.Valid() && pm.State() == IdentityMap(old(pm.State()), p)
  {
    if !(pm.tables[p].present && pm.tables[p].rw && pm.tables[p].address == p) {
      pm.MapAddr(p, p);
    }
  }

  /** What identity_map does to table and memory does not depend on the bitmap. */
  lemma IdentityMapElse(s: State, claimed: set<Frame>, p: Frame)
    ensures
      var (a, b) := (IdentityMap(s, p), IdentityMap(s.(claimed := claimed), p));
      b.(claimed := a.claimed) == a
  {
  }

  /** Stages 1 and 2 build a temporary mapping, through which stage 3 builds this one; they are not modelled. */
  method PagingInit(pm: PageManager, d: ImageFrame, mbi: Frame, mmap: MemoryMap)
    requires pm.Valid() && pm.image == ImageFrames(d) && ScanEnds(mmap)
    modifies pm, pm.bitmap, pm.bitmap.bytes, pm.tables, pm.ram
    ensures pm.Valid() && pm.State() == Booted(old(pm.State()).mem, d, mbi, mmap)
  {
    EnterKernelTable(pm, d);
    IdentityMapPage(pm, mbi);
    pm.bitmap.FillOnes(0x2_0000);
    assert pm.bitmap.claimed == FreeBelow({}, PAGES);
    ScanMemoryMap(pm.bitmap, mmap);
    pm.bitmap.FillOnes(256);
    IdentityMapElse(WithTable(old(pm.State()).mem, d), old(pm.State()).claimed, mbi);
  }

  method EnterKernelTable(pm: PageManager, d: ImageFrame)
    requires pm.Valid() && pm.image == ImageFrames(d)
    modifies pm, pm.tables, pm.ram
    ensures pm.Valid() && pm.tables == old(pm.tables)
    ensures pm.State() == WithTable(old(pm.State()).mem, d).(claimed := old(pm.State()).claimed)
  {
    BuildKernelTable(pm);
    BuildDirectory(pm.ram, d);
    pm.base, pm.cr3 := 0xC_0400, d;
    forall f: Frame | 0x400 <= f < 0x800 ensures pm.ram[f] == TableWords(KernelTable(), f - 0x400) {
      forall j | 0 <= j < 1024 ensures pm.ram[f][j] == Encode(KernelTable()[1024 * (f - 0x400) + j]) {
        var v: Frame := 1024 * (f - 0x400) + j;
        assert v / 1024 == f - 0x400 && v % 1024 == j;
      }
    }
    assert pm.ram[..] == BootMemory(old(pm.State()).mem, d);
  }

  // ---- what booting establishes ----

  ghost predicate Released(mmap: MemoryMap, f: Frame) {
    exists k: nat :: Reached(mmap, k) && mmap[k].kind == 1 && f in Frames(mmap[k].addr, mmap[k].Pages())
  }

  lemma {:induction false} ScanExact(claimed: set<Frame>, mmap: MemoryMap, i: nat, f: Frame)
    requires i == 0 || Reached(mmap, i - 1)
    ensures f in ScanFrom(claimed, mmap, i) <==>
      && f in claimed
      && forall k: nat :: i <= k && Reached(mmap, k) && mmap[k].kind == 1 ==>
           f !in Frames(mmap[k].addr, mmap[k].Pages())
    decreases 15 - i
  {
    if i < 15 && (i == 0 || mmap[i].addr != 0) {
      assert Reached(mmap, i);
      ScanExact(if mmap[i].kind == 1 then claimed - Frames(mmap[i].addr, mmap[i].Pages()) else claimed, mmap, i + 1, f);
    } else {
      assert forall k: nat :: i <= k ==> !Reached(mmap, k);
    }
  }

  /** Frame f's address plus q times 4 GiB lies in the region. */
  predicate Covers(addr: nat, len: nat, q: nat, f: Frame) {
    addr <= q * 0x1_0000_0000 + f * 0x1000 < addr + len
  }

  /**
   A page-aligned region releases frame f iff it covers f's address or one that differs
   by a multiple of 4 GiB: the scan cuts addresses to 32 bits.
   */
  lemma AlignedRegion(addr: U64, len: nat, f: Frame)
    requires addr % 0x1000 == 0
    ensures f in Frames(addr, PageCount(len)) <==> exists q: nat :: Covers(addr, len, q, f)
  {
    if f in Frames(addr, PageCount(len)) {
      var k: nat :| k < PageCount(len) && FrameAt(addr, k) == f;
      ReleasedIsCovered(addr, len, k);
    }
    if q: nat :| Covers(addr, len, q, f) {
      CoveredIsReleased(addr, len, q, f);
    }
  }

  lemma ReleasedIsCovered(addr: nat, len: nat, k: nat)
    requires addr % 0x1000 == 0 && k < PageCount(len) && addr < 0x1_0000_0000_0000_0000
    ensures exists q: nat :: Covers(addr, len, q, FrameAt(addr, k))
  {
    var page := addr / 0x1000 + k;
    var x := addr + 0x1000 * k;
    assert x == 0x1000 * page;
    var q := page / 0x10_0000;
    assert x == q * 0x1_0000_0000 + 0x1000 * (page % 0x10_0000);
    assert x % 0x1_0000_0000 == 0x1000 * (page % 0x10_0000);
    assert Covers(addr, len, q, FrameAt(addr, k));
  }

  lemma CoveredIsReleased(addr: U64, len: nat, q: nat, f: Frame)
    requires addr % 0x1000 == 0 && Covers(addr, len, q, f)
    ensures f in Frames(addr, PageCount(len))
  {
    var k := q * 0x10_0000 + f - addr / 0x1000;
    assert addr + 0x1000 * k == q * 0x1_0000_0000 + f * 0x1000;
    assert (addr + 0x1000 * k) % 0x1_0000_0000 == f * 0x1000;
    assert FrameAt(addr, k) == f && k < PageCount(len);
  }

  /** So a region that ends by 4 GiB releases exactly the frames it covers. */
  lemma RegionBelow4GiB(addr: U64, len: nat, f: Frame)
    requires addr % 0x1000 == 0 && addr + len <= 0x1_0000_0000
    ensures f in Frames(addr, PageCount(len)) <==> addr <= f * 0x1000 < addr + len
  {
    AlignedRegion(addr, len, f);
    assert addr <= f * 0x1000 < addr + len ==> Covers(addr, len, 0, f);
    assert forall q: nat :: Covers(addr, len, q, f) ==> q == 0;
  }

  /** After booting a frame is free iff it is at least FIRST_FRAME and a scanned region of usable RAM released it. */
  lemma BootedFrames(mem: Memory, d: ImageFrame, mbi: Frame, mmap: MemoryMap, f: Frame)
    ensures f !in Booted(mem, d, mbi, mmap).claimed <==> f >= FIRST_FRAME && Released(mmap, f)
  {
    ScanExact(FreeBelow({}, PAGES), mmap, 0, f);
  }

  lemma BootedTable(mem: Memory, d: ImageFrame, mbi: Frame, mmap: MemoryMap)
    ensures Booted(mem, d, mbi, mmap).table == KernelTable()[mbi := Pte(true, true, false, mbi)]
    ensures Booted(mem, d, mbi, mmap).base == KERNEL_BASE && Booted(mem, d, mbi, mmap).cr3 == d
    ensures Booted(mem, d, mbi, mmap).image == ImageFrames(d)
  {
  }

  /** Booting establishes ownership iff the boot information is not itself on a frame that booting frees. */
  lemma BootedOwned(mem: Memory, d: ImageFrame, mbi: Frame, mmap: MemoryMap)
    ensures Owned(Booted(mem, d, mbi, mmap)) <==> mbi < FIRST_FRAME || !Released(mmap, mbi)
  {
    var s := Booted(mem, d, mbi, mmap);
    BootedFrames(mem, d, mbi, mmap, mbi);
    BootedTable(mem, d, mbi, mmap);
    assert forall v: Frame :: Maps(s.table, v) ==> v == mbi && s.table[v].address == mbi;
    if mbi >= FIRST_FRAME {
      assert Maps(s.table, mbi);
    }
  }

  // ---- the directory and the table in memory ----

  lemma WithTableCoherent(mem: Memory, d: ImageFrame)
    ensures Coherent(WithTable(mem, d))
  {
  }

  /** Frame 0x400 + k holds part k of the booted table, and frame d the directory, wherever the boot information is. */
  lemma BootedWords(mem: Memory, d: ImageFrame, mbi: Frame, mmap: MemoryMap)
    ensures
      var s := Booted(mem, d, mbi, mmap);
      && (forall v: Frame :: s.mem[0x400 + v / 1024][v % 1024] == Encode(s.table[v]))
      && s.mem[d] == KernelDirectory()
  {
    var s0, s := WithTable(mem, d), Booted(mem, d, mbi, mmap);
    WithTableCoherent(mem, d);
    assert forall v: Frame :: s0.Home(v) == 0x400 + v / 1024;
    forall v: Frame ensures s.mem[0x400 + v / 1024][v % 1024] == Encode(s.table[v]) {
      assert MirroredAt(s0, v);
      if v / 1024 == mbi / 1024 && v % 1024 == mbi % 1024 {
        assert v == mbi;
      }
    }
  }

  /**
   After booting, the two-level walk from the directory ends at the flat table's entry, for every
   page and every place of the boot information.
   */
  lemma BootedWalk(mem: Memory, d: ImageFrame, mbi: Frame, mmap: MemoryMap)
    ensures
      var s := Booted(mem, d, mbi, mmap);
      forall v: Frame :: Walk(s.mem, s.cr3, v) == s.table[v]
  {
    var s := Booted(mem, d, mbi, mmap);
    BootedWords(mem, d, mbi, mmap);
    forall v: Frame ensures Walk(s.mem, s.cr3, v) == s.table[v] {
      assert s.mem[d][v / 1024] == Encode(Pte(true, true, true, 0x400 + v / 1024));
      DecodeEncode(Pte(true, true, true, 0x400 + v / 1024));
      DecodeEncode(s.table[v]);
    }
  }

  /** The kernel, through kernel_tables, reads the table that the hardware goes by. */
  ghost predicate KernelSees(mem: Memory, d: ImageFrame, mbi: Frame, mmap: MemoryMap) {
    var s := Booted(mem, d, mbi, mmap);
    TableAt(s.mem, s.table, s.base) == s.table
  }

  predicate OverTable(mbi: Frame) {
    KERNEL_BASE <= mbi < KERNEL_BASE + 1024
  }

  /** A state with the words of its table and directory in place, and the table's pages on their frames. */
  lemma CoherentInPlace(s: State)
    requires s.base == KERNEL_BASE && s.mem[s.cr3] == KernelDirectory()
    requires forall v: Frame :: s.mem[0x400 + v / 1024][v % 1024] == Encode(s.table[v])
    requires forall w: Frame :: OverTable(w) ==> s.table[w].address == 0x400 + (w - KERNEL_BASE)
    ensures Coherent(s)
  {
    forall v: Frame ensures MirroredAt(s, v) {
      assert OverTable(KERNEL_BASE + v / 1024);
    }
    forall k: nat | k < 1024 ensures s.mem[s.cr3][k] == DirectoryTo(s.table, s.base, k) {
      assert OverTable(KERNEL_BASE + k);
    }
  }

  lemma BootedCoherent(mem: Memory, d: ImageFrame, mbi: Frame, mmap: MemoryMap)
    requires !OverTable(mbi)
    ensures Coherent(Booted(mem, d, mbi, mmap))
  {
    BootedTable(mem, d, mbi, mmap);
    BootedWords(mem, d, mbi, mmap);
    CoherentInPlace(Booted(mem, d, mbi, mmap));
  }

  /** With word 1 all over memory, the page that now maps the boot information does not read as part of the table. */
  lemma SeesBootInformation(mem: Memory, d: ImageFrame, mbi: Frame, mmap: MemoryMap)
    requires OverTable(mbi) && mem[mbi][0] == 1
    ensures !KernelSees(mem, d, mbi, mmap)
  {
    var s := Booted(mem, d, mbi, mmap);
    var v: Frame := 1024 * (mbi - KERNEL_BASE);
    BootedTable(mem, d, mbi, mmap);
    assert v / 1024 == mbi - KERNEL_BASE && v % 1024 == 0 && s.base + v / 1024 == mbi;
    assert s.mem[mbi] == mem[mbi];
    assert TableAt(s.mem, s.table, s.base)[v] == Decode(mem[mbi][0]);
    assert Decode(1) == Pte(true, false, false, 0);
    assert s.table[v].present ==> s.table[v].rw;
  }

  function AllOnes(): Memory {
    seq<Content>(PAGES, _ => seq<U32>(1024, _ => 1))
  }

  /** Whatever is in memory, the kernel sees its table iff the boot information is not mapped over it. */
  lemma KernelSeesIff(d: ImageFrame, mbi: Frame, mmap: MemoryMap)
    ensures (forall mem: Memory :: KernelSees(mem, d, mbi, mmap)) <==> !OverTable(mbi)
  {
    if OverTable(mbi) {
      SeesBootInformation(AllOnes(), d, mbi, mmap);
    } else {
      forall mem: Memory ensures KernelSees(mem, d, mbi, mmap) {
        BootedCoherent(mem, d, mbi, mmap);
        ViewIsTable(Booted(mem, d, mbi, mmap));
      }
    }
  }

  // ---- soundness, and runs ----

  /** The pages that map the kernel's page table, and those of its image, which its directory is part of. */
  ghost predicate KernelPage(w: Frame) {
    OverTable(w) || (w >= KERNEL_SPACE && InImage(w - KERNEL_SPACE))
  }

  ghost function KernelGuard(): set<Frame> {
    set w: Frame | KernelPage(w)
  }

  /** The boot information lies apart from the image and the page table, pages and frames, and from freed frames. */
  ghost predicate Clear(mbi: Frame, mmap: MemoryMap) {
    && mbi !in KernelGuard()
    && !InImage(mbi) && !(0x400 <= mbi < 0x800)
    && (mbi < FIRST_FRAME || !Released(mmap, mbi))
  }

  /** Of the kernel's pages, those guarded are on frames of their own. */
  lemma KernelPagesApart()
    ensures forall w: Frame, v: Frame :: w in KernelGuard() && KernelTable()[v].present && v != w
              ==> KernelTable()[v].address != KernelTable()[w].address
  {
  }

  lemma BootedReserved(mem: Memory, d: ImageFrame, mbi: Frame, mmap: MemoryMap)
    requires mbi !in KernelGuard() && !InImage(mbi)
    ensures ReservedApart(Booted(mem, d, mbi, mmap), KernelGuard())
    ensures Reaches(Booted(mem, d, mbi, mmap), KernelGuard())
  {
    var s := Booted(mem, d, mbi, mmap);
    BootedTable(mem, d, mbi, mmap);
    forall f: Frame | Reserved(s, f) ensures f in s.claimed && Under(s.table, KernelGuard(), f) {
      assert f in FreeBelow({}, FIRST_FRAME);
      assert KernelPage(KERNEL_SPACE + f) && s.table[KERNEL_SPACE + f].address == f;
    }
    assert forall f :: f in s.image ==> Reserved(s, f);
    assert Reserved(s, s.cr3);
  }

  lemma BootedGuarded(mem: Memory, d: ImageFrame, mbi: Frame, mmap: MemoryMap)
    requires mbi !in KernelGuard() && !InImage(mbi) && !(0x400 <= mbi < 0x800)
    ensures Guarded(Booted(mem, d, mbi, mmap), KernelGuard())
  {
    var s := Booted(mem, d, mbi, mmap);
    var guard := KernelGuard();
    BootedTable(mem, d, mbi, mmap);
    BootedReserved(mem, d, mbi, mmap);
    forall w | w in guard ensures s.table[w].address in s.claimed {
      assert s.table[w].address in FreeBelow({}, FIRST_FRAME);
    }
    KernelPagesApart();
  }

  /** A guarded page on the frame of the boot information. */
  lemma FrameShared(mem: Memory, d: ImageFrame, mbi: Frame, mmap: MemoryMap)
    requires mbi !in KernelGuard() && (InImage(mbi) || 0x400 <= mbi < 0x800)
    ensures !Guarded(Booted(mem, d, mbi, mmap), KernelGuard())
  {
    var t := Booted(mem, d, mbi, mmap).table;
    var w: Frame := if InImage(mbi) then KERNEL_SPACE + mbi else KERNEL_BASE + (mbi - 0x400);
    BootedTable(mem, d, mbi, mmap);
    assert w in KernelGuard() && t[mbi].present && mbi != w && t[mbi].address == t[w].address;
  }

  /** The directory, or a page of variables, is no longer where the kernel looks for it. */
  lemma GuardOverwritten(mem: Memory, d: ImageFrame, mbi: Frame, mmap: MemoryMap)
    requires mbi in KernelGuard() && !OverTable(mbi)
    ensures !Reaches(Booted(mem, d, mbi, mmap), KernelGuard())
  {
    var s := Booted(mem, d, mbi, mmap);
    var f: Frame := mbi - KERNEL_SPACE;
    BootedTable(mem, d, mbi, mmap);
    forall w | w in KernelGuard() ensures s.table[w].address != f {
    }
    assert !Under(s.table, KernelGuard(), f);
    assert Reserved(s, f);
  }

  lemma TableOverwritten(mem: Memory, d: ImageFrame, mbi: Frame, mmap: MemoryMap)
    requires OverTable(mbi)
    ensures !Directed(Booted(mem, d, mbi, mmap))
  {
    var s := Booted(mem, d, mbi, mmap);
    var k := mbi - KERNEL_BASE;
    BootedTable(mem, d, mbi, mmap);
    BootedWords(mem, d, mbi, mmap);
    assert s.mem[s.cr3][k] == Encode(Pte(true, true, true, 0x400 + k));
    assert DirectoryTo(s.table, s.base, k) == Encode(Pte(true, true, true, mbi));
    DecodeEncode(Pte(true, true, true, 0x400 + k));
    DecodeEncode(Pte(true, true, true, mbi));
  }

  /** Booting leaves a sound state iff the boot information is clear of all that. */
  lemma BootedSoundIff(mem: Memory, d: ImageFrame, mbi: Frame, mmap: MemoryMap)
    ensures SoundSpace(Space(Booted(mem, d, mbi, mmap), KernelGuard())) <==> Clear(mbi, mmap)
  {
    BootedOwned(mem, d, mbi, mmap);
    if OverTable(mbi) {
      TableOverwritten(mem, d, mbi, mmap);
    } else if mbi in KernelGuard() {
      GuardOverwritten(mem, d, mbi, mmap);
    } else if InImage(mbi) || 0x400 <= mbi < 0x800 {
      FrameShared(mem, d, mbi, mmap);
    } else {
      BootedGuarded(mem, d, mbi, mmap);
      BootedReserved(mem, d, mbi, mmap);
      BootedCoherent(mem, d, mbi, mmap);
    }
  }

  /** A frame that the scan does not release is foreign from the start, but for that of the boot information. */
  lemma OtherFrames(mem: Memory, d: ImageFrame, mbi: Frame, mmap: MemoryMap, f: Frame)
    requires f >= FIRST_FRAME && f != mbi && !Released(mmap, f)
    ensures f in Foreign(Booted(mem, d, mbi, mmap)) && Booted(mem, d, mbi, mmap).mem[f] == mem[f]
  {
    var s := Booted(mem, d, mbi, mmap);
    BootedFrames(mem, d, mbi, mmap, f);
    BootedTable(mem, d, mbi, mmap);
    assert WithTable(mem, d).Home(mbi) == 0x400 + mbi / 1024;
    forall v: Frame | Maps(s.table, v) ensures s.table[v].address != f {
      assert v == mbi;
    }
  }

  /**
   From boot on, over every legal run: ownership holds, the hardware goes by the kernel's table,
   and a frame that is not usable RAM is never handed out, mapped or written.
   */
  lemma RunFromBoot(mem: Memory, d: ImageFrame, mbi: Frame, mmap: MemoryMap, ops: seq<Op>)
    requires Clear(mbi, mmap) && LegalRun(Space(Booted(mem, d, mbi, mmap), KernelGuard()), ops)
    ensures
      var s := Run(Space(Booted(mem, d, mbi, mmap), KernelGuard()), ops).state;
      && Owned(s)
      && (forall v: Frame :: Walk(s.mem, s.cr3, v) == s.table[v])
      && forall f: Frame :: f >= FIRST_FRAME && f != mbi && !Released(mmap, f) ==>
           f in s.claimed && !Targeted(s.table, f) && s.mem[f] == mem[f]
  {
    var s0 := Booted(mem, d, mbi, mmap);
    var a := Space(s0, KernelGuard());
    BootedSoundIff(mem, d, mbi, mmap);
    RunKeeps(a, ops);
    RunTranslates(a, ops);
    forall f: Frame | f >= FIRST_FRAME && f != mbi && !Released(mmap, f)
      ensures f in Foreign(s0) && s0.mem[f] == mem[f]
    {
      OtherFrames(mem, d, mbi, mmap, f);
    }
  }
}
