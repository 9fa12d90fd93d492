/** The address space that booting leaves, in numbers: every page, every word, and that it can be cloned. */
module BootMap {
  import opened Machine
  import opened PageTables
  import opened Ownership
  import opened Allocation
  import opened AddressSpaces
  import opened Runs
  import opened UserCopies
  import opened DeepCopy
  import opened Boot

  /**
   What the hardware finds for page v after booting. Pages 0xC0100 to 0xC07FF are mapped read-write and not
   for users: the image at 1 MiB, the VGA buffer at 0xB8000, and the page table at 4 MiB. The page of the
   boot information is mapped to itself, and no other page is present.
   */
  lemma BootedMap(mem: Memory, d: ImageFrame, mbi: Frame, mmap: MemoryMap, v: Frame)
    ensures
      var s := Booted(mem, d, mbi, mmap);
      var e := Walk(s.mem, s.cr3, v);
      && (v == mbi ==> e.present && e.rw && !e.user && e.address == mbi)
      && (v != mbi ==> (e.present <==> 0xC_0100 <= v < 0xC_0800))
      && (v != mbi && 0xC_0100 <= v < 0xC_03FF ==> e.rw && !e.user && e.address == v - 0xC_0000)
      && (v != mbi && v == 0xC_03FF ==> e.rw && !e.user && e.address == 0xB8)
      && (v != mbi && 0xC_0400 <= v < 0xC_0800 ==> e.rw && !e.user && e.address == 0x400 + (v - 0xC_0400))
      && (!e.present ==> !e.rw && !e.user && e.address == 0)
  {
    BootedWalk(mem, d, mbi, mmap);
    BootedTable(mem, d, mbi, mmap);
  }

  /**
   The words that booting writes: bit 0 for present, bit 1 for writable, bit 2 for user and the frame from
   bit 12 on. First those of the page table, which start at 4 MiB.
   */
  lemma BootedTableWord(mem: Memory, d: ImageFrame, mbi: Frame, mmap: MemoryMap, v: Frame)
    ensures
      var w := Booted(mem, d, mbi, mmap).mem[0x400 + v / 1024][v % 1024];
      && (v == mbi ==> w == 4096 * mbi + 3)
      && (v != mbi && 0xC_0100 <= v < 0xC_0800 && v != 0xC_03FF ==> w == 4096 * (v - 0xC_0000) + 3)
      && (v != mbi && v == 0xC_03FF ==> w == 0xB_8003)
      && (v != mbi && !(0xC_0100 <= v < 0xC_0800) ==> w == 0)
  {
    var s := Booted(mem, d, mbi, mmap);
    BootedWords(mem, d, mbi, mmap);
    BootedTable(mem, d, mbi, mmap);
    assert s.mem[0x400 + v / 1024][v % 1024] == Encode(s.table[v]);
    if v != mbi {
      assert s.table[v] == KernelEntry(v);
    }
  }

  /** Then those of the directory; no other frame changes. */
  lemma BootedRest(mem: Memory, d: ImageFrame, mbi: Frame, mmap: MemoryMap)
    ensures
      var m := Booted(mem, d, mbi, mmap).mem;
      && (forall k :: 0 <= k < 1024 ==> m[d][k] == 4096 * (0x400 + k) + 7)
      && (forall f: Frame :: f != d && !(0x400 <= f < 0x800) ==> m[f] == mem[f])
  {
    BootedWords(mem, d, mbi, mmap);
    assert WithTable(mem, d).Home(mbi) == 0x400 + mbi / 1024;
    forall k | 0 <= k < 1024 ensures KernelDirectory()[k] == 4096 * (0x400 + k) + 7 {
    }
  }

  // ---- the first clone ----

  /** The first free run of 1025 pages in kernel space starts behind the page table. */
  lemma FirstRunBooted(t: Table)
    requires forall v: Frame :: KERNEL_SPACE <= v ==> (t[v].present <==> 0xC_0100 <= v < 0xC_0800)
    ensures FirstRun(t, 1025, KERNEL_SPACE) == 0xC_0800
  {
    forall k | KERNEL_SPACE <= k < 0xC_0800 ensures !Unmapped(t, k, 1025) {
      var w: Frame := if k < 0xC_0100 then 0xC_0100 else k;
      assert k <= w < k + 1025 && t[w].present;
    }
    assert Unmapped(t, 0xC_0800, 1025);
  }

  /** Present in kernel space are only the kernel's own pages, no page is the user's, and the first frames are free. */
  ghost predicate FreshlyBooted(s: State) {
    && (forall v: Frame :: KERNEL_SPACE <= v ==> (s.table[v].present <==> 0xC_0100 <= v < 0xC_0800))
    && (forall v: Frame :: !s.table[v].user)
    && (forall f: Frame :: 0x1000 <= f <= 0x1400 ==> f !in s.claimed)
  }

  lemma FreshClones(s: State, guard: set<Frame>)
    requires SoundSpace(Space(s, guard)) && FreshlyBooted(s)
    ensures Cloned(s, guard, 0xC_0800)
  {
    FirstRunBooted(s.table);
    FramesAtHand(s.claimed);
    assert UserPages(s.table, 0) == {};
  }

  lemma BootedIsFresh(mem: Memory, d: ImageFrame, mbi: Frame, mmap: MemoryMap)
    requires mbi < KERNEL_SPACE && forall f: Frame :: 0x1000 <= f <= 0x1400 ==> Released(mmap, f)
    ensures FreshlyBooted(Booted(mem, d, mbi, mmap))
  {
    BootedTable(mem, d, mbi, mmap);
    forall f: Frame | 0x1000 <= f <= 0x1400 ensures f !in Booted(mem, d, mbi, mmap).claimed {
      BootedFrames(mem, d, mbi, mmap, f);
    }
  }

  /**
   With usable memory from 16 MiB to 20 MiB and a page, and the boot information clear of the kernel, clone_tables
   and clone_user_pages succeed right after booting, at page 0xC0800: none of what is proved of the
   deep copy is about nothing.
   */
  lemma BootedClones(mem: Memory, d: ImageFrame, mbi: Frame, mmap: MemoryMap)
    requires Clear(mbi, mmap) && mbi < KERNEL_SPACE
    requires forall f: Frame :: 0x1000 <= f <= 0x1400 ==> Released(mmap, f)
    ensures Cloned(Booted(mem, d, mbi, mmap), KernelGuard(), 0xC_0800)
  {
    BootedSoundIff(mem, d, mbi, mmap);
    BootedIsFresh(mem, d, mbi, mmap);
    FreshClones(Booted(mem, d, mbi, mmap), KernelGuard());
  }

  lemma FramesAtHand(claimed: set<Frame>)
    requires forall f: Frame :: 0x1000 <= f <= 0x1400 ==> f !in claimed
    ensures FirstFrames(claimed, 1025, FIRST_SEQUENTIAL) == 0x1000
    ensures |FreeHigh(claimed)| >= 1025
  {
    forall x: nat | 0x1000 <= x < 0x1000 + 1025 ensures Wrap(x) !in claimed {
      assert Wrap(x) == x;
    }
    assert FreeFrames(claimed, 0x1000, 1025);
    var run := set f | f in FreeHigh({}) && 0x1000 <= f <= 0x1400;
    RunSize(run, 0x1000, 1025);
    assert run <= FreeHigh(claimed);
    SubsetSize(run, FreeHigh(claimed));
  }

  lemma SubsetSize(a: set<Frame>, b: set<Frame>)
    requires a <= b
    ensures |a| <= |b|
  {
    assert b == a + (b - a);
  }
}
