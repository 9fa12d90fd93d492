/**
 pmem_used is itself 32 pages of the kernel's image. What the kernel reads there is the set `claimed` of
 the model for as long as nobody else writes to these pages, which is why no legal run does.
 */
module BitmapPages {
  import opened Machine
  import opened PageTables
  import opened Allocation
  import opened AddressSpaces
  import opened Runs

  // ---- words and their bits ----

  predicate WordBit(w: nat, i: nat) {
    if i == 0 then w % 2 == 1 else WordBit(w / 2, i - 1)
  }

  function Power2(n: nat): nat {
    if n == 0 then 1 else 2 * Power2(n - 1)
  }

  lemma Power2Of4(n: nat)
    ensures Power2(n + 4) == 16 * Power2(n)
  {
    assert Power2(n + 4) == 2 * Power2(n + 3) == 4 * Power2(n + 2) == 8 * Power2(n + 1);
  }

  lemma Power2Of32()
    ensures Power2(32) == 0x1_0000_0000
  {
    Power2Of4(0);
    Power2Of4(4);
    Power2Of4(8);
    Power2Of4(12);
    Power2Of4(16);
    Power2Of4(20);
    Power2Of4(24);
    Power2Of4(28);
  }

  /** Numbers below 2^n with the same n bits are the same. */
  lemma {:induction false} SameBits(w: nat, x: nat, n: nat)
    requires w < Power2(n) && x < Power2(n) && forall i: nat :: i < n ==> WordBit(w, i) == WordBit(x, i)
    ensures w == x
    decreases n
  {
    if n == 0 {
    } else {
      forall i: nat | i < n - 1 ensures WordBit(w / 2, i) == WordBit(x / 2, i) {
        assert WordBit(w, i + 1) == WordBit(x, i + 1);
      }
      SameBits(w / 2, x / 2, n - 1);
      assert WordBit(w, 0) == WordBit(x, 0);
    }
  }

  lemma NoBits(i: nat)
    ensures !WordBit(0, i)
  {
  }

  // ---- the bitmap in memory ----

  /** The frames whose bits are set in the 32 pages from b on, a bit for each frame, 32 to a word. */
  ghost function BitmapAt(mem: Memory, t: Table, b: nat): set<Frame>
    requires b + 32 <= PAGES
  {
    set f: Frame | WordBit(mem[t[b + f / 0x8000].address][f % 0x8000 / 32], f % 32)
  }

  /**
   Pages b..b+31 are those of pmem_used: on frames of the kernel's variables, each on its own, and
   what is in them is the bitmap.
   */
  ghost predicate HoldsBitmap(s: State, b: nat) {
    && b + 32 <= PAGES && Distinct(s.table, b, 32)
    && (forall w: Frame :: b <= w < b + 32 ==> s.table[w].present && s.table[w].address in s.image)
    && BitmapAt(s.mem, s.table, b) == s.claimed
  }

  lemma BitmapWord(s: State, b: nat, f: Frame)
    requires b + 32 <= PAGES
    ensures f in BitmapAt(s.mem, s.table, b) <==> WordBit(s.Read(b + f / 0x8000)[f % 0x8000 / 32], f % 32)
  {
  }

  /** A write through one of these pages leaves the kernel the bitmap it had iff it writes what is there already. */
  lemma BitmapWriteIff(s: State, b: nat, w: Frame, c: Content)
    requires HoldsBitmap(s, b) && b <= w < b + 32
    ensures BitmapAt(s.Store(s.table[w].address, c).mem, s.table, b) == s.claimed <==> c == s.Read(w)
  {
    var s' := s.Store(s.table[w].address, c);
    if BitmapAt(s'.mem, s'.table, b) == s.claimed {
      forall k | 0 <= k < 1024 ensures c[k] == s.Read(w)[k] {
        SameWord(s, s', b, w, k);
      }
    }
    assert c == s.Read(w) ==> s'.mem == s.mem;
  }

  lemma SameWord(s: State, s': State, b: nat, w: Frame, k: nat)
    requires b + 32 <= PAGES && b <= w < b + 32 && k < 1024
    requires BitmapAt(s.mem, s.table, b) == BitmapAt(s'.mem, s'.table, b)
    ensures s.Read(w)[k] == s'.Read(w)[k]
  {
    Power2Of32();
    forall j: nat | j < 32 ensures WordBit(s.Read(w)[k], j) == WordBit(s'.Read(w)[k], j) {
      var f: Frame := 0x8000 * (w - b) + 32 * k + j;
      assert f / 0x8000 == w - b && f % 0x8000 / 32 == k && f % 32 == j;
      BitmapWord(s, b, f);
      BitmapWord(s', b, f);
    }
    SameBits(s.Read(w)[k], s'.Read(w)[k], 32);
  }

  /**
   With zeros in the first of these pages the kernel would hand out frame 0x800 next, whoever's it is:
   reserved by the boot loader, another address space's, or part of an ancestor's page table.
   */
  lemma ZeroedBitmap(s: State, b: nat)
    requires HoldsBitmap(s, b)
    ensures FindFree(BitmapAt(s.Store(s.table[b].address, Zeroes()).mem, s.table, b)) == FIRST_FRAME
  {
    var s' := s.Store(s.table[b].address, Zeroes());
    BitmapWord(s', b, FIRST_FRAME);
    NoBits(FIRST_FRAME % 32);
  }

  /** No legal run writes there, or trades, frees or copies these pages: all pages of variables are guarded. */
  lemma VariablesAreGuarded(a: Space, w: Frame)
    requires SoundSpace(a) && a.state.table[w].present && a.state.table[w].address in a.state.image
    ensures w in a.guard
  {
    assert Reserved(a.state, a.state.table[w].address);
  }

  lemma GuardedIsLeftAlone(a: Space, w: Frame, c: Content, n: U32)
    requires w in a.guard
    ensures !Legal(a, Write(w, c)) && !Legal(a, Trade(w))
    ensures n > 0 ==> !Legal(a, Free(w, n)) && forall m: U32 :: !Legal(a, Realloc(w, n, m))
    ensures a.state.table[w].user ==> !Legal(a, CloneUser) && !Legal(a, FreeAllUser)
  {
    assert Wrap(w) == w;
  }
}
