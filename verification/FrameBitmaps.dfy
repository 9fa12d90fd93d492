/** The physical-frame bitmap `pmem_used` of memory/memory.c: one bit per frame, set when claimed. */
module FrameBitmaps {
  import opened Bytes
  import opened Machine

  /** Frames below m that are unclaimed. */
  ghost function FreeBelow(claimed: set<Frame>, m: nat): set<Frame> {
    set f: Frame | f < m && f !in claimed
  }

  lemma FreeBelowStep(claimed: set<Frame>, m: Frame)
    ensures |FreeBelow(claimed, m + 1)| == |FreeBelow(claimed, m)| + if m in claimed then 0 else 1
  {
    if m in claimed {
      assert FreeBelow(claimed, m + 1) == FreeBelow(claimed, m);
    } else {
      assert FreeBelow(claimed, m + 1) == FreeBelow(claimed, m) + {m};
    }
  }

  /** A stretch of n frames that are all free, or all claimed, counts n or 0. */
  lemma {:induction false} FreeBelowStretch(claimed: set<Frame>, m: nat, n: nat, free: bool)
    requires m + n <= PAGES
    requires forall f: Frame :: m <= f < m + n ==> (f !in claimed <==> free)
    ensures |FreeBelow(claimed, m + n)| == |FreeBelow(claimed, m)| + if free then n else 0
  {
    if n == 0 {
    } else {
      FreeBelowStretch(claimed, m, n - 1, free);
      FreeBelowStep(claimed, m + n - 1);
    }
  }

  /** Bit f%8 of byte f/8 is set exactly for the frames f in `claimed`. */
  ghost predicate Marks(bytes: seq<bv8>, claimed: set<Frame>) {
    && |bytes| == 0x2_0000
    && forall f: Frame :: f in claimed <==> Bit(bytes[f / 8], f % 8)
  }

  lemma MarksWith(bytes: seq<bv8>, claimed: set<Frame>, f: Frame)
    requires Marks(bytes, claimed)
    ensures Marks(bytes[f / 8 := bytes[f / 8] | (1 << (f % 8))], claimed + {f})
  {
    var after := bytes[f / 8 := bytes[f / 8] | (1 << (f % 8))];
    forall g: Frame ensures g in claimed + {f} <==> Bit(after[g / 8], g % 8) {
      if g / 8 == f / 8 {
        SetBit(bytes[f / 8], f % 8, g % 8);
        assert g == f <==> g % 8 == f % 8;
      }
    }
  }

  lemma MarksWithout(bytes: seq<bv8>, claimed: set<Frame>, f: Frame)
    requires Marks(bytes, claimed)
    ensures Marks(bytes[f / 8 := bytes[f / 8] & !(1 << (f % 8))], claimed - {f})
  {
    var after := bytes[f / 8 := bytes[f / 8] & !(1 << (f % 8))];
    forall g: Frame ensures g in claimed - {f} <==> Bit(after[g / 8], g % 8) {
      if g / 8 == f / 8 {
        ClearBit(bytes[f / 8], f % 8, g % 8);
        assert g == f <==> g % 8 == f % 8;
      }
    }
  }

  /** When bytes 0..i are full already, filling byte i claims the frames below 8*(i+1). */
  lemma MarksFull(bytes: seq<bv8>, claimed: set<Frame>, i: nat)
    requires Marks(bytes, claimed) && i < |bytes|
    requires FreeBelow({}, 8 * i) <= claimed
    ensures Marks(bytes[i := 255], claimed + FreeBelow({}, 8 * (i + 1)))
  {
  }

  /** What every frame of byte k is, when the byte is full or empty. */
  lemma BitOfByte(bytes: seq<bv8>, claimed: set<Frame>, k: nat, i: nat)
    requires Marks(bytes, claimed) && k < |bytes| && i < 8
    ensures (8 * k + i) / 8 == k && (Bit(bytes[k], i) <==> 8 * k + i in claimed)
  {
    var f: Frame := 8 * k + i;
    assert f / 8 == k && f % 8 == i;
  }

  /** A byte is full, or empty, iff its eight frames are all claimed, or all free. */
  lemma ByteContents(bytes: seq<bv8>, claimed: set<Frame>, k: nat)
    requires Marks(bytes, claimed) && k < |bytes|
    ensures bytes[k] == 255 <==> forall f: Frame | f / 8 == k :: f in claimed
    ensures bytes[k] == 0 <==> forall f: Frame | f / 8 == k :: f !in claimed
  {
    FullOrEmpty(bytes[k]);
    forall i: nat | i < 8 ensures (8 * k + i) / 8 == k && (Bit(bytes[k], i) <==> 8 * k + i in claimed) {
      BitOfByte(bytes, claimed, k, i);
    }
    forall f: Frame | f / 8 == k ensures f % 8 < 8 && (Bit(bytes[k], f % 8) <==> f in claimed) {
    }
  }

  class FrameBitmap {
    const bytes: array<bv8>
    /** The frames whose bit is set. */
    ghost var claimed: set<Frame>

    ghost predicate Valid()
      reads this, bytes
    {
      Marks(bytes[..], claimed)
    }

    constructor ()
      ensures Valid() && fresh(bytes) && claimed == {}
    {
      bytes := new bv8[0x2_0000](_ => 0);
      claimed := {};
      new;
      forall f: Frame ensures !Bit(bytes[f / 8], f % 8) {
        FullOrEmpty(0);
      }
    }

    method Check(f: Frame) returns (r: bool)
      requires Valid()
      ensures r <==> f in claimed
    {
      r := bytes[f / 8] & (1 << (f % 8)) != 0;
    }

    method Claim(f: Frame)
      requires Valid()
      modifies this, bytes
      ensures Valid() && claimed == old(claimed) + {f}
    {
      MarksWith(bytes[..], claimed, f);
      bytes[f / 8] := bytes[f / 8] | (1 << (f % 8));
      claimed := claimed + {f};
    }

    method Release(f: Frame)
      requires Valid()
      modifies this, bytes
      ensures Valid() && claimed == old(claimed) - {f}
    {
      MarksWithout(bytes[..], claimed, f);
      bytes[f / 8] := bytes[f / 8] & !(1 << (f % 8));
      claimed := claimed - {f};
    }

    /** memset of the first `count` bytes to 255. */
    method FillOnes(count: nat)
      requires Valid() && count <= 0x2_0000
      modifies this, bytes
      ensures Valid() && claimed == old(claimed) + FreeBelow({}, 8 * count)
    {
      for i := 0 to count
        invariant Valid() && claimed == old(claimed) + FreeBelow({}, 8 * i)
      {
        MarksFull(bytes[..], claimed, i);
        bytes[i] := 255;
        claimed := claimed + FreeBelow({}, 8 * (i + 1));
      }
    }

    /** check_page_cluster: the whole byte that frame f's bit is in. */
    method Cluster(f: Frame) returns (b: bv8)
      requires Valid()
      ensures b == 255 <==> forall g: Frame | g / 8 == f / 8 :: g in claimed
    {
      b := bytes[f / 8];
      ByteContents(bytes[..], claimed, f / 8);
    }

    /** The scan skips eight frames whenever it meets a full byte; it still finds the lowest free frame. */
    method FindFreePhysPage() returns (frame: Frame)
      requires Valid()
      ensures frame == FindFree(claimed)
    {
      var k := 0x800;
      while k < 1048576
        invariant 0x800 <= k <= PAGES
        invariant forall f: Frame :: 0x800 <= f < k ==> f in claimed
        invariant k % 8 == 0 || exists f: Frame :: f / 8 == k / 8 && f !in claimed
        decreases PAGES - k
      {
        var b := Cluster(k);
        if b == 255 {
          k := k + 7;
        } else {
          var r := Check(k);
          if !r {
            return k;
          }
        }
        k := k + 1;
      }
      return 0;
    }

    /** All-zero and all-ones bytes are counted without looking at their bits. */
    method FreePages() returns (count: nat)
      requires Valid()
      ensures count == |FreeBelow(claimed, PAGES)|
    {
      count := 0;
      assert FreeBelow(claimed, 0) == {};
      for i := 0 to 0x2_0000
        invariant count == |FreeBelow(claimed, 8 * i)|
      {
        ByteContents(bytes[..], claimed, i);
        if bytes[i] == 0 {
          count := count + 8;
          FreeBelowStretch(claimed, 8 * i, 8, true);
        } else if bytes[i] != 255 {
          for j := 0 to 8
            invariant count == |FreeBelow(claimed, 8 * i + j)|
          {
            FreeBelowStep(claimed, 8 * i + j);
            var r := Check(8 * i + j);
            if !r {
              count := count + 1;
            }
          }
        } else {
          FreeBelowStretch(claimed, 8 * i, 8, false);
        }
      }
    }
  }
}
