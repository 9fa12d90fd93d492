/** Single-bit reads and writes on the bytes of the frame bitmap. */
module Bytes {

  /** What the test `byte & (1 << i)` answers. */
  predicate Bit(b: bv8, i: nat)
    requires i < 8
  {
    b & (1 << i) != 0
  }

  lemma SetBit(b: bv8, i: nat, j: nat)
    requires i < 8 && j < 8
    ensures Bit(b | (1 << i), j) <==> i == j || Bit(b, j)
  {
  }

  lemma ClearBit(b: bv8, i: nat, j: nat)
    requires i < 8 && j < 8
    ensures Bit(b & !(1 << i), j) <==> i != j && Bit(b, j)
  {
  }

  lemma FullOrEmpty(b: bv8)
    ensures b == 255 <==> forall i: nat :: i < 8 ==> Bit(b, i)
    ensures b == 0 <==> forall i: nat :: i < 8 ==> !Bit(b, i)
  {
    if forall i: nat :: i < 8 ==> Bit(b, i) {
      assert Bit(b, 0) && Bit(b, 1) && Bit(b, 2) && Bit(b, 3) && Bit(b, 4) && Bit(b, 5) && Bit(b, 6) && Bit(b, 7);
    }
    if forall i: nat :: i < 8 ==> !Bit(b, i) {
      assert !Bit(b, 0) && !Bit(b, 1) && !Bit(b, 2) && !Bit(b, 3);
      assert !Bit(b, 4) && !Bit(b, 5) && !Bit(b, 6) && !Bit(b, 7);
    }
  }
}
