/** The bitmap of the page allocator (kernel/memory.c), packed eight bits to a
    byte. */
module Bits {

  /** `1 << k` for a bit position inside one byte. */
  function Mask(k: nat): bv8
    requires k < 8
  {
    if k == 0 then 1 else if k == 1 then 2 else if k == 2 then 4 else if k == 3 then 8
    else if k == 4 then 16 else if k == 5 then 32 else if k == 6 then 64 else 128
  }

  predicate Test(b: bv8, k: nat)
    requires k < 8
  {
    b & Mask(k) != 0
  }

  function Put(b: bv8, k: nat, value: bool): bv8
    requires k < 8
  {
    if value then b | Mask(k) else b & !Mask(k)
  }

  lemma MasksDisjoint(k: nat, j: nat)
    requires k < 8 && j < 8 && k != j
    ensures Mask(k) & Mask(j) == 0
  {
  }

  lemma MaskSet(k: nat)
    requires k < 8
    ensures Mask(k) != 0
  {
  }

  lemma OtherBit(b: bv8, m: bv8, n: bv8)
    requires m & n == 0
    ensures (b | m) & n == b & n && (b & !m) & n == b & n
  {
  }

  lemma SameBit(b: bv8, m: bv8)
    requires m != 0
    ensures (b | m) & m != 0 && (b & !m) & m == 0
  {
  }

  lemma PutSame(b: bv8, k: nat, value: bool)
    requires k < 8
    ensures Test(Put(b, k, value), k) == value
  {
    hide Mask;
    MaskSet(k);
    SameBit(b, Mask(k));
  }

  lemma PutOther(b: bv8, k: nat, value: bool, j: nat)
    requires k < 8 && j < 8 && j != k
    ensures Test(Put(b, k, value), j) == Test(b, j)
  {
    hide Mask;
    MasksDisjoint(k, j);
    OtherBit(b, Mask(k), Mask(j));
  }

  /** Writing one bit of a byte changes that bit and no other. */
  lemma PutTest(b: bv8, k: nat, value: bool, j: nat)
    requires k < 8 && j < 8
    ensures Test(Put(b, k, value), j) == if j == k then value else Test(b, j)
  {
    hide Test, Put;
    if j == k { PutSame(b, k, value); } else { PutOther(b, k, value, j); }
  }
}
