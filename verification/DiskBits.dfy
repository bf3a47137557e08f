/** The bits of a bitmap block of MyFS (kernel/fs.c, tools/mkfs.c), eight to a byte from the
    lowest up, for blocks whose bytes are numbers. */
module DiskBits {
  import opened Layout
  import opened Allocation

  function Two(n: nat): (r: nat)
    ensures r > 0
  {
    if n == 0 then 1 else 2 * Two(n - 1)
  }

  predicate ByteBit(x: nat, k: nat) {
    if k == 0 then x % 2 == 1 else ByteBit(x / 2, k - 1)
  }

  /** x | 1 << k. */
  function WithByteBit(x: nat, k: nat): nat {
    if k == 0 then x - x % 2 + 1 else x % 2 + 2 * WithByteBit(x / 2, k - 1)
  }

  lemma {:induction false} WithByteBitBound(x: nat, k: nat, n: nat)
    requires k < n && x < Two(n)
    ensures WithByteBit(x, k) < Two(n)
  {
    var half := Two(n - 1);
    assert Two(n) == 2 * half && x / 2 < half;
    if k > 0 {
      WithByteBitBound(x / 2, k - 1, n - 1);
      assert WithByteBit(x, k) == x % 2 + 2 * WithByteBit(x / 2, k - 1);
    }
  }

  lemma {:induction false} WithByteBitBits(x: nat, k: nat, j: nat)
    ensures ByteBit(WithByteBit(x, k), j) <==> j == k || ByteBit(x, j)
  {
    if k > 0 && j > 0 {
      WithByteBitBits(x / 2, k - 1, j - 1);
      assert WithByteBit(x, k) / 2 == WithByteBit(x / 2, k - 1);
    } else if k == 0 && j > 0 {
      assert WithByteBit(x, k) / 2 == x / 2;
    }
  }

  lemma EightBits()
    ensures Two(8) == 256
  {
    assert Two(4) == 16;
  }

  predicate Bit(page: Page, bit: nat)
    requires bit < BITMAP_BITS
  {
    ByteBit(page[bit / 8], bit % 8)
  }

  function WithBit(page: Page, bit: nat): Page
    requires bit < BITMAP_BITS
  {
    EightBits();
    WithByteBitBound(page[bit / 8], bit % 8, 8);
    page[bit / 8 := WithByteBit(page[bit / 8], bit % 8)]
  }

  lemma WithBitBits(page: Page, bit: nat, other: nat)
    requires bit < BITMAP_BITS && other < BITMAP_BITS
    ensures Bit(WithBit(page, bit), other) <==> other == bit || Bit(page, other)
  {
    hide ByteBit, WithByteBit;
    if other / 8 == bit / 8 {
      assert other % 8 == bit % 8 <==> other == bit;
      WithByteBitBits(page[bit / 8], bit % 8, other % 8);
    }
  }

  lemma HighByte(k: nat)
    requires k < 8
    ensures ByteBit(255, k)
  {
    HighBits(8, k);
    EightBits();
  }

  lemma {:induction false} HighBits(n: nat, k: nat)
    requires k < n
    ensures ByteBit(Two(n) - 1, k)
  {
    assert Two(n) == 2 * Two(n - 1);
    if k > 0 { HighBits(n - 1, k - 1); }
  }

  lemma {:induction false} NoBits(k: nat)
    ensures !ByteBit(0, k)
  {
    if k > 0 { NoBits(k - 1); }
  }

  /** A block of zeros has no bit set. */
  lemma ZeroBits(bit: nat)
    requires bit < BITMAP_BITS
    ensures !Bit(ZeroPage(), bit)
  {
    hide ByteBit;
    NoBits(bit % 8);
  }
}
