/** The layout of a MyFS image: what mkfs computes (tools/mkfs.c) and what the kernel checks
    before it mounts (kernel/fs.c). */
module Geometry {
  import opened Layout

  const SECTOR := 512
  const SECTORS_PER_BLOCK := 8
  const LBA48_MAX := 0xFFFF_FFFF_FFFF
  const UINT32_MAX := 0xFFFF_FFFF
  const UINT64_MAX := 0xFFFF_FFFF_FFFF_FFFF
  const MAGIC := 0x1998_0811
  const VERSION := 4
  const BITS_PER_BLOCK := 32768    // of a page
  const INODE_BYTES := 72
  const INODES_PER_BLOCK := 56     // as many as fit a page
  const MIN_INODES := 4096
  const MAX_INODES := 262144

  datatype SuperBlock = SuperBlock(
    magic: nat, version: nat, blockSize: nat, totalInodes: nat, totalBlocks: nat, imapStart: nat, imapBlocks: nat,
    bmapStart: nat, bmapBlocks: nat, inodeStart: nat, inodeBlocks: nat, firstData: nat)

  datatype Option<T> = None | Some(value: T)

  function RoundUp(value: nat, divisor: nat): nat
    requires divisor > 0
  {
    value / divisor + if value % divisor != 0 then 1 else 0
  }

  function Inodes(blocks: nat): nat {
    var n := blocks / 16;
    if n < MIN_INODES then MIN_INODES else if n > MAX_INODES then MAX_INODES else n
  }

  /** The superblock of mkfs for a disk of so many bytes, with MyFS starting at a sector. */
  function Plan(diskSize: nat, startLba: nat): Option<SuperBlock> {
    if diskSize == 0 || startLba > UINT64_MAX / SECTOR || diskSize <= startLba * SECTOR then None
    else
      var blocks := (diskSize - startLba * SECTOR) / PAGE_SIZE;
      if startLba > LBA48_MAX || LBA48_MAX - startLba + 1 < SECTORS_PER_BLOCK then None
      else if blocks < 128 || blocks > UINT32_MAX || blocks > (LBA48_MAX - startLba + 1) / SECTORS_PER_BLOCK then None
      else
        var inodes := Inodes(blocks);
        var ibits := RoundUp(inodes, BITS_PER_BLOCK);
        var dbits := RoundUp(blocks, BITS_PER_BLOCK);
        var table := RoundUp(inodes, INODES_PER_BLOCK);
        var first := 2 + ibits + dbits + table;
        if first + 1 >= blocks then None
        else Some(SuperBlock(MAGIC, VERSION, PAGE_SIZE, inodes, blocks, 2, ibits, 2 + ibits, dbits, 2 + ibits + dbits,
            table, first))
  }

  /** The kernel's test of a superblock, for the start sector it was built with. */
  predicate Mounts(sb: SuperBlock, startLba: nat) {
    && sb.magic == MAGIC && sb.version == VERSION && sb.blockSize == PAGE_SIZE && sb.totalInodes > 1
    && sb.totalBlocks > sb.firstData && sb.totalBlocks <= (LBA48_MAX - startLba + 1) / SECTORS_PER_BLOCK
    && sb.imapStart >= 2 && sb.imapStart + sb.imapBlocks <= sb.bmapStart
    && sb.bmapStart + sb.bmapBlocks <= sb.inodeStart && sb.inodeStart + sb.inodeBlocks <= sb.firstData
    && sb.firstData < sb.totalBlocks
    && sb.imapBlocks >= (sb.totalInodes + BITS_PER_BLOCK - 1) / BITS_PER_BLOCK
    && sb.bmapBlocks >= (sb.totalBlocks + BITS_PER_BLOCK - 1) / BITS_PER_BLOCK
    && sb.inodeBlocks >= (sb.totalInodes + INODES_PER_BLOCK - 1) / INODES_PER_BLOCK
  }

  lemma RoundUpIs(value: nat, divisor: nat)
    requires divisor == BITS_PER_BLOCK || divisor == INODES_PER_BLOCK
    ensures RoundUp(value, divisor) == (value + divisor - 1) / divisor
  {
  }

  /** Every image mkfs makes passes the kernel's test; every field fits 32 bits; and every
      sector of every block is within the 48-bit addresses of ATA. */
  lemma PlanMounts(diskSize: nat, startLba: nat, b: nat)
    requires Plan(diskSize, startLba).Some? && b < Plan(diskSize, startLba).value.totalBlocks
    ensures var sb := Plan(diskSize, startLba).value;
      && Mounts(sb, startLba) && sb.totalBlocks <= UINT32_MAX && sb.totalInodes <= MAX_INODES
      && sb.firstData + 1 < sb.totalBlocks
      && startLba + b * SECTORS_PER_BLOCK + SECTORS_PER_BLOCK - 1 <= LBA48_MAX
      && startLba * SECTOR + (b + 1) * PAGE_SIZE <= diskSize
  {
    hide RoundUp, Inodes;
    var sb := Plan(diskSize, startLba).value;
    InodesIs(sb.totalBlocks);
    RoundUpIs(sb.totalInodes, BITS_PER_BLOCK);
    RoundUpIs(sb.totalBlocks, BITS_PER_BLOCK);
    RoundUpIs(sb.totalInodes, INODES_PER_BLOCK);
  }

  /** When mkfs refuses: fewer than 128 blocks, more than 32 bits can number, or a sector beyond
      48 bits. Its last test, that the data area is not empty, never fails. */
  lemma PlanRefuses(diskSize: nat, startLba: nat, blocks: nat)
    requires blocks == if diskSize <= startLba * SECTOR then 0 else (diskSize - startLba * SECTOR) / PAGE_SIZE
    ensures Plan(diskSize, startLba).None? <==>
      blocks < 128 || blocks > UINT32_MAX || startLba + blocks * SECTORS_PER_BLOCK > LBA48_MAX + 1
  {
    hide RoundUp, Inodes;
    if blocks >= 128 { DataRemains(blocks); }
  }

  lemma DataRemains(blocks: nat)
    requires blocks >= 128
    ensures 2 + RoundUp(Inodes(blocks), BITS_PER_BLOCK) + RoundUp(blocks, BITS_PER_BLOCK)
            + RoundUp(Inodes(blocks), INODES_PER_BLOCK) + 1 < blocks
  {
    hide RoundUp, Inodes;
    InodesIs(blocks);
    RoundUpLeast(Inodes(blocks), BITS_PER_BLOCK);
    RoundUpLeast(blocks, BITS_PER_BLOCK);
    RoundUpLeast(Inodes(blocks), INODES_PER_BLOCK);
  }

  lemma RoundUpLeast(value: nat, divisor: nat)
    requires divisor == BITS_PER_BLOCK || divisor == INODES_PER_BLOCK
    ensures (RoundUp(value, divisor) - 1) * divisor < value <= RoundUp(value, divisor) * divisor
  {
  }

  /** One inode for sixteen blocks, as far as the two bounds allow. */
  lemma InodesIs(blocks: nat)
    ensures var n := Inodes(blocks);
      && MIN_INODES <= n <= MAX_INODES && (n < MAX_INODES ==> blocks < 16 * (n + 1))
      && (n > MIN_INODES ==> 16 * n <= blocks)
  {
  }

  /** The plan wastes nothing: as many blocks as the disk holds, the areas one behind the
      other, and each with the fewest blocks that hold its bits or its inodes. */
  lemma PlanTight(diskSize: nat, startLba: nat)
    requires Plan(diskSize, startLba).Some?
    ensures var sb := Plan(diskSize, startLba).value;
      && sb.totalBlocks * PAGE_SIZE <= diskSize - startLba * SECTOR < (sb.totalBlocks + 1) * PAGE_SIZE
      && sb.imapStart == 2 && sb.bmapStart == 2 + sb.imapBlocks && sb.inodeStart == sb.bmapStart + sb.bmapBlocks
      && sb.firstData == sb.inodeStart + sb.inodeBlocks
      && (sb.imapBlocks - 1) * BITS_PER_BLOCK < sb.totalInodes <= sb.imapBlocks * BITS_PER_BLOCK
      && (sb.bmapBlocks - 1) * BITS_PER_BLOCK < sb.totalBlocks <= sb.bmapBlocks * BITS_PER_BLOCK
      && (sb.inodeBlocks - 1) * INODES_PER_BLOCK < sb.totalInodes <= sb.inodeBlocks * INODES_PER_BLOCK
      && MIN_INODES <= sb.totalInodes <= MAX_INODES
      && (sb.totalInodes < MAX_INODES ==> sb.totalBlocks < 16 * (sb.totalInodes + 1))
      && (sb.totalInodes > MIN_INODES ==> 16 * sb.totalInodes <= sb.totalBlocks)
  {
    hide RoundUp, Inodes;
    var sb := Plan(diskSize, startLba).value;
    InodesIs(sb.totalBlocks);
    RoundUpLeast(sb.totalInodes, BITS_PER_BLOCK);
    RoundUpLeast(sb.totalBlocks, BITS_PER_BLOCK);
    RoundUpLeast(sb.totalInodes, INODES_PER_BLOCK);
  }

  // --------------------------------------------------- where inodes and bits are stored

  /** Block and byte of an inode: the kernel's inode_block and array index, and mkfs's
      inode_at, which counts from the start of the table. */
  function InodeBlock(sb: SuperBlock, n: nat): nat { sb.inodeStart + n / INODES_PER_BLOCK }
  function InodeOffset(n: nat): nat { n % INODES_PER_BLOCK * INODE_BYTES }
  function TableOffset(n: nat): nat { n / INODES_PER_BLOCK * PAGE_SIZE + n % INODES_PER_BLOCK * INODE_BYTES }

  /** Block and bit of a bitmap entry. */
  function BitBlock(start: nat, bit: nat): nat { start + bit / BITS_PER_BLOCK }
  function BitOffset(bit: nat): nat { bit % BITS_PER_BLOCK }

  /** On a disk that mounts, each inode has bytes of its own inside the table, where mkfs
      puts it, and the table is apart from bitmaps and data. */
  lemma InodePlaces(sb: SuperBlock, startLba: nat, n: nat, m: nat)
    requires Mounts(sb, startLba) && n < sb.totalInodes && m < sb.totalInodes && n != m
    ensures sb.inodeStart <= InodeBlock(sb, n) < sb.inodeStart + sb.inodeBlocks
    ensures InodeOffset(n) + INODE_BYTES <= PAGE_SIZE
    ensures InodeBlock(sb, n) == InodeBlock(sb, m) ==>
      InodeOffset(n) + INODE_BYTES <= InodeOffset(m) || InodeOffset(m) + INODE_BYTES <= InodeOffset(n)
    ensures TableOffset(n) == (InodeBlock(sb, n) - sb.inodeStart) * PAGE_SIZE + InodeOffset(n)
    ensures sb.bmapStart + sb.bmapBlocks <= InodeBlock(sb, n) < sb.firstData
  {
    hide Mounts;
    TableRoom(sb, startLba);
    SlotFacts(n);
    SlotFacts(m);
    RowInside(n, sb.inodeBlocks);
    RowsApart(n, m);
  }

  lemma TableRoom(sb: SuperBlock, startLba: nat)
    requires Mounts(sb, startLba)
    ensures sb.totalInodes <= sb.inodeBlocks * INODES_PER_BLOCK
    ensures sb.bmapStart + sb.bmapBlocks <= sb.inodeStart && sb.inodeStart + sb.inodeBlocks <= sb.firstData
  {
  }

  lemma RowInside(n: nat, rows: nat)
    requires n < rows * INODES_PER_BLOCK
    ensures n / INODES_PER_BLOCK < rows
  {
  }

  lemma RowsApart(n: nat, m: nat)
    requires n != m
    ensures n / INODES_PER_BLOCK == m / INODES_PER_BLOCK ==>
      InodeOffset(n) + INODE_BYTES <= InodeOffset(m) || InodeOffset(m) + INODE_BYTES <= InodeOffset(n)
  {
    SlotFacts(n);
    SlotFacts(m);
  }

  lemma SlotFacts(n: nat)
    ensures n == n / INODES_PER_BLOCK * INODES_PER_BLOCK + n % INODES_PER_BLOCK
    ensures n % INODES_PER_BLOCK < INODES_PER_BLOCK
  {
  }

  /** Each bit of either bitmap has its own place inside that bitmap's blocks. */
  lemma BitPlaces(sb: SuperBlock, startLba: nat, bit: nat, other: nat)
    requires Mounts(sb, startLba) && bit < sb.totalBlocks && other < sb.totalBlocks && bit != other
    ensures sb.bmapStart <= BitBlock(sb.bmapStart, bit) < sb.bmapStart + sb.bmapBlocks <= sb.firstData
    ensures BitBlock(sb.bmapStart, bit) != BitBlock(sb.bmapStart, other) || BitOffset(bit) != BitOffset(other)
  {
  }

  lemma InodeBitPlaces(sb: SuperBlock, startLba: nat, n: nat, m: nat)
    requires Mounts(sb, startLba) && n < sb.totalInodes && m < sb.totalInodes && n != m
    ensures 2 <= BitBlock(sb.imapStart, n) < sb.imapStart + sb.imapBlocks <= sb.bmapStart
    ensures BitBlock(sb.imapStart, n) != BitBlock(sb.imapStart, m) || BitOffset(n) != BitOffset(m)
  {
  }

  /** How far alloc_data_block may scan on such a disk: up to `bmapBlocks` bitmap blocks. A
      disk of at most 14 of them, 1.75 GiB, never loses a held pointer. */
  lemma ScanSpan(sb: SuperBlock, startLba: nat, found: nat)
    requires Mounts(sb, startLba) && sb.totalBlocks <= 14 * BITS_PER_BLOCK && sb.firstData <= found < sb.totalBlocks
    ensures found / BITS_PER_BLOCK - sb.firstData / BITS_PER_BLOCK + 1 <= 14
  {
    hide Mounts;
    BitRow(found);
  }

  lemma BitRow(found: nat)
    requires found < 14 * BITS_PER_BLOCK
    ensures found / BITS_PER_BLOCK <= 13
  {
  }
}
