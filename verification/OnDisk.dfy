/** The metadata of MyFS as bytes: superblock, bitmaps and inode table, as mkfs writes them
    (tools/mkfs.c) and the kernel reads them (kernel/fs.c, kernel/fs.h). */
module OnDisk {
  import opened Layout
  import opened FileIndex
  import opened Allocation
  import opened DiskBits
  import opened Files
  import G = Geometry

  const WORD_LIMIT := 0x1_0000_0000

  // -------------------------------------------------------------------- words in a row

  predicate AllWords(ws: seq<nat>) {
    forall k :: 0 <= k < |ws| ==> ws[k] < WORD_LIMIT
  }

  function PutWords(p: Page, at: nat, ws: seq<nat>): Page
    requires at + |ws| <= FANOUT && AllWords(ws)
    decreases |ws|
  {
    if ws == [] then p else PutWords(PutWord(p, at, ws[0]), at + 1, ws[1..])
  }

  lemma {:induction false} PutWordsWord(p: Page, at: nat, ws: seq<nat>, k: nat)
    requires at + |ws| <= FANOUT && AllWords(ws) && k < FANOUT
    ensures Word(PutWords(p, at, ws), k) == if at <= k < at + |ws| then ws[k - at] else Word(p, k)
    decreases |ws|
  {
    hide Word, PutWord;
    if ws != [] {
      PutWordsWord(PutWord(p, at, ws[0]), at + 1, ws[1..], k);
      WordPut(p, at, ws[0], k);
    }
  }

  // ---------------------------------------------------------------------------- inodes

  const INODE_WORDS := 18
  const PER_TABLE := 56    // inodes in a block of the table

  /** An inode whose fields fit theirs on disk. */
  predicate Storable(n: Inode) {
    && n.size < WORD_LIMIT * WORD_LIMIT && n.kind < 0x1_0000 && n.links < 0x1_0000
    && |n.slots| == SLOTS && AllWords(n.slots)
  }

  /** struct inode: size, type and link count, fourteen pointers, and flags that stay 0. */
  function InodeWords(n: Inode): (ws: seq<nat>)
    requires Storable(n)
    ensures |ws| == INODE_WORDS && AllWords(ws)
  {
    [n.size % WORD_LIMIT, n.size / WORD_LIMIT, n.kind + 0x1_0000 * n.links] + n.slots + [0]
  }

  function PutInode(p: Page, s: nat, n: Inode): Page
    requires s < PER_TABLE && Storable(n)
  {
    PutWords(p, INODE_WORDS * s, InodeWords(n))
  }

  function InodeWord(p: Page, s: nat, k: nat): nat
    requires s < PER_TABLE && k < INODE_WORDS
  {
    Word(p, INODE_WORDS * s + k)
  }

  function GetInode(p: Page, s: nat): Inode
    requires s < PER_TABLE
  {
    Inode(InodeWord(p, s, 0) + WORD_LIMIT * InodeWord(p, s, 1), InodeWord(p, s, 2) % 0x1_0000,
          InodeWord(p, s, 2) / 0x1_0000,
          seq<nat>(SLOTS, t requires 0 <= t < SLOTS => InodeWord(p, s, 3 + t)))
  }

  lemma PutInodeWord(p: Page, s: nat, n: Inode, r: nat, k: nat)
    requires s < PER_TABLE && r < PER_TABLE && Storable(n) && k < INODE_WORDS
    ensures InodeWord(PutInode(p, s, n), r, k) == if r == s then InodeWords(n)[k] else InodeWord(p, r, k)
  {
    hide Word, PutWords;
    PutWordsWord(p, INODE_WORDS * s, InodeWords(n), INODE_WORDS * r + k);
    SlotsApart(s, r, k);
  }

  /** fs_put_inode then fs_get_inode: the same inode, and every other one of the block as it was. */
  lemma PutGetInode(p: Page, s: nat, n: Inode, r: nat)
    requires s < PER_TABLE && r < PER_TABLE && Storable(n)
    ensures GetInode(PutInode(p, s, n), r) == if r == s then n else GetInode(p, r)
  {
    hide InodeWord, PutInode;
    var q := PutInode(p, s, n);
    forall k: nat | k < INODE_WORDS
      ensures InodeWord(q, r, k) == if r == s then InodeWords(n)[k] else InodeWord(p, r, k)
    {
      PutInodeWord(p, s, n, r, k);
    }
    if r == s {
      Halves(n.kind, n.links);
      assert GetInode(q, r).slots == n.slots;
    } else {
      assert GetInode(q, r).slots == GetInode(p, r).slots;
    }
  }

  lemma SlotsApart(s: nat, r: nat, k: nat)
    requires k < INODE_WORDS
    ensures INODE_WORDS * s <= INODE_WORDS * r + k < INODE_WORDS * s + INODE_WORDS <==> r == s
  {
  }

  lemma Halves(low: nat, high: nat)
    requires low < 0x1_0000
    ensures (low + 0x1_0000 * high) % 0x1_0000 == low && (low + 0x1_0000 * high) / 0x1_0000 == high
  {
  }

  /** A block of zeros holds free inodes. */
  lemma ZeroInode(s: nat)
    requires s < PER_TABLE
    ensures GetInode(ZeroPage(), s) == NoInode()
  {
    hide Word, ZeroPage;
    forall k: nat | k < INODE_WORDS ensures InodeWord(ZeroPage(), s, k) == 0 { WordZero(INODE_WORDS * s + k); }
    assert GetInode(ZeroPage(), s).slots == NoSlots();
  }

  // ------------------------------------------------------------------------ superblock

  predicate Plain(sb: G.SuperBlock) {
    AllWords(Fields(sb))
  }

  /** struct super_block; its flags stay 0. */
  function Fields(sb: G.SuperBlock): (ws: seq<nat>)
    ensures |ws| == 13
  {
    [sb.magic, sb.version, sb.blockSize, 0, sb.totalInodes, sb.totalBlocks, sb.imapStart, sb.imapBlocks, sb.bmapStart,
     sb.bmapBlocks, sb.inodeStart, sb.inodeBlocks, sb.firstData]
  }

  function GetSuper(p: Page): G.SuperBlock {
    G.SuperBlock(Word(p, 0), Word(p, 1), Word(p, 2), Word(p, 4), Word(p, 5), Word(p, 6), Word(p, 7), Word(p, 8),
                 Word(p, 9),
                 Word(p, 10), Word(p, 11), Word(p, 12))
  }

  lemma PutGetSuper(sb: G.SuperBlock)
    requires Plain(sb)
    ensures GetSuper(PutWords(ZeroPage(), 0, Fields(sb))) == sb
  {
    hide Word, PutWords;
    var q := PutWords(ZeroPage(), 0, Fields(sb));
    forall k: nat | k < 13 ensures Word(q, k) == Fields(sb)[k] { PutWordsWord(ZeroPage(), 0, Fields(sb), k); }
  }

  // ------------------------------------------------------------------------- the image

  /** The image has the blocks its superblock tells of. */
  predicate Whole(view: seq<Page>, sb: G.SuperBlock, startLba: nat) {
    G.Mounts(sb, startLba) && |view| == sb.totalBlocks
  }

  function InodeAt(view: seq<Page>, sb: G.SuperBlock, startLba: nat, n: nat): Inode
    requires Whole(view, sb, startLba) && n < sb.totalInodes
  {
    InodeRoom(sb, startLba, n);
    GetInode(view[G.InodeBlock(sb, n)], n % PER_TABLE)
  }

  predicate InodeBit(view: seq<Page>, sb: G.SuperBlock, startLba: nat, n: nat)
    requires Whole(view, sb, startLba) && n < sb.totalInodes
  {
    BitRoom(sb, startLba, n, 0);
    Bit(view[G.BitBlock(sb.imapStart, n)], G.BitOffset(n))
  }

  predicate BlockBit(view: seq<Page>, sb: G.SuperBlock, startLba: nat, b: nat)
    requires Whole(view, sb, startLba) && b < sb.totalBlocks
  {
    BitRoom(sb, startLba, 0, b);
    Bit(view[G.BitBlock(sb.bmapStart, b)], G.BitOffset(b))
  }

  lemma InodeRoom(sb: G.SuperBlock, startLba: nat, n: nat)
    requires G.Mounts(sb, startLba) && n < sb.totalInodes
    ensures sb.inodeStart <= G.InodeBlock(sb, n) < sb.inodeStart + sb.inodeBlocks <= sb.firstData < sb.totalBlocks
  {
    hide G.InodeBlock;
    G.InodePlaces(sb, startLba, n, if n == 0 then 1 else 0);
  }

  lemma BitRoom(sb: G.SuperBlock, startLba: nat, n: nat, b: nat)
    requires G.Mounts(sb, startLba) && n < sb.totalInodes && b < sb.totalBlocks
    ensures sb.imapStart <= G.BitBlock(sb.imapStart, n) < sb.imapStart + sb.imapBlocks <= sb.bmapStart
    ensures sb.bmapStart <= G.BitBlock(sb.bmapStart, b) < sb.bmapStart + sb.bmapBlocks <= sb.inodeStart
  {
  }

  /** What the kernel reads from the image is this. */
  ghost predicate Reads(view: seq<Page>, sb: G.SuperBlock, startLba: nat, inodes: seq<Inode>, live: seq<bool>,
                        used: seq<bool>) {
    && Whole(view, sb, startLba) && |inodes| == |live| == sb.totalInodes && |used| == sb.totalBlocks
    && GetSuper(view[1]) == sb
    && (forall n :: 0 <= n < |inodes| ==> InodeAt(view, sb, startLba, n) == inodes[n])
    && (forall n :: 0 <= n < |live| ==> (live[n] <==> InodeBit(view, sb, startLba, n)))
    && (forall b :: 0 <= b < |used| ==> (used[b] <==> BlockBit(view, sb, startLba, b)))
  }

  /** There is only one reading. */
  lemma ReadsOnce(view: seq<Page>, sb: G.SuperBlock, sb': G.SuperBlock, startLba: nat, inodes: seq<Inode>,
                  inodes': seq<Inode>,
                  live: seq<bool>, live': seq<bool>, used: seq<bool>, used': seq<bool>)
    requires Reads(view, sb, startLba, inodes, live, used) && Reads(view, sb', startLba, inodes', live', used')
    ensures sb' == sb && inodes' == inodes && live' == live && used' == used
  {
    hide Whole, InodeAt, InodeBit, BlockBit, GetSuper;
  }

  /** fs_init and the reads that follow: the superblock is tested, and everything else is
      where it says. */
  method Load(view: seq<Page>, startLba: nat)
    returns (ok: bool, sb: G.SuperBlock, inodes: seq<Inode>, live: seq<bool>, used: seq<bool>)
    requires |view| > 1 && (G.Mounts(GetSuper(view[1]), startLba) ==> |view| == GetSuper(view[1]).totalBlocks)
    ensures ok <==> G.Mounts(GetSuper(view[1]), startLba)
    ensures ok ==> Reads(view, sb, startLba, inodes, live, used)
  {
    hide G.Mounts, InodeAt, InodeBit, BlockBit, GetSuper;
    sb, inodes, live, used := GetSuper(view[1]), [], [], [];
    ok := G.Mounts(sb, startLba);
    if ok {
      inodes := seq(sb.totalInodes,
                    n requires 0 <= n < sb.totalInodes && Whole(view, sb, startLba) => InodeAt(view, sb, startLba, n));
      live := seq(sb.totalInodes,
                  n requires 0 <= n < sb.totalInodes && Whole(view, sb, startLba) => InodeBit(view, sb, startLba, n));
      used := seq(sb.totalBlocks,
                  b requires 0 <= b < sb.totalBlocks && Whole(view, sb, startLba) => BlockBit(view, sb, startLba, b));
    }
  }

  // ------------------------------------------------------------------ what mkfs writes

  predicate BitIn(pages: seq<Page>, b: nat) {
    b / BITMAP_BITS < |pages| && Bit(pages[b / BITMAP_BITS], b % BITMAP_BITS)
  }

  /** set_bit on a bitmap of several blocks. */
  function SetBit(pages: seq<Page>, b: nat): seq<Page>
    requires b / BITMAP_BITS < |pages|
  {
    pages[b / BITMAP_BITS := WithBit(pages[b / BITMAP_BITS], b % BITMAP_BITS)]
  }

  lemma SetBitIn(pages: seq<Page>, b: nat, other: nat)
    requires b / BITMAP_BITS < |pages|
    ensures BitIn(SetBit(pages, b), other) <==> other == b || BitIn(pages, other)
  {
    hide Bit, WithBit;
    SameBitPlace(b, other);
    if other / BITMAP_BITS == b / BITMAP_BITS {
      WithBitBits(pages[b / BITMAP_BITS], b % BITMAP_BITS, other % BITMAP_BITS);
    }
  }

  lemma SameBitPlace(b: nat, other: nat)
    ensures b == other <==> b / BITMAP_BITS == other / BITMAP_BITS && b % BITMAP_BITS == other % BITMAP_BITS
  {
  }

  lemma BlankBits(blocks: nat, b: nat)
    ensures !BitIn(seq(blocks, _ => ZeroPage()), b)
  {
    hide Bit, ZeroPage;
    ZeroBits(b % BITMAP_BITS);
  }

  method BitmapPages(bits: seq<bool>, blocks: nat) returns (pages: seq<Page>)
    requires |bits| <= blocks * BITMAP_BITS
    ensures |pages| == blocks && forall b :: 0 <= b < |bits| ==> (BitIn(pages, b) <==> bits[b])
  {
    hide BitIn, SetBit, ZeroPage;
    pages := seq(blocks, _ => ZeroPage());
    forall b: nat ensures !BitIn(pages, b) { BlankBits(blocks, b); }
    for n := 0 to |bits|
      invariant |pages| == blocks && forall b: nat :: BitIn(pages, b) <==> b < n && bits[b]
    {
      if bits[n] {
        BlockFor(n, blocks);
        ghost var before := pages;
        pages := SetBit(pages, n);
        forall b: nat ensures BitIn(pages, b) <==> b == n || BitIn(before, b) { SetBitIn(before, n, b); }
        SetLength(before, n);
      }
    }
  }

  lemma BlockFor(n: nat, blocks: nat)
    requires n < blocks * BITMAP_BITS
    ensures n / BITMAP_BITS < blocks
  {
  }

  lemma SetLength(pages: seq<Page>, b: nat)
    requires b / BITMAP_BITS < |pages|
    ensures |SetBit(pages, b)| == |pages|
  {
  }

  function InodeIn(table: seq<Page>, n: nat): Inode {
    if n / PER_TABLE < |table| then GetInode(table[n / PER_TABLE], n % PER_TABLE) else NoInode()
  }

  lemma PutIn(table: seq<Page>, n: nat, inode: Inode, m: nat)
    requires n / PER_TABLE < |table| && Storable(inode)
    ensures InodeIn(table[n / PER_TABLE := PutInode(table[n / PER_TABLE], n % PER_TABLE, inode)], m) ==
            if m == n then inode else InodeIn(table, m)
  {
    hide GetInode, PutInode;
    SameSlot(n, m);
    if m / PER_TABLE == n / PER_TABLE { PutGetInode(table[n / PER_TABLE], n % PER_TABLE, inode, m % PER_TABLE); }
  }

  lemma SameSlot(n: nat, m: nat)
    ensures n == m <==> n / PER_TABLE == m / PER_TABLE && n % PER_TABLE == m % PER_TABLE
  {
  }

  lemma BlankInode(blocks: nat, n: nat)
    ensures InodeIn(seq(blocks, _ => ZeroPage()), n) == NoInode()
  {
    hide GetInode, ZeroPage, NoInode;
    ZeroInode(n % PER_TABLE);
  }

  /** The inode table: zeros, and the inodes in use. */
  method TablePages(inodes: seq<Inode>, live: seq<bool>, blocks: nat) returns (table: seq<Page>)
    requires |live| == |inodes| <= blocks * PER_TABLE && forall n :: 0 <= n < |inodes| ==> Storable(inodes[n])
    requires forall n :: 0 <= n < |inodes| && !live[n] ==> inodes[n] == NoInode()
    ensures |table| == blocks && forall n :: 0 <= n < |inodes| ==> InodeIn(table, n) == inodes[n]
  {
    hide InodeIn, PutInode, ZeroPage, NoInode, Storable;
    table := seq(blocks, _ => ZeroPage());
    forall n: nat ensures InodeIn(table, n) == NoInode() { BlankInode(blocks, n); }
    for n := 0 to |inodes|
      invariant |table| == blocks && forall m: nat :: InodeIn(table, m) == if m < n then inodes[m] else NoInode()
    {
      if live[n] {
        SlotFor(n, blocks);
        ghost var before := table;
        table := table[n / PER_TABLE := PutInode(table[n / PER_TABLE], n % PER_TABLE, inodes[n])];
        forall m: nat
          ensures InodeIn(table, m) == if m == n then inodes[n] else InodeIn(before, m)
        {
          PutIn(before, n, inodes[n], m);
        }
      }
    }
  }

  lemma SlotFor(n: nat, blocks: nat)
    requires n < blocks * PER_TABLE
    ensures n / PER_TABLE < blocks
  {
  }

  method WriteBlocks(view: seq<Page>, start: nat, blocks: seq<Page>) returns (v: seq<Page>)
    requires start + |blocks| <= |view|
    ensures |v| == |view|
    ensures forall b :: 0 <= b < |v| ==> v[b] == if start <= b < start + |blocks| then blocks[b - start] else view[b]
  {
    v := view;
    for i := 0 to |blocks|
      invariant |v| == |view|
      invariant forall b :: 0 <= b < |v| ==> v[b] == if start <= b < start + i then blocks[b - start] else view[b]
    {
      v := v[start + i := blocks[i]];
    }
  }

  /** What the metadata has to be like for mkfs to store it: fields that fit, nothing in free
      inodes, and all inodes in use within the one block of the inode bitmap that is written. */
  ghost predicate Savable(sb: G.SuperBlock, inodes: seq<Inode>, live: seq<bool>, used: seq<bool>) {
    && Plain(sb) && |inodes| == |live| == sb.totalInodes && |used| == sb.totalBlocks
    && (forall n :: 0 <= n < |inodes| ==> Storable(inodes[n]) && (!live[n] ==> inodes[n] == NoInode()))
    && (forall n :: 0 <= n < |live| && live[n] ==> n < BITMAP_BITS)
  }

  /** The end of main: superblock, the first block of the inode bitmap, the data bitmap and
      the inode table go to their places. The kernel then reads what was meant. */
  method Save(pages: seq<Page>, sb: G.SuperBlock, startLba: nat, inodes: seq<Inode>, live: seq<bool>, used: seq<bool>)
    returns (view: seq<Page>)
    requires Whole(pages, sb, startLba) && Savable(sb, inodes, live, used)
    requires forall b :: 0 <= b < sb.firstData ==> pages[b] == ZeroPage()
    ensures Reads(view, sb, startLba, inodes, live, used)
    ensures |view| == |pages| && forall b :: sb.firstData <= b < |pages| ==> view[b] == pages[b]
  {
    hide G.Mounts, BitIn, InodeIn, Bit, GetInode, Storable, PutWords, GetSuper, ZeroPage, NoInode, InodeBit, BlockBit,
      InodeAt, Fields;
    Places(sb, startLba);
    var inodeMap := BitmapPages(live, sb.imapBlocks);
    var blockMap := BitmapPages(used, sb.bmapBlocks);
    var table := TablePages(inodes, live, sb.inodeBlocks);
    view := pages[1 := PutWords(ZeroPage(), 0, Fields(sb))];
    view := view[sb.imapStart := inodeMap[0]];
    view := WriteBlocks(view, sb.bmapStart, blockMap);
    view := WriteBlocks(view, sb.inodeStart, table);
    PutGetSuper(sb);
    forall n | 0 <= n < |live|
      ensures live[n] <==> InodeBit(view, sb, startLba, n)
    {
      SavedInodeBit(view, sb, startLba, live, inodeMap, n);
    }
    forall b | 0 <= b < |used|
      ensures used[b] <==> BlockBit(view, sb, startLba, b)
    {
      SavedBlockBit(view, sb, startLba, used, blockMap, b);
    }
    forall n | 0 <= n < |inodes|
      ensures InodeAt(view, sb, startLba, n) == inodes[n]
    {
      SavedInode(view, sb, startLba, inodes, table, n);
    }
  }

  lemma Places(sb: G.SuperBlock, startLba: nat)
    requires G.Mounts(sb, startLba)
    ensures 1 < sb.imapStart && 0 < sb.imapBlocks && sb.imapStart + sb.imapBlocks <= sb.bmapStart
    ensures sb.bmapStart + sb.bmapBlocks <= sb.inodeStart
    ensures sb.inodeStart + sb.inodeBlocks <= sb.firstData < sb.totalBlocks
    ensures sb.totalInodes <= sb.imapBlocks * BITMAP_BITS && sb.totalBlocks <= sb.bmapBlocks * BITMAP_BITS
    ensures 1 < sb.totalInodes <= sb.inodeBlocks * PER_TABLE
  {
    G.TableRoom(sb, startLba);
  }

  lemma SavedInodeBit(view: seq<Page>, sb: G.SuperBlock, startLba: nat, live: seq<bool>, inodeMap: seq<Page>, n: nat)
    requires Whole(view, sb, startLba) && |live| == sb.totalInodes && n < |live| && |inodeMap| == sb.imapBlocks > 0
    requires BitIn(inodeMap, n) <==> live[n]
    requires live[n] ==> n < BITMAP_BITS
    requires view[sb.imapStart] == inodeMap[0]
    requires forall b :: sb.imapStart < b < sb.imapStart + sb.imapBlocks && b < |view| ==> view[b] == ZeroPage()
    ensures live[n] <==> InodeBit(view, sb, startLba, n)
  {
    hide Bit, G.Mounts, ZeroPage;
    Places(sb, startLba);
    BitRoom(sb, startLba, n, 0);
    ZeroBits(n % BITMAP_BITS);
    assert n < BITMAP_BITS ==> G.BitBlock(sb.imapStart, n) == sb.imapStart;
  }

  lemma SavedBlockBit(view: seq<Page>, sb: G.SuperBlock, startLba: nat, used: seq<bool>, blockMap: seq<Page>, b: nat)
    requires Whole(view, sb, startLba) && |used| == sb.totalBlocks && b < |used| && |blockMap| == sb.bmapBlocks
    requires BitIn(blockMap, b) <==> used[b]
    requires sb.bmapStart + sb.bmapBlocks <= |view|
    requires forall x :: sb.bmapStart <= x < sb.bmapStart + sb.bmapBlocks ==> view[x] == blockMap[x - sb.bmapStart]
    ensures used[b] <==> BlockBit(view, sb, startLba, b)
  {
    hide Bit, G.Mounts;
    Places(sb, startLba);
    BitRoom(sb, startLba, 0, b);
  }

  lemma SavedInode(view: seq<Page>, sb: G.SuperBlock, startLba: nat, inodes: seq<Inode>, table: seq<Page>, n: nat)
    requires Whole(view, sb, startLba) && |inodes| == sb.totalInodes && n < |inodes| && |table| == sb.inodeBlocks
    requires InodeIn(table, n) == inodes[n]
    requires sb.inodeStart + sb.inodeBlocks <= |view|
    requires forall x :: sb.inodeStart <= x < sb.inodeStart + sb.inodeBlocks ==> view[x] == table[x - sb.inodeStart]
    ensures InodeAt(view, sb, startLba, n) == inodes[n]
  {
    hide GetInode, G.Mounts;
    InodeRoom(sb, startLba, n);
  }
}
