/** Adding an entry to an index block through the block cache (kernel/fs.c): the block is
    looked up, a data block is allocated by lookups of its own, and the entry is stored
    through the pointer kept from the first lookup. */
module CachedIndex {
  import opened Layout
  import opened FileIndex
  import opened Allocation
  import opened BlockCache
  import opened DiskBits

  // --------------------------------------------------------------- blocks and bitmap

  /** The block array holds these data blocks, and their bitmap at `bmap`. */
  ghost predicate Encodes(view: seq<Block>, bmap: nat, first: nat, used: seq<bool>, pages: seq<Page>) {
    && |used| == |pages| == |view| && Sized(view, bmap, first)
    && (forall b :: first <= b < |view| ==> view[b] == pages[b])
    && (forall b :: 0 <= b < |view| ==> (used[b] <==> BitOf(view, bmap, first, b)))
  }

  /** The bitmap lies before the data. */
  predicate Laid(blocks: nat, bmap: nat, first: nat) {
    0 < first <= blocks && (blocks > 0 ==> bmap + (blocks - 1) / BITMAP_BITS < first)
  }

  ghost predicate Sized(view: seq<Block>, bmap: nat, first: nat) {
    Laid(|view|, bmap, first) && forall b :: 0 <= b < |view| ==> |view[b]| == PAGE_SIZE
  }

  function BitmapBlock(bmap: nat, b: nat): nat { bmap + b / BITMAP_BITS }

  ghost predicate BitOf(view: seq<Block>, bmap: nat, first: nat, b: nat)
    requires b < |view| && Sized(view, bmap, first)
  {
    BitmapInside(|view|, bmap, first, b);
    Bit(view[BitmapBlock(bmap, b)], b % BITMAP_BITS)
  }

  lemma BitmapInside(blocks: nat, bmap: nat, first: nat, b: nat)
    requires b < blocks && Laid(blocks, bmap, first)
    ensures bmap <= BitmapBlock(bmap, b) < first
  {
  }

  /** The block array after block `found` has been allocated and zeroed. */
  ghost function Allocated(view: seq<Block>, bmap: nat, first: nat, found: nat): seq<Block>
    requires found < |view| && Sized(view, bmap, first)
  {
    BitmapInside(|view|, bmap, first, found);
    BitTaken(view, bmap, first, found)[found := ZeroPage()]
  }

  /** And after the entry has been stored into block b. */
  ghost function Entered(view: seq<Block>, b: nat, i: nat, found: nat): seq<Block>
    requires b < |view| && |view[b]| == PAGE_SIZE && i < FANOUT && found < 0x1_0000_0000
  {
    view[b := PutWord(view[b], i, found)]
  }

  lemma AllocatedBit(view: seq<Block>, bmap: nat, first: nat, found: nat, b: nat)
    requires found < |view| && Sized(view, bmap, first)
    requires first <= found && b < |view|
    ensures var w := Allocated(view, bmap, first, found);
      && |w| == |view| && Sized(w, bmap, first)
      && (BitOf(w, bmap, first, b) <==> b == found || BitOf(view, bmap, first, b))
  {
    hide Bit, WithBit;
    BitmapInside(|view|, bmap, first, b);
    BitmapInside(|view|, bmap, first, found);
    if BitmapBlock(bmap, b) == BitmapBlock(bmap, found) {
      assert b % BITMAP_BITS == found % BITMAP_BITS <==> b == found;
      WithBitBits(view[BitmapBlock(bmap, found)], found % BITMAP_BITS, b % BITMAP_BITS);
    }
  }

  /** With the entry in its block, the array holds what the walk of the file model makes of
      bitmap and data. */
  lemma EntryEncodes(view: seq<Block>, bmap: nat, first: nat, used: seq<bool>, pages: seq<Page>, block: nat, i: nat,
                     found: nat)
    requires Encodes(view, bmap, first, used, pages) && first <= block < |used| && first <= found < |used|
    requires found != block
    requires i < FANOUT && found < 0x1_0000_0000
    ensures |Allocated(view, bmap, first, found)| == |view| && |Allocated(view, bmap, first, found)[block]| == PAGE_SIZE
    ensures Encodes(Entered(Allocated(view, bmap, first, found), block, i, found), bmap, first, used[found := true],
                    pages[found := ZeroPage()][block := PutWord(pages[block], i, found)])
  {
    hide Encodes, Allocated;
    EncodesFacts(view, bmap, first, used, pages, found);
    AllocatedEncodes(view, bmap, first, used, pages, found);
    EncodesFacts(Allocated(view, bmap, first, found), bmap, first, used[found := true], pages[found := ZeroPage()],
                 block);
    EnteredEncodes(Allocated(view, bmap, first, found), bmap, first, used[found := true], pages[found := ZeroPage()],
                   block, i, found);
  }

  lemma EncodesFacts(view: seq<Block>, bmap: nat, first: nat, used: seq<bool>, pages: seq<Page>, b: nat)
    requires Encodes(view, bmap, first, used, pages) && first <= b < |used|
    ensures |used| == |pages| == |view| && Sized(view, bmap, first) && view[b] == pages[b]
  {
  }

  lemma AllocatedEncodes(view: seq<Block>, bmap: nat, first: nat, used: seq<bool>, pages: seq<Page>, found: nat)
    requires Encodes(view, bmap, first, used, pages) && first <= found < |view|
    ensures |Allocated(view, bmap, first, found)| == |view|
    ensures Encodes(Allocated(view, bmap, first, found), bmap, first, used[found := true], pages[found := ZeroPage()])
  {
    hide Bit, WithBit, BitOf, Allocated;
    AllocatedBit(view, bmap, first, found, found);
    forall b | 0 <= b < |view|
      ensures used[found := true][b] <==> BitOf(Allocated(view, bmap, first, found), bmap, first, b)
    {
      AllocatedBit(view, bmap, first, found, b);
    }
    AllocatedData(view, bmap, first, found);
  }

  lemma EnteredEncodes(view: seq<Block>, bmap: nat, first: nat, used: seq<bool>, pages: seq<Page>, block: nat, i: nat,
                       found: nat)
    requires Encodes(view, bmap, first, used, pages) && first <= block < |view|
    requires i < FANOUT && found < 0x1_0000_0000
    ensures Encodes(Entered(view, block, i, found), bmap, first, used, pages[block := PutWord(pages[block], i, found)])
  {
    hide PutWord, Bit, BitOf;
    var v := Entered(view, block, i, found);
    forall b | 0 <= b < |view| ensures used[b] <==> BitOf(v, bmap, first, b) {
      SameBit(view, v, bmap, first, b, block);
    }
  }

  lemma SameBit(w: seq<Block>, v: seq<Block>, bmap: nat, first: nat, b: nat, block: nat)
    requires Sized(w, bmap, first) && Sized(v, bmap, first)
    requires |v| == |w| && b < |w| && first <= block < |w| && v == w[block := v[block]]
    ensures BitOf(v, bmap, first, b) <==> BitOf(w, bmap, first, b)
  {
    hide Bit;
    BitmapInside(|w|, bmap, first, b);
  }

  lemma AllocatedData(view: seq<Block>, bmap: nat, first: nat, found: nat)
    requires found < |view| && Sized(view, bmap, first) && first <= found
    ensures forall b :: first <= b < |view| ==>
      Allocated(view, bmap, first, found)[b] == if b == found then ZeroPage() else view[b]
  {
    hide WithBit;
    BitmapInside(|view|, bmap, first, found);
  }

  // -------------------------------------------------------------- through the cache

  /** The age counter will not wrap within this many lookups. */
  ghost predicate Ahead(c: Cache, lookups: nat) {
    c.clock + lookups <= AGE_MAX && forall i :: 0 <= i < |c.lines| ==> c.lines[i].age <= c.clock
  }

  lemma AheadStep(c: Cache, b: nat, c': Cache, i: int, lookups: nat)
    requires Step(c, b, c', i) && Ahead(c, lookups + 1)
    ensures Ahead(c', lookups) && c'.clock == c.clock + 1
  {
  }

  lemma NotExhausted(c: Cache, lookups: nat)
    requires Good(c) && Ahead(c, lookups + 1)
    ensures !Exhausted(c)
  {
    assert c.lines[0].age < AGE_MAX;
  }

  /** A block just looked up is the newest. */
  lemma JustUsed(c: Cache, b: nat, c': Cache, i: int)
    requires Good(c) && Step(c, b, c', i) && Ahead(c, 1)
    ensures Newest(c', b, i)
  {
    StepGood(c, b, c', i);
  }

  /** A lookup for writing, of a block that is there. */
  method Look(c: Buffers, block: nat, ghost lookups: nat) returns (i: nat)
    requires c.Valid() && Ahead(c.State(), lookups + 1) && block < |c.view|
    modifies c`clock, c.disk, c.slots
    ensures c.Valid() && c.view == old(c.view) && i < LINES
    ensures Step(old(c.State()), block, c.State(), i) && Ahead(c.State(), lookups)
    ensures c.slots[i].line.valid && c.slots[i].line.block == block && c.slots[i].data == c.view[block]
    ensures Writable(c.slots[..], i)
    ensures forall j :: 0 <= j < LINES && old(Writable(c.slots[..], j)) ==> Writable(c.slots[..], j)
  {
    NotExhausted(c.State(), lookups);
    var k := c.Get(block, true);
    i := k;
    assert c.State().lines[i] == c.slots[i].line;
    AheadStep(old(c.State()), block, c.State(), i, lookups);
  }

  ghost predicate Writable(slots: seq<Slot>, i: int) {
    0 <= i < |slots| && slots[i].line.valid && slots[i].dirty
  }

  /** Lookups of these blocks lead from one state of the lines to another. */
  ghost predicate Trace(cs: seq<Cache>, bs: seq<nat>, at: seq<int>, from: Cache, to: Cache) {
    Run(cs, bs, at) && cs[0] == from && cs[|bs|] == to
  }

  lemma TraceMore(cs: seq<Cache>, bs: seq<nat>, at: seq<int>, from: Cache, to: Cache, b: nat, next: Cache, i: int)
    requires Trace(cs, bs, at, from, to) && Step(to, b, next, i)
    ensures Trace(cs + [next], bs + [b], at + [i], from, next)
  {
    hide Step;
  }

  /** The bitmap blocks of n bits in a row. */
  ghost function Scanned(bmap: nat, first: nat, n: nat): seq<nat> {
    seq(n, k requires 0 <= k < n => bmap + (first + k) / CAPACITY)
  }

  lemma ScannedMore(bmap: nat, first: nat, n: nat)
    ensures Scanned(bmap, first, n + 1) == Scanned(bmap, first, n) + [BitmapBlock(bmap, first + n)]
  {
  }

  lemma ScannedAll(bmap: nat, first: nat, found: nat)
    requires first <= found
    ensures Scanned(bmap, first, found - first + 1) + [found] == AllocLookups(bmap, first, found)
  {
    var scan, all := Scanned(bmap, first, found - first + 1), AllocLookups(bmap, first, found);
    forall k | 0 <= k < |scan| ensures scan[k] == all[k] { }
  }

  ghost predicate AllSet(view: seq<Block>, bmap: nat, first: nat, upto: nat)
    requires Sized(view, bmap, first) && upto <= |view|
  {
    forall b :: first <= b < upto ==> BitOf(view, bmap, first, b)
  }

  /** The first clear bit. */
  ghost predicate FirstClear(view: seq<Block>, bmap: nat, first: nat, found: nat) {
    && Sized(view, bmap, first) && first <= found < |view|
    && AllSet(view, bmap, first, found) && !BitOf(view, bmap, first, found)
  }

  ghost predicate StillWritable(before: seq<Slot>, after: seq<Slot>) {
    forall j :: 0 <= j < LINES && Writable(before, j) ==> Writable(after, j)
  }

  /** bitmap_allocate over the data blocks: the first clear bit, set, or |c.view|. */
  method TakeBit(c: Buffers, bmap: nat, first: nat) returns (bit: nat, ghost cs: seq<Cache>, ghost at: seq<int>)
    requires c.Valid() && Sized(c.view, bmap, first) && Ahead(c.State(), |c.view| - first + 1)
    modifies c, c.disk, c.slots
    ensures c.Valid() && first <= bit <= |old(c.view)| == |c.view|
    ensures bit == |c.view| ==> c.view == old(c.view) && AllSet(c.view, bmap, first, bit)
    ensures bit < |c.view| ==>
      FirstClear(old(c.view), bmap, first, bit) && c.view == BitTaken(old(c.view), bmap, first, bit)
    ensures bit < |c.view| ==>
      Trace(cs, Scanned(bmap, first, bit - first + 1), at, old(c.State()), c.State()) && Ahead(c.State(), 1)
    ensures StillWritable(old(c.slots[..]), c.slots[..])
  {
    hide Step, Bit, WithBit, Trace, Ahead, BitOf;
    bit, cs, at := first, [c.State()], [];
    assert Trace(cs, Scanned(bmap, first, 0), at, old(c.State()), c.State()) by {
      TraceNone(c.State());
      assert Scanned(bmap, first, 0) == [];
    }
    while bit < c.disk.Length
      invariant c.Valid() && c.view == old(c.view) && first <= bit <= |c.view| && Ahead(c.State(), |c.view| - bit + 1)
      invariant AllSet(c.view, bmap, first, bit)
      invariant Trace(cs, Scanned(bmap, first, bit - first), at, old(c.State()), c.State())
      invariant StillWritable(old(c.slots[..]), c.slots[..])
    {
      BitmapInside(|c.view|, bmap, first, bit);
      ghost var s := c.State();
      var j := Look(c, BitmapBlock(bmap, bit), |c.view| - bit);
      TraceMore(cs, Scanned(bmap, first, bit - first), at, old(c.State()), s, BitmapBlock(bmap, bit), c.State(), j);
      ScannedMore(bmap, first, bit - first);
      cs, at := cs + [c.State()], at + [j];
      BitDef(c.view, bmap, first, bit);
      if !Bit(c.slots[j].data, bit % BITMAP_BITS) {
        c.Store(j, WithBit(c.slots[j].data, bit % BITMAP_BITS));
        AheadLess(c.State(), |c.view| - bit, 1);
        return;
      }
      bit := bit + 1;
    }
  }

  ghost function BitTaken(view: seq<Block>, bmap: nat, first: nat, bit: nat): seq<Block>
    requires bit < |view| && Sized(view, bmap, first)
  {
    BitmapInside(|view|, bmap, first, bit);
    view[BitmapBlock(bmap, bit) := WithBit(view[BitmapBlock(bmap, bit)], bit % BITMAP_BITS)]
  }

  lemma BitDef(view: seq<Block>, bmap: nat, first: nat, b: nat)
    requires b < |view| && Sized(view, bmap, first)
    ensures bmap <= BitmapBlock(bmap, b) < first
    ensures BitOf(view, bmap, first, b) <==> Bit(view[BitmapBlock(bmap, b)], b % BITMAP_BITS)
  {
  }

  lemma TraceNone(c: Cache)
    requires Good(c)
    ensures Trace([c], [], [], c, c)
  {
  }

  lemma AheadLess(c: Cache, more: nat, less: nat)
    requires Ahead(c, more) && less <= more
    ensures Ahead(c, less)
  {
  }

  /** alloc_data_block through the cache: the first clear bit is set and its block zeroed.
      A number that does not fit an int comes back negative and is taken for a failure. */
  method Alloc(c: Buffers, bmap: nat, first: nat)
    returns (res: int, ghost found: nat, ghost cs: seq<Cache>, ghost at: seq<int>)
    requires c.Valid() && Sized(c.view, bmap, first) && Ahead(c.State(), |c.view| - first + 1)
    modifies c, c.disk, c.slots
    ensures c.Valid() && first <= found <= |old(c.view)| == |c.view| && StillWritable(old(c.slots[..]), c.slots[..])
    ensures found == |c.view| ==> c.view == old(c.view) && AllSet(c.view, bmap, first, found)
    ensures found < |c.view| ==> FirstClear(old(c.view), bmap, first, found)
    ensures res == if found < |c.view| && found < INT_LIMIT then found else -1
    ensures found < |c.view| && res == -1 ==> c.view == BitTaken(old(c.view), bmap, first, found)
    ensures res != -1 ==> c.view == Allocated(old(c.view), bmap, first, found)
    ensures res != -1 ==> Trace(cs, AllocLookups(bmap, first, found), at, old(c.State()), c.State())
  {
    hide Step, Bit, WithBit, Trace, Ahead, BitOf, AllSet, BitTaken;
    var bit;
    bit, cs, at := TakeBit(c, bmap, first);
    found := bit;
    if bit >= c.disk.Length || bit >= INT_LIMIT { return -1, found, cs, at; }
    ghost var s := c.State();
    var k := Look(c, bit, 0);
    TraceMore(cs, Scanned(bmap, first, bit - first + 1), at, old(c.State()), s, bit, c.State(), k);
    ScannedAll(bmap, first, bit);
    cs, at := cs + [c.State()], at + [k];
    c.Store(k, ZeroPage());
    res := bit;
  }

  /** The pointer kept across an allocation, in the terms of the file model. */
  lemma PointerKept(cs: seq<Cache>, at: seq<int>, from: Cache, to: Cache, blocks: nat, bmap: nat, first: nat,
                    found: nat, b: nat, s: int)
    requires Laid(blocks, bmap, first) && first <= found < blocks && first <= b != found
    requires Trace(cs, AllocLookups(bmap, first, found), at, from, to) && Newest(from, b, s)
    requires Ahead(from, blocks - first + 1)
    ensures HitAt(to, b, s) <==> found < NearLimit(first)
  {
    PointerAcrossAlloc(cs, at, bmap, first, found, b, s);
    NearBlocks(first, found);
  }

  lemma NearBlocks(first: nat, found: nat)
    ensures found < NearLimit(first) <==> found / CAPACITY - first / CAPACITY + 1 <= 14
  {
  }

  lemma Looked(c: Cache, b: nat, c': Cache, i: int, lookups: nat)
    requires Good(c) && Step(c, b, c', i) && Ahead(c, lookups + 1)
    ensures Newest(c', b, i)
  {
    hide Good;
    AheadLess(c, lookups + 1, 1);
    JustUsed(c, b, c', i);
  }

  /** What the search of the bitmap finds is the lowest free block of the file model. */
  lemma Clear(view: seq<Block>, bmap: nat, first: nat, used: seq<bool>, pages: seq<Page>, found: nat)
    requires Encodes(view, bmap, first, used, pages) && first <= found <= |view|
    requires found == |view| ==> AllSet(view, bmap, first, found)
    requires found < |view| ==> FirstClear(view, bmap, first, found)
    ensures Free(used, first) == {} <==> found == |view|
    ensures found < |view| ==> Lowest(used, first, found)
    ensures found < |view| ==> (Reach(used, first, 0, 1, INT_LIMIT) <==> found < INT_LIMIT)
    ensures found < |view| ==> (Reach(used, first, 0, 1, NearLimit(first)) <==> found < NearLimit(first))
  {
    hide BitOf, Reach, NearLimit;
    if found < |view| {
      assert found in Free(used, first);
      ReachFirst(used, first, found, INT_LIMIT);
      ReachFirst(used, first, found, NearLimit(first));
    }
  }

  lemma LandsIn(view: seq<Block>, bmap: nat, first: nat, used: seq<bool>, pages: seq<Page>, found: nat, block: nat)
    requires Encodes(view, bmap, first, used, pages) && first <= found < |view| && first <= block < |view|
    requires found != block
    ensures var w := Allocated(view, bmap, first, found); |w| == |view| && Paged(w) && w[block] == pages[block]
  {
    hide Allocated, BitOf;
    AllocatedBit(view, bmap, first, found, found);
    AllocatedData(view, bmap, first, found);
  }

  ghost predicate Paged(view: seq<Block>) {
    forall b :: 0 <= b < |view| ==> |view[b]| == PAGE_SIZE
  }

  /** A word stored through a line goes to whatever block the line is about by now. */
  method StoreWord(c: Buffers, p: nat, ghost block: nat, i: nat, word: nat) returns (ghost x: nat)
    requires c.Valid() && Paged(c.view) && Writable(c.slots[..], p) && i < FANOUT && word < INT_LIMIT
    modifies c`view, c.slots
    ensures c.Valid() && Into(old(c.view), c.view, x, i, word)
    ensures old(HitAt(c.State(), block, p)) <==> x == block
  {
    x := c.slots[p].line.block;
    LineAt(c.slots[..], c.State(), c.disk[..], c.view, block, p);
    c.Store(p, PutWord(c.slots[p].data, i, word));
  }

  /** The block a line is about, and its bytes. */
  lemma LineAt(slots: seq<Slot>, c: Cache, disk: seq<Block>, view: seq<Block>, block: nat, p: int)
    requires c.lines == Lines(slots) && Represents(slots, disk, view) && Writable(slots, p)
    ensures var x := slots[p].line.block; x < |view| && view[x] == slots[p].data && (HitAt(c, block, p) <==> x == block)
  {
    assert c.lines[p] == slots[p].line;
  }

  /** The entry store of inode_data_block (kernel/fs.c), through the cache: the index block
      is looked up, the data block allocated, and the entry stored through the pointer of the
      lookup. It lands in the index block exactly when the block found lies below the limit;
      otherwise it overwrites a word of another block. */
  method AddEntry(c: Buffers, bmap: nat, first: nat, ghost used: seq<bool>, ghost pages: seq<Page>, block: nat, i: nat)
    returns (res: int, ghost found: nat)
    requires c.Valid() && Encodes(c.view, bmap, first, used, pages) && Ahead(c.State(), |c.view| - first + 2)
    requires first <= block < |used| && used[block] && i < FANOUT
    modifies c, c.disk, c.slots
    ensures c.Valid() && (res == 0 || res == -1)
    ensures res == 0 <==> Free(used, first) != {} && Reach(used, first, 0, 1, INT_LIMIT)
    ensures Free(used, first) == {} ==> c.view == old(c.view)
    ensures Free(used, first) != {} ==> Lowest(used, first, found)
    ensures res == 0 && Reach(used, first, 0, 1, NearLimit(first)) ==>
      Placed(c.view, bmap, first, used, pages, block, i, found)
    ensures res == 0 && !Reach(used, first, 0, 1, NearLimit(first)) ==>
      Misplaced(old(c.view), c.view, bmap, first, pages, block, i, found)
  {
    hide Step, Trace, Ahead, Encodes, Free, Reach, Allocated, HitAt, Newest, PutWord, ZeroPage, NearLimit, BitTaken,
      AllSet, Good;
    ghost var s0 := c.State();
    EncodesFacts(c.view, bmap, first, used, pages, block);
    var p := Look(c, block, |c.view| - first + 1);
    ghost var s1, view := c.State(), c.view;
    Looked(s0, block, s1, p, |c.view| - first + 1);
    var b; ghost var cs, at;
    b, found, cs, at := Alloc(c, bmap, first);
    Clear(view, bmap, first, used, pages, found);
    if b < 0 { return -1, found; }
    PointerKept(cs, at, s1, c.State(), |view|, bmap, first, found, block, p);
    EntryEncodes(view, bmap, first, used, pages, block, i, found);
    LandsIn(view, bmap, first, used, pages, found, block);
    ghost var x := StoreWord(c, p, block, i, b);
    res := 0;
  }

  /** Bitmap and data are those of the file model with the new block in its entry. */
  ghost predicate Placed(view: seq<Block>, bmap: nat, first: nat, used: seq<bool>, pages: seq<Page>, block: nat,
                         i: nat, found: nat) {
    && found < |used| && found < |pages| && block < |pages| && i < FANOUT && found < INT_LIMIT
    && Encodes(view, bmap, first, used[found := true],
        pages[found := ZeroPage()][block := PutWord(pages[block], i, found)])
  }

  /** The word went into another block and the entry is as it was. */
  ghost predicate Misplaced(before: seq<Block>, after: seq<Block>, bmap: nat, first: nat, pages: seq<Page>, block: nat,
                            i: nat, found: nat) {
    && found < |before| && Sized(before, bmap, first) && i < FANOUT && found < INT_LIMIT
    && block < |after| && block < |pages| && after[block] == pages[block]
    && exists x :: Into(Allocated(before, bmap, first, found), after, x, i, found) && x != block
  }

  ghost predicate Into(before: seq<Block>, after: seq<Block>, x: nat, i: nat, found: nat)
    requires i < FANOUT && found < INT_LIMIT
  {
    x < |before| && |before[x]| == PAGE_SIZE && after == Entered(before, x, i, found)
  }

  // ------------------------------------------------------------------ a lost entry

  const FULL := 14   // bitmap blocks without a clear bit

  function FullPage(): Page { seq(PAGE_SIZE, _ => 255) }

  /** The bitmap from block 2 on, the data from 520 on, and only the last block free. */
  function FullDisk(): seq<Page> {
    seq(FULL * BITMAP_BITS + 1, b => FullDiskPage(b))
  }

  function FullDiskPage(b: int): Page { if 2 <= b < 2 + FULL then FullPage() else ZeroPage() }

  function FullBitmap(): seq<bool> { seq(FULL * BITMAP_BITS + 1, b => b < FULL * BITMAP_BITS) }

  lemma FullBit(b: nat)
    requires b <= FULL * BITMAP_BITS && Sized(FullDisk(), 2, 520)
    ensures BitOf(FullDisk(), 2, 520, b) <==> b < FULL * BITMAP_BITS
  {
    hide ByteBit;
    assert FullDisk()[BitmapBlock(2, b)] == if b < FULL * BITMAP_BITS then FullPage() else ZeroPage();
    HighByte(b % BITMAP_BITS % 8);
    NoBits(b % BITMAP_BITS % 8);
  }

  lemma FullEncodes()
    ensures Encodes(FullDisk(), 2, 520, FullBitmap(), FullDisk())
  {
    hide BitOf;
    assert Sized(FullDisk(), 2, 520);
    forall b | 0 <= b < |FullDisk()| ensures FullBitmap()[b] <==> BitOf(FullDisk(), 2, 520, b) { FullBit(b); }
  }

  lemma FullReach()
    ensures Free(FullBitmap(), 520) != {} && Reach(FullBitmap(), 520, 0, 1, INT_LIMIT)
    ensures !Reach(FullBitmap(), 520, 0, 1, NearLimit(520))
  {
    var f := FULL * BITMAP_BITS;
    assert f in Free(FullBitmap(), 520);
    ReachFirst(FullBitmap(), 520, f, INT_LIMIT);
    ReachFirst(FullBitmap(), 520, f, NearLimit(520));
  }

  /** From an empty cache, an entry of index block 600 is to be added and the search for a
      free block passes fifteen bitmap blocks: the call reports success, but the entry is not
      there and a word of another block is overwritten. */
  method EntryLost(i: nat) returns (c: Buffers, res: int, ghost found: nat)
    requires i < FANOUT
    ensures res == 0 && Misplaced(FullDisk(), c.view, 2, 520, FullDisk(), 600, i, found)
  {
    hide Encodes, Misplaced, FullDisk, FullBitmap, Free, Reach;
    FullEncodes();
    FullReach();
    c := new Buffers(FullDisk());
    Untouched(c.slots[..], c.State());
    SixHundred();
    res, found := AddEntry(c, 2, 520, FullBitmap(), FullDisk(), 600, i);
  }

  lemma Untouched(slots: seq<Slot>, c: Cache)
    requires Good(c) && c.lines == Lines(slots) && c.clock == 0 && |slots| == LINES
    requires forall i :: 0 <= i < LINES ==> !slots[i].line.valid
    ensures Ahead(c, |FullDisk()| - 520 + 2)
  {
    forall i | 0 <= i < LINES ensures c.lines[i].age == 0 { assert c.lines[i] == slots[i].line; }
  }

  lemma SixHundred()
    ensures 600 < |FullBitmap()| && FullBitmap()[600]
  {
  }
}
