/** The image builder (tools/mkfs.c): a second implementation of MyFS that lays files out one
    after another, and the round trip through the kernel's reader. */
module Mkfs {
  import opened Layout
  import opened FileIndex
  import opened Files
  import opened Directory
  import opened Allocation
  import Geometry
  import OnDisk

  datatype Input = Input(name: seq<Byte>, bytes: seq<Byte>)

  /** Blocks are handed out in order, so those in use are the ones below `next`. */
  ghost predicate Packed(used: seq<bool>, first: nat, next: nat) {
    first <= next <= |used| && forall b :: first <= b < |used| ==> (used[b] <==> b < next)
  }

  /** Nothing has been written before the first data block. */
  ghost predicate LowKept(before: seq<Page>, after: seq<Page>, first: nat) {
    |after| == |before| && forall b :: 0 <= b < first && b < |before| ==> after[b] == before[b]
  }

  lemma LowPut(pages: seq<Page>, first: nat, b: nat, page: Page)
    requires first <= b < |pages|
    ensures LowKept(pages, pages[b := page], first) && LowKept(pages, pages, first)
  {
  }

  lemma LowTrans(a: seq<Page>, b: seq<Page>, c: seq<Page>, first: nat)
    requires LowKept(a, b, first) && LowKept(b, c, first)
    ensures LowKept(a, c, first)
  {
  }

  lemma LowRefl(pages: seq<Page>, first: nat)
    ensures LowKept(pages, pages, first)
  {
  }

  class Image {
    const first: nat
    var inodes: seq<Inode>
    var live: seq<bool>
    var pages: seq<Page>
    var used: seq<bool>
    var next: nat               // next block to hand out
    var root: Page              // the root directory's block, written last
    ghost var node: map<Place, nat>
    ghost var home: map<nat, Place>

    ghost function View(tops: seq<seq<nat>>): Disk
      reads this`node, this`home, this`pages, this`used
    {
      Disk(node, home, tops, pages, used)
    }

    ghost predicate Valid()
      reads this
    {
      && |live| == |inodes| && ROOT < |inodes| && live[ROOT]
      && (forall i :: 0 <= i < |inodes| ==> |inodes[i].slots| == SLOTS)
      && (forall i :: 0 <= i < |inodes| && live[i] ==> inodes[i].size <= MAX_SIZE)
      && Inv(View(Tops(inodes, live)), first) && Packed(used, first, next) && first < |pages| && Top(ROOT, 0) in node
      && node[Top(ROOT, 0)] == first
    }

    /** An empty image: metadata blocks and the root directory's block in use. */
    constructor (sb: Geometry.SuperBlock)
      requires 0 < sb.firstData && sb.firstData + 1 < sb.totalBlocks <= 0x1_0000_0000 && sb.totalInodes > ROOT
      ensures Valid() && first == sb.firstData && |pages| == sb.totalBlocks && |inodes| == sb.totalInodes
      ensures root == DirPage(ROOT, ROOT)
      ensures |used| == sb.totalBlocks && next == sb.firstData + 1
      ensures forall i :: 0 <= i < |live| ==> (live[i] <==> i == ROOT)
      ensures inodes[ROOT] == Inode(PAGE_SIZE, DIRECTORY, 1, NoSlots()[0 := sb.firstData])
      ensures forall i :: 0 <= i < |inodes| && i != ROOT ==> inodes[i] == NoInode()
      ensures forall b :: 0 <= b < |pages| ==> pages[b] == ZeroPage()
      ensures forall i, k: nat :: 0 <= i ==> Content(View(Tops(inodes, live)), i, k) == 0
    {
      first := sb.firstData;
      pages := seq(sb.totalBlocks, _ => ZeroPage());
      used := seq(sb.totalBlocks, b => b <= sb.firstData);
      var rootInode := Inode(PAGE_SIZE, DIRECTORY, 1, NoSlots()[0 := sb.firstData]);
      inodes := seq(sb.totalInodes, _ => NoInode())[ROOT := rootInode];
      live := seq(sb.totalInodes, i => i == ROOT);
      next := sb.firstData + 1;
      root := DirPage(ROOT, ROOT);
      node, home := map[Top(ROOT, 0) := sb.firstData], map[sb.firstData := Top(ROOT, 0)];
      new;
      EmptyImage(View(Tops(inodes, live)), first);
    }

    /** alloc_image_block; it agrees with the kernel's choice of the lowest free block. */
    method AllocImageBlock() returns (res: int, b: nat)
      requires |used| == |pages| && Packed(used, first, next)
      modifies this`next, this`used, this`pages
      ensures Packed(used, first, next)
      ensures res == -1 <==> old(next) == |old(used)|
      ensures res == -1 || res == 0
      ensures res == -1 ==> next == old(next) && used == old(used) && pages == old(pages)
      ensures res == 0 ==> b == old(next) && next == b + 1 && first <= b < |old(used)| && !old(used)[b]
      ensures res == 0 ==> used == old(used)[b := true] && pages == old(pages)[b := ZeroPage()] && forall c ::
        first <= c < b ==> old(used)[c]
    {
      if next >= |used| { return -1, 0; }
      b := next;
      next := next + 1;
      used := used[b := true];
      pages := pages[b := ZeroPage()];
      return 0, b;
    }

    /** ensure_index_entry. */
    method EnsureIndexEntry(ghost tops: seq<seq<nat>>, ghost p: Place, block: nat, i: nat)
      returns (res: int, value: nat)
      requires Inv(View(tops), first) && Packed(used, first, next) && p in node && node[p] == block && p.Level() >= 1
      requires i < FANOUT
      modifies this`next, this`pages, this`used, this`node, this`home
      ensures Inv(View(tops), first) && Packed(used, first, next) && Grew(old(View(tops)), View(tops), p.Ino())
      ensures res == 0 || res == -1
      ensures res == -1 <==> Below(p, i) !in old(node) && old(next) == |old(used)|
      ensures res == 0 ==> Below(p, i) in node && node[Below(p, i)] == value && |used| == |old(used)|
      ensures res == 0 ==> if Below(p, i) in old(node) then node == old(node) && next == old(next)
                           else node == old(node)[Below(p, i) := value] && next == old(next) + 1
      ensures LowKept(old(pages), pages, first)
    {
      hide Inv, Grew, Word, PutWord, ZeroPage, Packed, LowKept;
      ghost var d := View(tops);
      EntryFacts(d, first, p, i);
      GrewRefl(d, p.Ino());
      LowRefl(pages, first);
      BlockNumber(d, first, p);
      value := Word(pages[block], i);
      if value == 0 {
        var r, b := AllocImageBlock();
        if r != 0 { return -1, 0; }
        GrewEntry(d, first, p, i, b);
        LowPut(d.pages, first, b, ZeroPage());
        LowPut(pages, first, block, PutWord(pages[block], i, b));
        LowTrans(d.pages, pages, pages[block := PutWord(pages[block], i, b)], first);
        pages := pages[block := PutWord(pages[block], i, b)];
        node, home := node[Below(p, i) := b], home[b := Below(p, i)];
        assert View(tops) == AttachEntry(d, p, i, b);
        value := b;
      }
      return 0, value;
    }

    /** The nested calls of inode_data_block, one per index level. */
    method Follow(ghost tops: seq<seq<nat>>, ghost p: Place, block: nat, path: seq<nat>) returns (res: int, b: nat)
      requires Inv(View(tops), first) && Packed(used, first, next) && p in node && node[p] == block
      requires p.Level() == |path|
      requires forall j :: 0 <= j < |path| ==> path[j] < FANOUT
      modifies this`next, this`pages, this`used, this`node, this`home
      ensures Inv(View(tops), first) && Packed(used, first, next) && Grew(old(View(tops)), View(tops), p.Ino())
      ensures res == 0 || res == -1
      ensures res == 0 <==> Missing(old(node), p, path) <= |old(used)| - old(next)
      ensures res == 0 ==> Extend(p, path) in node && node[Extend(p, path)] == b && |used| == |old(used)|
      ensures res == 0 ==>
        next == old(next) + Missing(old(node), p, path) && node.Keys == old(node).Keys + Trail(p, path)
      ensures LowKept(old(pages), pages, first)
      decreases |path|
    {
      hide Inv, Grew, Packed, LowKept;
      ghost var d := View(tops);
      LowRefl(pages, first);
      PackedBound(used, first, next);
      if path == [] {
        GrewRefl(d, p.Ino());
        return 0, block;
      }
      var child;
      res, child := EnsureIndexEntry(tops, p, block, path[0]);
      ghost var q := Below(p, path[0]);
      if res != 0 { return res, 0; }
      OneUp(q, 0);
      if q !in d.node { MissingChild(d, first, q, path[1..], node, child); }
      ghost var e := View(tops);
      res, b := Follow(tops, q, child, path[1..]);
      GrewTrans(d, e, View(tops), p.Ino());
      LowTrans(d.pages, e.pages, pages, first);
    }

    /** inode_data_block of mkfs: same slots and paths as the kernel's. */
    method InodeDataBlock(ghost tops: seq<seq<nat>>, ghost i: nat, inode: Inode, k: nat)
      returns (res: int, b: nat, now: Inode)
      requires i < |tops| && tops[i] == inode.slots && Inv(View(tops), first) && Packed(used, first, next)
      modifies this`next, this`pages, this`used, this`node, this`home
      ensures Inv(View(tops[i := now.slots]), first) && Packed(used, first, next)
      ensures Grew(old(View(tops)), View(tops[i := now.slots]), i) && SlotsGrew(inode, now, k)
      ensures res == 0 || res == -1
      ensures res == 0 <==> k < MAX_BLOCKS && MissingFor(old(node), i, k) <= |old(used)| - old(next)
      ensures res == 0 ==> PosOf(i, k) in node && node[PosOf(i, k)] == b && |used| == |old(used)|
      ensures res == 0 ==>
        next == old(next) + MissingFor(old(node), i, k) && node.Keys == old(node).Keys + TrailOf(i, k)
      ensures LowKept(old(pages), pages, first)
    {
      hide Inv, Grew, ZeroPage, Extend, PathOf, SlotOf, Packed, Missing, Trail, LowKept;
      PackedBound(used, first, next);
      ghost var d := View(tops);
      LowRefl(pages, first);
      GrewRefl(d, i);
      now := inode;
      assert tops[i := now.slots] == tops;
      TopFacts(d, first, i, 0);
      if k >= MAX_BLOCKS { return -1, 0, now; }
      var slot, path := SlotOf(k), PathOf(k);
      PathFacts(k);
      TrailHead(Top(i, slot), path);
      TopFacts(d, first, i, slot);
      var top := inode.slots[slot];
      ghost var p := Top(i, slot);
      if top == 0 {
        var r, n := AllocImageBlock();
        if r != 0 { return -1, 0, now; }
        GrewTop(d, first, i, slot, n);
        LowPut(d.pages, first, n, ZeroPage());
        now := inode.(slots := inode.slots[slot := n]);
        node, home := node[p := n], home[n := p];
        assert View(tops[i := now.slots]) == AttachTop(d, i, slot, n);
        MissingChild(d, first, p, path, node, n);
        top := n;
      }
      ghost var e := View(tops[i := now.slots]);
      res, b := Follow(tops[i := now.slots], p, top, path);
      GrewTrans(d, e, View(tops[i := now.slots]), i);
      LowTrans(d.pages, e.pages, pages, first);
    }

    /** One block of an input: a place for it, then its contents. */
    method CopyBlock(n: nat, k: nat, data: Page) returns (res: int, b: nat, ghost e: Disk)
      requires Valid() && ROOT < n < |inodes| && live[n]
      modifies this`inodes, this`next, this`pages, this`used, this`node, this`home
      ensures res == 0 || res == -1
      ensures res == 0 <==> k < MAX_BLOCKS && MissingFor(old(node), n, k) <= |old(used)| - old(next)
      ensures res == 0 ==>
        next == old(next) + MissingFor(old(node), n, k) && node.Keys == old(node).Keys + TrailOf(n, k)
      ensures res == 0 ==> |used| == |old(used)|
      ensures res == 0 ==> Valid() && |pages| == |old(pages)| && |inodes| == |old(inodes)|
      ensures res == 0 ==> inodes == old(inodes)[n := old(inodes)[n].(slots := inodes[n].slots)]
      ensures res == 0 ==> Inv(e, first) && Grew(old(View(Tops(inodes, live))), e, n) && k < MAX_BLOCKS
      ensures res == 0 ==> PosOf(n, k) in e.node && e.node[PosOf(n, k)] == b < |e.pages|
      ensures res == 0 ==> View(Tops(inodes, live)) == SetData(e, b, data) && LowKept(old(pages), pages, first)
    {
      hide Inv, Packed, SlotsGrew, Grew, PosOf, MissingFor, TrailOf, LowKept;
      ghost var tops := Tops(inodes, live);
      ghost var d := View(tops);
      e := d;
      var now;
      res, b, now := InodeDataBlock(tops, n, inodes[n], k);
      if res != 0 { return; }
      e := View(tops[n := now.slots]);
      GrownInode(d, e, first, inodes[n], now, n, k, b);
      inodes := inodes[n := now];
      assert Tops(inodes, live) == tops[n := now.slots];
      BlockNumber(e, first, PosOf(n, k));
      LowPut(pages, first, b, data);
      LowTrans(d.pages, pages, pages[b := data], first);
      pages := pages[b := data];
      assert View(Tops(inodes, live)) == SetData(e, b, data);
    }

    /** The copying loop of main for one input. The count left is cut to 32 bits before it
        is compared with a block, so an input of 4 GiB or more is never finished. */
    method CopyInput(n: nat, bytes: seq<Byte>) returns (ok: bool)
      requires Valid() && ROOT < n < |inodes| && live[n] && inodes[n].size == |bytes| <= MAX_SIZE
      requires forall k: nat :: Content(View(Tops(inodes, live)), n, k) == 0
      modifies this`inodes, this`next, this`pages, this`used, this`node, this`home
      ensures ok ==> |bytes| < 0x1_0000_0000 && Valid() && |pages| == |old(pages)|
      ensures ok ==> |inodes| == |old(inodes)| && inodes == old(inodes)[n := old(inodes)[n].(slots := inodes[n].slots)]
      ensures ok ==> Wrote(old(View(Tops(inodes, live))), View(Tops(inodes, live)), n, 0, bytes)
      ensures |bytes| < 0x1_0000_0000 ==> (ok <==> Enough(old(View(Tops(inodes, live))), first, n, 0, |bytes|))
      ensures ok ==>
        |used| == |old(used)| && Charged(old(View(Tops(inodes, live))), first, node, used, n, 0, BlocksTo(0, |bytes|))
      ensures ok ==> LowKept(old(pages), pages, first)
    {
      hide Inv, Wrote, Packed, Grew, Content, PosOf, SetData, Tops, Free, MissingFor, TrailOf, Charged, Enough,
        BlocksTo, LowKept;
      LowRefl(pages, first);
      var read, k := 0, 0;
      ghost var d0 := View(Tops(inodes, live));
      ghost var small := |bytes| < 0x1_0000_0000;
      WroteSame(d0, n, 0, bytes);
      BlocksToBound(0, |bytes|);
      ChargeNone(d0, first, n, 0);
      while read < |bytes|
        invariant Valid() && 0 <= k <= MAX_BLOCKS && 0 <= read <= |bytes| && |pages| == |old(pages)|
        invariant |inodes| == |old(inodes)| && inodes == old(inodes)[n := old(inodes)[n].(slots := inodes[n].slots)]
        invariant small ==>
          (read == k * PAGE_SIZE || read == |bytes|) && Wrote(d0, View(Tops(inodes, live)), n, 0, bytes[..read])
        invariant !small ==> |bytes| - read >= 0x1_0000_0000
        invariant LowKept(old(pages), pages, first)
        invariant small ==> k == BlocksTo(0, read) && Charged(d0, first, node, used, n, 0, k) && |used| == |old(used)|
        decreases MAX_BLOCKS - k
      {
        var want := (|bytes| - read) % 0x1_0000_0000;
        if want > PAGE_SIZE { want := PAGE_SIZE; }
        Remaining(|bytes| - read, want);
        var data := Padding(bytes[read..read + want]);
        ghost var d := View(Tops(inodes, live));
        PackedFree(used, first, next);
        if small { BlockByBlock(k, read, want, |bytes|); }
        var res, b; ghost var e;
        res, b, e := CopyBlock(n, k, data);
        if res != 0 {
          if small { ChargeFails(d0, first, d, n, 0, |bytes|, k); }
          return false;
        }
        PackedFree(used, first, next);
        LowTrans(old(pages), d.pages, pages, first);
        if small {
          ChargeStep(d0, first, d, node, used, n, 0, k);
          BlockWritten(d0, d, e, first, n, k, bytes, read, want, b, data);
        }
        read := read + want;
        k := k + 1;
      }
      assert bytes[..read] == bytes;
      if small { ChargeDone(d0, first, node, used, n, 0, |bytes|); }
      return true;
    }

    /** One round of main's loop over the inputs. */
    method AddFile(index: nat, input: Input) returns (ok: bool)
      requires Valid() && (index + 2 < |live| ==> !live[index + 2]) && |inodes| <= 0x1_0000_0000
      modifies this`inodes, this`live, this`next, this`pages, this`used, this`root, this`node, this`home
      ensures ok ==>
        Valid() && index + 2 < |inodes| == |old(inodes)| && index + 2 < PER_BLOCK && |input.name| < NAME_MAX
      ensures ok ==> |input.bytes| < 0x1_0000_0000 && |pages| == |old(pages)|
      ensures ok ==>
        live == old(live)[index + 2 := true] && root == PutRecord(old(root), index + 2, index + 2, input.name)
      ensures ok ==> inodes == old(inodes)[index + 2 := inodes[index + 2]]
      ensures ok ==>
        inodes[index + 2].size == |input.bytes| && inodes[index + 2].kind == FILE && inodes[index + 2].links == 1
      ensures ok ==> Wrote(old(View(Tops(inodes, live))), View(Tops(inodes, live)), index + 2, 0, input.bytes)
      ensures ok <==>
        Acceptable(input, index, |old(inodes)|) && Need(index + 2, |input.bytes|) <= |old(used)| - old(next)
      ensures ok ==> next == old(next) + Need(index + 2, |input.bytes|) && |used| == |old(used)|
      ensures ok ==> LowKept(old(pages), pages, first)
    {
      hide Inv, Wrote, Packed, Content, PutRecord, Enough, Charged, Need, BlocksTo, LowKept;
      var n := index + 2;
      if |input.name| >= NAME_MAX || n >= |inodes| || n >= PER_BLOCK { return false; }
      if |input.bytes| > MAX_SIZE { return false; }
      ghost var tops := Tops(inodes, live);
      NothingYet(View(tops), first, n);
      inodes, live := inodes[n := Inode(|input.bytes|, FILE, 1, NoSlots())], live[n := true];
      assert Tops(inodes, live) == tops;
      root := PutRecord(root, n, n, input.name);
      ghost var d := View(tops);
      if |input.bytes| < 0x1_0000_0000 { NewFileFits(d, first, n, |input.bytes|, next); }
      ok := CopyInput(n, input.bytes);
      if ok { NewFileTook(d, first, n, |input.bytes|, old(next), node, used, next); }
    }

    /** The last write: the root directory. */
    method Finish()
      requires Valid()
      modifies this`pages
      ensures Valid() && |pages| == |old(pages)| && DataAt(View(Tops(inodes, live)), Top(ROOT, 0)) == root
      ensures forall j: nat, k: nat :: j != ROOT ==>
        Content(View(Tops(inodes, live)), j, k) == old(Content(View(Tops(inodes, live)), j, k))
      ensures LowKept(old(pages), pages, first)
    {
      hide Inv, Content, Packed, LowKept;
      LowPut(pages, first, first, root);
      ghost var d := View(Tops(inodes, live));
      RootWritten(d, first, root);
      pages := pages[first := root];
      assert View(Tops(inodes, live)) == SetData(d, first, root);
    }
  }

  /** The input fits the tables: a short name, an inode, a record in the one root block, and
      a size below 4 GiB. */
  predicate Acceptable(input: Input, index: nat, inodes: nat) {
    |input.name| < NAME_MAX && index + 2 < inodes && index + 2 < PER_BLOCK && |input.bytes| < 0x1_0000_0000
  }

  // ------------------------------------------------------------- facts about copying

  function Padding(chunk: seq<Byte>): Page
    requires |chunk| <= PAGE_SIZE
  {
    chunk + ZeroPage()[|chunk|..]
  }

  /** Cutting to 32 bits loses nothing below 4 GiB, and above it never lets the count fall
      below 4 GiB. */
  lemma Remaining(left: nat, want: nat)
    requires left > 0 && want == (if left % 0x1_0000_0000 > PAGE_SIZE then PAGE_SIZE else left % 0x1_0000_0000)
    ensures left < 0x1_0000_0000 ==> want == if left > PAGE_SIZE then PAGE_SIZE else left
    ensures left >= 0x1_0000_0000 ==> left - want >= 0x1_0000_0000
    ensures want <= left
  {
  }

  /** Block k is the one behind those done. */
  lemma BlockByBlock(k: nat, read: nat, want: nat, size: nat)
    requires read == k * PAGE_SIZE && read < size < 0x1_0000_0000
    requires want == if size - read > PAGE_SIZE then PAGE_SIZE else size - read
    ensures k < MAX_BLOCKS && k < BlocksTo(0, size) && BlocksTo(0, read + want) == k + 1
  {
  }

  lemma PackedBound(used: seq<bool>, first: nat, next: nat)
    requires Packed(used, first, next)
    ensures first <= next <= |used|
  {
  }

  lemma {:induction false} PackedFree(used: seq<bool>, first: nat, next: nat)
    requires Packed(used, first, next)
    ensures |Free(used, first)| == |used| - next
    decreases |used| - next
  {
    if next < |used| {
      PackedFree(used[next := true], first, next + 1);
      FreeTaken(used, first, next);
    } else {
      assert Free(used, first) == {};
    }
  }

  /** The blocks a new file of this size takes, index blocks included. */
  ghost function Need(i: nat, size: nat): nat {
    if BlocksTo(0, size) <= MAX_BLOCKS then |Trails(i, 0, BlocksTo(0, size))| else 0
  }

  /** Nothing of a new file is there yet. */
  lemma {:induction false} NewTrails(d: Disk, first: nat, n: nat, hi: nat)
    requires Inv(d, first) && n < |d.tops| && d.tops[n] == NoSlots() && hi <= MAX_BLOCKS
    ensures Trails(n, 0, hi) - d.node.Keys == Trails(n, 0, hi)
    decreases hi
  {
    hide Trail, PathOf, SlotOf, Linked, Rooted, Placed, Mapped;
    if hi > 0 {
      NewTrails(d, first, n, hi - 1);
      PathFacts(hi - 1);
      TopFacts(d, first, n, SlotOf(hi - 1));
      TrailAbsent(d, Top(n, SlotOf(hi - 1)), PathOf(hi - 1));
    }
  }

  lemma NewFileFits(d: Disk, first: nat, n: nat, size: nat, next: nat)
    requires Inv(d, first) && n < |d.tops| && d.tops[n] == NoSlots() && size < 0x1_0000_0000
    requires Packed(d.used, first, next)
    ensures Enough(d, first, n, 0, size) <==> Need(n, size) <= |d.used| - next
  {
    hide Inv, Trails, Free, BlocksTo, Packed;
    BlocksToBound(0, size);
    NewTrails(d, first, n, BlocksTo(0, size));
    PackedFree(d.used, first, next);
  }

  lemma NewFileTook(d: Disk, first: nat, n: nat, size: nat, next: nat, node: map<Place, nat>, used: seq<bool>,
                    next': nat)
    requires Inv(d, first) && n < |d.tops| && d.tops[n] == NoSlots() && Packed(d.used, first, next)
    requires Packed(used, first, next')
    requires Charged(d, first, node, used, n, 0, BlocksTo(0, size)) && |used| == |d.used|
    ensures next' == next + Need(n, size)
  {
    hide Inv, Trails, Free, BlocksTo, Packed;
    NewTrails(d, first, n, BlocksTo(0, size));
    PackedFree(d.used, first, next);
    PackedFree(used, first, next');
  }

  /** After the walk the inode and the tree agree, and the root is where it was. */
  lemma GrownInode(d: Disk, e: Disk, first: nat, inode: Inode, now: Inode, n: nat, k: nat, b: nat)
    requires Inv(e, first) && Grew(d, e, n) && SlotsGrew(inode, now, k) && k < MAX_BLOCKS && n != ROOT
    requires PosOf(n, k) in e.node && e.node[PosOf(n, k)] == b
    ensures now == inode.(slots := now.slots) && |now.slots| == SLOTS && b < |e.pages| == |d.pages|
    ensures |e.used| == |d.used|
    ensures Top(ROOT, 0) in d.node ==> Top(ROOT, 0) in e.node && e.node[Top(ROOT, 0)] == d.node[Top(ROOT, 0)]
    ensures forall page: Page :: Inv(SetData(e, b, page), first)
  {
    hide Linked, Rooted, Mapped, PosOf, SetData, SameData;
    BlockNumber(e, first, PosOf(n, k));
    PosOfIndex(n, k, n + 1);
    forall page: Page ensures Inv(SetData(e, b, page), first) { SetDataKeeps(e, first, b, page); }
  }

  lemma BlockWritten(d0: Disk, d: Disk, e: Disk, first: nat, n: nat, k: nat, bytes: seq<Byte>, read: nat, want: nat,
                     b: nat, data: Page)
    requires Inv(e, first) && Grew(d, e, n) && k < MAX_BLOCKS && PosOf(n, k) in e.node
    requires e.node[PosOf(n, k)] == b < |e.pages|
    requires read == k * PAGE_SIZE && 0 < want <= PAGE_SIZE && read + want <= |bytes|
    requires data == Padding(bytes[read..read + want])
    requires Wrote(d0, d, n, 0, bytes[..read]) && forall j: nat :: Content(d0, n, j) == 0
    ensures Wrote(d0, SetData(e, b, data), n, 0, bytes[..read + want])
  {
    hide Inv, Wrote, Grew, PosOf, SetData, Content;
    var chunk := bytes[read..read + want];
    WroteNothing(d, e, n, read);
    BlockNumber(e, first, PosOf(n, k));
    BlankBefore(d0, d, e, first, n, k, bytes, read, b);
    assert read / PAGE_SIZE == k && read % PAGE_SIZE == 0;
    ChunkWritten(d, e, first, n, read, chunk, b);
    PaddingIs(chunk);
    WroteTrans(d0, d, SetData(e, b, data), n, 0, bytes[..read], chunk);
    assert bytes[..read] + chunk == bytes[..read + want];
  }

  lemma PaddingIs(chunk: seq<Byte>)
    requires |chunk| <= PAGE_SIZE
    ensures Splice(ZeroPage(), 0, chunk) == Padding(chunk)
  {
  }

  /** The block just had for index k holds zeros. */
  lemma BlankBefore(d0: Disk, d: Disk, e: Disk, first: nat, n: nat, k: nat, bytes: seq<Byte>, read: nat, b: nat)
    requires Inv(e, first) && k < MAX_BLOCKS && PosOf(n, k) in e.node && e.node[PosOf(n, k)] == b < |e.pages|
    requires read == k * PAGE_SIZE && read <= |bytes| && Wrote(d0, d, n, 0, bytes[..read]) && Wrote(d, e, n, read, [])
    requires forall j: nat :: Content(d0, n, j) == 0
    ensures e.pages[b] == ZeroPage()
  {
    hide Inv, PosOf, ZeroPage;
    forall x | 0 <= x < PAGE_SIZE ensures e.pages[b][x] == ZeroPage()[x] {
      assert (read + x) / PAGE_SIZE == k && (read + x) % PAGE_SIZE == x;
      assert Content(e, n, read + x) == Overlay(Content(d, n, read + x), n == n, read + x, read, []);
      assert Content(d, n, read + x) == Overlay(Content(d0, n, read + x), n == n, read + x, 0, bytes[..read]);
      ZeroByte(x);
    }
  }

  lemma RootWritten(d: Disk, first: nat, page: Page)
    requires Inv(d, first) && Top(ROOT, 0) in d.node && d.node[Top(ROOT, 0)] == first
    ensures first < |d.pages| && Inv(SetData(d, first, page), first)
    ensures DataAt(SetData(d, first, page), Top(ROOT, 0)) == page
    ensures forall j: nat, k: nat :: j != ROOT ==> Content(SetData(d, first, page), j, k) == Content(d, j, k)
  {
    hide Inv, PosOf, SetData, DataAt;
    BlockNumber(d, first, Top(ROOT, 0));
    assert Top(ROOT, 0).Level() == 0;
    SetDataKeeps(d, first, first, page);
    SetDataAt(d, first, first, page, Top(ROOT, 0));
    forall j: nat, k: nat | j != ROOT ensures Content(SetData(d, first, page), j, k) == Content(d, j, k) {
      if k / PAGE_SIZE < MAX_BLOCKS {
        PosOfIndex(j, k / PAGE_SIZE, j + 1);
        SetDataAt(d, first, first, page, PosOf(j, k / PAGE_SIZE));
      }
    }
  }

  lemma EmptyImage(d: Disk, first: nat)
    requires 0 < first < |d.pages| == |d.used| <= 0x1_0000_0000 && ROOT < |d.tops|
    requires d.node == map[Top(ROOT, 0) := first] && d.home == map[first := Top(ROOT, 0)]
    requires forall i :: 0 <= i < |d.tops| ==> d.tops[i] == if i == ROOT then NoSlots()[0 := first] else NoSlots()
    requires (forall b :: 0 <= b < |d.pages| ==> d.pages[b] == ZeroPage())
    requires (forall b :: 0 <= b < |d.used| ==> d.used[b] == (b <= first))
    ensures Inv(d, first) && forall i, k: nat :: 0 <= i ==> Content(d, i, k) == 0
  {
    hide ZeroPage, PosOf;
    ZeroWords();
    forall i, s | 0 <= i < |d.tops| && 0 <= s < SLOTS ensures RootedAt(d, i, s) { }
    assert Top(ROOT, 0).Level() == 0;
    forall i: nat, k: nat ensures Content(d, i, k) == 0 { ZeroByte(k % PAGE_SIZE); }
  }

  // -------------------------------------------------------------------- round trip

  /** Names that files can have. */
  predicate Named(inputs: seq<Input>) {
    && (forall i :: 0 <= i < |inputs| ==> Proper(inputs[i].name) && |inputs[i].name| > 0)
    && (forall i :: 0 <= i < |inputs| ==> inputs[i].name != Dot() && inputs[i].name != DotDot())
  }

  /** The first input of the same name as input i, looking from k on. */
  function FirstNamed(inputs: seq<Input>, i: nat, k: nat): (j: nat)
    requires k <= i < |inputs|
    ensures k <= j <= i && inputs[j].name == inputs[i].name
    ensures forall l :: k <= l < j ==> inputs[l].name != inputs[i].name
    decreases i - k
  {
    if k == i || inputs[k].name == inputs[i].name then k else FirstNamed(inputs, i, k + 1)
  }

  /** The root directory's block after the first m inputs. */
  ghost function RootPage(inputs: seq<Input>, m: nat): Page
    requires m <= |inputs|
  {
    if m == 0 then DirPage(ROOT, ROOT)
    else if m + 1 < PER_BLOCK && |inputs[m - 1].name| < NAME_MAX then
      PutRecord(RootPage(inputs, m - 1), m + 1, m + 1, inputs[m - 1].name)
    else RootPage(inputs, m - 1)
  }

  lemma {:induction false} RootMatches(inputs: seq<Input>, m: nat, e: nat, name: seq<Byte>)
    requires Named(inputs) && m <= |inputs| && m + 1 < PER_BLOCK
    requires (forall i :: 0 <= i < m ==> |inputs[i].name| < NAME_MAX)
    requires e < PER_BLOCK && Proper(name)
    ensures Matches(RootPage(inputs, m), e, name) <==>
      (e == 0 && name == Dot()) || (e == 1 && name == DotDot()) || (2 <= e < m + 2 && name == inputs[e - 2].name)
  {
    hide Matches, PutRecord, Word;
    if m == 0 {
      FirstRecords(e, name);
    } else {
      RootMatches(inputs, m - 1, e, name);
      PutRecordMatches(RootPage(inputs, m - 1), m + 1, m + 1, inputs[m - 1].name, e, name);
    }
  }

  lemma FirstRecords(e: nat, name: seq<Byte>)
    requires e < PER_BLOCK && Proper(name)
    ensures Matches(DirPage(ROOT, ROOT), e, name) <==> (e == 0 && name == Dot()) || (e == 1 && name == DotDot())
  {
    hide Matches, PutRecord, Word, ZeroPage;
    var p := PutRecord(ZeroPage(), 0, ROOT, Dot());
    PutRecordMatches(p, 1, ROOT, DotDot(), e, name);
    PutRecordMatches(ZeroPage(), 0, ROOT, Dot(), e, name);
    BlankRecord(e, name);
  }

  lemma {:induction false} RootWord(inputs: seq<Input>, m: nat, i: nat)
    requires i < m <= |inputs| && m + 1 < PER_BLOCK && (forall j :: 0 <= j < m ==> |inputs[j].name| < NAME_MAX)
    ensures Word(RootPage(inputs, m), 16 * (i + 2)) == i + 2
  {
    hide PutRecord, Word;
    PutRecordWord(RootPage(inputs, m - 1), m + 1, m + 1, inputs[m - 1].name, i + 2);
    if i < m - 1 { RootWord(inputs, m - 1, i); }
  }

  /** The first m inputs are in the image. */
  ghost predicate Holds(d: Disk, inodes: seq<Inode>, live: seq<bool>, inputs: seq<Input>, m: nat) {
    && m <= |inputs| && m + 2 <= |inodes| == |live|
    && (forall i :: 0 <= i < m ==> Stored(d, inodes[i + 2], i + 2, inputs[i].bytes))
    && (forall i :: 0 <= i < |live| ==> (live[i] <==> 0 < i < m + 2))
    && (forall i: nat, k: nat :: i >= m + 2 ==> Content(d, i, k) == 0)
  }

  ghost predicate Stored(d: Disk, inode: Inode, n: nat, bytes: seq<Byte>) {
    && inode.kind == FILE && inode.size == |bytes| < 0x1_0000_0000 && inode.links == 1
    && forall k: nat :: Content(d, n, k) == ByteAt(bytes, k)
  }

  lemma HoldsMore(d: Disk, g: Disk, inodes: seq<Inode>, inodes': seq<Inode>, live: seq<bool>, inputs: seq<Input>,
                  m: nat)
    requires Holds(d, inodes, live, inputs, m) && m < |inputs| && m + 2 < |inodes'| == |inodes|
    requires inodes' == inodes[m + 2 := inodes'[m + 2]] && Wrote(d, g, m + 2, 0, inputs[m].bytes)
    requires inodes'[m + 2].size == |inputs[m].bytes| < 0x1_0000_0000 && inodes'[m + 2].kind == FILE
    requires inodes'[m + 2].links == 1
    ensures Holds(g, inodes', live[m + 2 := true], inputs, m + 1)
  {
    hide Content;
    forall i | 0 <= i < m + 1 ensures Stored(g, inodes'[i + 2], i + 2, inputs[i].bytes) {
      if i < m { assert Stored(d, inodes[i + 2], i + 2, inputs[i].bytes); }
      forall k: nat ensures Content(g, i + 2, k) == ByteAt(inputs[i].bytes, k) {
        assert Content(g, i + 2, k) == Overlay(Content(d, i + 2, k), i + 2 == m + 2, k, 0, inputs[m].bytes);
      }
    }
    forall i: nat, k: nat | i >= m + 3 ensures Content(g, i, k) == 0 {
      assert Content(g, i, k) == Overlay(Content(d, i, k), i == m + 2, k, 0, inputs[m].bytes);
    }
  }

  /** The blocks the first m inputs take. */
  ghost function Needs(inputs: seq<Input>, m: nat): nat
    requires m <= |inputs|
  {
    if m == 0 then 0 else Needs(inputs, m - 1) + Need(m + 1, |inputs[m - 1].bytes|)
  }

  lemma {:induction false} NeedsMore(inputs: seq<Input>, m: nat, n: nat)
    requires m <= n <= |inputs|
    ensures Needs(inputs, m) <= Needs(inputs, n)
    decreases n - m
  {
    if m < n { NeedsMore(inputs, m, n - 1); }
  }

  /** What mkfs can put on a disk: every input fits the tables, and all their blocks, index
      blocks included, fit behind the root directory's. */
  ghost predicate Buildable(sb: Geometry.SuperBlock, inputs: seq<Input>) {
    && (forall i :: 0 <= i < |inputs| ==> Acceptable(inputs[i], i, sb.totalInodes))
    && sb.firstData + 1 + Needs(inputs, |inputs|) <= sb.totalBlocks
  }

  ghost predicate Sparse(pages: seq<Page>, first: nat) {
    first <= |pages| && forall b :: 0 <= b < first ==> pages[b] == ZeroPage()
  }

  lemma SparseStill(before: seq<Page>, after: seq<Page>, first: nat)
    requires Sparse(before, first) && LowKept(before, after, first)
    ensures Sparse(after, first)
  {
  }

  /** main: the image with all inputs, or failure. */
  method Build(sb: Geometry.SuperBlock, inputs: seq<Input>) returns (ok: bool, img: Image)
    requires 0 < sb.firstData && sb.firstData + 1 < sb.totalBlocks <= 0x1_0000_0000
    requires ROOT < sb.totalInodes <= 0x1_0000_0000
    ensures fresh(img) && (ok ==> img.Valid())
    ensures ok <==> Buildable(sb, inputs)
    ensures ok ==> Holds(img.View(Tops(img.inodes, img.live)), img.inodes, img.live, inputs, |inputs|)
    ensures ok ==> |inputs| + 1 < PER_BLOCK && forall i :: 0 <= i < |inputs| ==> |inputs[i].name| < NAME_MAX
    ensures ok ==> DataAt(img.View(Tops(img.inodes, img.live)), Top(ROOT, 0)) == RootPage(inputs, |inputs|)
    ensures ok ==> img.inodes[ROOT] == Inode(PAGE_SIZE, DIRECTORY, 1, NoSlots()[0 := img.first])
    ensures ok ==>
      img.first == sb.firstData && |img.inodes| == sb.totalInodes && |img.pages| == |img.used| == sb.totalBlocks
    ensures ok ==>
      (forall n :: 0 <= n < |img.inodes| && !img.live[n] ==> img.inodes[n] == NoInode()) && Sparse(img.pages, img.first)
  {
    hide Inv, Wrote, Packed, Content, PutRecord, DirPage, Need, LowKept, ZeroPage;
    img := new Image(sb);
    assert Holds(img.View(Tops(img.inodes, img.live)), img.inodes, img.live, inputs, 0);
    ok := true;
    for m := 0 to |inputs|
      invariant fresh(img) && img.Valid() && |img.inodes| <= 0x1_0000_0000
      invariant Holds(img.View(Tops(img.inodes, img.live)), img.inodes, img.live, inputs, m)
      invariant (m > 0 ==> m + 1 < PER_BLOCK) && forall i :: 0 <= i < m ==> |inputs[i].name| < NAME_MAX
      invariant |img.inodes| == sb.totalInodes && |img.used| == sb.totalBlocks
      invariant img.next == sb.firstData + 1 + Needs(inputs, m)
      invariant img.next <= sb.totalBlocks && forall i :: 0 <= i < m ==> Acceptable(inputs[i], i, sb.totalInodes)
      invariant img.root == RootPage(inputs, m)
      invariant img.inodes[ROOT] == Inode(PAGE_SIZE, DIRECTORY, 1, NoSlots()[0 := img.first])
      invariant img.first == sb.firstData && |img.pages| == sb.totalBlocks && Sparse(img.pages, img.first)
      invariant forall n :: 0 <= n < |img.inodes| && !img.live[n] ==> img.inodes[n] == NoInode()
    {
      ghost var d, nodes, lv := img.View(Tops(img.inodes, img.live)), img.inodes, img.live;
      ghost var low := img.pages;
      ok := img.AddFile(m, inputs[m]);
      if !ok {
        NeedsMore(inputs, m + 1, |inputs|);
        return;
      }
      SparseStill(low, img.pages, img.first);
      HoldsMore(d, img.View(Tops(img.inodes, img.live)), nodes, img.inodes, lv, inputs, m);
    }
    ghost var d := img.View(Tops(img.inodes, img.live));
    img.Finish();
    SparseStill(d.pages, img.pages, img.first);
    HoldsStill(d, img.View(Tops(img.inodes, img.live)), img.inodes, img.live, inputs, |inputs|);
  }

  lemma HoldsStill(d: Disk, g: Disk, inodes: seq<Inode>, live: seq<bool>, inputs: seq<Input>, m: nat)
    requires Holds(d, inodes, live, inputs, m)
    requires forall j: nat, k: nat :: j != ROOT ==> Content(g, j, k) == Content(d, j, k)
    ensures Holds(g, inodes, live, inputs, m)
  {
    hide Content;
    forall i | 0 <= i < m ensures Stored(g, inodes[i + 2], i + 2, inputs[i].bytes) {
      assert Stored(d, inodes[i + 2], i + 2, inputs[i].bytes);
    }
    forall i: nat, k: nat | i >= m + 2 ensures Content(g, i, k) == 0 { assert Content(g, i, k) == Content(d, i, k); }
  }

  /** What dir_find on the mounted image returns for the name of input i. */
  lemma FoundInput(d: Disk, first: nat, inputs: seq<Input>, i: nat, ino: nat, block: nat, e: nat)
    requires Named(inputs) && i < |inputs| && |inputs| + 1 < PER_BLOCK
    requires (forall j :: 0 <= j < |inputs| ==> |inputs[j].name| < NAME_MAX)
    requires DataAt(d, Top(ROOT, 0)) == RootPage(inputs, |inputs|)
    ensures !NoMatch(d, ROOT, PER_BLOCK, inputs[i].name)
    ensures FoundAt(d, ROOT, inputs[i].name, ino, block, e) ==> ino == FirstNamed(inputs, i, 0) + 2
  {
    hide Matches, Word, DataAt, RootPage, PosOf;
    var name, page := inputs[i].name, RootPage(inputs, |inputs|);
    PosShape(ROOT, 0);
    RootMatches(inputs, |inputs|, i + 2, name);
    assert (i + 2) / PER_BLOCK == 0 && (i + 2) % PER_BLOCK == i + 2;
    assert RecordMatches(d, ROOT, i + 2, name);
    if FoundAt(d, ROOT, name, ino, block, e) {
      FirstMatch(d, inputs, i, ino, block, e);
    }
  }

  /** The records of the root directory before the first of the name have other names. */
  lemma FirstRecord(inputs: seq<Input>, i: nat, e: nat)
    requires Named(inputs) && i < |inputs| && |inputs| + 1 < PER_BLOCK
    requires (forall j :: 0 <= j < |inputs| ==> |inputs[j].name| < NAME_MAX)
    requires e < PER_BLOCK && Matches(RootPage(inputs, |inputs|), e, inputs[i].name)
    requires forall x :: 0 <= x < e ==> !Matches(RootPage(inputs, |inputs|), x, inputs[i].name)
    ensures e == FirstNamed(inputs, i, 0) + 2
  {
    hide Matches, RootPage, Dot, DotDot, Proper, FirstNamed;
    var name, j := inputs[i].name, FirstNamed(inputs, i, 0);
    RootMatches(inputs, |inputs|, e, name);
    RootMatches(inputs, |inputs|, j + 2, name);
    assert 2 <= e < |inputs| + 2 && inputs[e - 2].name == name;
    assert inputs[j].name == name && j + 2 < PER_BLOCK;
    assert j <= e - 2;
  }

  lemma FirstMatch(d: Disk, inputs: seq<Input>, i: nat, ino: nat, block: nat, e: nat)
    requires Named(inputs) && i < |inputs| && |inputs| + 1 < PER_BLOCK
    requires (forall j :: 0 <= j < |inputs| ==> |inputs[j].name| < NAME_MAX)
    requires DataAt(d, Top(ROOT, 0)) == RootPage(inputs, |inputs|) && RecordMatches(d, ROOT, i + 2, inputs[i].name)
    requires FoundAt(d, ROOT, inputs[i].name, ino, block, e)
    ensures ino == FirstNamed(inputs, i, 0) + 2
  {
    hide Matches, Word, DataAt, RootPage, PosOf, RecordMatches, FirstNamed, Named;
    var name := inputs[i].name;
    var b: nat :| b < MAX_BLOCKS && e < PER_BLOCK && PosOf(ROOT, b) in d.node && d.node[PosOf(ROOT, b)] == block &&
      NoMatch(d, ROOT, PER_BLOCK * b + e, name) && Matches(DataAt(d, PosOf(ROOT, b)), e, name) &&
      ino == Word(DataAt(d, PosOf(ROOT, b)), 16 * e);
    assert i + 2 >= PER_BLOCK * b + e;
    assert b == 0;
    PosShape(ROOT, 0);
    forall x | 0 <= x < e ensures !Matches(RootPage(inputs, |inputs|), x, name) { RootRecord(d, inputs, x, name); }
    FirstRecord(inputs, i, e);
    RootWord(inputs, |inputs|, e - 2);
  }

  lemma RootRecord(d: Disk, inputs: seq<Input>, x: nat, name: seq<Byte>)
    requires DataAt(d, Top(ROOT, 0)) == RootPage(inputs, |inputs|) && x < PER_BLOCK
    ensures RecordMatches(d, ROOT, x, name) <==> Matches(RootPage(inputs, |inputs|), x, name)
  {
    hide Matches, DataAt, RootPage, PosOf;
    PosShape(ROOT, 0);
  }

  /** What main knows of the image is what can be stored. */
  lemma ImageSavable(diskSize: nat, startLba: nat, inputs: seq<Input>, d: Disk, first: nat, inodes: seq<Inode>,
                     live: seq<bool>)
    requires Geometry.Plan(diskSize, startLba).Some?
    requires var sb := Geometry.Plan(diskSize, startLba).value;
      |inodes| == |live| == sb.totalInodes && |d.used| == sb.totalBlocks && |inodes| > ROOT
    requires Inv(d, first) && d.tops == Tops(inodes, live) && Holds(d, inodes, live, inputs, |inputs|)
    requires |inputs| + 1 < PER_BLOCK
    requires forall n :: 0 <= n < |inodes| ==> |inodes[n].slots| == SLOTS && (!live[n] ==> inodes[n] == NoInode())
    requires inodes[ROOT].size <= MAX_SIZE && inodes[ROOT].kind == DIRECTORY && inodes[ROOT].links == 1
    ensures OnDisk.Savable(Geometry.Plan(diskSize, startLba).value, inodes, live, d.used)
  {
    hide Inv, Content, Geometry.Plan;
    PlanPlain(diskSize, startLba);
    forall n | 0 <= n < |inodes| ensures OnDisk.Storable(inodes[n]) {
      SlotsFit(d, first, inodes, live, n);
      if n >= 2 && live[n] { assert Stored(d, inodes[n - 2 + 2], n - 2 + 2, inputs[n - 2].bytes); }
    }
  }

  lemma PlanPlain(diskSize: nat, startLba: nat)
    requires Geometry.Plan(diskSize, startLba).Some?
    ensures OnDisk.Plain(Geometry.Plan(diskSize, startLba).value)
  {
    hide Geometry.Plan;
    PlanUsable(diskSize, startLba);
    Geometry.PlanMounts(diskSize, startLba, 0);
  }

  lemma SlotsFit(d: Disk, first: nat, inodes: seq<Inode>, live: seq<bool>, n: nat)
    requires Inv(d, first) && d.tops == Tops(inodes, live) && n < |inodes| == |live| && |inodes[n].slots| == SLOTS
    requires !live[n] ==> inodes[n] == NoInode()
    ensures OnDisk.AllWords(inodes[n].slots)
  {
    hide Linked, Mapped;
    if live[n] {
      forall s | 0 <= s < SLOTS ensures inodes[n].slots[s] < OnDisk.WORD_LIMIT { assert RootedAt(d, n, s); }
    }
  }

  /** Only the data blocks matter to the block structure. */
  lemma SameBlocks(d: Disk, first: nat, pages: seq<Page>)
    requires Inv(d, first) && |pages| == |d.pages| && forall b :: first <= b < |pages| ==> pages[b] == d.pages[b]
    ensures Inv(d.(pages := pages), first)
    ensures forall p :: DataAt(d.(pages := pages), p) == DataAt(d, p)
  {
    hide Word;
    var g := d.(pages := pages);
    forall p, i | p in g.node && p.Level() >= 1 && 0 <= i < FANOUT
      ensures LinkedAt(g, p, i)
    {
      assert LinkedAt(d, p, i);
    }
    assert Rooted(g) by {
      forall i, s | 0 <= i < |g.tops| && 0 <= s < SLOTS ensures RootedAt(g, i, s) { assert RootedAt(d, i, s); }
    }
  }

  lemma HoldsSame(d: Disk, g: Disk, inodes: seq<Inode>, live: seq<bool>, inputs: seq<Input>)
    requires Holds(d, inodes, live, inputs, |inputs|) && forall p :: DataAt(g, p) == DataAt(d, p)
    ensures Holds(g, inodes, live, inputs, |inputs|)
  {
    hide PosOf, DataAt;
    forall i: nat, k: nat ensures Content(g, i, k) == Content(d, i, k) { }
    forall i | 0 <= i < |inputs| ensures Stored(g, inodes[i + 2], i + 2, inputs[i].bytes) {
      assert Stored(d, inodes[i + 2], i + 2, inputs[i].bytes);
    }
  }

  /** The image goes to disk as bytes and comes back as the kernel's inodes and bitmaps. */
  method ThroughDisk(ghost diskSize: nat, sb: Geometry.SuperBlock, startLba: nat, ghost inputs: seq<Input>, img: Image)
    returns (fs: MyFs)
    requires Geometry.Plan(diskSize, startLba) == Geometry.Some(sb) && img.Valid() && |inputs| + 1 < PER_BLOCK
    requires Holds(img.View(Tops(img.inodes, img.live)), img.inodes, img.live, inputs, |inputs|)
    requires img.inodes[ROOT] == Inode(PAGE_SIZE, DIRECTORY, 1, NoSlots()[0 := img.first])
    requires img.first == sb.firstData && |img.inodes| == sb.totalInodes && |img.pages| == |img.used| == sb.totalBlocks
    requires (forall n :: 0 <= n < |img.inodes| && !img.live[n] ==> img.inodes[n] == NoInode())
    requires Sparse(img.pages, img.first)
    ensures fresh(fs) && fs.Valid() && !fs.broken && fs.first == img.first && fs.inodes == img.inodes
    ensures fs.live == img.live
    ensures Holds(fs.View(Tops(fs.inodes, fs.live)), fs.inodes, fs.live, inputs, |inputs|)
    ensures DataAt(fs.View(Tops(fs.inodes, fs.live)), Top(ROOT, 0)) ==
        DataAt(img.View(Tops(img.inodes, img.live)), Top(ROOT, 0))
    ensures forall i :: 0 <= i < |fs.open| ==> fs.open[i] == 0
  {
    hide Inv, Holds, DataAt, Packed, Geometry.Plan, Geometry.Mounts, OnDisk.Savable, OnDisk.Reads;
    ghost var d := img.View(Tops(img.inodes, img.live));
    Geometry.PlanMounts(diskSize, startLba, 0);
    ImageSavable(diskSize, startLba, inputs, d, img.first, img.inodes, img.live);
    var view := OnDisk.Save(img.pages, sb, startLba, img.inodes, img.live, img.used);
    ReadsFacts(view, sb, startLba, img.inodes, img.live, img.used);
    var ok, sb', inodes, live, used := OnDisk.Load(view, startLba);
    OnDisk.ReadsOnce(view, sb, sb', startLba, img.inodes, inodes, img.live, live, img.used, used);
    SameBlocks(d, img.first, view);
    HoldsSame(d, d.(pages := view), img.inodes, img.live, inputs);
    fs := new MyFs(sb'.firstData, inodes, live, view, used, img.node, img.home);
  }

  lemma ReadsFacts(view: seq<Page>, sb: Geometry.SuperBlock, startLba: nat, inodes: seq<Inode>, live: seq<bool>,
                   used: seq<bool>)
    requires OnDisk.Reads(view, sb, startLba, inodes, live, used)
    ensures |view| > 1 && OnDisk.GetSuper(view[1]) == sb && |view| == sb.totalBlocks && Geometry.Mounts(sb, startLba)
  {
    hide OnDisk.GetSuper;
  }

  /** A mounted image of the inputs. */
  ghost predicate Mounted(fs: MyFs, inputs: seq<Input>)
    reads fs
  {
    && ROOT < |fs.inodes| && |fs.live| == |fs.inodes| && fs.live[ROOT] && !fs.broken
    && fs.inodes[ROOT] == Inode(PAGE_SIZE, DIRECTORY, 1, NoSlots()[0 := fs.first])
    && Holds(fs.View(Tops(fs.inodes, fs.live)), fs.inodes, fs.live, inputs, |inputs|)
    && |inputs| + 1 < PER_BLOCK && (forall i :: 0 <= i < |inputs| ==> |inputs[i].name| < NAME_MAX)
    && DataAt(fs.View(Tops(fs.inodes, fs.live)), Top(ROOT, 0)) == RootPage(inputs, |inputs|)
  }

  /** An input looked up by its name and read from end to end. */
  method ReadBack(fs: MyFs, inputs: seq<Input>, i: nat) returns (out: seq<Byte>)
    requires fs.Valid() && Mounted(fs, inputs) && Named(inputs) && i < |inputs|
    modifies fs`pages, fs`used, fs`node, fs`home, fs`broken
    ensures fs.Valid() && Mounted(fs, inputs)
    ensures fs.View(Tops(fs.inodes, fs.live)) == old(fs.View(Tops(fs.inodes, fs.live)))
    ensures out == inputs[FirstNamed(inputs, i, 0)].bytes
  {
    hide Inv, Content, DataAt, PosOf, RootPage, NoMatch, FoundAt;
    ghost var d := fs.View(Tops(fs.inodes, fs.live));
    var found, ino, block, e := DirFind(fs, ROOT, inputs[i].name);
    FoundInput(d, fs.first, inputs, i, ino, block, e);
    var j := FirstNamed(inputs, i, 0);
    assert found && ino == j + 2;
    assert Stored(d, fs.inodes[j + 2], j + 2, inputs[j].bytes);
    var res;
    res, out := fs.ReadInode(ino, 0, |inputs[j].bytes|);
    assert out == inputs[j].bytes by {
      forall k: nat | k < |out| ensures out[k] == inputs[j].bytes[k] {
        assert out[k] == Content(d, j + 2, 0 + k) == ByteAt(inputs[j].bytes, k);
      }
    }
  }

  /** mkfs and fs_init: the inputs on a disk, mounted, or failure of mkfs. */
  method Install(diskSize: nat, startLba: nat, inputs: seq<Input>) returns (ok: bool, fs: MyFs?)
    ensures ok ==>
      Geometry.Plan(diskSize, startLba).Some? && Geometry.Mounts(Geometry.Plan(diskSize, startLba).value, startLba)
    ensures ok <==>
      && inputs != [] && Geometry.Plan(diskSize, startLba).Some?
      && Buildable(Geometry.Plan(diskSize, startLba).value, inputs)
    ensures ok ==> fs != null && fresh(fs) && fs.Valid() && Mounted(fs, inputs) && |fs.inodes| <= 0x1_0000_0000
    ensures ok ==> forall i :: 0 <= i < |fs.open| ==> fs.open[i] == 0
  {
    hide Inv, Content, DataAt, PosOf, RootPage, Holds, Packed, Geometry.Plan, Geometry.Mounts, Buildable, Sparse;
    ok, fs := false, null;
    var plan := Geometry.Plan(diskSize, startLba);
    if plan.None? || inputs == [] { return; }
    PlanUsable(diskSize, startLba);
    var img;
    ok, img := Build(plan.value, inputs);
    if !ok { return; }
    fs := ThroughDisk(diskSize, plan.value, startLba, inputs, img);
  }

  /** For every disk mkfs accepts: if it builds the image, the kernel mounts it, finds every
      input by its name and reads back, byte for byte, the first input of that name; with
      distinct names that is the input itself. */
  method RoundTrip(diskSize: nat, startLba: nat, inputs: seq<Input>) returns (ok: bool, outs: seq<seq<Byte>>)
    requires Named(inputs)
    ensures ok <==>
      && inputs != [] && Geometry.Plan(diskSize, startLba).Some?
      && Buildable(Geometry.Plan(diskSize, startLba).value, inputs)
    ensures ok ==>
      |outs| == |inputs| && forall i :: 0 <= i < |inputs| ==> outs[i] == inputs[FirstNamed(inputs, i, 0)].bytes
    ensures ok && (forall i, j :: 0 <= i < j < |inputs| ==> inputs[i].name != inputs[j].name) ==>
              forall i :: 0 <= i < |inputs| ==> outs[i] == inputs[i].bytes
  {
    hide Mounted, Geometry.Plan, Geometry.Mounts, Buildable, Named, MyFs.Valid;
    outs := [];
    var fs;
    ok, fs := Install(diskSize, startLba, inputs);
    if !ok { return; }
    for i := 0 to |inputs|
      invariant fs.Valid() && fresh(fs) && Mounted(fs, inputs)
      invariant |outs| == i && forall j :: 0 <= j < i ==> outs[j] == inputs[FirstNamed(inputs, j, 0)].bytes
    {
      var out := ReadBack(fs, inputs, i);
      outs := outs + [out];
    }
  }

  lemma PlanUsable(diskSize: nat, startLba: nat)
    requires Geometry.Plan(diskSize, startLba).Some?
    ensures var sb := Geometry.Plan(diskSize, startLba).value;
      && Geometry.Mounts(sb, startLba) && 0 < sb.firstData && sb.firstData + 1 < sb.totalBlocks <= 0x1_0000_0000
      && ROOT < sb.totalInodes <= 0x1_0000_0000
  {
    Geometry.PlanMounts(diskSize, startLba, 0);
  }
}
