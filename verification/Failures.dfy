/** Small disks on which the file system (kernel/fs.c) does not do what its callers count on. */
module Failures {
  import opened Layout
  import opened FileIndex
  import opened Allocation
  import opened Files

  /** The pointers of an inode with n direct blocks in a row. */
  function Direct(first: nat, n: nat): seq<nat> {
    seq(SLOTS, s requires 0 <= s < SLOTS => if s < n then first + s else 0)
  }

  ghost function Nodes(first: nat, n: nat): map<Place, nat> {
    map s: nat | s < n :: Top(1, s) := first + s
  }

  function HomeOf(first: nat, b: nat): Place { if b < first then Top(0, 0) else Top(1, b - first) }

  ghost function Homes(first: nat, n: nat): map<nat, Place> {
    map b: nat | first <= b < first + n :: HomeOf(first, b)
  }

  function Bitmap(total: nat, taken: nat): seq<bool> {
    seq(total, b => b < taken)
  }

  /** A disk with one inode in use, whose n blocks all hold the same bytes. */
  ghost function Plain(first: nat, n: nat, free: nat, fill: Page): Disk {
    Disk(Nodes(first, n), Homes(first, n), [NoSlots(), Direct(first, n)], seq(first + n + free, _ => fill),
         Bitmap(first + n + free, first + n))
  }

  lemma PlainInv(first: nat, n: nat, free: nat, fill: Page)
    requires 0 < first && n <= DIRECT && first + n + free <= 0x1_0000_0000
    ensures Inv(Plain(first, n, free, fill), first)
  {
    var d := Plain(first, n, free, fill);
    assert forall p :: p in d.node ==> p.Top? && p.ino == 1 && p.slot < n && d.node[p] == first + p.slot;
    assert Placed(d, first);
    assert Rooted(d);
    assert Linked(d);
  }

  lemma PlainFree(first: nat, n: nat, free: nat, fill: Page)
    ensures |Free(Plain(first, n, free, fill).used, first)| == free
  {
    FreeTail(Bitmap(first + n + free, first + n), first, first + n);
  }

  lemma FreeTail(used: seq<bool>, first: nat, taken: nat)
    requires first <= taken <= |used| && forall b :: 0 <= b < |used| ==> (used[b] <==> b < taken)
    ensures |Free(used, first)| == |used| - taken
    decreases |used| - taken
  {
    if taken < |used| {
      var next := used[taken := true];
      FreeTail(next, first, taken + 1);
      FreeTaken(used, first, taken);
    } else {
      assert Free(used, first) == {};
    }
  }

  /** A disk of that kind, mounted. */
  method Mounted(first: nat, n: nat, free: nat, fill: Page, kind: nat, size: nat) returns (fs: MyFs)
    requires 0 < first && n <= DIRECT && first + n + free <= 0x1_0000_0000 && size <= MAX_SIZE
    ensures fresh(fs) && fs.Valid() && !fs.broken && fs.first == first
    ensures fs.inodes == [NoInode(), Inode(size, kind, 1, Direct(first, n))] && fs.live == [false, true]
    ensures fs.View(Tops(fs.inodes, fs.live)) == Plain(first, n, free, fill)
  {
    hide Inv;
    PlainInv(first, n, free, fill);
    var inodes, live := [NoInode(), Inode(size, kind, 1, Direct(first, n))], [false, true];
    assert Tops(inodes, live) == [NoSlots(), Direct(first, n)];
    fs := new MyFs(first, inodes, live, seq(first + n + free, _ => fill), Bitmap(first + n + free, first + n),
      Nodes(first, n), Homes(first, n));
  }

  // ------------------------------------------------------- a number beyond a C int

  /** With the only free block at 2^31, an allocation reports failure and loses that block. */
  method NumberTooLarge() returns (fs: MyFs, b: int)
    ensures b == -1 && |Free(Plain(INT_LIMIT, 0, 1, ZeroPage()).used, INT_LIMIT)| == 1 && Free(fs.used, INT_LIMIT) == {}
    ensures Lost(Tops(fs.inodes, fs.live), fs.pages, fs.used, INT_LIMIT)
  {
    hide Inv, Lost, Reach, Shifted, ZeroPage;
    fs := Mounted(INT_LIMIT, 0, 1, ZeroPage(), FILE, 0);
    ghost var d, f := Plain(INT_LIMIT, 0, 1, ZeroPage()), 0;
    PlainFree(INT_LIMIT, 0, 1, ZeroPage());
    b, f := fs.AllocDataBlock();
    PlainInv(INT_LIMIT, 0, 1, ZeroPage());
    LostBlock(d, INT_LIMIT, f);
  }

  // --------------------------------------------------- the residue of a failed write

  /** No block is free, so no walk can go too far. */
  lemma {:induction false} EmptyReaches(d: Disk, first: nat, i: nat, lo: nat, hi: nat)
    requires Free(d.used, first) == {} && hi <= MAX_BLOCKS
    ensures Reaches(d, first, i, lo, hi)
    decreases hi
  {
    hide Free, BlockReach;
    if hi > lo {
      EmptyReaches(d, first, i, lo, hi - 1);
      EmptyBlockReach(d, first, i, lo, hi - 1);
    }
  }

  lemma EmptyBlockReach(d: Disk, first: nat, i: nat, lo: nat, k: nat)
    requires Free(d.used, first) == {} && k < MAX_BLOCKS
    ensures BlockReach(d, first, i, lo, k)
  {
    hide Free, Trails, SlotOf, ReachFrom, Needed;
    NeededUp(d.node, i, lo, k);
    var o, m := Needed(d.node, i, lo, k), Needed(d.node, i, lo, k + 1);
    EmptyReachFrom(d.used, first, Top(i, SlotOf(k)) in d.node.Keys + Trails(i, lo, k), m - o, o);
  }

  lemma NeededUp(node: map<Place, nat>, i: nat, lo: nat, k: nat)
    requires k < MAX_BLOCKS
    ensures Needed(node, i, lo, k) <= Needed(node, i, lo, k + 1)
  {
    hide Trails;
    TrailsUp(i, lo, k);
    SmallerSet(Trails(i, lo, k) - node.Keys, Trails(i, lo, k + 1) - node.Keys);
  }

  lemma EmptyReachFrom(used: seq<bool>, first: nat, rooted: bool, m: nat, o: nat)
    requires Free(used, first) == {}
    ensures ReachFrom(used, first, rooted, m, o)
  {
    hide Free, Reach;
    EmptyReach(used, first, o, o + 1, INT_LIMIT);
    EmptyReach(used, first, o + 1, o + m, EntryLimit(first));
    EmptyReach(used, first, o, o + m, EntryLimit(first));
  }

  lemma DirectTrail(i: nat, k: nat)
    requires k < DIRECT
    ensures TrailOf(i, k) == {Top(i, k)}
  {
  }

  /** A write from byte 1 of a one-block file into a second block, which the disk lacks, gets
      as far as the end of the first. */
  lemma StopsAtBlock(d: Disk, first: nat, done: nat)
    requires Top(1, 0) in d.node && Top(1, 1) !in d.node && Free(d.used, first) == {}
    ensures !Enough(d, first, 1, 1, PAGE_SIZE)
    ensures Affords(d, first, 1, 1, PAGE_SIZE, done) ==> done == PAGE_SIZE - 1
  {
    hide Needed, Free;
    NeededTwo(d.node);
  }

  lemma NeededTwo(node: map<Place, nat>)
    requires Top(1, 0) in node && Top(1, 1) !in node
    ensures Needed(node, 1, 0, 0) == Needed(node, 1, 0, 1) == 0 && Needed(node, 1, 0, 2) == 1
  {
    hide TrailOf;
    DirectTrail(1, 0);
    DirectTrail(1, 1);
    assert Trails(1, 0, 0) == {};
    assert Trails(1, 0, 1) == {Top(1, 0)} && Trails(1, 0, 2) == {Top(1, 0), Top(1, 1)};
    assert Trails(1, 0, 0) - node.Keys == Trails(1, 0, 1) - node.Keys == {};
    assert Trails(1, 0, 2) - node.Keys == {Top(1, 1)};
  }

  /** A write within a block that is there needs none. */
  lemma WithinBlock(d: Disk, first: nat, at: nat, length: nat)
    requires Top(1, 0) in d.node && 0 < length && at + length <= PAGE_SIZE
    ensures Enough(d, first, 1, at, length) && InReach(d, first, 1, at, length)
  {
    hide TrailOf, Free, Reach;
    DirectTrail(1, 0);
    assert Trails(1, 0, 0) == {} && Trails(1, 0, 1) == {Top(1, 0)};
    assert Trails(1, 0, 1) - d.node.Keys == {} && Trails(1, 0, 0) - d.node.Keys == {};
    ReachVoid(d.used, first, 0, 0, EntryLimit(first));
    assert Reaches(d, first, 1, 0, 0);
    assert BlockReach(d, first, 1, 0, 0);
  }

  lemma OnFullDisk(d: Disk)
    requires d == Plain(10, 1, 0, ZeroPage())
    ensures Free(d.used, 10) == {} && Top(1, 0) in d.node && Top(1, 1) !in d.node
    ensures InReach(d, 10, 1, 1, PAGE_SIZE)
  {
    hide Free;
    PlainFree(10, 1, 0, ZeroPage());
    EmptyReaches(d, 10, 1, 0, 2);
  }

  lemma LeftBehind(d: Disk, g: Disk, data: seq<Byte>, slots: seq<nat>)
    requires HalfWrote(d, g, 1, 1, data, slots) && |data| == PAGE_SIZE - 1 && data[49] == 1 && slots == Direct(10, 1)
    ensures Content(g, 1, 50) == 1
  {
    hide Content;
    assert Rooting(slots, 50);
    assert Content(g, 1, 50) == Overlay(Content(d, 1, 50), 1 == 1 && Rooting(slots, 50), 50, 1, data);
  }

  lemma StillThere(g: Disk)
    requires Inv(g, 10) && |g.tops| == 2 && g.tops[1] == Direct(10, 1)
    ensures Top(1, 0) in g.node
  {
    assert RootedAt(g, 1, 0);
  }

  lemma KeptAt50(g: Disk, h: Disk)
    requires Wrote(g, h, 1, 100, [7])
    ensures Content(h, 1, 50) == Content(g, 1, 50)
  {
    hide Content;
    assert Content(h, 1, 50) == Overlay(Content(g, 1, 50), 1 == 1, 50, 100, [7]);
  }

  /** A file of one byte on a full disk. A write of 4096 bytes from byte 1 on fails, a write
      of one byte at 100 succeeds, and byte 50, which no successful call ever wrote, reads as
      what the failed call left there. */
  method ResidueShows() returns (failed: int, wrote: int, out: seq<Byte>)
    ensures failed == -1 && wrote == 1 && out == [1]
    ensures WriteBytes([0], 100, [7])[50] == 0
  {
    hide Inv, Enough, InReach, Affords, Wrote, HalfWrote, Free, Content, ZeroPage, Took, Halted, Trails, BlocksTo;
    var fs := Mounted(10, 1, 0, ZeroPage(), FILE, 1);
    ghost var d := fs.View(Tops(fs.inodes, fs.live));
    var data: seq<Byte> := seq(PAGE_SIZE, _ => 1);
    OnFullDisk(d);
    var ok, res; ghost var done;
    ok, failed, done := fs.WriteInode(1, 1, data);
    StopsAtBlock(d, 10, done);
    ghost var g := fs.View(Tops(fs.inodes, fs.live));
    LeftBehind(d, g, data[..done], fs.inodes[1].slots);
    StillThere(g);
    WithinBlock(g, 10, 100, 1);
    ok, wrote, done := fs.WriteInode(1, 100, [7]);
    KeptAt50(g, fs.View(Tops(fs.inodes, fs.live)));
    res, out := fs.ReadInode(1, 50, 1);
  }
}
