/** Directories of MyFS (kernel/fs.c): 64-byte records in the blocks of a directory inode. */
module Directory {
  import opened Layout
  import opened FileIndex
  import opened Files
  import opened Allocation

  const PER_BLOCK := 64
  const NAME_MAX := 60

  /** Record e of a block is in use and carries this name. */
  predicate Matches(page: Page, e: nat, name: seq<Byte>)
    requires e < PER_BLOCK
  {
    Word(page, 16 * e) != 0 && NameIs(page, e, name)
  }

  function NameByte(page: Page, e: nat, j: nat): Byte
    requires e < PER_BLOCK && j < NAME_MAX
  {
    page[64 * e + 4 + j]
  }

  /** The stored C string equals `name`, which has no zero byte. */
  predicate NameIs(page: Page, e: nat, name: seq<Byte>)
    requires e < PER_BLOCK
  {
    && |name| < NAME_MAX && NameByte(page, e, |name|) == 0
    && forall j :: 0 <= j < |name| ==> NameByte(page, e, j) == name[j]
  }

  predicate Proper(name: seq<Byte>) {
    forall j :: 0 <= j < |name| ==> name[j] != 0
  }

  function Padded(name: seq<Byte>): seq<Byte>
    requires |name| < NAME_MAX
    ensures |Padded(name)| == NAME_MAX
  {
    name + seq(NAME_MAX - |name|, _ => 0)
  }

  /** Record e filled in with an inode number and a zero-padded name. */
  function PutRecord(page: Page, e: nat, ino: nat, name: seq<Byte>): Page
    requires e < PER_BLOCK && ino < 0x1_0000_0000 && |name| < NAME_MAX
  {
    var p := PutWord(page, 16 * e, ino);
    p[..64 * e + 4] + Padded(name) + p[64 * e + 64..]
  }

  lemma PutRecordWord(page: Page, e: nat, ino: nat, name: seq<Byte>, f: nat)
    requires e < PER_BLOCK && f < PER_BLOCK && ino < 0x1_0000_0000 && |name| < NAME_MAX
    ensures Word(PutRecord(page, e, ino, name), 16 * f) == if f == e then ino else Word(page, 16 * f)
  {
    hide Word, Padded;
    var p := PutWord(page, 16 * e, ino);
    WordPut(page, 16 * e, ino, 16 * f);
    SameWord(p, PutRecord(page, e, ino, name), 16 * f);
  }

  lemma SameWord(p: Page, q: Page, i: nat)
    requires i < FANOUT && forall k :: 4 * i <= k < 4 * i + 4 ==> p[k] == q[k]
    ensures Word(p, i) == Word(q, i)
  {
  }

  /** The record written is the one found under that name, and no other changes. */
  lemma PutRecordMatches(page: Page, e: nat, ino: nat, name: seq<Byte>, f: nat, other: seq<Byte>)
    requires e < PER_BLOCK && f < PER_BLOCK && 0 < ino < 0x1_0000_0000 && 0 < |name| < NAME_MAX
    requires Proper(name) && Proper(other)
    ensures Matches(PutRecord(page, e, ino, name), f, other) <==>
      if f == e then other == name else Matches(page, f, other)
  {
    hide Word, Padded;
    var q := PutRecord(page, e, ino, name);
    PutRecordWord(page, e, ino, name, f);
    if f == e {
      PaddedBytes(name);
      assert forall j :: 0 <= j < NAME_MAX ==> NameByte(q, e, j) == Padded(name)[j];
      if |other| < NAME_MAX { SameName(q, e, name, other); }
    } else {
      OtherBytes(page, e, ino, name, f);
    }
  }

  lemma PaddedBytes(name: seq<Byte>)
    requires |name| < NAME_MAX
    ensures forall j :: 0 <= j < NAME_MAX ==> Padded(name)[j] == ByteAt(name, j)
  {
  }

  lemma SameName(q: Page, e: nat, name: seq<Byte>, other: seq<Byte>)
    requires e < PER_BLOCK && |name| < NAME_MAX && |other| < NAME_MAX && Proper(name) && Proper(other)
    requires forall j :: 0 <= j < NAME_MAX ==> NameByte(q, e, j) == ByteAt(name, j)
    ensures NameIs(q, e, other) <==> other == name
  {
    hide NameByte;
    if NameIs(q, e, other) {
      var n := if |other| < |name| then |other| else |name|;
      assert NameByte(q, e, n) == ByteAt(name, n);
      assert |other| == |name|;
      forall j | 0 <= j < |name| ensures other[j] == name[j] { assert NameByte(q, e, j) == other[j]; }
    }
  }

  lemma OtherBytes(page: Page, e: nat, ino: nat, name: seq<Byte>, f: nat)
    requires e < PER_BLOCK && f < PER_BLOCK && f != e && ino < 0x1_0000_0000 && |name| < NAME_MAX
    ensures forall k :: 64 * f <= k < 64 * f + 64 ==> PutRecord(page, e, ino, name)[k] == page[k]
  {
  }

  /** The bytes of a record: the number in four, least first, then the name, then zeros. */
  lemma RecordBytes(page: Page, e: nat, ino: nat, name: seq<Byte>, k: nat)
    requires e < PER_BLOCK && ino < 0x1_0000_0000 && |name| < NAME_MAX && k < PAGE_SIZE
    ensures PutRecord(page, e, ino, name)[k] ==
      if k / 64 != e then page[k]
      else if k % 64 == 0 then ino % 0x100
      else if k % 64 == 1 then ino / 0x100 % 0x100
      else if k % 64 == 2 then ino / 0x1_0000 % 0x100
      else if k % 64 == 3 then ino / 0x100_0000
      else if k % 64 - 4 < |name| then name[k % 64 - 4]
      else 0
  {
  }

  // ------------------------------------------------------- records of a directory

  function Blocks(size: nat): nat {
    (size + PAGE_SIZE - 1) / PAGE_SIZE
  }

  /** dir_find and dir_add look at one block at least. */
  function Scanned(size: nat): nat {
    if Blocks(size) == 0 then 1 else Blocks(size)
  }

  ghost predicate RecordMatches(d: Disk, dir: nat, r: nat, name: seq<Byte>) {
    r / PER_BLOCK < MAX_BLOCKS && Matches(DataAt(d, PosOf(dir, r / PER_BLOCK)), r % PER_BLOCK, name)
  }

  /** A record that dir_add may use: its block exists and it is not taken. */
  ghost predicate RecordFree(d: Disk, dir: nat, r: nat) {
    && r / PER_BLOCK < MAX_BLOCKS && PosOf(dir, r / PER_BLOCK) in d.node
    && Word(DataAt(d, PosOf(dir, r / PER_BLOCK)), 16 * (r % PER_BLOCK)) == 0
  }

  lemma BlankRecord(e: nat, name: seq<Byte>)
    requires e < PER_BLOCK
    ensures !Matches(ZeroPage(), e, name)
  {
    WordZero(16 * e);
  }

  // ------------------------------------------------------------------ searching

  /** The records of one block, from e on, searched for a name. */
  method FindInBlock(page: Page, name: seq<Byte>) returns (e: nat)
    ensures e <= PER_BLOCK && (e < PER_BLOCK ==> Matches(page, e, name))
    ensures forall f :: 0 <= f < e ==> !Matches(page, f, name)
  {
    hide Word, NameByte;
    e := 0;
    while e < PER_BLOCK
      invariant e <= PER_BLOCK && forall f :: 0 <= f < e ==> !Matches(page, f, name)
    {
      if Matches(page, e, name) { return; }
      e := e + 1;
    }
  }

  method FindFree(page: Page) returns (e: nat)
    ensures e <= PER_BLOCK && (e < PER_BLOCK ==> Word(page, 16 * e) == 0)
    ensures forall f :: 0 <= f < e ==> Word(page, 16 * f) != 0
  {
    hide Word;
    e := 0;
    while e < PER_BLOCK
      invariant e <= PER_BLOCK && forall f :: 0 <= f < e ==> Word(page, 16 * f) != 0
    {
      if Word(page, 16 * e) == 0 { return; }
      e := e + 1;
    }
  }

  ghost predicate NoMatch(d: Disk, dir: nat, n: nat, name: seq<Byte>) {
    forall r: nat :: r < n ==> !RecordMatches(d, dir, r, name)
  }

  ghost predicate NoFree(d: Disk, dir: nat, n: nat) {
    forall r: nat :: r < n ==> !RecordFree(d, dir, r)
  }

  /** dir_find: the first record with the name, if any record has it. */
  method DirFind(fs: MyFs, dir: nat, name: seq<Byte>) returns (found: bool, ino: nat, block: nat, e: nat)
    requires fs.Valid() && 0 < dir < |fs.inodes| && fs.live[dir] && !fs.broken
    modifies fs`pages, fs`used, fs`node, fs`home, fs`broken
    ensures !fs.broken && fs.Valid() && fs.View(Tops(fs.inodes, fs.live)) == old(fs.View(Tops(fs.inodes, fs.live)))
    ensures var d, n := fs.View(Tops(fs.inodes, fs.live)), PER_BLOCK * Scanned(fs.inodes[dir].size);
      found <==> fs.inodes[dir].kind == DIRECTORY && !NoMatch(d, dir, n, name)
    ensures found ==> FoundAt(fs.View(Tops(fs.inodes, fs.live)), dir, name, ino, block, e)
  {
    hide Inv, Matches, Word, PosOf, RecordMatches, FoundAt;
    ino, block, e := 0, 0, 0;
    if fs.inodes[dir].kind != DIRECTORY { return false, 0, 0, 0; }
    ghost var tops := Tops(fs.inodes, fs.live);
    ghost var d := fs.View(tops);
    var inode := fs.inodes[dir];
    var b := 0;
    while b < Scanned(inode.size)
      invariant b <= Scanned(inode.size) && fs.View(tops) == d && NoMatch(d, dir, PER_BLOCK * b, name) && !fs.broken
    {
      var res, now;
      res, block, now := fs.InodeDataBlock(tops, dir, inode, b, false);
      PageOf(d, fs.first, dir, b, block, res);
      if res == 0 && block != 0 {
        e := FindInBlock(fs.pages[block], name);
        NotInBlock(d, dir, b, e, name, fs.pages[block]);
        if e < PER_BLOCK {
          FoundHere(d, dir, b, e, name, fs.pages[block], block, Scanned(inode.size));
          return true, Word(fs.pages[block], 16 * e), block, e;
        }
      } else {
        NotInAbsent(d, dir, b, name);
      }
      b := b + 1;
    }
    return false, 0, 0, 0;
  }

  ghost predicate FoundAt(d: Disk, dir: nat, name: seq<Byte>, ino: nat, block: nat, e: nat) {
    exists b: nat :: b < MAX_BLOCKS && e < PER_BLOCK && PosOf(dir, b) in d.node && d.node[PosOf(dir, b)] == block &&
      NoMatch(d, dir, PER_BLOCK * b + e, name) && Matches(DataAt(d, PosOf(dir, b)), e, name) &&
      ino == Word(DataAt(d, PosOf(dir, b)), 16 * e)
  }

  lemma PageOf(d: Disk, first: nat, dir: nat, b: nat, block: nat, res: int)
    requires Inv(d, first) && (res == 0 ==> b < MAX_BLOCKS)
    requires res == 0 ==> block == if PosOf(dir, b) in d.node then d.node[PosOf(dir, b)] else 0
    ensures res == 0 && block != 0 ==>
      PosOf(dir, b) in d.node && block < |d.pages| && DataAt(d, PosOf(dir, b)) == d.pages[block]
    ensures res == 0 && block == 0 ==> PosOf(dir, b) !in d.node
  {
    hide Linked, Rooted, PosOf, ZeroPage;
  }

  lemma RecordIn(b: nat, r: nat)
    requires PER_BLOCK * b <= r < PER_BLOCK * (b + 1)
    ensures r / PER_BLOCK == b && r % PER_BLOCK == r - PER_BLOCK * b
  {
  }

  lemma NotInBlock(d: Disk, dir: nat, b: nat, e: nat, name: seq<Byte>, page: Page)
    requires b < MAX_BLOCKS && e <= PER_BLOCK && DataAt(d, PosOf(dir, b)) == page
    requires forall f :: 0 <= f < e ==> !Matches(page, f, name)
    requires NoMatch(d, dir, PER_BLOCK * b, name)
    ensures NoMatch(d, dir, PER_BLOCK * b + e, name)
  {
    hide Matches, PosOf, DataAt;
    forall r: nat | r < PER_BLOCK * b + e ensures !RecordMatches(d, dir, r, name) {
      if r >= PER_BLOCK * b { RecordIn(b, r); }
    }
  }

  lemma NotInAbsent(d: Disk, dir: nat, b: nat, name: seq<Byte>)
    requires NoMatch(d, dir, PER_BLOCK * b, name) && (b < MAX_BLOCKS ==> PosOf(dir, b) !in d.node)
    ensures NoMatch(d, dir, PER_BLOCK * (b + 1), name)
  {
    hide Matches, PosOf, ZeroPage;
    forall r: nat | r < PER_BLOCK * (b + 1) ensures !RecordMatches(d, dir, r, name) {
      if r >= PER_BLOCK * b {
        RecordIn(b, r);
        BlankRecord(r % PER_BLOCK, name);
      }
    }
  }

  lemma FoundHere(d: Disk, dir: nat, b: nat, e: nat, name: seq<Byte>, page: Page, block: nat, n: nat)
    requires b < n && b < MAX_BLOCKS && e < PER_BLOCK && PosOf(dir, b) in d.node && d.node[PosOf(dir, b)] == block
    requires DataAt(d, PosOf(dir, b)) == page && Matches(page, e, name) && NoMatch(d, dir, PER_BLOCK * b + e, name)
    ensures !NoMatch(d, dir, PER_BLOCK * n, name) && FoundAt(d, dir, name, Word(page, 16 * e), block, e)
  {
    hide Matches, PosOf, DataAt, Word;
    RecordIn(b, PER_BLOCK * b + e);
    assert RecordMatches(d, dir, PER_BLOCK * b + e, name);
  }

  // -------------------------------------------------------------------- adding

  /** From d to g, record r of the directory has been filled in, and nothing else. */
  ghost predicate AddedAt(d: Disk, g: Disk, dir: nat, r: nat, ino: nat, name: seq<Byte>)
    requires ino < 0x1_0000_0000 && |name| < NAME_MAX
  {
    && r / PER_BLOCK < MAX_BLOCKS
    && Word(DataAt(d, PosOf(dir, r / PER_BLOCK)), 16 * (r % PER_BLOCK)) == 0
    && (forall p: Place :: p.Level() == 0 && p != PosOf(dir, r / PER_BLOCK) ==> DataAt(g, p) == DataAt(d, p))
    && DataAt(g, PosOf(dir, r / PER_BLOCK)) == PutRecord(DataAt(d, PosOf(dir, r / PER_BLOCK)), r % PER_BLOCK, ino, name)
  }

  /** What is lost when dir_add cannot extend the directory: the new top index block was
      had but a block below it was not, and the inode is not written back. */
  ghost predicate Leaks(d: Disk, first: nat, dir: nat, size: nat) {
    var n := Scanned(size);
    && n < MAX_BLOCKS && NoFree(d, dir, PER_BLOCK * n) && Top(dir, SlotOf(n)) !in d.node
    && 0 < |Free(d.used, first)| < MissingFor(d.node, dir, n)
  }

  method PutEntry(fs: MyFs, ghost tops: seq<seq<nat>>, ghost d: Disk, ghost dir: nat, ghost b: nat, block: nat, e: nat,
                  ino: nat, name: seq<Byte>)
    requires Inv(fs.View(tops), fs.first) && SameData(d, fs.View(tops)) && b < MAX_BLOCKS && PosOf(dir, b) in fs.node
    requires fs.node[PosOf(dir, b)] == block < |fs.pages| && e < PER_BLOCK && ino < 0x1_0000_0000 && |name| < NAME_MAX
    requires Word(fs.pages[block], 16 * e) == 0
    modifies fs`pages
    ensures Inv(fs.View(tops), fs.first) && AddedAt(d, fs.View(tops), dir, PER_BLOCK * b + e, ino, name)
    ensures |fs.pages| == |old(fs.pages)|
  {
    hide Inv, SameData, PosOf, PutRecord, Word;
    ghost var g := fs.View(tops);
    Entered(d, g, fs.first, dir, b, block, e, ino, name);
    fs.pages := fs.pages[block := PutRecord(fs.pages[block], e, ino, name)];
    assert fs.View(tops) == SetData(g, block, PutRecord(g.pages[block], e, ino, name));
  }

  lemma Entered(d: Disk, g: Disk, first: nat, dir: nat, b: nat, block: nat, e: nat, ino: nat, name: seq<Byte>)
    requires Inv(g, first) && SameData(d, g) && b < MAX_BLOCKS && PosOf(dir, b) in g.node
    requires g.node[PosOf(dir, b)] == block < |g.pages| && e < PER_BLOCK && ino < 0x1_0000_0000 && |name| < NAME_MAX
    requires Word(g.pages[block], 16 * e) == 0
    ensures Inv(SetData(g, block, PutRecord(g.pages[block], e, ino, name)), first)
    ensures AddedAt(d, SetData(g, block, PutRecord(g.pages[block], e, ino, name)), dir, PER_BLOCK * b + e, ino, name)
  {
    hide Inv, PosOf, PutRecord, Word, DataAt, SetData;
    BlockNumber(g, first, PosOf(dir, b));
    PosOfIndex(dir, b, dir + 1);
    SetDataKeeps(g, first, block, PutRecord(g.pages[block], e, ino, name));
    DataHere(g, first, block);
    RecordIn(b, PER_BLOCK * b + e);
    forall p: Place | p.Level() == 0
      ensures DataAt(SetData(g, block, PutRecord(g.pages[block], e, ino, name)), p) ==
        if p == PosOf(dir, b) then PutRecord(DataAt(d, p), e, ino, name) else DataAt(d, p)
    {
      SetDataAt(g, first, block, PutRecord(g.pages[block], e, ino, name), p);
    }
  }

  /** The blocks the directory has, searched for a free record. */
  method FindSpace(fs: MyFs, ghost tops: seq<seq<nat>>, dir: nat) returns (ok: bool, b: nat, block: nat, e: nat)
    requires fs.Valid() && 0 < dir < |fs.inodes| && fs.live[dir] && tops == Tops(fs.inodes, fs.live) && !fs.broken
    modifies fs`pages, fs`used, fs`node, fs`home, fs`broken
    ensures !fs.broken && fs.View(tops) == old(fs.View(tops)) && b <= Scanned(fs.inodes[dir].size)
    ensures ok ==>
      b < MAX_BLOCKS && e < PER_BLOCK && PosOf(dir, b) in fs.node && fs.node[PosOf(dir, b)] == block < |fs.pages|
    ensures ok ==> Word(fs.pages[block], 16 * e) == 0 && RecordFree(fs.View(tops), dir, PER_BLOCK * b + e)
    ensures ok ==> b < Scanned(fs.inodes[dir].size) && NoFree(fs.View(tops), dir, PER_BLOCK * b + e)
    ensures !ok ==> NoFree(fs.View(tops), dir, PER_BLOCK * Scanned(fs.inodes[dir].size))
  {
    hide Inv, Word, PosOf, RecordFree;
    ghost var d := fs.View(tops);
    var inode := fs.inodes[dir];
    b, block, e := 0, 0, 0;
    while b < Scanned(inode.size)
      invariant b <= Scanned(inode.size) && fs.View(tops) == d && NoFree(d, dir, PER_BLOCK * b) && !fs.broken
    {
      var res, now;
      res, block, now := fs.InodeDataBlock(tops, dir, inode, b, false);
      PageOf(d, fs.first, dir, b, block, res);
      if res == 0 && block != 0 {
        e := FindFree(fs.pages[block]);
        NoneFreeInBlock(d, dir, b, e, fs.pages[block]);
        if e < PER_BLOCK { return true, b, block, e; }
      } else {
        NoneFreeAbsent(d, dir, b);
      }
      b := b + 1;
    }
    return false, b, 0, 0;
  }

  lemma NoneFreeInBlock(d: Disk, dir: nat, b: nat, e: nat, page: Page)
    requires b < MAX_BLOCKS && e <= PER_BLOCK && DataAt(d, PosOf(dir, b)) == page && PosOf(dir, b) in d.node
    requires forall f :: 0 <= f < e ==> Word(page, 16 * f) != 0
    requires NoFree(d, dir, PER_BLOCK * b)
    ensures NoFree(d, dir, PER_BLOCK * b + e)
    ensures e < PER_BLOCK && Word(page, 16 * e) == 0 ==> RecordFree(d, dir, PER_BLOCK * b + e)
  {
    hide Word, PosOf, DataAt;
    forall r: nat | r < PER_BLOCK * b + e ensures !RecordFree(d, dir, r) {
      if r >= PER_BLOCK * b { RecordIn(b, r); }
    }
    if e < PER_BLOCK { RecordIn(b, PER_BLOCK * b + e); }
  }

  lemma NoneFreeAbsent(d: Disk, dir: nat, b: nat)
    requires NoFree(d, dir, PER_BLOCK * b) && (b < MAX_BLOCKS ==> PosOf(dir, b) !in d.node)
    ensures NoFree(d, dir, PER_BLOCK * (b + 1))
  {
    hide Word, PosOf, DataAt;
    forall r: nat | r < PER_BLOCK * (b + 1) ensures !RecordFree(d, dir, r) {
      if r >= PER_BLOCK * b { RecordIn(b, r); }
    }
  }

  /** The way to the block behind a directory's last, as far as there can be one. */
  ghost function NextTrail(dir: nat, size: nat): set<Place> {
    if Scanned(size) < MAX_BLOCKS then TrailOf(dir, Scanned(size)) else {}
  }

  /** What an addition to the directory extends it by. */
  ghost function Extension(d: Disk, dir: nat, size: nat): set<Place> {
    if NoFree(d, dir, PER_BLOCK * Scanned(size)) then NextTrail(dir, size) else {}
  }

  /** The last round of dir_add: a block is added behind the ones there are. On failure
      `phantom` are the pointers that would explain the bitmap; they are those on disk
      exactly when no top pointer has been lost. */
  method ExtendDir(fs: MyFs, ghost tops: seq<seq<nat>>, dir: nat)
    returns (ok: bool, block: nat, lost: bool, ghost phantom: seq<seq<nat>>)
    requires fs.Valid() && 0 < dir < |fs.inodes| && fs.live[dir] && tops == Tops(fs.inodes, fs.live) && !fs.broken
    modifies fs`inodes, fs`pages, fs`used, fs`node, fs`home, fs`broken
    ensures var n := Scanned(old(fs.inodes)[dir].size);
      fs.broken <==> n < MAX_BLOCKS && !WalkReach(old(fs.used), fs.first, old(fs.node), dir, n, 0)
    ensures !fs.broken ==> |fs.used| == |old(fs.used)|
    ensures |fs.inodes| == |old(fs.inodes)|
    ensures !fs.broken ==> Inv(fs.View(phantom), fs.first) && SameData(old(fs.View(tops)), fs.View(phantom))
    ensures !fs.broken ==> |phantom| == |tops| && forall j :: 0 <= j < |tops| && j != dir ==>
              phantom[j] == tops[j] && fs.inodes[j] == old(fs.inodes)[j]
    ensures !fs.broken ==> var n := Scanned(old(fs.inodes)[dir].size);
      (ok <==> n < MAX_BLOCKS && MissingFor(old(fs.node), dir, n) <= |Free(old(fs.used), fs.first)|)
    ensures !fs.broken && ok ==> var n := Scanned(old(fs.inodes)[dir].size);
      && PosOf(dir, n) in fs.node && fs.node[PosOf(dir, n)] == block && fs.Valid()
      && phantom == Tops(fs.inodes, fs.live)
      && fs.inodes[dir] == old(fs.inodes)[dir].(size := (n + 1) * PAGE_SIZE, slots := fs.inodes[dir].slots)
    ensures !fs.broken && !ok ==> fs.inodes == old(fs.inodes)
    ensures !fs.broken && !ok ==> var n := Scanned(fs.inodes[dir].size);
      (phantom == tops <==>
         !(n < MAX_BLOCKS && Top(dir, SlotOf(n)) !in old(fs.node) && Free(old(fs.used), fs.first) != {}))
    ensures !fs.broken ==> (lost <==> phantom != Tops(fs.inodes, fs.live))
    ensures !fs.broken && phantom != Tops(fs.inodes, fs.live) ==>
      exists s :: TopLost(Tops(fs.inodes, fs.live), phantom, dir, s)
    ensures !fs.broken ==> TookSome(old(fs.View(tops)), fs.View(phantom), NextTrail(dir, old(fs.inodes)[dir].size))
    ensures !fs.broken && ok ==>
      Took(old(fs.View(tops)), fs.View(phantom), fs.first, NextTrail(dir, old(fs.inodes)[dir].size))
  {
    hide Inv, PosOf, SlotOf, PathOf, Free, MissingFor, SameData, WalkReach, TopLost, Grew, Reach, Shifted, TrailOf,
      Onto, Took;
    ghost var d := fs.View(tops);
    var inode := fs.inodes[dir];
    var n := Scanned(inode.size);
    assert tops[dir] == inode.slots;
    var res, now;
    res, block, now := fs.InodeDataBlock(tops, dir, inode, n, true);
    phantom := tops[dir := now.slots];
    lost := false;
    if fs.broken { return false, 0, lost, phantom; }
    GrewData(d, fs.View(phantom), dir);
    GrewOnto(d, fs.View(phantom), dir);
    if res != 0 {
      if now == inode {
        assert phantom == tops;
      } else {
        lost := true;
        OneTopLost(fs.View(phantom), fs.first, tops, dir, inode, now, n);
      }
      return false, 0, lost, phantom;
    }
    WalkTook(d, fs.View(phantom), fs.first, dir, n);
    fs.inodes := fs.inodes[dir := now.(size := (n + 1) * PAGE_SIZE)];
    assert Tops(fs.inodes, fs.live) == phantom;
    return true, block, false, phantom;
  }

  lemma GrewData(d: Disk, g: Disk, i: nat)
    requires Grew(d, g, i)
    ensures SameData(d, g) && |g.used| == |d.used|
  {
  }

  /** The pointers on disk lack one top pointer that would explain the bitmap. */
  ghost predicate TopLost(tops: seq<seq<nat>>, phantom: seq<seq<nat>>, i: nat, s: nat) {
    && i < |tops| == |phantom| && phantom == tops[i := phantom[i]] && |tops[i]| == |phantom[i]| == SLOTS && s < SLOTS
    && tops[i][s] == 0 && phantom[i][s] != 0 && forall t :: 0 <= t < SLOTS && t != s ==> phantom[i][t] == tops[i][t]
  }

  lemma OneTopLost(g: Disk, first: nat, tops: seq<seq<nat>>, i: nat, inode: Inode, now: Inode, k: nat)
    requires i < |tops| && tops[i] == inode.slots && g.tops == tops[i := now.slots]
    requires SlotsGrew(inode, now, k) && now != inode && k < MAX_BLOCKS && SlotOf(k) < SLOTS
    ensures tops != g.tops && TopLost(tops, g.tops, i, SlotOf(k))
  {
    hide SlotOf;
    assert now.slots != inode.slots;
    var t :| 0 <= t < SLOTS && now.slots[t] != inode.slots[t];
  }

  /** If the inode on disk lacks a top pointer that the bitmap counts, the block behind it
      is allocated and unreachable. */
  lemma LostTop(g: Disk, first: nat, tops: seq<seq<nat>>, i: nat, s: nat)
    requires Inv(g, first) && TopLost(tops, g.tops, i, s)
    ensures tops != g.tops && Lost(tops, g.pages, g.used, first)
  {
    hide Inv;
    assert g.tops[i] != tops[i];
    forall node, home ensures !Inv(Disk(node, home, tops, g.pages, g.used), first) {
      var h := Disk(node, home, tops, g.pages, g.used);
      TopAbsent(h, first, i, s);
      Unexplained(g, h, first, i, s);
    }
  }

  lemma TopAbsent(h: Disk, first: nat, i: nat, s: nat)
    requires i < |h.tops| && s < |h.tops[i]| == SLOTS && h.tops[i][s] == 0
    ensures Inv(h, first) ==> Top(i, s) !in h.node
  {
    if Inv(h, first) { TopFacts(h, first, i, s); }
  }

  /** The bitmap's extra block could only be behind the missing pointer. */
  lemma Unexplained(g: Disk, h: Disk, first: nat, i: nat, s: nat)
    requires Inv(g, first) && h.pages == g.pages && h.used == g.used && i < |h.tops| == |g.tops| && s < SLOTS
    requires h.tops == g.tops[i := h.tops[i]] && |h.tops[i]| == |g.tops[i]| == SLOTS && h.tops[i][s] == 0
    requires g.tops[i][s] != 0
    requires forall t :: 0 <= t < SLOTS && t != s ==> h.tops[i][t] == g.tops[i][t]
    ensures Inv(h, first) ==> Top(i, s) in h.node
  {
    hide Rooted, Linked;
    TopFacts(g, first, i, s);
    BlockNumber(g, first, Top(i, s));
    var b := g.node[Top(i, s)];
    assert g.used[b];
    if Inv(h, first) {
      assert Fewer(h, g);
      Explained(g, h, first, h.home[b]);
    }
  }

  ghost predicate Addable(d: Disk, dir: nat, inode: Inode, name: seq<Byte>) {
    0 < |name| < NAME_MAX && inode.kind == DIRECTORY && NoMatch(d, dir, PER_BLOCK * Scanned(inode.size), name)
  }

  predicate EntryFree(page: Page, e: nat) { e < PER_BLOCK && Word(page, 16 * e) == 0 }

  /** There is a free record, or a block can be added that has one, when `taken` of the
      free blocks are already spoken for. */
  ghost predicate Room(d: Disk, first: nat, dir: nat, size: nat, taken: nat) {
    var n := Scanned(size);
    || !NoFree(d, dir, PER_BLOCK * n)
    || (n < MAX_BLOCKS && MissingFor(d.node, dir, n) <= |Free(d.used, first)| - taken &&
        exists e :: EntryFree(DataAt(d, PosOf(dir, n)), e))
  }

  lemma SamePage(d: Disk, g: Disk, dir: nat, b: nat)
    requires SameData(d, g) && b < MAX_BLOCKS && PosOf(dir, b) in g.node && g.node[PosOf(dir, b)] < |g.pages|
    ensures DataAt(d, PosOf(dir, b)) == g.pages[g.node[PosOf(dir, b)]]
  {
    hide PosOf;
    PosOfIndex(dir, b, dir + 1);
  }

  lemma EntryFound(page: Page, e: nat)
    requires e <= PER_BLOCK && (e < PER_BLOCK ==> Word(page, 16 * e) == 0)
    requires forall f :: 0 <= f < e ==> Word(page, 16 * f) != 0
    ensures e < PER_BLOCK <==> exists f :: EntryFree(page, f)
  {
    hide Word;
    if e < PER_BLOCK { assert EntryFree(page, e); }
  }

  /** dir_add has to add a block, and on the way loses a block or a pointer. */
  ghost predicate Overreaches(d: Disk, first: nat, dir: nat, inode: Inode, name: seq<Byte>, taken: nat) {
    var n := Scanned(inode.size);
    && Addable(d, dir, inode, name) && NoFree(d, dir, PER_BLOCK * n)
    && n < MAX_BLOCKS && !WalkReach(d.used, first, d.node, dir, n, taken)
  }

  /** dir_add. The file system stays consistent except in the one case that Leaks names,
      and in that case no reading of the pointers on disk explains the bitmap. The code does
      not report `lost`. */
  method DirAdd(fs: MyFs, dir: nat, name: seq<Byte>, ino: nat)
    returns (added: bool, lost: bool, ghost phantom: seq<seq<nat>>, ghost r: nat)
    requires fs.Valid() && 0 < dir < |fs.inodes| && fs.live[dir] && 0 < ino < 0x1_0000_0000 && !fs.broken
    modifies fs`inodes, fs`pages, fs`used, fs`node, fs`home, fs`broken
    ensures fs.broken <==>
      Overreaches(old(fs.View(Tops(fs.inodes, fs.live))), fs.first, dir, old(fs.inodes)[dir], name, 0)
    ensures |fs.inodes| == |old(fs.inodes)|
    ensures !fs.broken ==> OnlyGrew(old(fs.inodes), fs.inodes, dir) && |fs.used| == |old(fs.used)|
    ensures !fs.broken ==> Inv(fs.View(phantom), fs.first) && OthersKept(old(Tops(fs.inodes, fs.live)), phantom, dir)
    ensures !fs.broken && phantom == Tops(fs.inodes, fs.live) ==> fs.Valid()
    ensures !fs.broken ==> (lost <==> phantom != Tops(fs.inodes, fs.live))
    ensures !fs.broken ==> var d := old(fs.View(Tops(fs.inodes, fs.live)));
      (phantom == Tops(fs.inodes, fs.live) <==>
         !(Addable(d, dir, old(fs.inodes)[dir], name) && Leaks(d, fs.first, dir, old(fs.inodes)[dir].size)))
    ensures !fs.broken && phantom != Tops(fs.inodes, fs.live) ==>
              Lost(Tops(fs.inodes, fs.live), fs.pages, fs.used, fs.first) &&
              exists s :: TopLost(Tops(fs.inodes, fs.live), phantom, dir, s)
    ensures !fs.broken && added ==> phantom == Tops(fs.inodes, fs.live)
    ensures !fs.broken ==> var d := old(fs.View(Tops(fs.inodes, fs.live)));
      (added <==> Addable(d, dir, old(fs.inodes)[dir], name) && Room(d, fs.first, dir, old(fs.inodes)[dir].size, 0))
    ensures !fs.broken && added ==> AddedAt(old(fs.View(Tops(fs.inodes, fs.live))), fs.View(phantom), dir, r, ino, name)
    ensures !fs.broken && added ==> r < PER_BLOCK * Scanned(fs.inodes[dir].size)
    ensures !fs.broken && !added ==> SameData(old(fs.View(Tops(fs.inodes, fs.live))), fs.View(phantom))
    ensures !fs.broken && !added && old(fs.inodes)[dir].kind != DIRECTORY ==> fs.inodes == old(fs.inodes)
    ensures !fs.broken && !added &&
            BlankBehind(old(fs.View(Tops(fs.inodes, fs.live))), dir, old(fs.inodes)[dir].size) ==>
              fs.inodes == old(fs.inodes)
    ensures !fs.broken ==> var d := old(fs.View(Tops(fs.inodes, fs.live)));
      TookSome(d, fs.View(phantom), Extension(d, dir, old(fs.inodes)[dir].size))
    ensures !fs.broken && added ==> var d := old(fs.View(Tops(fs.inodes, fs.live)));
      Took(d, fs.View(phantom), fs.first, Extension(d, dir, old(fs.inodes)[dir].size))
  {
    hide Inv, PosOf, SlotOf, Free, MissingFor, SameData, Lost, AddedAt, NoMatch, NoFree, RecordFree, Word, Blocks,
      EntryFree, WalkReach, TopLost, BlankBehind, Took, TookSome, NextTrail, Extension, Scanned;
    lost := false;
    phantom, r := Tops(fs.inodes, fs.live), 0;
    ghost var tops := phantom;
    ghost var d := fs.View(tops);
    SameDataRefl(d);
    NothingTaken(d, fs.first, dir, fs.inodes[dir].size);
    ExtensionIs(d, dir, fs.inodes[dir].size);
    if |name| == 0 || |name| >= NAME_MAX { return false, lost, phantom, r; }
    var found, x, y, z := DirFind(fs, dir, name);
    if found || fs.inodes[dir].kind != DIRECTORY { return false, lost, phantom, r; }
    assert Addable(d, dir, fs.inodes[dir], name);
    var ok, b, block, e := FindSpace(fs, tops, dir);
    if ok {
      SomeFree(d, dir, b, e, Scanned(fs.inodes[dir].size));
      PutEntry(fs, tops, d, dir, b, block, e, ino, name);
      TookStill(d, d, fs.View(phantom), fs.first, {});
      return true, false, phantom, PER_BLOCK * b + e;
    }
    added, lost, phantom, r := AddBehind(fs, tops, dir, name, ino);
  }

  /** dir_add when no record is free: a block is added and its first free record filled in. */
  method AddBehind(fs: MyFs, ghost tops: seq<seq<nat>>, dir: nat, name: seq<Byte>, ino: nat)
    returns (added: bool, lost: bool, ghost phantom: seq<seq<nat>>, ghost r: nat)
    requires fs.Valid() && 0 < dir < |fs.inodes| && fs.live[dir] && 0 < ino < 0x1_0000_0000 && !fs.broken
    requires |name| < NAME_MAX
    requires tops == Tops(fs.inodes, fs.live) && NoFree(fs.View(tops), dir, PER_BLOCK * Scanned(fs.inodes[dir].size))
    modifies fs`inodes, fs`pages, fs`used, fs`node, fs`home, fs`broken
    ensures var n := Scanned(old(fs.inodes)[dir].size);
      fs.broken <==> n < MAX_BLOCKS && !WalkReach(old(fs.used), fs.first, old(fs.node), dir, n, 0)
    ensures |fs.inodes| == |old(fs.inodes)|
    ensures !fs.broken ==> OnlyGrew(old(fs.inodes), fs.inodes, dir) && |fs.used| == |old(fs.used)|
    ensures !fs.broken ==> Inv(fs.View(phantom), fs.first) && OthersKept(tops, phantom, dir)
    ensures !fs.broken && phantom == Tops(fs.inodes, fs.live) ==> fs.Valid()
    ensures !fs.broken ==> (lost <==> phantom != Tops(fs.inodes, fs.live))
    ensures !fs.broken ==> (lost <==> Leaks(old(fs.View(tops)), fs.first, dir, old(fs.inodes)[dir].size))
    ensures !fs.broken && lost ==>
      Lost(Tops(fs.inodes, fs.live), fs.pages, fs.used, fs.first) &&
      exists s :: TopLost(Tops(fs.inodes, fs.live), phantom, dir, s)
    ensures !fs.broken && added ==> !lost && r < PER_BLOCK * Scanned(fs.inodes[dir].size)
    ensures !fs.broken ==> (added <==> Room(old(fs.View(tops)), fs.first, dir, old(fs.inodes)[dir].size, 0))
    ensures !fs.broken && added ==> AddedAt(old(fs.View(tops)), fs.View(phantom), dir, r, ino, name)
    ensures !fs.broken && !added ==> SameData(old(fs.View(tops)), fs.View(phantom))
    ensures !fs.broken && !added && BlankBehind(old(fs.View(tops)), dir, old(fs.inodes)[dir].size) ==>
      fs.inodes == old(fs.inodes)
    ensures !fs.broken ==> TookSome(old(fs.View(tops)), fs.View(phantom), NextTrail(dir, old(fs.inodes)[dir].size))
    ensures !fs.broken && added ==>
      Took(old(fs.View(tops)), fs.View(phantom), fs.first, NextTrail(dir, old(fs.inodes)[dir].size))
  {
    hide Inv, PosOf, SlotOf, Free, MissingFor, SameData, Lost, AddedAt, NoFree, Word, Blocks, EntryFree, WalkReach,
      TopLost, BlankBehind, Took, TookSome, NextTrail, Scanned, OnlyGrew, OthersKept, Leaks, Room, Tops;
    ghost var d, inodes, size := fs.View(tops), fs.inodes, fs.inodes[dir].size;
    r := 0;
    var b := Scanned(fs.inodes[dir].size);
    var ok, block;
    ok, block, lost, phantom := ExtendDir(fs, tops, dir);
    if fs.broken { return false, lost, phantom, r; }
    TopsLong(inodes, fs.live);
    Growth(inodes, fs.inodes, tops, phantom, dir, ok);
    if !ok {
      Verdict(d, fs.first, dir, size, false, false);
      if phantom != Tops(fs.inodes, fs.live) {
        var s :| TopLost(Tops(fs.inodes, fs.live), phantom, dir, s);
        LostTop(fs.View(phantom), fs.first, Tops(fs.inodes, fs.live), dir, s);
      }
      return false, lost, phantom, r;
    }
    BlockNumber(fs.View(phantom), fs.first, PosOf(dir, b));
    SamePage(d, fs.View(phantom), dir, b);
    var e := FindFree(fs.pages[block]);
    EntryFound(fs.pages[block], e);
    Verdict(d, fs.first, dir, size, true, e < PER_BLOCK);
    if e < PER_BLOCK {
      GrownSize(b);
      ghost var g := fs.View(phantom);
      PutEntry(fs, phantom, d, dir, b, block, e, ino, name);
      TookStill(d, g, fs.View(phantom), fs.first, NextTrail(dir, size));
      return true, false, phantom, PER_BLOCK * b + e;
    }
    BlankIsFree(d, dir, size);
    return false, lost, phantom, r;
  }

  lemma TopsLong(inodes: seq<Inode>, live: seq<bool>)
    ensures |Tops(inodes, live)| == |inodes|
  {
  }

  lemma Growth(before: seq<Inode>, after: seq<Inode>, tops: seq<seq<nat>>, phantom: seq<seq<nat>>, dir: nat, ok: bool)
    requires dir < |before| == |after| == |tops| == |phantom|
    requires forall j :: 0 <= j < |tops| && j != dir ==> phantom[j] == tops[j] && after[j] == before[j]
    requires !ok ==> after == before
    requires ok ==> var n := Scanned(before[dir].size);
      n < MAX_BLOCKS && after[dir] == before[dir].(size := (n + 1) * PAGE_SIZE, slots := after[dir].slots)
    ensures OnlyGrew(before, after, dir) && OthersKept(tops, phantom, dir)
  {
    hide Scanned;
    if ok { GrownSize(Scanned(before[dir].size)); }
  }

  /** Without a free record: what the last round tells of room and of the leak. */
  lemma Verdict(d: Disk, first: nat, dir: nat, size: nat, ok: bool, found: bool)
    requires NoFree(d, dir, PER_BLOCK * Scanned(size))
    requires ok <==> Scanned(size) < MAX_BLOCKS && MissingFor(d.node, dir, Scanned(size)) <= |Free(d.used, first)|
    requires ok ==> (found <==> exists e :: EntryFree(DataAt(d, PosOf(dir, Scanned(size))), e))
    ensures Room(d, first, dir, size, 0) <==> ok && found
    ensures Leaks(d, first, dir, size) <==>
      !ok && Scanned(size) < MAX_BLOCKS && Top(dir, SlotOf(Scanned(size))) !in d.node && Free(d.used, first) != {}
  {
    hide NoFree, Scanned, MissingFor, Free, EntryFree, PosOf, DataAt, SlotOf;
  }

  lemma NothingTaken(d: Disk, first: nat, dir: nat, size: nat)
    ensures TookSome(d, d, Extension(d, dir, size)) && Took(d, d, first, {})
  {
    TookNone(d, d, first);
  }

  lemma ExtensionIs(d: Disk, dir: nat, size: nat)
    ensures NoFree(d, dir, PER_BLOCK * Scanned(size)) ==> Extension(d, dir, size) == NextTrail(dir, size)
    ensures !NoFree(d, dir, PER_BLOCK * Scanned(size)) ==> Extension(d, dir, size) == {}
  {
  }

  lemma TookStill(d: Disk, e: Disk, g: Disk, first: nat, places: set<Place>)
    requires Took(d, e, first, places) && g.node == e.node && g.used == e.used
    ensures Took(d, g, first, places) && TookSome(d, g, places)
  {
  }

  /** The block behind a directory's last starts with a free record. */
  ghost predicate BlankBehind(d: Disk, dir: nat, size: nat) {
    var n := Scanned(size);
    n < MAX_BLOCKS ==> EntryFree(DataAt(d, PosOf(dir, n)), 0)
  }

  lemma BlankIsFree(d: Disk, dir: nat, size: nat)
    requires Scanned(size) < MAX_BLOCKS
    ensures BlankBehind(d, dir, size) ==> exists e :: EntryFree(DataAt(d, PosOf(dir, Scanned(size))), e)
  {
    hide PosOf, Word, DataAt;
  }

  lemma GrownSize(b: nat)
    requires b < MAX_BLOCKS
    ensures b < Scanned((b + 1) * PAGE_SIZE) && forall size: nat :: b == Scanned(size) ==> size <= (b + 1) * PAGE_SIZE
  {
  }

  ghost predicate OnlyGrew(before: seq<Inode>, after: seq<Inode>, dir: nat) {
    && |after| == |before| && dir < |before| && before[dir].size <= after[dir].size
    && after == before[dir := before[dir].(size := after[dir].size, slots := after[dir].slots)]
  }

  ghost predicate OthersKept(tops: seq<seq<nat>>, tops': seq<seq<nat>>, dir: nat) {
    |tops'| == |tops| && forall j :: 0 <= j < |tops| && j != dir ==> tops'[j] == tops[j]
  }

  lemma SameDataRefl(d: Disk)
    ensures SameData(d, d)
  {
  }

  lemma SomeFree(d: Disk, dir: nat, b: nat, e: nat, n: nat)
    requires b < n && e < PER_BLOCK && RecordFree(d, dir, PER_BLOCK * b + e)
    ensures !NoFree(d, dir, PER_BLOCK * n)
  {
    hide RecordFree;
  }

  /** After dir_add the name is found, in the record just written, and every other name is
      found where it was. */
  lemma FoundAfterAdd(d: Disk, g: Disk, dir: nat, r: nat, ino: nat, name: seq<Byte>, n: nat, other: seq<Byte>, q: nat)
    requires 0 < ino < 0x1_0000_0000 && 0 < |name| < NAME_MAX && AddedAt(d, g, dir, r, ino, name) && r < n
    requires Proper(name) && Proper(other) && NoMatch(d, dir, n, name) && q < n
    ensures RecordMatches(g, dir, q, other) <==> if other == name then q == r else RecordMatches(d, dir, q, other)
    ensures Word(DataAt(g, PosOf(dir, r / PER_BLOCK)), 16 * (r % PER_BLOCK)) == ino
  {
    hide PosOf, DataAt, Word, PutRecord, Matches;
    var b, p := r / PER_BLOCK, PosOf(dir, r / PER_BLOCK);
    PutRecordWord(DataAt(d, p), r % PER_BLOCK, ino, name, r % PER_BLOCK);
    assert !RecordMatches(d, dir, q, name);
    if q / PER_BLOCK < MAX_BLOCKS {
      PosOfIndex(dir, q / PER_BLOCK, dir + 1);
      if q / PER_BLOCK == b {
        PutRecordMatches(DataAt(d, p), r % PER_BLOCK, ino, name, q % PER_BLOCK, other);
        FreeNoMatch(DataAt(d, p), r % PER_BLOCK, other);
      } else if PosOf(dir, q / PER_BLOCK) == p {
        PosOfInjective(dir, q / PER_BLOCK, dir, b);
      }
    }
  }

  lemma FreeNoMatch(page: Page, e: nat, name: seq<Byte>)
    requires e < PER_BLOCK && Word(page, 16 * e) == 0
    ensures !Matches(page, e, name)
  {
  }

  // ------------------------------------------------------------------ creation

  ghost predicate InodeLeft(live: seq<bool>) {
    exists j :: ROOT < j < |live| && !live[j]
  }

  /** The lowest free inode number, if there is one, fits a C int. */
  ghost predicate InodesReach(live: seq<bool>) {
    InodeLeft(live) ==> exists j :: ROOT < j < |live| && j < INT_LIMIT && !live[j]
  }

  /** The inode allocator: the lowest free number above the root. Its number passes through a
      C int too. */
  method AllocInode(fs: MyFs) returns (ok: bool, n: nat)
    requires |fs.live| == |fs.inodes| <= 0x1_0000_0000 && !fs.broken
    modifies fs`broken
    ensures fs.broken <==> !InodesReach(fs.live)
    ensures !fs.broken ==> (ok <==> InodeLeft(fs.live))
    ensures ok ==>
      !fs.broken && ROOT < n < |fs.live| && n < INT_LIMIT && !fs.live[n] && forall j :: ROOT < j < n ==> fs.live[j]
  {
    n := ROOT + 1;
    while n < |fs.live|
      invariant n > ROOT && forall j :: ROOT < j < n && j < |fs.live| ==> fs.live[j]
      invariant !fs.broken
    {
      if !fs.live[n] {
        if Signed(n) < 0 {
          fs.broken := true;
          return false, 0;
        }
        return true, n;
      }
      n := n + 1;
    }
    return false, 0;
  }

  function Dot(): seq<Byte> { [46] }
  function DotDot(): seq<Byte> { [46, 46] }

  /** The first block of a new directory. */
  function DirPage(n: nat, parent: nat): Page
    requires n < 0x1_0000_0000 && parent < 0x1_0000_0000
  {
    PutRecord(PutRecord(ZeroPage(), 0, n, Dot()), 1, parent, DotDot())
  }

  /** Inode n is a directory of one block, with itself and `parent` in it. */
  ghost predicate NewDir(d: Disk, inodes: seq<Inode>, n: nat, parent: nat) {
    && n < |inodes| <= 0x1_0000_0000 && parent < |inodes| && |inodes[n].slots| == SLOTS
    && inodes[n] == Inode(PAGE_SIZE, DIRECTORY, 1, NoSlots()[0 := inodes[n].slots[0]])
    && DataAt(d, PosOf(n, 0)) == DirPage(n, parent)
  }

  /** "." and ".." are the only names in it. */
  lemma DirPageNames(n: nat, parent: nat, e: nat, name: seq<Byte>)
    requires 0 < n < 0x1_0000_0000 && 0 < parent < 0x1_0000_0000 && e < PER_BLOCK && Proper(name)
    ensures Matches(DirPage(n, parent), e, name) <==> (e == 0 && name == Dot()) || (e == 1 && name == DotDot())
    ensures Word(DirPage(n, parent), 0) == n && Word(DirPage(n, parent), 16) == parent
  {
    hide Word, Matches, PutRecord;
    var one := PutRecord(ZeroPage(), 0, n, Dot());
    BlankRecord(e, name);
    PutRecordMatches(ZeroPage(), 0, n, Dot(), e, name);
    PutRecordMatches(one, 1, parent, DotDot(), e, name);
    PutRecordWord(ZeroPage(), 0, n, Dot(), 0);
    PutRecordWord(one, 1, parent, DotDot(), 0);
    PutRecordWord(one, 1, parent, DotDot(), 1);
  }

  /** The new inode, with the block of a new directory already behind it. */
  method MakeInode(fs: MyFs, n: nat, parent: nat, kind: nat) returns (ok: bool)
    requires fs.Valid() && ROOT < n < |fs.inodes| <= 0x1_0000_0000 && !fs.live[n] && parent < |fs.inodes| && !fs.broken
    modifies fs`inodes, fs`live, fs`pages, fs`used, fs`node, fs`home, fs`broken
    ensures fs.broken <==> kind == DIRECTORY && !Reach(old(fs.used), fs.first, 0, 1, INT_LIMIT)
    ensures |fs.inodes| == |old(fs.inodes)|
    ensures !fs.broken ==> fs.Valid() && |fs.used| == |old(fs.used)|
    ensures !fs.broken ==> (ok <==> kind != DIRECTORY || Free(old(fs.used), fs.first) != {})
    ensures !fs.broken && !ok ==> fs.inodes == old(fs.inodes) && fs.live == old(fs.live)
    ensures !fs.broken && !ok ==> fs.View(Tops(fs.inodes, fs.live)) == old(fs.View(Tops(fs.inodes, fs.live)))
    ensures !fs.broken && ok ==> fs.live == old(fs.live)[n := true] && fs.inodes == old(fs.inodes)[n := fs.inodes[n]]
    ensures !fs.broken && ok ==> fs.inodes[n].kind == kind && fs.inodes[n].links == 1
    ensures !fs.broken && ok && kind != DIRECTORY ==> fs.inodes[n] == Inode(0, kind, 1, NoSlots())
    ensures !fs.broken && ok && kind == DIRECTORY ==> NewDir(fs.View(Tops(fs.inodes, fs.live)), fs.inodes, n, parent)
    ensures !fs.broken && ok ==>
      OthersData(old(fs.View(Tops(fs.inodes, fs.live))), fs.View(Tops(fs.inodes, fs.live)), n)
    ensures !fs.broken && ok ==> |Free(fs.used, fs.first)| == |Free(old(fs.used), fs.first)| - Taken(kind)
    ensures !fs.broken && ok ==> Shifted(old(fs.used), fs.used, fs.first, Taken(kind))
    ensures !fs.broken && ok ==>
      Took(old(fs.View(Tops(fs.inodes, fs.live))), fs.View(Tops(fs.inodes, fs.live)), fs.first, Own(n, kind))
  {
    hide Inv, Free, OthersData, PutRecord, AttachTop, SetData, PosOf, DataAt, DirPage, Reach, Shifted, Took;
    ghost var tops := Tops(fs.inodes, fs.live);
    ghost var d := fs.View(tops);
    OthersRefl(d, n);
    TopFacts(d, fs.first, n, 0);
    ShiftedNone(fs.used, fs.first);
    var inode := Inode(0, kind, 1, NoSlots());
    if kind == DIRECTORY {
      var b; ghost var f;
      b, f := fs.AllocDataBlock();
      if b < 0 { return false; }
      FreeTaken(d.used, fs.first, b);
      inode := inode.(size := PAGE_SIZE, slots := NoSlots()[0 := b]);
      fs.pages := fs.pages[b := DirPage(n, parent)];
      FirstBlock(d, fs.first, n, b, DirPage(n, parent), fs.View(tops[n := inode.slots]));
      fs.node, fs.home := fs.node[Top(n, 0) := b], fs.home[b := Top(n, 0)];
    }
    fs.inodes, fs.live := fs.inodes[n := inode], fs.live[n := true];
    assert Tops(fs.inodes, fs.live) == tops[n := inode.slots];
    if kind != DIRECTORY { assert tops[n := inode.slots] == tops; }
    OwnTook(d, fs.View(tops[n := inode.slots]), fs.first, n, kind, inode.slots[0]);
    return true;
  }

  /** The position a new inode has from the start. */
  ghost function Own(n: nat, kind: nat): set<Place> { if kind == DIRECTORY then {Top(n, 0)} else {} }

  lemma OwnTook(d: Disk, g: Disk, first: nat, n: nat, kind: nat, b: nat)
    requires Inv(d, first) && n < |d.tops| && d.tops[n] == NoSlots() && Shifted(d.used, g.used, first, Taken(kind))
    requires if kind == DIRECTORY then g.node == d.node[Top(n, 0) := b] else g.node == d.node
    ensures Took(d, g, first, Own(n, kind))
  {
    hide Inv, Shifted;
    if kind == DIRECTORY {
      FirstPlace(d, first, n);
      assert {Top(n, 0)} - d.node.Keys == {Top(n, 0)};
      assert g.node.Keys == d.node.Keys + {Top(n, 0)};
    } else {
      assert {} - d.node.Keys == {};
    }
  }

  lemma FirstPlace(d: Disk, first: nat, n: nat)
    requires Inv(d, first) && n < |d.tops| && d.tops[n] == NoSlots()
    ensures Top(n, 0) !in d.node
  {
    hide Inv;
    NoneOwned(d, first, n);
  }

  /** The blocks a new inode takes for itself. */
  function Taken(kind: nat): nat { if kind == DIRECTORY then 1 else 0 }

  /** The blocks and the data of every inode but i are as they were. */
  ghost predicate OthersData(d: Disk, g: Disk, i: nat) {
    && (forall p: Place :: p.Level() == 0 && p.Ino() != i ==> DataAt(g, p) == DataAt(d, p))
    && (forall p: Place :: p.Ino() != i ==> (p in g.node <==> p in d.node))
  }

  lemma OthersRefl(d: Disk, i: nat)
    ensures OthersData(d, d, i)
  {
  }

  lemma FirstBlock(d: Disk, first: nat, n: nat, b: nat, page: Page, g: Disk)
    requires Inv(d, first) && n < |d.tops| && d.tops[n] == NoSlots() && first <= b < |d.used| && !d.used[b]
    requires |d.pages| == |d.used|
    requires g == Disk(d.node, d.home, d.tops[n := NoSlots()[0 := b]], d.pages[b := ZeroPage()][b := page],
                       d.used[b := true])
    ensures Inv(g.(node := d.node[Top(n, 0) := b], home := d.home[b := Top(n, 0)]), first)
    ensures OthersData(d, g.(node := d.node[Top(n, 0) := b], home := d.home[b := Top(n, 0)]), n)
    ensures DataAt(g.(node := d.node[Top(n, 0) := b], home := d.home[b := Top(n, 0)]), PosOf(n, 0)) == page
  {
    hide Inv, DataAt;
    assert PosOf(n, 0) == Top(n, 0);
    var h := g.(node := d.node[Top(n, 0) := b], home := d.home[b := Top(n, 0)]);
    var e := AttachTop(d, n, 0, b);
    AttachTopKeeps(d, first, n, 0, b);
    AttachTopData(d, first, n, 0, b);
    SetDataKeeps(e, first, b, page);
    assert h == SetData(e, b, page);
    forall p: Place | p.Level() == 0 && p.Ino() != n ensures DataAt(h, p) == DataAt(d, p) {
      SetDataAt(e, first, b, page, p);
    }
    SetDataAt(e, first, b, page, Top(n, 0));
  }

  /** The failure exit of fs_create_path: the new inode's blocks and number are returned. */
  method Discard(fs: MyFs, ghost tops: seq<seq<nat>>, n: nat) returns (ghost tops': seq<seq<nat>>)
    requires n < |fs.inodes| == |fs.live| == |tops| && fs.live[n] && tops[n] == fs.inodes[n].slots && |tops[n]| == SLOTS
    requires Inv(fs.View(tops), fs.first)
    modifies fs`live, fs`used, fs`node, fs`home
    ensures fs.live == old(fs.live)[n := false] && tops' == tops[n := NoSlots()] && Inv(fs.View(tops'), fs.first)
    ensures |fs.used| == |old(fs.used)|
    ensures OthersData(old(fs.View(tops)), fs.View(tops'), n) && Shed(old(fs.View(tops)), fs.View(tops'), n)
  {
    hide Inv, ClearedSlots, DropSlots, Upto, OthersData, Shed;
    ghost var d := fs.View(tops);
    fs.FreeInodeBlocks(d, n, fs.inodes[n].slots);
    ghost var g := DropSlots(d, n, Upto(SLOTS));
    DropSlotsKeeps(d, fs.first, n, Upto(SLOTS));
    DropSheds(d, fs.first, n);
    fs.node, fs.home := g.node, g.home;
    ClearedIsDrop(d, fs.used, n);
    DroppedTops(d, n);
    fs.live := fs.live[n := false];
    return g.tops;
  }

  lemma DroppedTops(d: Disk, n: nat)
    requires n < |d.tops| && |d.tops[n]| == SLOTS
    ensures DropSlots(d, n, Upto(SLOTS)).tops == d.tops[n := NoSlots()]
    ensures OthersData(d, DropSlots(d, n, Upto(SLOTS)), n)
  {
    hide DataAt, Upto;
    var g := DropSlots(d, n, Upto(SLOTS));
    assert g.tops[n] == NoSlots();
    forall p: Place | p.Level() == 0 && p.Ino() != n ensures DataAt(g, p) == DataAt(d, p) {
      DropSlotsData(d, n, Upto(SLOTS), p);
    }
  }

  /** Leaks, when `taken` of the free blocks will be gone by then. */
  ghost predicate LeaksWith(d: Disk, first: nat, dir: nat, size: nat, taken: nat) {
    var n := Scanned(size);
    && n < MAX_BLOCKS && NoFree(d, dir, PER_BLOCK * n) && Top(dir, SlotOf(n)) !in d.node
    && 0 < |Free(d.used, first)| - taken < MissingFor(d.node, dir, n)
  }

  /** Record r of the directory has this name for inode `ino`. */
  ghost predicate NamesAt(d: Disk, dir: nat, name: seq<Byte>, ino: nat, r: nat) {
    RecordMatches(d, dir, r, name) && ino == Word(DataAt(d, PosOf(dir, r / PER_BLOCK)), 16 * (r % PER_BLOCK))
  }

  /** Only the data of inode n may differ. */
  ghost predicate KeptData(d: Disk, g: Disk, n: nat) {
    forall p: Place :: p.Level() == 0 && p.Ino() != n ==> DataAt(g, p) == DataAt(d, p)
  }

  /** The link count of the parent: one more for the ".." of a new directory, in 16 bits. */
  function LinksAfter(parent: Inode, newDir: bool): nat {
    if newDir then (parent.links + 1) % 0x1_0000 else parent.links
  }

  /** fs_create_path gets as far as the inode bitmap. */
  ghost predicate Tried(d: Disk, inodes: seq<Inode>, live: seq<bool>, parent: nat, leaf: seq<Byte>)
    requires parent < |inodes|
  {
    && leaf != Dot() && leaf != DotDot() && InodeLeft(live)
    && (inodes[parent].kind == DIRECTORY ==> NoMatch(d, parent, PER_BLOCK * Scanned(inodes[parent].size), leaf))
  }

  /** It gets as far as the parent's records. */
  ghost predicate Begun(d: Disk, first: nat, inodes: seq<Inode>, live: seq<bool>, parent: nat, leaf: seq<Byte>,
                        kind: nat)
    requires parent < |inodes|
  {
    Tried(d, inodes, live, parent, leaf) && (kind == DIRECTORY ==> Free(d.used, first) != {})
  }

  /** What fs_create_path needs: a new name, an inode, a block for a directory, and room in
      the parent. */
  ghost predicate Creatable(d: Disk, first: nat, inodes: seq<Inode>, live: seq<bool>, parent: nat, leaf: seq<Byte>,
                            kind: nat)
    requires parent < |inodes|
  {
    && Begun(d, first, inodes, live, parent, leaf, kind) && Addable(d, parent, inodes[parent], leaf)
    && Room(d, first, parent, inodes[parent].size, Taken(kind))
  }

  /** Exactly when a creation loses a number that does not fit a C int, or a pointer. */
  ghost predicate Astray(d: Disk, first: nat, inodes: seq<Inode>, live: seq<bool>, parent: nat, leaf: seq<Byte>,
                         kind: nat)
    requires parent < |inodes|
  {
    Tried(d, inodes, live, parent, leaf) &&
    (|| !InodesReach(live)
     || (kind == DIRECTORY && !Reach(d.used, first, 0, 1, INT_LIMIT))
     || (Begun(d, first, inodes, live, parent, leaf, kind) &&
         Overreaches(d, first, parent, inodes[parent], leaf, Taken(kind))))
  }

  /** Exactly when a creation leaves a block allocated that no pointer reaches. */
  ghost predicate Forfeits(d: Disk, first: nat, inodes: seq<Inode>, live: seq<bool>, parent: nat, leaf: seq<Byte>,
                           kind: nat)
    requires parent < |inodes|
  {
    && Begun(d, first, inodes, live, parent, leaf, kind) && Addable(d, parent, inodes[parent], leaf)
    && LeaksWith(d, first, parent, inodes[parent].size, Taken(kind))
  }

  /** AddedAt, except that inode n is new. */
  ghost predicate AddedBut(d: Disk, g: Disk, dir: nat, r: nat, n: nat, name: seq<Byte>) {
    && n < 0x1_0000_0000 && |name| < NAME_MAX && r / PER_BLOCK < MAX_BLOCKS
    && Word(DataAt(d, PosOf(dir, r / PER_BLOCK)), 16 * (r % PER_BLOCK)) == 0
    && (forall p: Place :: p.Level() == 0 && p.Ino() != n && p != PosOf(dir, r / PER_BLOCK) ==>
          DataAt(g, p) == DataAt(d, p))
    && DataAt(g, PosOf(dir, r / PER_BLOCK)) == PutRecord(DataAt(d, PosOf(dir, r / PER_BLOCK)), r % PER_BLOCK, n, name)
  }

  /** The parent's inode afterwards: perhaps longer, and one link more for a new directory. */
  ghost predicate ParentAfter(before: seq<Inode>, after: seq<Inode>, parent: nat, n: nat, newDir: bool) {
    && |after| == |before| && parent < |before| && before[parent].size <= after[parent].size
    && (forall j :: 0 <= j < |before| && j != parent && j != n ==> after[j] == before[j])
    && after[parent] == before[parent].(size := after[parent].size, slots := after[parent].slots,
                                        links := LinksAfter(before[parent], newDir))
  }

  /** fs_create_path once the parent is known. */
  method Create(fs: MyFs, parent: nat, leaf: seq<Byte>, kind: nat) returns (ok: bool, n: nat, lost: bool, ghost r: nat)
    requires fs.Valid() && 0 < parent < |fs.inodes| <= 0x1_0000_0000 && fs.live[parent] && Proper(leaf) && !fs.broken
    modifies fs`inodes, fs`live, fs`pages, fs`used, fs`node, fs`home, fs`broken
    ensures fs.broken <==>
      Astray(old(fs.View(Tops(fs.inodes, fs.live))), fs.first, old(fs.inodes), old(fs.live), parent, leaf, kind)
    ensures !fs.broken ==>
      (ok <==>
         Creatable(old(fs.View(Tops(fs.inodes, fs.live))), fs.first, old(fs.inodes), old(fs.live), parent, leaf, kind))
    ensures !fs.broken ==> (fs.Valid() <==> !lost)
    ensures !fs.broken ==>
      (lost <==>
         Forfeits(old(fs.View(Tops(fs.inodes, fs.live))), fs.first, old(fs.inodes), old(fs.live), parent, leaf, kind))
    ensures !fs.broken && ok ==> fs.Valid() && ROOT < n < |fs.inodes| && n != parent && !old(fs.live)[n]
    ensures !fs.broken && ok ==>
      fs.live == old(fs.live)[n := true] && fs.inodes[n].kind == kind && fs.inodes[n].links == 1
    ensures !fs.broken && ok ==>
      AddedBut(old(fs.View(Tops(fs.inodes, fs.live))), fs.View(Tops(fs.inodes, fs.live)), parent, r, n, leaf)
    ensures !fs.broken && ok ==> r < PER_BLOCK * Scanned(fs.inodes[parent].size)
    ensures !fs.broken && ok && kind != DIRECTORY ==> fs.inodes[n] == Inode(0, kind, 1, NoSlots())
    ensures !fs.broken && ok && kind == DIRECTORY ==> NewDir(fs.View(Tops(fs.inodes, fs.live)), fs.inodes, n, parent)
    ensures |fs.inodes| == |old(fs.inodes)|
    ensures !fs.broken ==>
      ParentAfter(old(fs.inodes), fs.inodes, parent, n, ok && kind == DIRECTORY) && |fs.used| == |old(fs.used)|
    ensures !fs.broken && !ok ==>
      fs.live == old(fs.live) && n != parent && (n < |old(fs.live)| && old(fs.live)[n] ==> n == 0)
    ensures !fs.broken && !ok && fs.Valid() ==>
      KeptData(old(fs.View(Tops(fs.inodes, fs.live))), fs.View(Tops(fs.inodes, fs.live)), n)
    ensures !fs.broken && !ok && old(fs.inodes)[parent].kind != DIRECTORY ==>
      fs.inodes[parent] == old(fs.inodes)[parent]
    ensures !fs.broken && !ok &&
            BlankBehind(old(fs.View(Tops(fs.inodes, fs.live))), parent, old(fs.inodes)[parent].size) ==>
      fs.inodes[parent] == old(fs.inodes)[parent]
    ensures !fs.broken && ok ==> var d := old(fs.View(Tops(fs.inodes, fs.live)));
      Took(d, fs.View(Tops(fs.inodes, fs.live)), fs.first,
           Own(n, kind) + Extension(d, parent, old(fs.inodes)[parent].size))
    ensures !fs.broken && !ok && fs.Valid() ==> var d := old(fs.View(Tops(fs.inodes, fs.live)));
      TookSome(d, fs.View(Tops(fs.inodes, fs.live)), Extension(d, parent, old(fs.inodes)[parent].size))
  {
    hide Took, TookSome, Own, Extension;
    hide Inv, Free, OthersData, SameData, Lost, AddedAt, NoMatch, NoFree, Leaks, OthersKept, LeaksWith, Room, NewDir,
      Reach, KeptData, WalkReach, Shifted, AddedBut, BlankBehind, InodeLeft, Addable, Overreaches;
    n, lost, r := 0, false, 0;
    ghost var d := fs.View(Tops(fs.inodes, fs.live));
    KeptRefl(d);
    NothingTaken(d, fs.first, parent, fs.inodes[parent].size);
    if leaf == Dot() || leaf == DotDot() { return false, 0, false, 0; }
    var found, x, y, z := DirFind(fs, parent, leaf);
    if found { return false, 0, false, 0; }
    ok, n := AllocInode(fs);
    if fs.broken { return false, 0, false, 0; }
    if !ok { return false, 0, false, 0; }
    ok := MakeInode(fs, n, parent, kind);
    if fs.broken { return false, 0, false, 0; }
    if !ok { return false, n, false, 0; }
    ghost var e := fs.View(Tops(fs.inodes, fs.live));
    NoneOwned(d, fs.first, n);
    LeakSame(d, e, fs.first, parent, n, fs.inodes[parent].size, Taken(kind));
    SameRoom(d, e, fs.first, parent, n, fs.inodes[parent], leaf, Taken(kind));
    SameReach(d, e, fs.first, parent, n, fs.inodes[parent], leaf, Taken(kind));
    BlankSame(d, e, parent, n, fs.inodes[parent].size);
    ok, lost, r := Enter(fs, parent, leaf, n, d, kind);
  }

  /** The rest of fs_create_path: the record in the parent, or back out. */
  method Enter(fs: MyFs, parent: nat, leaf: seq<Byte>, n: nat, ghost d: Disk, kind: nat)
    returns (ok: bool, lost: bool, ghost r: nat)
    requires fs.Valid() && 0 < parent < |fs.inodes| <= 0x1_0000_0000 && fs.live[parent] && Proper(leaf) && !fs.broken
    requires ROOT < n < |fs.inodes| && fs.live[n] && n != parent && OthersData(d, fs.View(Tops(fs.inodes, fs.live)), n)
    requires Took(d, fs.View(Tops(fs.inodes, fs.live)), fs.first, Own(n, kind))
    requires forall p: Place :: p in d.node ==> p.Ino() != n
    modifies fs`inodes, fs`live, fs`pages, fs`used, fs`node, fs`home, fs`broken
    ensures fs.broken <==>
      Overreaches(old(fs.View(Tops(fs.inodes, fs.live))), fs.first, parent, old(fs.inodes)[parent], leaf, 0)
    ensures |fs.inodes| == |old(fs.inodes)|
    ensures !fs.broken ==> |fs.used| == |old(fs.used)| && (ok ==> fs.Valid() && fs.live == old(fs.live))
    ensures !fs.broken ==>
      fs.inodes[n] == old(fs.inodes)[n] && ParentAfter(old(fs.inodes), fs.inodes, parent, n, ok && kind == DIRECTORY)
    ensures !fs.broken && ok ==> AddedBut(d, fs.View(Tops(fs.inodes, fs.live)), parent, r, n, leaf)
    ensures !fs.broken && ok ==> r < PER_BLOCK * Scanned(fs.inodes[parent].size)
    ensures !fs.broken ==> var e := old(fs.View(Tops(fs.inodes, fs.live)));
      (ok <==>
         Addable(e, parent, old(fs.inodes)[parent], leaf) && Room(e, fs.first, parent, old(fs.inodes)[parent].size, 0))
    ensures !fs.broken && ok && old(NewDir(fs.View(Tops(fs.inodes, fs.live)), fs.inodes, n, parent)) ==>
              NewDir(fs.View(Tops(fs.inodes, fs.live)), fs.inodes, n, parent)
    ensures !fs.broken && !ok ==> fs.live == old(fs.live)[n := false]
    ensures !fs.broken ==> var e := old(fs.View(Tops(fs.inodes, fs.live)));
      (lost <==>
         Addable(e, parent, old(fs.inodes)[parent], leaf) && Leaks(e, fs.first, parent, old(fs.inodes)[parent].size))
    ensures !fs.broken ==> (fs.Valid() <==> !lost)
    ensures !fs.broken && !ok && fs.Valid() ==> KeptData(d, fs.View(Tops(fs.inodes, fs.live)), n)
    ensures !fs.broken && !ok && old(fs.inodes)[parent].kind != DIRECTORY ==> fs.inodes == old(fs.inodes)
    ensures !fs.broken && !ok &&
            BlankBehind(old(fs.View(Tops(fs.inodes, fs.live))), parent, old(fs.inodes)[parent].size) ==>
              fs.inodes == old(fs.inodes)
    ensures !fs.broken && ok ==> Took(d, fs.View(Tops(fs.inodes, fs.live)), fs.first,
                                      Own(n, kind) + Extension(d, parent, old(fs.inodes)[parent].size))
    ensures !fs.broken && !ok && fs.Valid() ==>
      TookSome(d, fs.View(Tops(fs.inodes, fs.live)), Extension(d, parent, old(fs.inodes)[parent].size))
  {
    hide Inv, Free, OthersData, SameData, Lost, AddedAt, NoMatch, NoFree, Leaks, Room, PosOf, DataAt, DirPage,
      AddedBut, BlankBehind, Overreaches, TopLost, KeptData, Took, TookSome, Shed, Own, Extension;
    ghost var e := fs.View(Tops(fs.inodes, fs.live));
    ghost var phantom;
    SameExtension(d, e, parent, n, fs.inodes[parent].size);
    ok, lost, phantom, r := DirAdd(fs, parent, leaf, n);
    if fs.broken { return false, lost, r; }
    ghost var h := fs.View(phantom);
    if !ok {
      ghost var before := Tops(fs.inodes, fs.live);
      ghost var after := Discard(fs, phantom, n);
      DiscardedTops(fs.inodes, old(fs.live), fs.live, before, phantom, after, n, parent);
      if phantom != before {
        ghost var s :| TopLost(before, phantom, parent, s);
        TopStillLost(before, phantom, parent, s, n);
        LostTop(fs.View(after), fs.first, Tops(fs.inodes, fs.live), parent, s);
        LostInvalid(fs);
      } else {
        DroppedData(d, e, h, fs.View(after), n);
        BackOut(d, e, h, fs.View(after), fs.first, n, kind, parent, old(fs.inodes)[parent].size);
      }
      return false, lost, r;
    }
    NamedNow(d, e, h, parent, n, r, leaf);
    TookTrans(d, e, h, fs.first, Own(n, kind), Extension(d, parent, old(fs.inodes)[parent].size));
    if kind == DIRECTORY {
      fs.inodes := fs.inodes[parent := fs.inodes[parent].(links := (fs.inodes[parent].links + 1) % 0x1_0000)];
      assert Tops(fs.inodes, fs.live) == phantom;
    }
    return true, false, r;
  }

  lemma SameExtension(d: Disk, e: Disk, parent: nat, n: nat, size: nat)
    requires OthersData(d, e, n) && parent != n
    ensures Extension(e, parent, size) == Extension(d, parent, size)
  {
    hide OthersData, RecordFree, NextTrail;
    forall r: nat ensures RecordFree(d, parent, r) <==> RecordFree(e, parent, r) { SameFree(d, e, parent, n, r); }
  }

  /** Entering inode n and taking it back leaves at most what the parent was extended by. */
  lemma BackOut(d: Disk, e: Disk, h: Disk, g: Disk, first: nat, n: nat, kind: nat, parent: nat, size: nat)
    requires Took(d, e, first, Own(n, kind)) && TookSome(e, h, Extension(d, parent, size)) && Shed(h, g, n)
    requires parent != n
    requires forall p: Place :: p in d.node ==> p.Ino() != n
    ensures TookSome(d, g, Extension(d, parent, size))
  {
    hide Took, Shed, Extension;
    forall p: Place
      ensures p in g.node ==> p in d.node || p in Extension(d, parent, size)
      ensures p in d.node ==> p in g.node && g.node[p] == d.node[p]
    {
      BackOutAt(d, e, h, g, first, n, kind, Extension(d, parent, size), p);
    }
  }

  lemma BackOutAt(d: Disk, e: Disk, h: Disk, g: Disk, first: nat, n: nat, kind: nat, more: set<Place>, p: Place)
    requires Took(d, e, first, Own(n, kind)) && TookSome(e, h, more) && Shed(h, g, n)
    requires p in d.node ==> p.Ino() != n
    ensures p in g.node ==> p in d.node || p in more
    ensures p in d.node ==> p in g.node && g.node[p] == d.node[p]
  {
    hide Shifted;
    assert p in Own(n, kind) ==> p.Ino() == n;
    assert p in e.node <==> p in d.node || p in Own(n, kind);
  }

  lemma LostInvalid(fs: MyFs)
    requires Lost(Tops(fs.inodes, fs.live), fs.pages, fs.used, fs.first)
    ensures !fs.Valid()
  {
    hide Inv;
  }

  lemma DiscardedTops(inodes: seq<Inode>, live: seq<bool>, live': seq<bool>, before: seq<seq<nat>>,
                      phantom: seq<seq<nat>>,
                      after: seq<seq<nat>>, n: nat, parent: nat)
    requires n < |inodes| == |live| && live' == live[n := false] && before == Tops(inodes, live)
    requires |phantom| == |before|
    requires after == phantom[n := NoSlots()]
    ensures Tops(inodes, live') == before[n := NoSlots()] && (phantom == before ==> after == Tops(inodes, live'))
  {
  }

  lemma TopStillLost(before: seq<seq<nat>>, phantom: seq<seq<nat>>, parent: nat, s: nat, n: nat)
    requires TopLost(before, phantom, parent, s) && n != parent && n < |before|
    ensures TopLost(before[n := NoSlots()], phantom[n := NoSlots()], parent, s)
  {
    assert phantom[n := NoSlots()] == before[n := NoSlots()][parent := phantom[parent]];
  }

  lemma DroppedData(d: Disk, e: Disk, h: Disk, g: Disk, n: nat)
    requires OthersData(d, e, n) && SameData(e, h) && OthersData(h, g, n)
    ensures KeptData(d, g, n)
  {
    hide DataAt;
  }

  lemma KeptRefl(d: Disk)
    ensures forall n :: KeptData(d, d, n)
  {
  }

  lemma NamedNow(d: Disk, e: Disk, h: Disk, parent: nat, n: nat, r: nat, leaf: seq<Byte>)
    requires OthersData(d, e, n) && 0 < n < 0x1_0000_0000 && 0 < |leaf| < NAME_MAX && AddedAt(e, h, parent, r, n, leaf)
    requires n != parent
    ensures AddedBut(d, h, parent, r, n, leaf) && DataAt(h, PosOf(n, 0)) == DataAt(e, PosOf(n, 0))
  {
    hide DataAt, PosOf, Word, PutRecord;
    PosOfIndex(n, 0, n + 1);
    PosOfIndex(parent, r / PER_BLOCK, parent + 1);
  }

  lemma {:induction false} MissingSame(a: map<Place, nat>, b: map<Place, nat>, p: Place, path: seq<nat>)
    requires forall q: Place :: q.Ino() == p.Ino() ==> (q in a <==> q in b)
    ensures Missing(a, p, path) == Missing(b, p, path)
    decreases |path|
  {
    if path != [] {
      OneUp(Below(p, path[0]), 0);
      MissingSame(a, b, Below(p, path[0]), path[1..]);
    }
  }

  lemma LeakSame(d: Disk, e: Disk, first: nat, parent: nat, n: nat, size: nat, taken: nat)
    requires OthersData(d, e, n) && parent != n && |Free(e.used, first)| == |Free(d.used, first)| - taken
    ensures Leaks(e, first, parent, size) <==> LeaksWith(d, first, parent, size, taken)
  {
    hide DataAt, PosOf, Free, Missing, RecordFree, SlotOf, PathOf;
    var k := Scanned(size);
    if k < MAX_BLOCKS {
      MissingSame(d.node, e.node, Top(parent, SlotOf(k)), PathOf(k));
      forall r: nat ensures RecordFree(d, parent, r) <==> RecordFree(e, parent, r) { SameFree(d, e, parent, n, r); }
    }
  }

  /** Nor how far the walk in the parent reaches, counted from the blocks it took. */
  lemma SameReach(d: Disk, e: Disk, first: nat, parent: nat, n: nat, inode: Inode, leaf: seq<Byte>, taken: nat)
    requires OthersData(d, e, n) && parent != n && |Free(e.used, first)| == |Free(d.used, first)| - taken
    requires Shifted(d.used, e.used, first, taken)
    ensures Overreaches(e, first, parent, inode, leaf, 0) <==> Overreaches(d, first, parent, inode, leaf, taken)
  {
    hide DataAt, PosOf, Free, Missing, RecordFree, RecordMatches, SlotOf, PathOf, Room, Addable, ReachFrom, Shifted;
    var k := Scanned(inode.size);
    SameRoom(d, e, first, parent, n, inode, leaf, taken);
    forall r: nat ensures RecordFree(d, parent, r) <==> RecordFree(e, parent, r) { SameFree(d, e, parent, n, r); }
    if k < MAX_BLOCKS {
      MissingSame(d.node, e.node, Top(parent, SlotOf(k)), PathOf(k));
      ShiftedFrom(d.used, e.used, first, taken, Top(parent, SlotOf(k)) in e.node, MissingFor(e.node, parent, k));
    }
  }

  lemma BlankSame(d: Disk, e: Disk, parent: nat, n: nat, size: nat)
    requires OthersData(d, e, n) && parent != n
    ensures BlankBehind(d, parent, size) <==> BlankBehind(e, parent, size)
  {
    hide DataAt, PosOf;
    if Scanned(size) < MAX_BLOCKS { PosOfIndex(parent, Scanned(size), parent + 1); }
  }

  lemma SameMatch(d: Disk, e: Disk, parent: nat, n: nat, r: nat, name: seq<Byte>)
    requires OthersData(d, e, n) && parent != n
    ensures RecordMatches(d, parent, r, name) <==> RecordMatches(e, parent, r, name)
  {
    hide DataAt, PosOf, Matches;
    if r / PER_BLOCK < MAX_BLOCKS { PosOfIndex(parent, r / PER_BLOCK, parent + 1); }
  }

  /** What the new inode took does not change whether the parent has room. */
  lemma SameRoom(d: Disk, e: Disk, first: nat, parent: nat, n: nat, inode: Inode, leaf: seq<Byte>, taken: nat)
    requires OthersData(d, e, n) && parent != n && |Free(e.used, first)| == |Free(d.used, first)| - taken
    ensures Room(e, first, parent, inode.size, 0) <==> Room(d, first, parent, inode.size, taken)
    ensures Addable(e, parent, inode, leaf) <==> Addable(d, parent, inode, leaf)
  {
    hide DataAt, PosOf, Free, Missing, RecordFree, RecordMatches, SlotOf, PathOf, EntryFree;
    var k := Scanned(inode.size);
    forall r: nat ensures RecordFree(d, parent, r) <==> RecordFree(e, parent, r) { SameFree(d, e, parent, n, r); }
    forall r: nat ensures RecordMatches(d, parent, r, leaf) <==> RecordMatches(e, parent, r, leaf) {
      SameMatch(d, e, parent, n, r, leaf);
    }
    if k < MAX_BLOCKS {
      MissingSame(d.node, e.node, Top(parent, SlotOf(k)), PathOf(k));
      PosOfIndex(parent, k, parent + 1);
    }
  }

  lemma SameFree(d: Disk, e: Disk, parent: nat, n: nat, r: nat)
    requires OthersData(d, e, n) && parent != n
    ensures RecordFree(d, parent, r) <==> RecordFree(e, parent, r)
  {
    hide DataAt, PosOf, Word;
    if r / PER_BLOCK < MAX_BLOCKS { PosOfIndex(parent, r / PER_BLOCK, parent + 1); }
  }

  // ------------------------------------------------------------------- removal

  predicate Ordinary(page: Page, e: nat)
    requires e < PER_BLOCK
  {
    Word(page, 16 * e) != 0 && !NameIs(page, e, Dot()) && !NameIs(page, e, DotDot())
  }

  ghost predicate NoOrdinary(d: Disk, dir: nat, n: nat) {
    forall b: nat, e: nat :: b < n && b < MAX_BLOCKS && e < PER_BLOCK ==> !Ordinary(DataAt(d, PosOf(dir, b)), e)
  }

  /** dir_empty: no record besides the two every directory has. */
  method DirEmpty(fs: MyFs, dir: nat) returns (empty: bool)
    requires fs.Valid() && 0 < dir < |fs.inodes| && fs.live[dir] && !fs.broken
    modifies fs`pages, fs`used, fs`node, fs`home, fs`broken
    ensures !fs.broken && fs.View(Tops(fs.inodes, fs.live)) == old(fs.View(Tops(fs.inodes, fs.live)))
    ensures empty <==> NoOrdinary(fs.View(Tops(fs.inodes, fs.live)), dir, Blocks(fs.inodes[dir].size))
  {
    hide Inv, Ordinary, PosOf, DataAt;
    ghost var tops := Tops(fs.inodes, fs.live);
    ghost var d := fs.View(tops);
    var inode := fs.inodes[dir];
    var b := 0;
    while b < Blocks(inode.size)
      invariant b <= Blocks(inode.size) && fs.View(tops) == d && NoOrdinary(d, dir, b) && !fs.broken
    {
      var res, block, now := fs.InodeDataBlock(tops, dir, inode, b, false);
      PageOf(d, fs.first, dir, b, block, res);
      if res == 0 && block != 0 {
        var e := 0;
        while e < PER_BLOCK
          invariant e <= PER_BLOCK && fs.View(tops) == d
          invariant forall f: nat :: f < e ==> !Ordinary(fs.pages[block], f)
        {
          if Ordinary(fs.pages[block], e) { return false; }
          e := e + 1;
        }
      } else {
        BlankBlock(d, dir, b);
      }
      b := b + 1;
    }
    return true;
  }

  lemma BlankBlock(d: Disk, dir: nat, b: nat)
    requires b < MAX_BLOCKS ==> PosOf(dir, b) !in d.node
    ensures b < MAX_BLOCKS ==> forall e: nat :: e < PER_BLOCK ==> !Ordinary(DataAt(d, PosOf(dir, b)), e)
  {
    hide PosOf, Word, ZeroPage;
    forall e: nat | b < MAX_BLOCKS && e < PER_BLOCK ensures !Ordinary(DataAt(d, PosOf(dir, b)), e) { WordZero(16 * e); }
  }

  function ClearRecord(page: Page, e: nat): Page
    requires e < PER_BLOCK
  {
    page[..64 * e] + ZeroPage()[..64] + page[64 * e + 64..]
  }

  lemma ClearedBytes(page: Page, e: nat, k: nat)
    requires e < PER_BLOCK && k < PAGE_SIZE
    ensures ClearRecord(page, e)[k] == if k / 64 == e then 0 else page[k]
  {
    hide ZeroPage;
    assert forall j :: 0 <= j < PAGE_SIZE ==> ZeroPage()[j] == 0 by { ZeroBytes(); }
  }

  lemma ZeroBytes()
    ensures forall j :: 0 <= j < PAGE_SIZE ==> ZeroPage()[j] == 0
  {
  }

  lemma ClearedRecord(page: Page, e: nat, f: nat, name: seq<Byte>)
    requires e < PER_BLOCK && f < PER_BLOCK
    ensures Matches(ClearRecord(page, e), f, name) <==> f != e && Matches(page, f, name)
  {
    var q := ClearRecord(page, e);
    if f == e {
      SameWord(q, ZeroPage(), 16 * e);
      WordZero(16 * e);
    } else {
      assert forall k :: 64 * f <= k < 64 * f + 64 ==> q[k] == page[k];
      SameWord(q, page, 16 * f);
      assert forall j :: 0 <= j < NAME_MAX ==> NameByte(q, f, j) == NameByte(page, f, j);
    }
  }

  /** From d to g, record r of the directory has been cleared, and no other data touched. */
  ghost predicate RemovedAt(d: Disk, g: Disk, dir: nat, r: nat) {
    && r / PER_BLOCK < MAX_BLOCKS && g.node == d.node && g.used == d.used
    && (forall p: Place :: p.Level() == 0 && p != PosOf(dir, r / PER_BLOCK) ==> DataAt(g, p) == DataAt(d, p))
    && DataAt(g, PosOf(dir, r / PER_BLOCK)) == ClearRecord(DataAt(d, PosOf(dir, r / PER_BLOCK)), r % PER_BLOCK)
  }

  /** Exactly that record stops answering, to any name. */
  lemma RemovedExactly(d: Disk, g: Disk, dir: nat, r: nat, q: nat, name: seq<Byte>)
    requires RemovedAt(d, g, dir, r)
    ensures RecordMatches(g, dir, q, name) <==> q != r && RecordMatches(d, dir, q, name)
  {
    hide PosOf, DataAt, Matches, ClearRecord;
    if q / PER_BLOCK < MAX_BLOCKS {
      var p := PosOf(dir, r / PER_BLOCK);
      PosOfIndex(dir, q / PER_BLOCK, dir + 1);
      if q / PER_BLOCK == r / PER_BLOCK {
        ClearedRecord(DataAt(d, p), r % PER_BLOCK, q % PER_BLOCK, name);
      } else if PosOf(dir, q / PER_BLOCK) == p {
        PosOfInjective(dir, q / PER_BLOCK, dir, r / PER_BLOCK);
      }
    }
  }

  lemma RecordCleared(d: Disk, first: nat, dir: nat, name: seq<Byte>, ino: nat, block: nat, e: nat) returns (r: nat)
    requires Inv(d, first) && FoundAt(d, dir, name, ino, block, e)
    ensures e < PER_BLOCK && block < |d.pages| && Inv(SetData(d, block, ClearRecord(d.pages[block], e)), first)
    ensures RemovedAt(d, SetData(d, block, ClearRecord(d.pages[block], e)), dir, r) && RecordMatches(d, dir, r, name)
    ensures ino == Word(DataAt(d, PosOf(dir, r / PER_BLOCK)), 16 * (r % PER_BLOCK)) && NoMatch(d, dir, r, name)
  {
    hide Inv, PosOf, ClearRecord, Word, DataAt, Matches;
    var b: nat :| b < MAX_BLOCKS && e < PER_BLOCK && PosOf(dir, b) in d.node && d.node[PosOf(dir, b)] == block &&
      NoMatch(d, dir, PER_BLOCK * b + e, name) && Matches(DataAt(d, PosOf(dir, b)), e, name) &&
      ino == Word(DataAt(d, PosOf(dir, b)), 16 * e);
    r := PER_BLOCK * b + e;
    RecordIn(b, r);
    BlockNumber(d, first, PosOf(dir, b));
    PosOfIndex(dir, b, dir + 1);
    DataHere(d, first, block);
    SetDataKeeps(d, first, block, ClearRecord(d.pages[block], e));
    var g := SetData(d, block, ClearRecord(d.pages[block], e));
    forall p: Place
      ensures DataAt(g, p) == if p == PosOf(dir, b) then ClearRecord(DataAt(d, p), e) else DataAt(d, p)
    {
      SetDataAt(d, first, block, ClearRecord(d.pages[block], e), p);
    }
  }

  /** What unlinking does: record r goes, then the file, unless it is open. */
  ghost predicate Unlinked(d: Disk, g: Disk, dir: nat, r: nat, ino: nat, wiped: bool) {
    exists m: Disk :: RemovedAt(d, m, dir, r) && if wiped then Wiped(m, g, ino) else g == m
  }

  /** Record r is the first with the name, and what it names may go: a file, or an empty directory. */
  ghost predicate RemovableAt(d: Disk, inodes: seq<Inode>, dir: nat, name: seq<Byte>, r: nat) {
    && RecordMatches(d, dir, r, name) && NoMatch(d, dir, r, name)
    && var n := Word(DataAt(d, PosOf(dir, r / PER_BLOCK)), 16 * (r % PER_BLOCK));
       0 < n < |inodes| && (inodes[n].kind == DIRECTORY ==> NoOrdinary(d, n, Blocks(inodes[n].size)))
  }

  ghost predicate Removable(d: Disk, inodes: seq<Inode>, dir: nat, name: seq<Byte>)
    requires dir < |inodes|
  {
    && name != Dot() && name != DotDot() && inodes[dir].kind == DIRECTORY
    && !NoMatch(d, dir, PER_BLOCK * Scanned(inodes[dir].size), name)
    && exists r: nat :: RemovableAt(d, inodes, dir, name, r)
  }

  lemma FirstIsIt(d: Disk, inodes: seq<Inode>, live: seq<bool>, dir: nat, name: seq<Byte>, r: nat)
    requires RecordMatches(d, dir, r, name) && NoMatch(d, dir, r, name)
    ensures (exists q: nat :: RemovableAt(d, inodes, dir, name, q)) <==> RemovableAt(d, inodes, dir, name, r)
    ensures (exists q: nat :: DanglesAt(d, live, dir, name, q)) <==> DanglesAt(d, live, dir, name, r)
  {
    hide RecordMatches, Word, PosOf, NoOrdinary;
  }

  /** The inodes afterwards: a removed directory no longer counts as a link to its parent,
      and the inode is wiped, or kept without links while it is open. */
  function AfterRemove(inodes: seq<Inode>, parent: nat, ino: nat, wiped: bool): seq<Inode>
    requires parent < |inodes| && ino < |inodes|
  {
    var linked := if inodes[ino].kind == DIRECTORY && inodes[parent].links > 0
                  then inodes[parent := inodes[parent].(links := inodes[parent].links - 1)] else inodes;
    linked[ino := if wiped then NoInode() else linked[ino].(links := 0)]
  }

  /** Record r is the first with the name, and names a freed inode. */
  ghost predicate DanglesAt(d: Disk, live: seq<bool>, dir: nat, name: seq<Byte>, r: nat) {
    && RecordMatches(d, dir, r, name) && NoMatch(d, dir, r, name)
    && var n := Word(DataAt(d, PosOf(dir, r / PER_BLOCK)), 16 * (r % PER_BLOCK)); 0 < n < |live| && !live[n]
  }

  ghost predicate Dangles(d: Disk, inodes: seq<Inode>, live: seq<bool>, dir: nat, name: seq<Byte>)
    requires dir < |inodes|
  {
    && name != Dot() && name != DotDot() && inodes[dir].kind == DIRECTORY
    && !NoMatch(d, dir, PER_BLOCK * Scanned(inodes[dir].size), name)
    && exists r: nat :: DanglesAt(d, live, dir, name, r)
  }

  /** fs_unlink_path once the parent is known. The inode bitmap is not consulted, so through
      a record that names a freed inode its former blocks would be freed again. */
  method Remove(fs: MyFs, parent: nat, leaf: seq<Byte>) returns (ok: bool, ino: nat, ghost r: nat)
    requires fs.Valid() && 0 < parent < |fs.inodes| && fs.live[parent] && !fs.broken
    modifies fs`inodes, fs`live, fs`pages, fs`used, fs`node, fs`home, fs`broken
    ensures fs.broken <==> Dangles(old(fs.View(Tops(fs.inodes, fs.live))), old(fs.inodes), old(fs.live), parent, leaf)
    ensures |fs.inodes| == |old(fs.inodes)|
    ensures !fs.broken ==> fs.Valid() && fs.open == old(fs.open)
    ensures !fs.broken ==> (ok <==> Removable(old(fs.View(Tops(fs.inodes, fs.live))), old(fs.inodes), parent, leaf))
    ensures !fs.broken && !ok ==> fs.inodes == old(fs.inodes) && fs.live == old(fs.live)
    ensures !fs.broken && !ok ==> fs.View(Tops(fs.inodes, fs.live)) == old(fs.View(Tops(fs.inodes, fs.live)))
    ensures !fs.broken && ok ==>
      0 < ino < |old(fs.inodes)| == |fs.open| == |fs.live| == |old(fs.live)| && old(fs.live)[ino]
    ensures !fs.broken && ok ==> fs.inodes == AfterRemove(old(fs.inodes), parent, ino, fs.open[ino] == 0)
    ensures !fs.broken && ok ==> fs.live == if fs.open[ino] == 0 then old(fs.live)[ino := false] else old(fs.live)
    ensures !fs.broken && ok ==> NamesAt(old(fs.View(Tops(fs.inodes, fs.live))), parent, leaf, ino, r)
    ensures !fs.broken && ok ==>
      Unlinked(old(fs.View(Tops(fs.inodes, fs.live))), fs.View(Tops(fs.inodes, fs.live)), parent, r, ino,
               fs.open[ino] == 0)
  {
    hide Inv, NoMatch, FoundAt, Wiped, RemovedAt, RecordMatches, ClearRecord, Word, NoOrdinary, Unlinked, NamesAt,
      PosOf, DataAt, RemovableAt, DanglesAt, Scanned, Blocks;
    ghost var tops := Tops(fs.inodes, fs.live);
    ghost var d := fs.View(tops);
    ino, r := 0, 0;
    if leaf == Dot() || leaf == DotDot() { return false, 0, 0; }
    var found, n, block, e := DirFind(fs, parent, leaf);
    if !found { return false, 0, 0; }
    r := RecordCleared(d, fs.first, parent, leaf, n, block, e);
    NamedAt(d, parent, leaf, n, r);
    FirstIsIt(d, fs.inodes, fs.live, parent, leaf, r);
    MayGo(d, fs.inodes, fs.live, parent, leaf, n, r);
    if n == 0 || n >= |fs.inodes| { return false, 0, 0; }
    if !fs.live[n] {
      fs.broken := true;
      return false, 0, 0;
    }
    var inode := fs.inodes[n];
    if inode.kind == DIRECTORY {
      var empty := DirEmpty(fs, n);
      if !empty { return false, 0, 0; }
    }
    Erase(fs, parent, n, block, e, r);
    return true, n, r;
  }

  /** The end of fs_unlink_path: the record goes, then the link of a directory's "..", then
      the inode unless it is open. */
  method Erase(fs: MyFs, parent: nat, n: nat, block: nat, e: nat, ghost r: nat)
    requires fs.Valid() && 0 < parent < |fs.inodes| && fs.live[parent] && 0 < n < |fs.inodes| && fs.live[n]
    requires block < |fs.pages| && e < PER_BLOCK
    requires var d := fs.View(Tops(fs.inodes, fs.live)); var m := SetData(d, block, ClearRecord(d.pages[block], e));
      Inv(m, fs.first) && RemovedAt(d, m, parent, r)
    modifies fs`inodes, fs`live, fs`pages, fs`used, fs`node, fs`home
    ensures fs.Valid() && |fs.live| == |old(fs.live)| == |fs.open|
    ensures fs.inodes == AfterRemove(old(fs.inodes), parent, n, fs.open[n] == 0)
    ensures fs.live == if fs.open[n] == 0 then old(fs.live)[n := false] else old(fs.live)
    ensures Unlinked(old(fs.View(Tops(fs.inodes, fs.live))), fs.View(Tops(fs.inodes, fs.live)), parent, r, n,
                     fs.open[n] == 0)
  {
    hide Inv, Wiped, RemovedAt, ClearRecord, Unlinked;
    ghost var tops := Tops(fs.inodes, fs.live);
    ghost var d := fs.View(tops);
    var inode := fs.inodes[n];
    fs.pages := fs.pages[block := ClearRecord(fs.pages[block], e)];
    ghost var m := fs.View(tops);
    assert m == SetData(d, block, ClearRecord(d.pages[block], e));
    if inode.kind == DIRECTORY && fs.inodes[parent].links > 0 {
      fs.inodes := fs.inodes[parent := fs.inodes[parent].(links := fs.inodes[parent].links - 1)];
    }
    assert Tops(fs.inodes, fs.live) == tops;
    fs.Unlink(n);
    UnlinkedNow(d, m, fs.View(Tops(fs.inodes, fs.live)), parent, n, r, fs.open[n] == 0);
  }

  lemma MayGo(d: Disk, inodes: seq<Inode>, live: seq<bool>, dir: nat, name: seq<Byte>, n: nat, r: nat)
    requires RecordMatches(d, dir, r, name) && NoMatch(d, dir, r, name)
    requires n == Word(DataAt(d, PosOf(dir, r / PER_BLOCK)), 16 * (r % PER_BLOCK))
    ensures RemovableAt(d, inodes, dir, name, r) <==>
              0 < n < |inodes| && (inodes[n].kind == DIRECTORY ==> NoOrdinary(d, n, Blocks(inodes[n].size)))
    ensures DanglesAt(d, live, dir, name, r) <==> 0 < n < |live| && !live[n]
  {
  }

  lemma NamedAt(d: Disk, dir: nat, name: seq<Byte>, ino: nat, r: nat)
    requires RecordMatches(d, dir, r, name) && ino == Word(DataAt(d, PosOf(dir, r / PER_BLOCK)), 16 * (r % PER_BLOCK))
    ensures NamesAt(d, dir, name, ino, r)
  {
  }

  lemma UnlinkedNow(d: Disk, m: Disk, g: Disk, dir: nat, ino: nat, r: nat, wiped: bool)
    requires RemovedAt(d, m, dir, r) && if wiped then Wiped(m, g, ino) else g == m
    ensures Unlinked(d, g, dir, r, ino, wiped)
  {
  }
}
