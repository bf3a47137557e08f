/** Whole runs of file requests against files of bytes and directories of names, open-unlinked
    files and full disks included. */
module FileService {
  import opened Layout
  import opened FileIndex
  import opened Allocation
  import opened Files
  import opened Directory
  import N = DirNames
  import T = NameTree

  type Model = T.Model

  /** Reads, writes and closes name the inode an earlier lookup, creation or open gave. */
  datatype Request =
    | Write(i: nat, offset: nat, data: seq<Byte>)
    | Read(i: nat, offset: nat, length: nat)
    | Truncate(i: nat)
    | Open(i: nat)
    | Close(i: nat)
    | Lookup(dir: nat, name: seq<Byte>)
    | Create(parent: nat, name: seq<Byte>, kind: nat)
    | Remove(parent: nat, name: seq<Byte>)

  /** `Stopped` ends a run; EndsRun says when. */
  datatype Reply =
    | Refused | Done | Full | Accepted(count: int) | Bytes(out: seq<Byte>, count: int) | Created(n: nat) | Found(n: nat)
    | Stopped

  // --------------------------------------------------------- the disk and the model

  /** A file system at rest. */
  datatype Scene = Scene(d: Disk, first: nat, inodes: seq<Inode>, live: seq<bool>, open: seq<nat>)

  ghost function SceneOf(fs: MyFs): Scene
    reads fs
  {
    Scene(fs.View(Tops(fs.inodes, fs.live)), fs.first, fs.inodes, fs.live, fs.open)
  }

  /** All bytes inode i can have. */
  ghost function Extent(d: Disk, i: nat): seq<Byte> {
    seq(MAX_SIZE, k requires 0 <= k < MAX_SIZE => Content(d, i, k))
  }

  ghost predicate Holds(d: Disk, inode: Inode, open: nat, i: nat, f: T.Entity) {
    f.File? && f.links == inode.links && f.open == open && |f.bytes| == inode.size && f.bytes + f.behind == Extent(d, i)
  }

  /** Inode i is this file or directory. */
  ghost predicate Stands(d: Disk, inode: Inode, open: nat, i: nat, e: T.Entity) {
    if e.File? then inode.kind == FILE && Holds(d, inode, open, i, e)
    else inode.kind == DIRECTORY && open == 0 && N.DirHolds(d, i, inode.size, e.names)
  }

  /** The disk holds exactly the files and directories of the model, which form a tree. */
  ghost predicate Fits(s: Scene, m: Model) {
    && |s.live| == |s.inodes| == |s.open| <= 0x1_0000_0000
    && (forall i :: i in m <==> 0 < i < |s.inodes| && s.live[i])
    && (forall i :: i in m ==> Stands(s.d, s.inodes[i], s.open[i], i, m[i]))
    && (forall i :: 0 <= i < |s.open| && s.open[i] > 0 ==> i in m)
    && T.TreeOk(m)
  }

  ghost predicate Agrees(fs: MyFs, m: Model)
    reads fs
  {
    fs.Valid() && !fs.broken && Fits(SceneOf(fs), m)
  }

  // ------------------------------------------------------------ what requests do

  function Slice(f: seq<Byte>, offset: nat, length: nat): seq<Byte> {
    if offset >= |f| then [] else if |f| - offset < length then f[offset..] else f[offset..offset + length]
  }

  /** `all` after data was laid over it at offset: everywhere, or into trees the file has. */
  ghost function Laid(all: seq<Byte>, offset: nat, data: seq<Byte>): seq<Byte> {
    seq<Byte>(|all|, k requires 0 <= k < |all| => Overlay(all[k], true, k, offset, data))
  }

  ghost function LaidInto(all: seq<Byte>, slots: seq<nat>, offset: nat, data: seq<Byte>): seq<Byte> {
    seq<Byte>(|all|, k requires 0 <= k < |all| => Overlay(all[k], Rooting(slots, k), k, offset, data))
  }

  /** A write that goes through: what lies behind the end is not looked at. */
  ghost function Written(f: T.Entity, offset: nat, data: seq<Byte>): (g: T.Entity)
    requires f.File? && offset + |data| <= |f.bytes| + |f.behind|
    ensures g.File? && g.links == f.links
  {
    var all, size := Laid(f.bytes + f.behind, offset, data), Most(|f.bytes|, offset + |data|);
    f.(bytes := all[..size], behind := all[size..])
  }

  /** A write that runs out of space after `data`: only what falls into trees the file has
      stays, and the size is as it was. */
  ghost function Torn(f: T.Entity, offset: nat, data: seq<Byte>, slots: seq<nat>): (g: T.Entity)
    requires f.File?
    ensures g.File? && g.links == f.links
  {
    var all := LaidInto(f.bytes + f.behind, slots, offset, data);
    f.(bytes := all[..|f.bytes|], behind := all[|f.bytes|..])
  }

  /** With zeros behind the end a write is one to a plain byte array, and leaves zeros; in
      general it is one exactly if the gap it jumps over is zero. */
  lemma PlainWrite(f: T.Entity, offset: nat, data: seq<Byte>)
    requires f.File? && offset + |data| <= |f.bytes| + |f.behind|
    ensures Written(f, offset, data).bytes == WriteBytes(f.bytes, offset, data) <==>
      forall k :: |f.bytes| <= k < offset ==> (f.bytes + f.behind)[k] == 0
    ensures f.behind == T.Blank(|f.behind|) ==>
      Written(f, offset, data).behind == T.Blank(|f.bytes| + |f.behind| - Most(|f.bytes|, offset + |data|))
  {
    var all, g := f.bytes + f.behind, Written(f, offset, data);
    var b := WriteBytes(f.bytes, offset, data);
    forall k | 0 <= k < |b| ensures g.bytes[k] == Overlay(all[k], true, k, offset, data) { }
    forall k | 0 <= k < |b| ensures b[k] == Overlay(ByteAt(f.bytes, k), true, k, offset, data) { }
    if g.bytes == b {
      forall k | |f.bytes| <= k < offset ensures all[k] == 0 { assert g.bytes[k] == b[k]; }
    }
    if forall k :: |f.bytes| <= k < offset ==> (f.bytes + f.behind)[k] == 0 { assert g.bytes == b; }
  }

  /** What a failed write leaves behind the end, if it is not zero, is all that can spoil it. */
  lemma TornBehind(f: T.Entity, offset: nat, data: seq<Byte>, slots: seq<nat>)
    requires f.File? && f.behind == T.Blank(|f.behind|)
    ensures Torn(f, offset, data, slots).behind == T.Blank(|f.behind|) <==>
      forall k: nat :: |f.bytes| <= k < |f.bytes| + |f.behind| && offset <= k < offset + |data| && Rooting(slots, k) ==>
        data[k - offset] == 0
  {
    hide Rooting;
    var g := Torn(f, offset, data, slots);
    forall k: nat | |f.bytes| <= k < |f.bytes| + |f.behind|
      ensures g.behind[k - |f.bytes|] == Overlay(0, Rooting(slots, k), k, offset, data)
    {
      assert (f.bytes + f.behind)[k] == f.behind[k - |f.bytes|];
    }
    if g.behind == T.Blank(|f.behind|) {
      forall k: nat | |f.bytes| <= k < |f.bytes| + |f.behind| && offset <= k < offset + |data| && Rooting(slots, k)
        ensures data[k - offset] == 0
      {
        assert g.behind[k - |f.bytes|] == 0;
      }
    }
  }

  /** The disk has no inode, no block or no record left for a creation. */
  ghost predicate Scarce(s: Scene, parent: nat, kind: nat)
    requires parent < |s.inodes|
  {
    || !InodeLeft(s.live) || (kind == DIRECTORY && Free(s.d.used, s.first) == {})
    || !Room(s.d, s.first, parent, s.inodes[parent].size, Taken(kind))
  }

  /** Exactly what is turned away. */
  ghost predicate Refusable(s: Scene, m: Model, req: Request) {
    match req
    case Write(i, offset, data) => !T.IsFile(m, i) || offset + |data| > MAX_SIZE
    case Read(i, _, _) => !T.IsFile(m, i)
    case Truncate(i) => !T.IsFile(m, i)
    case Open(i) => !T.IsFile(m, i)
    case Close(i) => !T.IsFile(m, i) || m[i].open == 0
    case Lookup(dir, name) => !T.IsDir(m, dir) || name !in m[dir].names
    case Create(parent, name, kind) => !T.NewName(m, parent, name) || parent >= |s.inodes| || Scarce(s, parent, kind)
    case Remove(parent, name) => !T.Removable(m, parent, name)
  }

  /** What a request does to the byte arrays and the names. */
  ghost predicate ModelStep(s: Scene, m: Model, req: Request, reply: Reply, m': Model) {
    if reply.Refused? then Refusable(s, m, req) && m' == m
    else !Refusable(s, m, req) && match req
      case Write(i, offset, data) => offset + |data| <= |m[i].bytes| + |m[i].behind| && i < |s.inodes| &&
        if Enough(s.d, s.first, i, offset, |data|) then
          reply.Accepted? && CountIs(reply.count, |data|) && m' == m[i := Written(m[i], offset, data)]
        else reply.Full? && exists done: nat :: TornAt(s, m, i, offset, data, done, m')
      case Read(i, offset, length) =>
        && reply.Bytes? && reply.out == Slice(m[i].bytes, offset, length) && CountIs(reply.count, |reply.out|)
        && m' == m
      case Truncate(i) => reply.Done? && m' == m[i := m[i].(bytes := [], behind := T.Blank(MAX_SIZE))]
      case Open(i) => reply.Done? && m' == m[i := m[i].(open := m[i].open + 1)]
      case Close(i) => reply.Done? &&
        m' == if m[i].open == 1 && m[i].links == 0 then m - {i} else m[i := m[i].(open := m[i].open - 1)]
      case Lookup(dir, name) => reply == Found(m[dir].names[name]) && m' == m
      case Create(parent, name, kind) => reply.Created? && reply.n !in m &&
      m' == T.Added(m, parent, name, reply.n, kind)
      case Remove(parent, name) => reply.Done? && m' == T.Removed(m, parent, name)
  }

  /** The disk can pay for `done` bytes of the write and not for the next block. */
  ghost predicate TornAt(s: Scene, m: Model, i: nat, offset: nat, data: seq<Byte>, done: nat, m': Model)
    requires i in m && m[i].File? && i < |s.inodes|
  {
    Affords(s.d, s.first, i, offset, |data|, done) && m' == m[i := Torn(m[i], offset, data[..done], s.inodes[i].slots)]
  }

  /** Exactly the requests a run does not get past: a write that loses a block number or a
      cached pointer; a creation that does, or that leaks a block. */
  ghost predicate EndsRun(s: Scene, m: Model, req: Request) {
    match req
    case Write(i, offset, data) =>
      !Refusable(s, m, req) && !InReach(s.d, s.first, i, offset, |data|)
    case Create(parent, name, kind) => parent in m && parent < |s.inodes| &&
      (|| Astray(s.d, s.first, s.inodes, s.live, parent, name, kind)
       || Forfeits(s.d, s.first, s.inodes, s.live, parent, name, kind))
    case _ => false
  }

  // ---------------------------------------------------------- what becomes of the space

  /** The bitmap is what the pointers reach. */
  ghost predicate Sound(s: Scene) {
    Inv(s.d, s.first) && s.d.tops == Tops(s.inodes, s.live)
  }

  ghost predicate SameSize(s: Scene, s': Scene) {
    s'.first == s.first && |s'.d.used| == |s.d.used| && |s'.inodes| == |s.inodes| == |s'.live| == |s.live|
  }

  /** What a request does to the positions, and with them to the free blocks: a write adds
      those missing on the way to its range, or, when there are too few blocks, only such as
      fall into trees the file has; a creation adds those of the new inode and of the record;
      truncating, the last close and removal drop those of their inode; nothing else moves. */
  ghost predicate DiskStep(s: Scene, m: Model, req: Request, reply: Reply, s': Scene) {
    SameSize(s, s') && match req
      case Write(i, offset, data) =>
        if reply.Accepted? then BlocksTo(offset, |data|) <= MAX_BLOCKS &&
          Took(s.d, s'.d, s.first, Trails(i, offset / PAGE_SIZE, BlocksTo(offset, |data|)))
        else if reply.Full? then i < |s.inodes| && exists done: nat :: HaltedAt(s, s', i, offset, |data|, done)
        else s' == s
      case Truncate(i) => if reply.Done? then Shed(s.d, s'.d, i) else s' == s
      case Open(i) => s'.d == s.d
      case Close(i) =>
        if reply.Done? && i < |s.inodes| && i < |s.open| && s.open[i] == 1 &&
        s.inodes[i].links == 0 then Shed(s.d, s'.d, i)
        else s'.d == s.d
      case Create(parent, name, kind) =>
        if parent !in m then s' == s
        else parent < |s.inodes| && var more := Extension(s.d, parent, s.inodes[parent].size);
          if reply.Created? then Took(s.d, s'.d, s.first, Own(reply.n, kind) + more) else TookSome(s.d, s'.d, more)
      case Remove(parent, name) =>
        if reply.Done? then T.IsDir(m, parent) && name in m[parent].names && RemoveStep(s, s', m[parent].names[name])
        else s' == s
      case _ => s' == s
  }

  /** What is still open keeps its blocks until the last close. */
  ghost predicate RemoveStep(s: Scene, s': Scene, i: nat) {
    i < |s.open| && if s.open[i] == 0 then Shed(s.d, s'.d, i) else s'.d.node == s.d.node && s'.d.used == s.d.used
  }

  ghost predicate HaltedAt(s: Scene, s': Scene, i: nat, offset: nat, length: nat, done: nat)
    requires i < |s.inodes|
  {
    Affords(s.d, s.first, i, offset, length, done) && Halted(s.d, s'.d, i, offset, done, s.inodes[i].slots)
  }

  /** Blocks are free as far as there are no positions for them, so DiskStep tells how many. */
  lemma SpaceLeft(s: Scene)
    requires Sound(s) && s.first <= |s.d.used|
    ensures |Free(s.d.used, s.first)| + |s.d.node| == |s.d.used| - s.first
  {
    hide Inv, Free;
    FreeCount(s.d, s.first);
  }

  // -------------------------------------------------------------------- frames

  lemma ContentBlocks(d: Disk, g: Disk, j: nat)
    requires forall k: nat :: Content(g, j, k) == Content(d, j, k)
    ensures N.SameBlocks(d, g, j)
  {
    hide PosOf, DataAt;
    forall b: nat | b < MAX_BLOCKS ensures DataAt(g, PosOf(j, b)) == DataAt(d, PosOf(j, b)) {
      forall o: nat | o < PAGE_SIZE
        ensures DataAt(g, PosOf(j, b))[o] == DataAt(d, PosOf(j, b))[o]
      {
        ByteOf(d, g, j, b, o);
      }
    }
  }

  lemma ByteOf(d: Disk, g: Disk, j: nat, b: nat, o: nat)
    requires b < MAX_BLOCKS && o < PAGE_SIZE && forall k: nat :: Content(g, j, k) == Content(d, j, k)
    ensures DataAt(g, PosOf(j, b))[o] == DataAt(d, PosOf(j, b))[o]
  {
    hide PosOf, DataAt;
    var k := b * PAGE_SIZE + o;
    assert k / PAGE_SIZE == b && k % PAGE_SIZE == o;
    assert Content(g, j, k) == Content(d, j, k);
  }

  lemma BlocksContent(d: Disk, g: Disk, j: nat)
    requires N.SameBlocks(d, g, j)
    ensures forall k: nat :: Content(g, j, k) == Content(d, j, k)
  {
    hide PosOf, DataAt;
  }

  lemma WroteElsewhere(d: Disk, g: Disk, i: nat, offset: nat, data: seq<Byte>, j: nat)
    requires Wrote(d, g, i, offset, data) && j != i
    ensures N.SameBlocks(d, g, j)
  {
    hide Content, N.SameBlocks;
    forall k: nat ensures Content(g, j, k) == Content(d, j, k) { }
    ContentBlocks(d, g, j);
  }

  lemma WipedElsewhere(d: Disk, g: Disk, i: nat, j: nat)
    requires Wiped(d, g, i) && j != i
    ensures N.SameBlocks(d, g, j)
  {
    hide Content, N.SameBlocks;
    forall k: nat ensures Content(g, j, k) == Content(d, j, k) { }
    ContentBlocks(d, g, j);
  }

  lemma KeptElsewhere(d: Disk, g: Disk, n: nat, j: nat)
    requires KeptData(d, g, n) && j != n
    ensures N.SameBlocks(d, g, j)
  {
    hide PosOf, DataAt;
    forall b: nat | b < MAX_BLOCKS ensures DataAt(g, PosOf(j, b)) == DataAt(d, PosOf(j, b)) { PosOfIndex(j, b, j + 1); }
  }

  lemma AddedElsewhere(d: Disk, g: Disk, dir: nat, r: nat, n: nat, name: seq<Byte>, j: nat)
    requires AddedBut(d, g, dir, r, n, name) && j != n && j != dir
    ensures N.SameBlocks(d, g, j)
  {
    hide PosOf, DataAt, PutRecord, Word;
    PosOfIndex(dir, r / PER_BLOCK, dir + 1);
    forall b: nat | b < MAX_BLOCKS ensures DataAt(g, PosOf(j, b)) == DataAt(d, PosOf(j, b)) { PosOfIndex(j, b, j + 1); }
  }

  lemma RemovedElsewhere(d: Disk, g: Disk, dir: nat, r: nat, j: nat)
    requires RemovedAt(d, g, dir, r) && j != dir
    ensures N.SameBlocks(d, g, j)
  {
    hide PosOf, DataAt, ClearRecord;
    PosOfIndex(dir, r / PER_BLOCK, dir + 1);
    forall b: nat | b < MAX_BLOCKS ensures DataAt(g, PosOf(j, b)) == DataAt(d, PosOf(j, b)) { PosOfIndex(j, b, j + 1); }
  }

  lemma SameTwice(d: Disk, e: Disk, g: Disk, j: nat)
    requires N.SameBlocks(d, e, j) && N.SameBlocks(e, g, j)
    ensures N.SameBlocks(d, g, j)
  {
    hide PosOf, DataAt;
  }

  /** An inode whose blocks read the same is still what it was; the link count of a
      directory is of no account. */
  lemma StandsSame(d: Disk, g: Disk, inode: Inode, inode': Inode, open: nat, i: nat, e: T.Entity)
    requires Stands(d, inode, open, i, e) && N.SameBlocks(d, g, i)
    requires inode'.size == inode.size && inode'.kind == inode.kind
    requires (inode.kind == FILE ==> inode'.links == inode.links)
    ensures Stands(g, inode', open, i, e)
  {
    hide N.SameBlocks, N.DirHolds, Content;
    if e.File? {
      BlocksContent(d, g, i);
      assert Extent(g, i) == Extent(d, i);
    } else {
      N.SameDir(d, g, i, inode.size, e.names);
    }
  }

  lemma FileFacts(d: Disk, inode: Inode, open: nat, i: nat, e: T.Entity)
    requires Stands(d, inode, open, i, e)
    ensures e.File? <==> inode.kind == FILE
    ensures e.Dir? <==> inode.kind == DIRECTORY
    ensures e.File? ==>
      e.open == open && e.links == inode.links && e.bytes == FileBytes(d, inode.size, i) && |e.bytes| == inode.size
    ensures e.File? ==> |e.bytes| + |e.behind| == MAX_SIZE
    ensures e.Dir? ==> N.DirHolds(d, i, inode.size, e.names) && open == 0
  {
    hide N.DirHolds, Content;
    if e.File? {
      assert |Extent(d, i)| == |e.bytes| + |e.behind|;
      forall k | 0 <= k < |e.bytes|
        ensures e.bytes[k] == Content(d, i, k)
      {
        assert (e.bytes + e.behind)[k] == Extent(d, i)[k];
      }
      assert e.bytes == FileBytes(d, inode.size, i);
    }
  }

  lemma SceneFacts(s: Scene, m: Model, i: nat)
    requires Fits(s, m)
    ensures |s.live| == |s.inodes| == |s.open| <= 0x1_0000_0000
    ensures i in m <==> 0 < i < |s.inodes| && s.live[i]
    ensures i in m ==> Stands(s.d, s.inodes[i], s.open[i], i, m[i])
    ensures i in m ==> (m[i].File? <==> s.inodes[i].kind == FILE) && (m[i].Dir? <==> s.inodes[i].kind == DIRECTORY)
    ensures i < |s.open| && s.open[i] > 0 ==> T.IsFile(m, i)
    ensures T.IsFile(m, i) ==> m[i].open == s.open[i] && m[i].links == s.inodes[i].links
  {
    hide Stands, T.TreeOk;
    if i in m { FileFacts(s.d, s.inodes[i], s.open[i], i, m[i]); }
  }

  // ------------------------------------------------------------------- the files

  /** Inode i has changed, and only its bytes. */
  lemma ChangedFits(s: Scene, s': Scene, m: Model, i: nat, f: T.Entity)
    requires Fits(s, m) && T.IsFile(m, i) && f.File? && f.links == m[i].links
    requires s'.live == s.live && s'.open == s.open && |s'.inodes| == |s.inodes|
    requires forall j :: 0 <= j < |s.inodes| && j != i ==> s'.inodes[j] == s.inodes[j] && N.SameBlocks(s.d, s'.d, j)
    requires 0 < i < |s.inodes| && i < |s.open| && Stands(s'.d, s'.inodes[i], s'.open[i], i, f)
    ensures Fits(s', m[i := f])
  {
    hide Stands, T.TreeOk, N.SameBlocks;
    var m' := m[i := f];
    forall j | j in m' ensures Stands(s'.d, s'.inodes[j], s'.open[j], j, m'[j]) {
      if j != i {
        assert Stands(s.d, s.inodes[j], s.open[j], j, m[j]);
        StandsSame(s.d, s'.d, s.inodes[j], s'.inodes[j], s.open[j], j, m[j]);
      }
    }
    T.FileTree(m, i, f);
  }

  lemma WriteFits(s: Scene, s': Scene, m: Model, i: nat, offset: nat, data: seq<Byte>)
    requires Fits(s, m) && T.IsFile(m, i) && Wrote(s.d, s'.d, i, offset, data) && offset + |data| <= MAX_SIZE
    requires s'.live == s.live && s'.open == s.open && WrittenInode(s.inodes, s'.inodes, i, offset + |data|)
    ensures offset + |data| <= |m[i].bytes| + |m[i].behind| && Fits(s', m[i := Written(m[i], offset, data)])
  {
    hide Stands, Wrote, T.TreeOk, Written, Fits, N.SameBlocks;
    SceneFacts(s, m, i);
    FileFacts(s.d, s.inodes[i], s.open[i], i, m[i]);
    forall j | 0 <= j < |s.inodes| && j != i
      ensures N.SameBlocks(s.d, s'.d, j)
    {
      WroteElsewhere(s.d, s'.d, i, offset, data, j);
    }
    WriteStands(s.d, s'.d, s.inodes[i], s'.inodes[i], s.open[i], i, m[i], offset, data);
    ChangedFits(s, s', m, i, Written(m[i], offset, data));
  }

  lemma WriteStands(d: Disk, g: Disk, inode: Inode, now: Inode, open: nat, i: nat, f: T.Entity, offset: nat,
                    data: seq<Byte>)
    requires f.File? && Stands(d, inode, open, i, f) && Wrote(d, g, i, offset, data) && offset + |data| <= MAX_SIZE
    requires now.size == Most(inode.size, offset + |data|) && now.links == inode.links && now.kind == inode.kind
    ensures |f.bytes| + |f.behind| == MAX_SIZE
    ensures Stands(g, now, open, i, Written(f, offset, data))
  {
    hide Content, Wrote;
    assert |Extent(d, i)| == |f.bytes| + |f.behind|;
    ExtentWritten(d, g, i, offset, data);
    var h := Written(f, offset, data);
    assert h.bytes + h.behind == Laid(Extent(d, i), offset, data);
  }

  lemma ExtentWritten(d: Disk, g: Disk, i: nat, offset: nat, data: seq<Byte>)
    requires Wrote(d, g, i, offset, data)
    ensures Extent(g, i) == Laid(Extent(d, i), offset, data)
  {
    hide Content;
    forall k: nat | k < MAX_SIZE ensures Extent(g, i)[k] == Overlay(Extent(d, i)[k], true, k, offset, data) {
      assert Content(g, i, k) == Overlay(Content(d, i, k), i == i, k, offset, data);
    }
  }

  lemma ExtentTorn(d: Disk, g: Disk, i: nat, offset: nat, data: seq<Byte>, slots: seq<nat>)
    requires HalfWrote(d, g, i, offset, data, slots)
    ensures Extent(g, i) == LaidInto(Extent(d, i), slots, offset, data)
  {
    hide Content, Rooting;
    forall k: nat | k < MAX_SIZE
      ensures Extent(g, i)[k] == Overlay(Extent(d, i)[k], Rooting(slots, k), k, offset, data)
    {
      assert Content(g, i, k) == Overlay(Content(d, i, k), i == i && Rooting(slots, k), k, offset, data);
    }
  }

  lemma TornStands(d: Disk, g: Disk, inode: Inode, open: nat, i: nat, f: T.Entity, offset: nat, data: seq<Byte>)
    requires f.File? && Stands(d, inode, open, i, f) && HalfWrote(d, g, i, offset, data, inode.slots)
    ensures Stands(g, inode, open, i, Torn(f, offset, data, inode.slots))
  {
    hide Content, HalfWrote, Rooting;
    ExtentTorn(d, g, i, offset, data, inode.slots);
    var h := Torn(f, offset, data, inode.slots);
    assert h.bytes + h.behind == LaidInto(Extent(d, i), inode.slots, offset, data);
  }

  lemma TornElsewhere(d: Disk, g: Disk, i: nat, offset: nat, data: seq<Byte>, slots: seq<nat>, j: nat)
    requires HalfWrote(d, g, i, offset, data, slots) && j != i
    ensures N.SameBlocks(d, g, j)
  {
    hide Content, N.SameBlocks, Rooting;
    forall k: nat ensures Content(g, j, k) == Content(d, j, k) {
      assert Content(g, j, k) == Overlay(Content(d, j, k), j == i && Rooting(slots, k), k, offset, data);
    }
    ContentBlocks(d, g, j);
  }

  lemma TornFits(s: Scene, s': Scene, m: Model, i: nat, offset: nat, data: seq<Byte>)
    requires Fits(s, m) && T.IsFile(m, i) && i < |s.inodes| && HalfWrote(s.d, s'.d, i, offset, data, s.inodes[i].slots)
    requires s'.live == s.live && s'.open == s.open && s'.inodes == s.inodes
    ensures Fits(s', m[i := Torn(m[i], offset, data, s.inodes[i].slots)])
  {
    hide Stands, HalfWrote, T.TreeOk, Torn, Fits, N.SameBlocks;
    SceneFacts(s, m, i);
    forall j | 0 <= j < |s.inodes| && j != i ensures N.SameBlocks(s.d, s'.d, j) {
      TornElsewhere(s.d, s'.d, i, offset, data, s.inodes[i].slots, j);
    }
    TornStands(s.d, s'.d, s.inodes[i], s.open[i], i, m[i], offset, data);
    ChangedFits(s, s', m, i, Torn(m[i], offset, data, s.inodes[i].slots));
  }

  method DoWrite(fs: MyFs, ghost m: Model, req: Request) returns (reply: Reply, ghost m': Model)
    requires Agrees(fs, m) && req.Write? && Sane(req)
    modifies fs
    ensures reply.Stopped? <==> EndsRun(old(SceneOf(fs)), m, req)
    ensures !reply.Stopped? ==> Agrees(fs, m') && ModelStep(old(SceneOf(fs)), m, req, reply, m')
    ensures !reply.Stopped? ==> DiskStep(old(SceneOf(fs)), m, req, reply, SceneOf(fs))
  {
    hide Inv, Wrote, HalfWrote, Fits, Enough, InReach, Affords, T.TreeOk, Written, Torn, Stands, Took, Halted, Trails,
      BlocksTo;
    m' := m;
    ghost var s := SceneOf(fs);
    var i := req.i;
    SceneFacts(s, m, i);
    if i == 0 || i >= |fs.inodes| || !fs.live[i] || fs.inodes[i].kind != FILE { return Refused, m; }
    FileFacts(s.d, s.inodes[i], s.open[i], i, m[i]);
    var long := req.offset + |req.data| > MAX_SIZE;
    TooLong(s.d, s.first, i, req.offset, |req.data|);
    var ok, res; ghost var done;
    ok, res, done := fs.WriteInode(i, req.offset, req.data);
    if fs.broken { return Stopped, m; }
    if ok {
      m' := m[i := Written(m[i], req.offset, req.data)];
      WriteFits(s, SceneOf(fs), m, i, req.offset, req.data);
      return Accepted(res), m';
    }
    if long {
      assert SceneOf(fs) == s;
      return Refused, m;
    }
    m' := m[i := Torn(m[i], req.offset, req.data[..done], s.inodes[i].slots)];
    TornFits(s, SceneOf(fs), m, i, req.offset, req.data[..done]);
    assert TornAt(s, m, i, req.offset, req.data, done, m');
    assert HaltedAt(s, SceneOf(fs), i, req.offset, |req.data|, done);
    reply := Full;
  }

  method DoRead(fs: MyFs, ghost m: Model, req: Request) returns (reply: Reply)
    requires Agrees(fs, m) && req.Read? && Sane(req)
    modifies fs
    ensures !reply.Stopped? && Agrees(fs, m) && ModelStep(old(SceneOf(fs)), m, req, reply, m)
    ensures DiskStep(old(SceneOf(fs)), m, req, reply, SceneOf(fs))
  {
    hide Inv, Fits, Slice, Content;
    ghost var s := SceneOf(fs);
    var i := req.i;
    SceneFacts(s, m, i);
    if i == 0 || i >= |fs.inodes| || !fs.live[i] || fs.inodes[i].kind != FILE { return Refused; }
    var res, out := fs.ReadInode(i, req.offset, req.length);
    assert SceneOf(fs) == s;
    FileFacts(s.d, s.inodes[i], s.open[i], i, m[i]);
    SliceRead(s.d, s.inodes[i].size, i, m[i].bytes, req.offset, req.length, out);
    reply := Bytes(out, res);
  }

  lemma SliceRead(d: Disk, size: nat, i: nat, b: seq<Byte>, offset: nat, length: nat, out: seq<Byte>)
    requires b == FileBytes(d, size, i) && |out| == Least(length, if offset < size then size - offset else 0)
    requires forall k :: 0 <= k < |out| ==> out[k] == Content(d, i, offset + k)
    ensures out == Slice(b, offset, length)
  {
    hide Content;
    forall k | 0 <= k < |out| ensures out[k] == b[offset + k] { }
  }

  lemma TruncateFits(s: Scene, s': Scene, m: Model, i: nat)
    requires Fits(s, m) && T.IsFile(m, i) && Wiped(s.d, s'.d, i)
    requires s'.live == s.live && s'.open == s.open
    requires s'.inodes == s.inodes[i := s.inodes[i].(size := 0, slots := NoSlots())]
    ensures Fits(s', m[i := m[i].(bytes := [], behind := T.Blank(MAX_SIZE))])
  {
    hide Stands, Wiped, T.TreeOk;
    var m' := m[i := m[i].(bytes := [], behind := T.Blank(MAX_SIZE))];
    forall j | j in m' ensures Stands(s'.d, s'.inodes[j], s'.open[j], j, m'[j]) {
      assert Stands(s.d, s.inodes[j], s.open[j], j, m[j]);
      if j == i {
        EmptyStands(s.d, s'.d, s.inodes[i], s'.inodes[i], s.open[i], i, m[i]);
      } else {
        WipedElsewhere(s.d, s'.d, i, j);
        StandsSame(s.d, s'.d, s.inodes[j], s'.inodes[j], s.open[j], j, m[j]);
      }
    }
    T.FileTree(m, i, m'[i]);
  }

  lemma EmptyStands(d: Disk, g: Disk, inode: Inode, now: Inode, open: nat, i: nat, f: T.Entity)
    requires f.File? && Stands(d, inode, open, i, f) && Wiped(d, g, i) && now == inode.(size := 0, slots := now.slots)
    ensures Stands(g, now, open, i, f.(bytes := [], behind := T.Blank(MAX_SIZE)))
  {
    hide Content;
  }

  method DoTruncate(fs: MyFs, ghost m: Model, req: Request) returns (reply: Reply, ghost m': Model)
    requires Agrees(fs, m) && req.Truncate?
    modifies fs
    ensures !reply.Stopped? && Agrees(fs, m') && ModelStep(old(SceneOf(fs)), m, req, reply, m')
    ensures DiskStep(old(SceneOf(fs)), m, req, reply, SceneOf(fs))
  {
    hide Inv, Fits, Wiped;
    m' := m;
    ghost var s := SceneOf(fs);
    var i := req.i;
    SceneFacts(s, m, i);
    if i == 0 || i >= |fs.inodes| || !fs.live[i] { return Refused, m; }
    var res := fs.Truncate(i);
    if res != 0 {
      assert SceneOf(fs) == s;
      return Refused, m;
    }
    m' := m[i := m[i].(bytes := [], behind := T.Blank(MAX_SIZE))];
    TruncateFits(s, SceneOf(fs), m, i);
    WipedSheds(s.d, SceneOf(fs).d, i);
    reply := Done;
  }

  lemma WipedSheds(d: Disk, g: Disk, i: nat)
    requires Wiped(d, g, i)
    ensures Shed(d, g, i)
  {
  }

  lemma OpenFits(s: Scene, m: Model, i: nat, open: nat)
    requires Fits(s, m) && T.IsFile(m, i)
    ensures Fits(s.(open := s.open[i := open]), m[i := m[i].(open := open)])
  {
    hide Stands, T.TreeOk;
    var m', s' := m[i := m[i].(open := open)], s.(open := s.open[i := open]);
    forall j | j in m' ensures Stands(s'.d, s'.inodes[j], s'.open[j], j, m'[j]) {
      assert Stands(s.d, s.inodes[j], s.open[j], j, m[j]);
      if j == i { Reopened(s.d, s.inodes[i], s.open[i], open, i, m[i]); }
    }
    T.FileTree(m, i, m'[i]);
  }

  lemma Reopened(d: Disk, inode: Inode, open: nat, now: nat, i: nat, f: T.Entity)
    requires f.File? && Stands(d, inode, open, i, f)
    ensures Stands(d, inode, now, i, f.(open := now))
  {
  }

  method DoOpen(fs: MyFs, ghost m: Model, req: Request) returns (reply: Reply, ghost m': Model)
    requires Agrees(fs, m) && req.Open?
    modifies fs
    ensures !reply.Stopped? && Agrees(fs, m') && ModelStep(old(SceneOf(fs)), m, req, reply, m')
    ensures DiskStep(old(SceneOf(fs)), m, req, reply, SceneOf(fs))
  {
    hide Inv, Fits;
    m' := m;
    var i := req.i;
    ghost var s := SceneOf(fs);
    SceneFacts(s, m, i);
    if i == 0 || i >= |fs.inodes| || !fs.live[i] || fs.inodes[i].kind != FILE { return Refused, m; }
    OpenFits(s, m, i, fs.open[i] + 1);
    fs.open := fs.open[i := fs.open[i] + 1];
    m' := m[i := m[i].(open := m[i].open + 1)];
    reply := Done;
  }

  lemma GoneFits(s: Scene, s': Scene, m: Model, i: nat)
    requires Fits(s, m) && T.IsFile(m, i) && m[i].links == 0 && Wiped(s.d, s'.d, i)
    requires s'.inodes == s.inodes[i := NoInode()]
    requires s'.live == s.live[i := false] && s'.open == s.open[i := 0]
    ensures Fits(s', m - {i})
  {
    hide Stands, Wiped, T.TreeOk;
    var m' := m - {i};
    forall j | j in m' ensures Stands(s'.d, s'.inodes[j], s'.open[j], j, m'[j]) {
      assert Stands(s.d, s.inodes[j], s.open[j], j, m[j]);
      WipedElsewhere(s.d, s'.d, i, j);
      StandsSame(s.d, s'.d, s.inodes[j], s'.inodes[j], s.open[j], j, m[j]);
    }
    T.GoneTree(m, i);
  }

  method DoClose(fs: MyFs, ghost m: Model, req: Request) returns (reply: Reply, ghost m': Model)
    requires Agrees(fs, m) && req.Close?
    modifies fs
    ensures !reply.Stopped? && Agrees(fs, m') && ModelStep(old(SceneOf(fs)), m, req, reply, m')
    ensures DiskStep(old(SceneOf(fs)), m, req, reply, SceneOf(fs))
  {
    hide Inv, Fits, Wiped;
    m' := m;
    var i: nat := req.i;
    ghost var s := SceneOf(fs);
    SceneFacts(s, m, i);
    if i == 0 || i >= |fs.inodes| || fs.open[i] == 0 { return Refused, m; }
    ghost var gone := s.open[i] == 1 && s.inodes[i].links == 0;
    fs.Release(i);
    if gone {
      m' := m - {i};
      GoneFits(s, SceneOf(fs), m, i);
      WipedSheds(s.d, SceneOf(fs).d, i);
    } else {
      m' := m[i := m[i].(open := m[i].open - 1)];
      OpenFits(s, m, i, s.open[i] - 1);
      assert SceneOf(fs) == s.(open := s.open[i := s.open[i] - 1]);
    }
    reply := Done;
  }

  // ----------------------------------------------------------------- the directories

  method DoLookup(fs: MyFs, ghost m: Model, req: Request) returns (reply: Reply)
    requires Agrees(fs, m) && req.Lookup? && Sane(req)
    modifies fs
    ensures !reply.Stopped? && Agrees(fs, m) && ModelStep(old(SceneOf(fs)), m, req, reply, m)
    ensures DiskStep(old(SceneOf(fs)), m, req, reply, SceneOf(fs))
  {
    hide Inv, Fits, NoMatch, FoundAt, Proper, N.DirHolds, N.RecordIno, RecordMatches;
    ghost var s := SceneOf(fs);
    var dir := req.dir;
    SceneFacts(s, m, dir);
    if dir == 0 || dir >= |fs.inodes| || !fs.live[dir] { return Refused; }
    FileFacts(s.d, s.inodes[dir], s.open[dir], dir, m[dir]);
    var found, ino, block, e := DirFind(fs, dir, req.name);
    assert SceneOf(fs) == s;
    if m[dir].Dir? { N.FoundIff(s.d, dir, s.inodes[dir].size, m[dir].names, req.name); }
    if !found { return Refused; }
    ghost var r := N.FoundRecord(s.d, s.first, dir, req.name, ino, block, e);
    N.FirstIs(s.d, dir, s.inodes[dir].size, m[dir].names, req.name, r);
    reply := Found(ino);
  }

  /** The new inode stands for an empty file or directory. */
  lemma NewStands(s: Scene, n: nat, parent: nat, kind: nat)
    requires Inv(s.d, s.first) && s.d.tops == Tops(s.inodes, s.live) && 0 < n < |s.inodes| == |s.live| && s.live[n]
    requires 0 < parent
    requires kind == FILE || kind == DIRECTORY
    requires kind != DIRECTORY ==> s.inodes[n] == Inode(0, kind, 1, NoSlots())
    requires kind == DIRECTORY ==> NewDir(s.d, s.inodes, n, parent)
    ensures Stands(s.d, s.inodes[n], 0, n, T.NewEntity(n, parent, kind))
  {
    hide Inv, Content, N.DirHolds, DirPage, DataAt, PosOf;
    if kind == DIRECTORY {
      OneBlock(s.d, s.first, n, s.inodes[n].slots[0]);
      N.NewDirHolds(s.d, s.inodes, n, parent);
    } else {
      NothingYet(s.d, s.first, n);
    }
  }

  lemma OneBlock(d: Disk, first: nat, n: nat, b: nat)
    requires Inv(d, first) && n < |d.tops| && d.tops[n] == NoSlots()[0 := b]
    ensures N.RestBlank(d, n)
  {
    hide PosOf, ZeroPage, LinkedAt, RootedAt, Mapped, Placed;
    forall k: nat | 0 < k < MAX_BLOCKS ensures DataAt(d, PosOf(n, k)) == ZeroPage() {
      PosOfIndex(n, k, n + 1);
      PathFacts(k);
      OtherSlot(k);
      EmptySlot(d, PosOf(n, k));
    }
  }

  lemma OtherSlot(k: nat)
    requires 0 < k < MAX_BLOCKS
    ensures SlotOf(k) != 0
  {
  }

  lemma CreateFits(s: Scene, s': Scene, m: Model, parent: nat, name: seq<Byte>, kind: nat, n: nat, r: nat)
    requires Fits(s, m) && T.NewName(m, parent, name) && Proper(name) && ROOT < n < |s.inodes| && !s.live[n]
    requires parent in m
    requires AddedBut(s.d, s'.d, parent, r, n, name) && s'.live == s.live[n := true] && s'.open == s.open
    requires ParentAfter(s.inodes, s'.inodes, parent, n, kind == DIRECTORY)
    requires r < PER_BLOCK * Scanned(s'.inodes[parent].size)
    requires s.inodes[parent].size <= s'.inodes[parent].size
    requires Stands(s'.d, s'.inodes[n], 0, n, T.NewEntity(n, parent, kind))
    ensures Fits(s', T.Added(m, parent, name, n, kind))
  {
    hide Stands, AddedBut, T.TreeOk, N.DirHolds, Proper, Scanned;
    var m' := T.Added(m, parent, name, n, kind);
    forall j | j in m' ensures Stands(s'.d, s'.inodes[j], s'.open[j], j, m'[j]) {
      if j == n {
        assert s.open[n] == 0;
      } else {
        assert Stands(s.d, s.inodes[j], s.open[j], j, m[j]);
        FileFacts(s.d, s.inodes[j], s.open[j], j, m[j]);
        if j == parent {
          N.AddedDir(s.d, s'.d, j, s.inodes[j].size, m[j].names, r, n, name, s'.inodes[j].size);
          DirStands(s'.d, s'.inodes[j], j, m'[j]);
        } else {
          AddedElsewhere(s.d, s'.d, parent, r, n, name, j);
          StandsSame(s.d, s'.d, s.inodes[j], s'.inodes[j], s.open[j], j, m[j]);
        }
      }
    }
    T.AddedTree(m, parent, name, n, kind);
  }

  lemma DirStands(d: Disk, inode: Inode, i: nat, e: T.Entity)
    requires e.Dir? && inode.kind == DIRECTORY && N.DirHolds(d, i, inode.size, e.names)
    ensures Stands(d, inode, 0, i, e)
  {
  }

  lemma RefusedCreateFits(s: Scene, s': Scene, m: Model, parent: nat, n: nat)
    requires Fits(s, m) && KeptData(s.d, s'.d, n) && s'.live == s.live && s'.open == s.open && n !in m
    requires ParentAfter(s.inodes, s'.inodes, parent, n, false) && s'.inodes[parent] == s.inodes[parent]
    ensures Fits(s', m)
  {
    hide Stands, KeptData, T.TreeOk;
    forall j | j in m ensures Stands(s'.d, s'.inodes[j], s'.open[j], j, m[j]) {
      assert Stands(s.d, s.inodes[j], s.open[j], j, m[j]);
      KeptElsewhere(s.d, s'.d, n, j);
      StandsSame(s.d, s'.d, s.inodes[j], s'.inodes[j], s.open[j], j, m[j]);
    }
  }

  /** What fs_create_path needs, in terms of the model. */
  lemma CreatableIff(s: Scene, m: Model, parent: nat, name: seq<Byte>, kind: nat)
    requires Fits(s, m) && parent in m && Proper(name)
    ensures parent < |s.inodes|
    ensures Creatable(s.d, s.first, s.inodes, s.live, parent, name, kind) <==>
      T.NewName(m, parent, name) && !Scarce(s, parent, kind)
    ensures T.IsDir(m, parent) ==> BlankBehind(s.d, parent, s.inodes[parent].size)
    ensures s.inodes[parent].kind != DIRECTORY ==> !T.NewName(m, parent, name)
  {
    hide Stands, NoMatch, Room, Free, N.DirHolds, BlankBehind, Proper, T.TreeOk, Scanned;
    assert Stands(s.d, s.inodes[parent], s.open[parent], parent, m[parent]);
    FileFacts(s.d, s.inodes[parent], s.open[parent], parent, m[parent]);
    if m[parent].Dir? {
      N.FoundIff(s.d, parent, s.inodes[parent].size, m[parent].names, name);
      N.BehindIsFree(s.d, parent, s.inodes[parent].size, m[parent].names);
    }
  }

  method DoCreate(fs: MyFs, ghost m: Model, req: Request) returns (reply: Reply, ghost m': Model)
    requires Agrees(fs, m) && req.Create? && Sane(req)
    modifies fs
    ensures reply.Stopped? <==> EndsRun(old(SceneOf(fs)), m, req)
    ensures !reply.Stopped? ==> Agrees(fs, m') && ModelStep(old(SceneOf(fs)), m, req, reply, m')
    ensures !reply.Stopped? ==> DiskStep(old(SceneOf(fs)), m, req, reply, SceneOf(fs))
  {
    hide Inv, Fits, KeptData, NoMatch, Astray, Forfeits, Creatable, Scarce, AddedBut, NewDir, BlankBehind, Proper,
      T.NewName, ParentAfter, Scanned, Stands;
    m' := m;
    var parent := req.parent;
    ghost var s := SceneOf(fs);
    SceneFacts(s, m, parent);
    if parent == 0 || parent >= |fs.inodes| || !fs.live[parent] {
      NotThere(s, m, req);
      return Refused, m;
    }
    CreatableIff(s, m, parent, req.name, req.kind);
    var ok, n, lost; ghost var r;
    ok, n, lost, r := Directory.Create(fs, parent, req.name, req.kind);
    if fs.broken || lost { return Stopped, m; }
    ghost var s' := SceneOf(fs);
    SceneFacts(s, m, n);
    if !ok {
      NotCreated(s, s', m, req, n);
      return Refused, m;
    }
    GrewParent(s, s', parent, n, req.kind == DIRECTORY);
    NewStands(s', n, parent, req.kind);
    CreateFits(s, s', m, parent, req.name, req.kind, n, r);
    m' := T.Added(m, parent, req.name, n, req.kind);
    CreatedStep(s, m, req, n);
    reply := Created(n);
  }

  lemma NotThere(s: Scene, m: Model, req: Request)
    requires req.Create? && req.parent !in m
    ensures Refusable(s, m, req) && !EndsRun(s, m, req)
  {
  }

  lemma GrewParent(s: Scene, s': Scene, parent: nat, n: nat, newDir: bool)
    requires ParentAfter(s.inodes, s'.inodes, parent, n, newDir)
    ensures |s'.inodes| == |s.inodes| && parent < |s.inodes| && s.inodes[parent].size <= s'.inodes[parent].size
  {
  }

  lemma NotCreated(s: Scene, s': Scene, m: Model, req: Request, n: nat)
    requires Fits(s, m) && req.Create? && req.parent in m && req.parent < |s.inodes| && n !in m
    requires !(T.NewName(m, req.parent, req.name) && !Scarce(s, req.parent, req.kind))
    requires KeptData(s.d, s'.d, n) && s'.live == s.live && s'.open == s.open
    requires ParentAfter(s.inodes, s'.inodes, req.parent, n, false)
    requires s'.inodes[req.parent] == s.inodes[req.parent]
    ensures Fits(s', m) && Refusable(s, m, req)
  {
    hide Fits, KeptData, ParentAfter, Scarce, T.NewName;
    RefusedCreateFits(s, s', m, req.parent, n);
  }

  lemma CreatedStep(s: Scene, m: Model, req: Request, n: nat)
    requires req.Create? && req.parent < |s.inodes| && n !in m
    requires T.NewName(m, req.parent, req.name) && !Scarce(s, req.parent, req.kind)
    ensures ModelStep(s, m, req, Created(n), T.Added(m, req.parent, req.name, n, req.kind))
  {
    hide Scarce;
  }

  // -------------------------------------------------------------------- removal

  /** fs_unlink_path removes exactly what the model lets go, and never follows a record to a
      freed inode. */
  lemma RemovableIff(s: Scene, m: Model, parent: nat, name: seq<Byte>)
    requires Fits(s, m) && parent in m && Proper(name)
    ensures parent < |s.inodes|
    ensures Directory.Removable(s.d, s.inodes, parent, name) <==> T.Removable(m, parent, name)
    ensures !Dangles(s.d, s.inodes, s.live, parent, name)
  {
    hide Stands, NoMatch, N.DirHolds, Proper, T.TreeOk, Scanned, RemovableAt, DanglesAt, T.Empty, Dot, DotDot,
      RecordMatches, N.RecordIno;
    assert Stands(s.d, s.inodes[parent], s.open[parent], parent, m[parent]);
    FileFacts(s.d, s.inodes[parent], s.open[parent], parent, m[parent]);
    if m[parent].Dir? {
      N.FoundIff(s.d, parent, s.inodes[parent].size, m[parent].names, name);
      if name in m[parent].names {
        var r: nat := RecordFor(s.d, parent, s.inodes[parent].size, m[parent].names, name);
        RemovableHere(s, m, parent, name, r);
        FirstIsIt(s.d, s.inodes, s.live, parent, name, r);
      }
    }
  }

  lemma RecordFor(d: Disk, dir: nat, size: nat, names: map<seq<Byte>, nat>, name: seq<Byte>) returns (r: nat)
    requires N.DirHolds(d, dir, size, names) && name in names
    ensures RecordMatches(d, dir, r, name) && NoMatch(d, dir, r, name) && names[name] == N.RecordIno(d, dir, r)
  {
    hide RecordMatches, N.RecordIno, Proper, NoMatch;
    r :| N.Called(d, dir, r, name);
    N.FirstIs(d, dir, size, names, name, r);
  }

  lemma RemovableHere(s: Scene, m: Model, parent: nat, name: seq<Byte>, r: nat)
    requires Fits(s, m) && T.IsDir(m, parent) && name in m[parent].names && parent < |s.inodes|
    requires RecordMatches(s.d, parent, r, name) && NoMatch(s.d, parent, r, name)
    requires m[parent].names[name] == N.RecordIno(s.d, parent, r)
    ensures m[parent].names[name] in m && !DanglesAt(s.d, s.live, parent, name, r)
    ensures RemovableAt(s.d, s.inodes, parent, name, r) <==> T.Empty(m[m[parent].names[name]])
  {
    hide Stands, NoMatch, T.TreeOk, Proper, T.Empty, PosOf, DataAt, Word, Matches, NoOrdinary, Fits;
    var n := m[parent].names[name];
    NameExists(s, m, parent, name);
    SceneFacts(s, m, n);
    InoIs(s.d, parent, r, name);
    MayGo(s.d, s.inodes, s.live, parent, name, n, r);
    EmptyHere(s, m, n);
  }

  lemma InoIs(d: Disk, dir: nat, r: nat, name: seq<Byte>)
    requires RecordMatches(d, dir, r, name)
    ensures r / PER_BLOCK < MAX_BLOCKS
    ensures N.RecordIno(d, dir, r) == Word(DataAt(d, PosOf(dir, r / PER_BLOCK)), 16 * (r % PER_BLOCK))
  {
  }

  lemma NameExists(s: Scene, m: Model, parent: nat, name: seq<Byte>)
    requires Fits(s, m) && T.IsDir(m, parent) && name in m[parent].names
    ensures m[parent].names[name] in m
  {
    hide Stands;
    T.DirFacts(m, parent);
  }

  lemma EmptyHere(s: Scene, m: Model, n: nat)
    requires Fits(s, m) && n in m && n < |s.inodes|
    ensures T.Empty(m[n]) <==> (s.inodes[n].kind == DIRECTORY ==> NoOrdinary(s.d, n, Blocks(s.inodes[n].size)))
  {
    hide Stands, T.TreeOk, N.DirHolds, NoOrdinary, Dot, DotDot, Blocks;
    assert Stands(s.d, s.inodes[n], s.open[n], n, m[n]);
    FileFacts(s.d, s.inodes[n], s.open[n], n, m[n]);
    if m[n].Dir? { N.EmptyIff(s.d, n, s.inodes[n].size, m[n].names); }
  }

  lemma RemoveFits(s: Scene, s': Scene, m: Model, parent: nat, name: seq<Byte>, i: nat, r: nat)
    requires Fits(s, m) && T.Removable(m, parent, name) && Proper(name) && i < |s.inodes|
    requires NamesAt(s.d, parent, name, i, r)
    requires i < |s.open| && parent < |s.inodes| && s'.inodes == AfterRemove(s.inodes, parent, i, s.open[i] == 0)
    requires |s.live| == |s.open| && s'.live == (if s.open[i] == 0 then s.live[i := false] else s.live)
    requires s'.open == s.open
    requires Unlinked(s.d, s'.d, parent, r, i, s.open[i] == 0)
    ensures Fits(s', T.Removed(m, parent, name)) && i == m[parent].names[name]
  {
    hide Stands, T.TreeOk, N.DirHolds, Proper, Unlinked, AfterRemove, NamesAt, T.Empty, Dot, DotDot;
    RemovedIno(s, m, parent, name, i, r);
    T.RemovedNotParent(m, parent, name);
    SceneFacts(s, m, i);
    AfterFacts(s.inodes, parent, i, s.open[i] == 0);
    var m' := T.Removed(m, parent, name);
    forall j | j in m' ensures Stands(s'.d, s'.inodes[j], s'.open[j], j, m'[j]) {
      assert Stands(s.d, s.inodes[j], s.open[j], j, m[j]);
      FileFacts(s.d, s.inodes[j], s.open[j], j, m[j]);
      if j == parent {
        ShrunkDir(s, s'.d, m, parent, name, i, r);
        DirStands(s'.d, s'.inodes[j], j, m'[j]);
      } else {
        OthersStand(s, s', m, parent, i, r, j, m'[j]);
      }
    }
    T.RemovedTree(m, parent, name);
  }

  /** What stays beside the directory: as it was, or an open file that lost its name. */
  lemma OthersStand(s: Scene, s': Scene, m: Model, parent: nat, i: nat, r: nat, j: nat, f: T.Entity)
    requires i < |s.open| && Unlinked(s.d, s'.d, parent, r, i, s.open[i] == 0) && s'.open == s.open && j != parent
    requires j in m && j < |s.inodes| == |s'.inodes| == |s.open| && Stands(s.d, s.inodes[j], s.open[j], j, m[j])
    requires j != i ==> f == m[j] && s'.inodes[j] == s.inodes[j]
    requires j == i ==> s.open[i] != 0 && m[j].File? && f == m[j].(links := 0)
    requires j == i ==> s'.inodes[j] == s.inodes[j].(links := 0)
    ensures Stands(s'.d, s'.inodes[j], s'.open[j], j, f)
  {
    hide Stands, Unlinked;
    UnlinkedElsewhere(s.d, s'.d, parent, r, i, s.open[i] == 0, j);
    if j == i {
      StandsSame(s.d, s'.d, s.inodes[j], s.inodes[j], s.open[j], j, m[j]);
      Unlinks(s'.d, s.inodes[j], s'.inodes[j], s.open[j], j, m[j]);
    } else {
      StandsSame(s.d, s'.d, s.inodes[j], s'.inodes[j], s.open[j], j, m[j]);
    }
  }

  lemma RemovedIno(s: Scene, m: Model, parent: nat, name: seq<Byte>, i: nat, r: nat)
    requires Fits(s, m) && T.Removable(m, parent, name) && Proper(name) && NamesAt(s.d, parent, name, i, r)
    ensures i == m[parent].names[name] && i in m && N.Called(s.d, parent, r, name)
  {
    hide Stands, T.TreeOk, N.DirHolds, Proper, T.Empty, Dot, DotDot, PosOf, DataAt, Word, Matches;
    assert Stands(s.d, s.inodes[parent], s.open[parent], parent, m[parent]);
    FileFacts(s.d, s.inodes[parent], s.open[parent], parent, m[parent]);
    N.FirstIs(s.d, parent, s.inodes[parent].size, m[parent].names, name, r);
    InoIs(s.d, parent, r, name);
  }

  lemma AfterFacts(inodes: seq<Inode>, parent: nat, i: nat, wiped: bool)
    requires parent < |inodes| && i < |inodes| && parent != i
    ensures var after := AfterRemove(inodes, parent, i, wiped);
      && |after| == |inodes| && (forall j :: 0 <= j < |inodes| && j != i && j != parent ==> after[j] == inodes[j])
      && after[parent] == inodes[parent].(links := after[parent].links)
      && (!wiped ==> after[i] == inodes[i].(links := 0))
  {
  }

  lemma Unlinks(d: Disk, inode: Inode, now: Inode, open: nat, i: nat, f: T.Entity)
    requires f.File? && Stands(d, inode, open, i, f) && now == inode.(links := 0)
    ensures Stands(d, now, open, i, f.(links := 0))
  {
  }

  lemma UnlinkedElsewhere(d: Disk, g: Disk, dir: nat, r: nat, i: nat, wiped: bool, j: nat)
    requires Unlinked(d, g, dir, r, i, wiped) && j != dir && (wiped ==> j != i)
    ensures N.SameBlocks(d, g, j)
  {
    hide RemovedAt, Wiped, N.SameBlocks;
    var e: Disk :| RemovedAt(d, e, dir, r) && if wiped then Wiped(e, g, i) else g == e;
    RemovedElsewhere(d, e, dir, r, j);
    if wiped {
      WipedElsewhere(e, g, i, j);
      SameTwice(d, e, g, j);
    }
  }

  lemma ShrunkDir(s: Scene, g: Disk, m: Model, parent: nat, name: seq<Byte>, i: nat, r: nat)
    requires Unlinked(s.d, g, parent, r, i, i < |s.open| && s.open[i] == 0) && T.IsDir(m, parent) && i != parent
    requires parent < |s.inodes|
    requires N.DirHolds(s.d, parent, s.inodes[parent].size, m[parent].names) && N.Called(s.d, parent, r, name)
    ensures N.DirHolds(g, parent, s.inodes[parent].size, m[parent].names - {name})
  {
    hide RemovedAt, Wiped, N.SameBlocks, N.DirHolds, N.Called;
    var wiped := i < |s.open| && s.open[i] == 0;
    var e: Disk :| RemovedAt(s.d, e, parent, r) && if wiped then Wiped(e, g, i) else g == e;
    N.RemovedDir(s.d, e, parent, s.inodes[parent].size, m[parent].names, r, name);
    if wiped {
      WipedElsewhere(e, g, i, parent);
      N.SameDir(e, g, parent, s.inodes[parent].size, m[parent].names - {name});
    }
  }

  lemma RemoveSheds(s: Scene, s': Scene, m: Model, parent: nat, name: seq<Byte>, i: nat, r: nat)
    requires Fits(s, m) && T.Removable(m, parent, name) && Proper(name) && NamesAt(s.d, parent, name, i, r)
    requires i < |s.open| && Unlinked(s.d, s'.d, parent, r, i, s.open[i] == 0)
    ensures T.IsDir(m, parent) && name in m[parent].names && RemoveStep(s, s', m[parent].names[name])
    ensures |s'.d.used| == |s.d.used|
  {
    hide Fits, Proper, NamesAt, T.Empty;
    RemovedIno(s, m, parent, name, i, r);
  }

  method DoRemove(fs: MyFs, ghost m: Model, req: Request) returns (reply: Reply, ghost m': Model)
    requires Agrees(fs, m) && req.Remove? && Sane(req)
    modifies fs
    ensures !reply.Stopped? && Agrees(fs, m') && ModelStep(old(SceneOf(fs)), m, req, reply, m')
    ensures DiskStep(old(SceneOf(fs)), m, req, reply, SceneOf(fs))
  {
    hide Inv, Fits, Proper, T.Removable, Directory.Removable, Dangles, AfterRemove, NamesAt, Unlinked;
    m' := m;
    var parent := req.parent;
    ghost var s := SceneOf(fs);
    SceneFacts(s, m, parent);
    if parent == 0 || parent >= |fs.inodes| || !fs.live[parent] {
      NoParent(m, parent, req.name);
      return Refused, m;
    }
    RemovableIff(s, m, parent, req.name);
    var ok, i; ghost var r;
    ok, i, r := Directory.Remove(fs, parent, req.name);
    if !ok {
      assert SceneOf(fs) == s;
      return Refused, m;
    }
    RemoveFits(s, SceneOf(fs), m, parent, req.name, i, r);
    RemoveSheds(s, SceneOf(fs), m, parent, req.name, i, r);
    m' := T.Removed(m, parent, req.name);
    reply := Done;
  }

  lemma NoParent(m: Model, parent: nat, name: seq<Byte>)
    requires parent !in m
    ensures !T.Removable(m, parent, name)
  {
  }

  // -------------------------------------------------------------------- whole runs

  predicate Sane(req: Request) {
    match req
    case Write(_, offset, data) => offset < 0x1_0000_0000_0000_0000 && |data| < 0x1_0000_0000
    case Read(_, offset, length) => offset < 0x1_0000_0000_0000_0000 && length < 0x1_0000_0000
    case Lookup(_, name) => Proper(name)
    case Create(_, name, kind) => Proper(name) && (kind == FILE || kind == DIRECTORY)
    case Remove(_, name) => Proper(name)
    case _ => true
  }

  method Step(fs: MyFs, ghost m: Model, req: Request) returns (reply: Reply, ghost m': Model)
    requires Agrees(fs, m) && Sane(req)
    modifies fs
    ensures reply.Stopped? <==> EndsRun(old(SceneOf(fs)), m, req)
    ensures !reply.Stopped? ==> Agrees(fs, m') && ModelStep(old(SceneOf(fs)), m, req, reply, m')
    ensures !reply.Stopped? ==> DiskStep(old(SceneOf(fs)), m, req, reply, SceneOf(fs))
  {
    hide Agrees, ModelStep, SceneOf, DiskStep;
    m' := m;
    match req
    case Write(_, _, _) => reply, m' := DoWrite(fs, m, req);
    case Read(_, _, _) => reply := DoRead(fs, m, req);
    case Truncate(_) => reply, m' := DoTruncate(fs, m, req);
    case Open(_) => reply, m' := DoOpen(fs, m, req);
    case Close(_) => reply, m' := DoClose(fs, m, req);
    case Lookup(_, _) => reply := DoLookup(fs, m, req);
    case Create(_, _, _) => reply, m' := DoCreate(fs, m, req);
    case Remove(_, _) => reply, m' := DoRemove(fs, m, req);
  }

  /** Every run of requests does to the disk what it does to byte arrays and names: every
      reply is the model's, the names stay a tree, and the bitmap is exactly what the
      pointers reach. The run ends exactly at the first request that EndsRun names. */
  method Run(fs: MyFs, ghost m: Model, reqs: seq<Request>)
    returns (replies: seq<Reply>, stopped: bool, ghost ms: seq<Model>, ghost ss: seq<Scene>)
    requires Agrees(fs, m) && forall i :: 0 <= i < |reqs| ==> Sane(reqs[i])
    modifies fs
    ensures |replies| <= |reqs| && |ms| == |ss| == |replies| + 1 && ms[0] == m && ss[0] == old(SceneOf(fs))
    ensures forall i :: 0 <= i <= |replies| ==> Fits(ss[i], ms[i])
    ensures forall i :: 0 <= i < |replies| ==>
      ModelStep(ss[i], ms[i], reqs[i], replies[i], ms[i + 1]) && !EndsRun(ss[i], ms[i], reqs[i])
    ensures forall i :: 0 <= i <= |replies| ==> Sound(ss[i]) && SameSize(ss[0], ss[i])
    ensures forall i :: 0 <= i < |replies| ==> DiskStep(ss[i], ms[i], reqs[i], replies[i], ss[i + 1])
    ensures stopped <==> |replies| < |reqs|
    ensures stopped ==> EndsRun(ss[|replies|], ms[|replies|], reqs[|replies|])
    ensures !stopped ==> Agrees(fs, ms[|replies|]) && ss[|replies|] == SceneOf(fs)
  {
    hide Agrees, ModelStep, SceneOf, Fits, EndsRun, Sound, SameSize, DiskStep;
    replies, stopped, ms, ss := [], false, [m], [SceneOf(fs)];
    AgreesFits(fs, m);
    while |replies| < |reqs|
      invariant |replies| <= |reqs| && |ms| == |ss| == |replies| + 1 && ms[0] == m && ss[0] == old(SceneOf(fs))
      invariant Agrees(fs, ms[|replies|]) && ss[|replies|] == SceneOf(fs) && !stopped
      invariant forall i :: 0 <= i <= |replies| ==> Fits(ss[i], ms[i])
      invariant forall i :: 0 <= i < |replies| ==>
        ModelStep(ss[i], ms[i], reqs[i], replies[i], ms[i + 1]) && !EndsRun(ss[i], ms[i], reqs[i])
      invariant forall i :: 0 <= i <= |replies| ==> Sound(ss[i]) && SameSize(ss[0], ss[i])
      invariant forall i :: 0 <= i < |replies| ==> DiskStep(ss[i], ms[i], reqs[i], replies[i], ss[i + 1])
      decreases |reqs| - |replies|
    {
      ghost var next;
      var reply;
      reply, next := Step(fs, ms[|replies|], reqs[|replies|]);
      if reply.Stopped? { return replies, true, ms, ss; }
      AgreesFits(fs, next);
      SizeStays(ss[0], ss[|replies|], ms[|replies|], reqs[|replies|], reply, SceneOf(fs));
      replies, ms, ss := replies + [reply], ms + [next], ss + [SceneOf(fs)];
    }
  }

  lemma AgreesFits(fs: MyFs, m: Model)
    requires Agrees(fs, m)
    ensures Fits(SceneOf(fs), m) && Sound(SceneOf(fs)) && SameSize(SceneOf(fs), SceneOf(fs))
  {
  }

  lemma SizeStays(s0: Scene, s: Scene, m: Model, req: Request, reply: Reply, s': Scene)
    requires SameSize(s0, s) && DiskStep(s, m, req, reply, s')
    ensures SameSize(s0, s')
  {
    hide Took, TookSome, Shed, HaltedAt, Extension, Own, Trails;
  }
}
