/** A full directory on which fs_create (kernel/fs.c) loses a block: eleven blocks of records
    for seven hundred empty files, on a disk with one free block, in agreement with a tree of
    names. */
module FullDirectory {
  import opened Layout
  import opened FileIndex
  import opened Allocation
  import opened Files
  import opened Directory
  import N = DirNames
  import T = NameTree
  import F = FileService
  import X = Failures

  const FIRST := 10
  const RECORDS := 704   // eleven blocks of sixty-four
  const FILES := 702     // inodes 2 to 703

  // ------------------------------------------------------------------- the records

  /** The name in record r: "." and "..", then Ac, Ad, and so on. */
  function NameOf(r: nat): seq<Byte>
    requires r < RECORDS
  {
    if r == 0 then Dot() else if r == 1 then DotDot() else [65 + r / 26, 97 + r % 26]
  }

  function InoOf(r: nat): nat { if r < 2 then 1 else r }

  function RecordByte(r: nat, off: nat): Byte
    requires r < RECORDS && off < 64
  {
    if off == 0 then InoOf(r) % 256 else if off == 1 then InoOf(r) / 256 else if off < 4 then 0
    else if off - 4 < |NameOf(r)| then NameOf(r)[off - 4] else 0
  }

  function Records(k: nat): Page
    requires k < DIRECT
  {
    seq(PAGE_SIZE, b requires 0 <= b < PAGE_SIZE => RecordByte(64 * k + b / 64, b % 64))
  }

  lemma ByteAt(r: nat, off: nat)
    requires r < RECORDS && off < 64
    ensures r / 64 < DIRECT && Records(r / 64)[64 * (r % 64) + off] == RecordByte(r, off)
  {
    var b := 64 * (r % 64) + off;
    assert b / 64 == r % 64 && b % 64 == off;
    assert 64 * (r / 64) + r % 64 == r;
  }

  lemma RecordIs(r: nat)
    requires r < RECORDS
    ensures r / 64 < DIRECT && Word(Records(r / 64), 16 * (r % 64)) == InoOf(r)
  {
    hide Records;
    ByteAt(r, 0);
    ByteAt(r, 1);
    ByteAt(r, 2);
    ByteAt(r, 3);
  }

  lemma NameIsIt(r: nat, name: seq<Byte>)
    requires r < RECORDS && Proper(name)
    ensures r / 64 < DIRECT && (NameIs(Records(r / 64), r % 64, name) <==> name == NameOf(r))
  {
    hide Records;
    forall j: nat | j < NAME_MAX
      ensures NameByte(Records(r / 64), r % 64, j) == RecordByte(r, 4 + j)
    {
      ByteAt(r, 4 + j);
    }
    var n := NameOf(r);
    if NameIs(Records(r / 64), r % 64, name) {
      assert NameByte(Records(r / 64), r % 64, |name|) == 0;
      assert |name| >= |n|;
      assert NameByte(Records(r / 64), r % 64, |n|) == 0;
      forall j | 0 <= j < |n| ensures name[j] == n[j] { assert NameByte(Records(r / 64), r % 64, j) == name[j]; }
    }
  }

  lemma NamesApart(r: nat, q: nat)
    requires r < RECORDS && q < RECORDS && NameOf(r) == NameOf(q)
    ensures r == q
  {
    assert 1 < r && 1 < q ==> NameOf(r)[0] == NameOf(q)[0] && NameOf(r)[1] == NameOf(q)[1];
  }

  // ---------------------------------------------------------------------- the disk

  ghost function Full(): Disk {
    Disk(X.Nodes(FIRST, DIRECT), X.Homes(FIRST, DIRECT),
         [NoSlots(), X.Direct(FIRST, DIRECT)] + seq(FILES + 1, _ => NoSlots()),
         Pages(), X.Bitmap(FIRST + DIRECT + 1, FIRST + DIRECT))
  }

  function Pages(): seq<Page> {
    seq(FIRST + DIRECT + 1, b requires 0 <= b => PageOf(b))
  }

  function PageOf(b: nat): Page { if FIRST <= b < FIRST + DIRECT then Records(b - FIRST) else ZeroPage() }

  lemma FullPlaced()
    ensures Placed(Full(), FIRST) && Linked(Full()) && Mapped(Full(), FIRST)
  {
    hide Pages, NoSlots, X.Direct;
    var d := Full();
    assert |d.pages| == FIRST + DIRECT + 1 by { PagesLong(); }
    assert forall p :: p in d.node ==> p.Top? && p.ino == 1 && p.slot < DIRECT && d.node[p] == FIRST + p.slot;
  }

  lemma PagesLong()
    ensures |Pages()| == FIRST + DIRECT + 1
  {
  }

  lemma FullRooted()
    ensures Rooted(Full())
  {
    hide Pages;
    var d := Full();
    forall i, s | 0 <= i < |d.tops| && 0 <= s < SLOTS ensures |d.tops[i]| == SLOTS && RootedAt(d, i, s) { }
  }

  lemma FullInv()
    ensures Inv(Full(), FIRST)
  {
    hide Placed, Linked, Mapped, Rooted, Full;
    FullPlaced();
    FullRooted();
  }

  function Inodes(): seq<Inode> {
    [NoInode(), Inode(DIRECT * PAGE_SIZE, DIRECTORY, 1, X.Direct(FIRST, DIRECT))] +
    seq(FILES, _ => Inode(0, FILE, 1, NoSlots())) +
    [NoInode()]
  }

  function Live(): seq<bool> { [false] + seq(FILES + 1, _ => true) + [false] }

  lemma FullTops()
    ensures Tops(Inodes(), Live()) == Full().tops && |Inodes()| == |Live()| == FILES + 3
  {
    hide X.Direct;
    var a, b := Tops(Inodes(), Live()), Full().tops;
    assert |a| == |b| == FILES + 3;
    forall i | 0 <= i < FILES + 3 ensures a[i] == b[i] { }
  }

  lemma DataIs(k: nat)
    requires k < MAX_BLOCKS
    ensures DataAt(Full(), PosOf(1, k)) == if k < DIRECT then Records(k) else ZeroPage()
    ensures k < DIRECT ==> PosOf(1, k) in Full().node
    ensures k >= DIRECT ==> PosOf(1, k) !in Full().node
  {
    hide Records, ZeroPage;
    if k < DIRECT {
      assert PosOf(1, k) == Top(1, k);
    } else {
      PosOfIndex(1, k, 2);
    }
  }

  lemma NoData(i: nat, k: nat)
    requires k < MAX_BLOCKS && i != 1
    ensures DataAt(Full(), PosOf(i, k)) == ZeroPage()
  {
    hide ZeroPage, Records;
    PosOfIndex(i, k, i + 1);
  }

  // --------------------------------------------------------------------- the names

  function NumberOf(name: seq<Byte>): int {
    if |name| != 2 || name == DotDot() then 1
    else
      var a: int, b: int := name[0], name[1];
      26 * (a - 65) + b - 97
  }

  function AllNames(): set<seq<Byte>> { set r: nat | r < RECORDS :: NameOf(r) }

  function Names(): map<seq<Byte>, nat> {
    map name | name in AllNames() && NumberOf(name) >= 0 :: NumberOf(name)
  }

  lemma NamesAre(r: nat)
    requires r < RECORDS
    ensures NameOf(r) in Names() && Names()[NameOf(r)] == InoOf(r) && Proper(NameOf(r))
  {
    assert NameOf(r) in AllNames();
  }

  lemma CalledIs(r: nat, name: seq<Byte>)
    ensures N.Called(Full(), 1, r, name) <==> r < RECORDS && name == NameOf(r)
    ensures N.RecordIno(Full(), 1, r) == if r < RECORDS then InoOf(r) else 0
  {
    hide Full, Records, Word, PosOf, ZeroPage, NameIs;
    var k := r / PER_BLOCK;
    if k < MAX_BLOCKS {
      DataIs(k);
      if r < RECORDS {
        RecordIs(r);
        if Proper(name) { NameIsIt(r, name); }
        NamesAre(r);
      } else {
        BlankRecord(r % PER_BLOCK, name);
        WordZero(16 * (r % PER_BLOCK));
      }
    }
  }

  lemma RootHolds()
    ensures N.DirHolds(Full(), 1, DIRECT * PAGE_SIZE, Names())
  {
    hide Full, N.Called, N.RecordIno, NameOf, NumberOf;
    forall r: nat, name: seq<Byte>
      ensures N.Called(Full(), 1, r, name) <==> r < RECORDS && name == NameOf(r)
      ensures N.RecordIno(Full(), 1, r) == if r < RECORDS then InoOf(r) else 0
    {
      CalledIs(r, name);
    }
    forall r: nat | r < RECORDS ensures NameOf(r) in Names() && Names()[NameOf(r)] == InoOf(r) { NamesAre(r); }
    forall r: nat, q: nat | r < RECORDS && q < RECORDS && NameOf(r) == NameOf(q) ensures r == q { NamesApart(r, q); }
    forall name | name in Names() ensures exists r: nat :: N.Called(Full(), 1, r, name) {
      var r: nat :| r < RECORDS && name == NameOf(r);
      assert N.Called(Full(), 1, r, name);
    }
    forall r: nat | N.RecordIno(Full(), 1, r) != 0
      ensures r < PER_BLOCK * Scanned(DIRECT * PAGE_SIZE) && N.HasName(Full(), 1, r)
    {
      CalledIs(r, []);
      assert N.Called(Full(), 1, r, NameOf(r));
    }
  }

  // --------------------------------------------------------------------- the model

  ghost function Model(): T.Model {
    map i: nat | 1 <= i < FILES + 2 :: EntityOf(i)
  }

  ghost function EntityOf(i: nat): T.Entity {
    if i == 1 then T.Dir(Names()) else T.File([], T.Blank(MAX_SIZE), 1, 0)
  }

  lemma GivenNames(name: seq<Byte>)
    requires name in Names() && T.Given(name)
    ensures 2 <= Names()[name] < RECORDS && name == NameOf(Names()[name])
  {
    hide NumberOf;
    var r: nat :| r < RECORDS && name == NameOf(r);
    NamesAre(r);
  }

  lemma ModelTree()
    ensures T.TreeOk(Model())
  {
    hide Names;
    var m := Model();
    NamesAre(0);
    NamesAre(1);
    assert T.IsDir(m, ROOT) && forall i :: T.IsDir(m, i) ==> i == 1;
    forall name | name in Names() ensures Names()[name] in m { NamedHere(name); }
    assert T.DirOk(m, 1);
    forall a, i: nat | T.Names(m, 1, a, i)
      ensures 2 <= i && a == (if i < RECORDS then NameOf(i) else [])
    {
      GivenNames(a);
    }
    assert T.Climbs(m, 1, 0);
    assert T.Hangs(m, 1);
  }

  lemma NamedHere(name: seq<Byte>)
    requires name in Names()
    ensures Names()[name] in Model()
  {
    if T.Given(name) {
      GivenNames(name);
    } else {
      NamesAre(0);
      NamesAre(1);
    }
  }

  lemma EmptyFile(i: nat)
    requires 2 <= i < FILES + 2
    ensures F.Stands(Full(), Inode(0, FILE, 1, NoSlots()), 0, i, T.File([], T.Blank(MAX_SIZE), 1, 0))
  {
    hide Full, PosOf;
    forall k: nat | k < MAX_SIZE ensures Content(Full(), i, k) == 0 {
      if k / PAGE_SIZE < MAX_BLOCKS { NoData(i, k / PAGE_SIZE); }
    }
    assert [] + T.Blank(MAX_SIZE) == F.Extent(Full(), i);
  }

  lemma Agreement(s: F.Scene)
    requires s.d == Full() && s.inodes == Inodes() && s.live == Live() && |s.open| == |s.inodes|
    requires forall i :: 0 <= i < |s.open| ==> s.open[i] == 0
    ensures F.Fits(s, Model())
  {
    hide Full, Names, F.Stands, T.TreeOk, X.Direct;
    var m := Model();
    ModelTree();
    forall i | i in m ensures F.Stands(s.d, s.inodes[i], s.open[i], i, m[i]) {
      if i == 1 {
        RootHolds();
        RootStands(s.inodes[1]);
      } else {
        EmptyFile(i);
      }
    }
  }

  lemma RootStands(inode: Inode)
    requires inode.kind == DIRECTORY && N.DirHolds(Full(), 1, inode.size, Names())
    ensures F.Stands(Full(), inode, 0, 1, T.Dir(Names()))
  {
    hide N.DirHolds, Full, Names;
  }

  /** The disk, mounted: an ordinary disk, as far as any caller can tell. */
  method Mounted() returns (fs: MyFs)
    ensures fresh(fs) && F.Agrees(fs, Model()) && F.SceneOf(fs).d == Full() && fs.first == FIRST
    ensures fs.inodes == Inodes() && fs.live == Live()
  {
    hide Inv, Full, F.Fits, Model, Records, X.Direct;
    FullInv();
    FullTops();
    FullParts();
    fs := new MyFs(FIRST, Inodes(), Live(), Pages(), X.Bitmap(FIRST + DIRECT + 1, FIRST + DIRECT),
                   X.Nodes(FIRST, DIRECT), X.Homes(FIRST, DIRECT));
    Agreement(F.SceneOf(fs));
  }

  lemma FullParts()
    ensures Full() == Disk(X.Nodes(FIRST, DIRECT), X.Homes(FIRST, DIRECT), Full().tops, Pages(),
                           X.Bitmap(FIRST + DIRECT + 1, FIRST + DIRECT))
    ensures forall i :: 0 <= i < |Inodes()| ==> |Inodes()[i].slots| == SLOTS && Inodes()[i].size <= MAX_SIZE
  {
  }

  // ---------------------------------------------------------------------- the leak

  lemma Leaking(name: seq<Byte>)
    requires 0 < |name| < NAME_MAX && Proper(name) && name !in Names()
    ensures Addable(Full(), 1, Inodes()[1], name) && Leaks(Full(), FIRST, 1, Inodes()[1].size)
    ensures !Overreaches(Full(), FIRST, 1, Inodes()[1], name, 0)
  {
    hide Full, Free, Reach, N.DirHolds, Names, RecordFree;
    var d, n := Full(), DIRECT;
    RootHolds();
    N.FoundIff(d, 1, DIRECT * PAGE_SIZE, Names(), name);
    assert Scanned(DIRECT * PAGE_SIZE) == n && SlotOf(n) == n && PER_BLOCK * n == RECORDS;
    forall r: nat | r < RECORDS ensures !RecordFree(d, 1, r) { NoneFree(r); }
    OneFree();
    ReachFirst(d.used, FIRST, FIRST + DIRECT, INT_LIMIT);
    ReachVoid(d.used, FIRST, 1, 2, EntryLimit(FIRST));
  }

  lemma NoneFree(r: nat)
    requires r < RECORDS
    ensures !RecordFree(Full(), 1, r)
  {
    hide Full, PosOf, Word;
    CalledIs(r, NameOf(r));
  }

  lemma OneFree()
    ensures |Free(Full().used, FIRST)| == 1 && Top(1, DIRECT) !in Full().node && MissingFor(Full().node, 1, DIRECT) == 2
    ensures Full().used == X.Bitmap(FIRST + DIRECT + 1, FIRST + DIRECT)
  {
    hide Free;
    X.FreeTail(Full().used, FIRST, FIRST + DIRECT);
  }

  /** Creating a file ends a run there. */
  lemma EndsThere(s: F.Scene, name: seq<Byte>)
    requires s.d == Full() && s.first == FIRST && s.inodes == Inodes() && s.live == Live()
    requires 0 < |name| < NAME_MAX && Proper(name) && name !in Names()
    ensures F.EndsRun(s, Model(), F.Create(1, name, FILE))
  {
    hide Full, Free, NoMatch, NoFree, Names, MissingFor, X.Direct;
    Leaking(name);
    NamesAre(0);
    NamesAre(1);
    FullTops();
    assert ROOT < FILES + 2 < |s.live| && !s.live[FILES + 2];
    assert InodeLeft(s.live);
    assert Inodes()[1].kind == DIRECTORY;
    assert Begun(s.d, s.first, s.inodes, s.live, 1, name, FILE);
    assert Forfeits(s.d, s.first, s.inodes, s.live, 1, name, FILE);
  }

  /** Adding any further name fails, and the free block is taken and out of reach of every
      pointer on the disk. */
  method NameCostsBlock(fs: MyFs, name: seq<Byte>) returns (added: bool)
    requires F.Agrees(fs, Model()) && F.SceneOf(fs).d == Full() && fs.first == FIRST && fs.inodes == Inodes()
    requires fs.live == Live()
    requires 0 < |name| < NAME_MAX && Proper(name) && name !in Names()
    modifies fs
    ensures !added && fs.inodes == Inodes() && Lost(Tops(fs.inodes, fs.live), fs.pages, fs.used, FIRST)
  {
    hide Inv, Full, F.Fits, Model, Names, Lost, Addable, Leaks, Overreaches, Room, Records, X.Direct;
    Leaking(name);
    NoRoom();
    RootHolds();
    N.BehindIsFree(Full(), 1, DIRECT * PAGE_SIZE, Names());
    FullTops();
    var lost; ghost var phantom, r;
    added, lost, phantom, r := DirAdd(fs, 1, name, FILES + 2);
  }

  lemma NoRoom()
    ensures !Room(Full(), FIRST, 1, DIRECT * PAGE_SIZE, 0)
  {
    hide Full, Free, RecordFree;
    OneFree();
    forall r: nat | r < RECORDS ensures !RecordFree(Full(), 1, r) { NoneFree(r); }
    assert Scanned(DIRECT * PAGE_SIZE) == DIRECT;
  }
}
