/** The records of a directory and the names they stand for. */
module DirNames {
  import opened Layout
  import opened FileIndex
  import opened Files
  import opened Directory

  type Name = seq<Byte>

  /** The inode number in record r of the directory; 0 if the record is not in use. */
  ghost function RecordIno(d: Disk, dir: nat, r: nat): nat {
    if r / PER_BLOCK < MAX_BLOCKS then Word(DataAt(d, PosOf(dir, r / PER_BLOCK)), 16 * (r % PER_BLOCK)) else 0
  }

  ghost predicate Called(d: Disk, dir: nat, r: nat, name: Name) {
    Proper(name) && RecordMatches(d, dir, r, name)
  }

  /** The records in use, all within the directory's size, are the names of the map, each
      once. */
  ghost predicate DirHolds(d: Disk, dir: nat, size: nat, names: map<Name, nat>) {
    && size > 0
    && (forall r: nat, name: Name :: Called(d, dir, r, name) ==> name in names && names[name] == RecordIno(d, dir, r))
    && (forall name: Name :: name in names ==> exists r: nat :: Called(d, dir, r, name))
    && (forall r: nat, q: nat, name: Name :: Called(d, dir, r, name) && Called(d, dir, q, name) ==> r == q)
    && (forall r: nat :: RecordIno(d, dir, r) != 0 ==> r < PER_BLOCK * Scanned(size) && HasName(d, dir, r))
  }

  ghost predicate HasName(d: Disk, dir: nat, r: nat) {
    exists name: Name :: Called(d, dir, r, name)
  }

  /** A record in use and a name go together. */
  lemma CalledInUse(d: Disk, dir: nat, r: nat, name: Name)
    ensures Called(d, dir, r, name) ==> RecordIno(d, dir, r) != 0
  {
    hide PosOf, DataAt, Word, NameIs;
  }

  // ----------------------------------------------------------------- the same data

  /** The blocks of inode i read the same. */
  ghost predicate SameBlocks(d: Disk, g: Disk, i: nat) {
    forall b: nat :: b < MAX_BLOCKS ==> DataAt(g, PosOf(i, b)) == DataAt(d, PosOf(i, b))
  }

  lemma SameRecord(d: Disk, g: Disk, dir: nat, r: nat, name: Name)
    requires SameBlocks(d, g, dir)
    ensures Called(g, dir, r, name) <==> Called(d, dir, r, name)
    ensures RecordIno(g, dir, r) == RecordIno(d, dir, r)
  {
    hide PosOf, DataAt, Word, Matches;
  }

  lemma SameDir(d: Disk, g: Disk, dir: nat, size: nat, names: map<Name, nat>)
    requires SameBlocks(d, g, dir) && DirHolds(d, dir, size, names)
    ensures DirHolds(g, dir, size, names)
  {
    hide SameBlocks, Called, RecordIno;
    forall r: nat, name: Name
      ensures Called(g, dir, r, name) <==> Called(d, dir, r, name)
      ensures RecordIno(g, dir, r) == RecordIno(d, dir, r)
    {
      SameRecord(d, g, dir, r, name);
    }
    forall r: nat | RecordIno(g, dir, r) != 0 ensures r < PER_BLOCK * Scanned(size) && HasName(g, dir, r) {
      SameRecord(d, g, dir, r, []);
      var name: Name :| Called(d, dir, r, name);
    }
    forall name: Name | name in names ensures exists r: nat :: Called(g, dir, r, name) {
      var r: nat :| Called(d, dir, r, name);
      assert Called(g, dir, r, name);
    }
  }

  // -------------------------------------------------------------------- looking up

  /** dir_find decides whether the name is in the map. */
  lemma FoundIff(d: Disk, dir: nat, size: nat, names: map<Name, nat>, name: Name)
    requires DirHolds(d, dir, size, names) && Proper(name)
    ensures NoMatch(d, dir, PER_BLOCK * Scanned(size), name) <==> name !in names
  {
    hide RecordMatches, RecordIno, Proper, Scanned;
    if name in names {
      var r: nat :| Called(d, dir, r, name);
      CalledInUse(d, dir, r, name);
      assert RecordMatches(d, dir, r, name);
    } else {
      forall r: nat
        ensures !RecordMatches(d, dir, r, name)
      {
        assert RecordMatches(d, dir, r, name) ==> Called(d, dir, r, name);
      }
    }
  }

  lemma FirstIs(d: Disk, dir: nat, size: nat, names: map<Name, nat>, name: Name, r: nat)
    requires DirHolds(d, dir, size, names) && Proper(name) && RecordMatches(d, dir, r, name)
    ensures name in names && names[name] == RecordIno(d, dir, r) && NoMatch(d, dir, r, name)
  {
    hide RecordMatches, RecordIno, Proper;
    assert Called(d, dir, r, name);
    forall q: nat | q < r ensures !RecordMatches(d, dir, q, name) {
      assert RecordMatches(d, dir, q, name) ==> Called(d, dir, q, name);
    }
  }

  lemma FoundRecord(d: Disk, first: nat, dir: nat, name: Name, ino: nat, block: nat, e: nat) returns (r: nat)
    requires FoundAt(d, dir, name, ino, block, e)
    ensures RecordMatches(d, dir, r, name) && ino == RecordIno(d, dir, r)
  {
    hide PosOf, DataAt, Word, Matches;
    var b: nat :| b < MAX_BLOCKS && e < PER_BLOCK && PosOf(dir, b) in d.node && d.node[PosOf(dir, b)] == block &&
      NoMatch(d, dir, PER_BLOCK * b + e, name) && Matches(DataAt(d, PosOf(dir, b)), e, name) &&
      ino == Word(DataAt(d, PosOf(dir, b)), 16 * e);
    r := PER_BLOCK * b + e;
    RecordIn(b, r);
  }

  /** The record behind the last block is free. */
  lemma BehindIsFree(d: Disk, dir: nat, size: nat, names: map<Name, nat>)
    requires DirHolds(d, dir, size, names)
    ensures BlankBehind(d, dir, size)
  {
    hide PosOf, DataAt, Word, Scanned;
    var n := Scanned(size);
    RecordIn(n, PER_BLOCK * n);
    assert RecordIno(d, dir, PER_BLOCK * n) == 0;
  }

  // ------------------------------------------------------------------------ adding

  lemma AddedRecord(d: Disk, g: Disk, dir: nat, r: nat, n: nat, name: Name, q: nat, other: Name)
    requires AddedBut(d, g, dir, r, n, name) && 0 < n && 0 < |name| && Proper(name) && n != dir
    ensures Called(g, dir, q, other) <==> if q == r then other == name else Called(d, dir, q, other)
    ensures RecordIno(g, dir, q) == if q == r then n else RecordIno(d, dir, q)
  {
    hide PosOf, DataAt, Word, Matches, PutRecord, Proper;
    var p := PosOf(dir, r / PER_BLOCK);
    if q / PER_BLOCK < MAX_BLOCKS {
      PosOfIndex(dir, q / PER_BLOCK, dir + 1);
      if q / PER_BLOCK == r / PER_BLOCK {
        SameSlot(q, r);
        PutRecordWord(DataAt(d, p), r % PER_BLOCK, n, name, q % PER_BLOCK);
        if Proper(other) { PutRecordMatches(DataAt(d, p), r % PER_BLOCK, n, name, q % PER_BLOCK, other); }
      } else if PosOf(dir, q / PER_BLOCK) == p {
        PosOfInjective(dir, q / PER_BLOCK, dir, r / PER_BLOCK);
      }
    }
  }

  lemma SameSlot(q: nat, r: nat)
    requires q / PER_BLOCK == r / PER_BLOCK
    ensures q % PER_BLOCK == r % PER_BLOCK <==> q == r
  {
  }

  lemma AddedDir(d: Disk, g: Disk, dir: nat, size: nat, names: map<Name, nat>, r: nat, n: nat, name: Name, size': nat)
    requires DirHolds(d, dir, size, names) && AddedBut(d, g, dir, r, n, name) && 0 < n && 0 < |name| && Proper(name)
    requires n != dir
    requires name !in names && r < PER_BLOCK * Scanned(size') && size <= size'
    ensures DirHolds(g, dir, size', names[name := n])
  {
    hide Called, RecordIno, AddedBut, Proper, Scanned;
    var m := names[name := n];
    forall q: nat, other: Name
      ensures Called(g, dir, q, other) <==> if q == r then other == name else Called(d, dir, q, other)
      ensures RecordIno(g, dir, q) == if q == r then n else RecordIno(d, dir, q)
    {
      AddedRecord(d, g, dir, r, n, name, q, other);
    }
    ScannedMore(size, size');
    forall q: nat | RecordIno(g, dir, q) != 0 ensures q < PER_BLOCK * Scanned(size') && HasName(g, dir, q) {
      AddedRecord(d, g, dir, r, n, name, q, name);
      if q == r {
        assert Called(g, dir, r, name);
      } else {
        var other: Name :| Called(d, dir, q, other);
        assert Called(g, dir, q, other);
      }
    }
    forall other: Name | other in m ensures exists q: nat :: Called(g, dir, q, other) {
      if other == name {
        assert Called(g, dir, r, name);
      } else {
        var q: nat :| Called(d, dir, q, other);
        RecordWasFree(d, g, dir, r, n, name);
        CalledInUse(d, dir, q, other);
        assert Called(g, dir, q, other);
      }
    }
  }

  lemma RecordWasFree(d: Disk, g: Disk, dir: nat, r: nat, n: nat, name: Name)
    requires AddedBut(d, g, dir, r, n, name)
    ensures RecordIno(d, dir, r) == 0
  {
    hide PosOf, DataAt, Word, PutRecord;
  }

  lemma ScannedMore(a: nat, b: nat)
    requires a <= b
    ensures Scanned(a) <= Scanned(b)
  {
  }

  // ---------------------------------------------------------------------- removing

  lemma RemovedRecord(d: Disk, g: Disk, dir: nat, r: nat, q: nat, name: Name)
    requires RemovedAt(d, g, dir, r)
    ensures Called(g, dir, q, name) <==> q != r && Called(d, dir, q, name)
    ensures RecordIno(g, dir, q) == if q == r then 0 else RecordIno(d, dir, q)
  {
    hide PosOf, DataAt, Word, Matches, ClearRecord, Proper;
    RemovedExactly(d, g, dir, r, q, name);
    var p := PosOf(dir, r / PER_BLOCK);
    if q / PER_BLOCK < MAX_BLOCKS {
      PosOfIndex(dir, q / PER_BLOCK, dir + 1);
      if q / PER_BLOCK == r / PER_BLOCK {
        SameSlot(q, r);
        ClearedWord(DataAt(d, p), r % PER_BLOCK, q % PER_BLOCK);
      } else if PosOf(dir, q / PER_BLOCK) == p {
        PosOfInjective(dir, q / PER_BLOCK, dir, r / PER_BLOCK);
      }
    }
  }

  lemma ClearedWord(page: Page, e: nat, f: nat)
    requires e < PER_BLOCK && f < PER_BLOCK
    ensures Word(ClearRecord(page, e), 16 * f) == if f == e then 0 else Word(page, 16 * f)
  {
    hide Word;
    var q := ClearRecord(page, e);
    if f == e {
      SameWord(q, ZeroPage(), 16 * e);
      WordZero(16 * e);
    } else {
      assert forall k :: 64 * f <= k < 64 * f + 64 ==> q[k] == page[k];
      SameWord(q, page, 16 * f);
    }
  }

  lemma RemovedDir(d: Disk, g: Disk, dir: nat, size: nat, names: map<Name, nat>, r: nat, name: Name)
    requires DirHolds(d, dir, size, names) && RemovedAt(d, g, dir, r) && Called(d, dir, r, name)
    ensures DirHolds(g, dir, size, names - {name})
  {
    hide Called, RecordIno, RemovedAt, Scanned;
    forall q: nat, other: Name
      ensures Called(g, dir, q, other) <==> q != r && Called(d, dir, q, other)
      ensures RecordIno(g, dir, q) == if q == r then 0 else RecordIno(d, dir, q)
    {
      RemovedRecord(d, g, dir, r, q, other);
    }
    forall q: nat, other: Name | Called(g, dir, q, other) ensures other != name { }
    forall q: nat | RecordIno(g, dir, q) != 0 ensures q < PER_BLOCK * Scanned(size) && HasName(g, dir, q) {
      RemovedRecord(d, g, dir, r, q, name);
      var other: Name :| Called(d, dir, q, other);
      assert Called(g, dir, q, other);
    }
    forall other: Name | other in names - {name} ensures exists q: nat :: Called(g, dir, q, other) {
      var q: nat :| Called(d, dir, q, other);
      OneNameEach(d, dir, r, name, other);
      assert Called(g, dir, q, other);
    }
  }

  /** A record has one name. */
  lemma OneNameEach(d: Disk, dir: nat, r: nat, a: Name, b: Name)
    requires Called(d, dir, r, a)
    ensures Called(d, dir, r, b) ==> a == b
  {
    hide PosOf, DataAt, Word, NameByte;
    if Called(d, dir, r, b) { SameString(DataAt(d, PosOf(dir, r / PER_BLOCK)), r % PER_BLOCK, a, b); }
  }

  lemma SameString(page: Page, e: nat, a: Name, b: Name)
    requires e < PER_BLOCK && NameIs(page, e, a) && NameIs(page, e, b) && Proper(a) && Proper(b)
    ensures a == b
  {
    hide NameByte;
    var n := if |a| < |b| then |a| else |b|;
    assert NameByte(page, e, n) == if |a| < |b| then 0 else NameByte(page, e, n);
    assert |a| == |b|;
  }

  // ----------------------------------------------------------------- new and empty

  lemma NewRecord(d: Disk, inodes: seq<Inode>, n: nat, parent: nat, r: nat, name: Name)
    requires NewDir(d, inodes, n, parent) && 0 < n && 0 < parent && RestBlank(d, n)
    ensures Called(d, n, r, name) <==> (r == 0 && name == Dot()) || (r == 1 && name == DotDot())
    ensures RecordIno(d, n, r) == if r == 0 then n else if r == 1 then parent else 0
  {
    hide PosOf, DataAt, Word, Matches, DirPage, Proper;
    DotsProper();
    var b, e := r / PER_BLOCK, r % PER_BLOCK;
    if b == 0 {
      DirPageRecords(n, parent, e);
      if Proper(name) { DirPageNames(n, parent, e, name); }
    } else if b < MAX_BLOCKS {
      WordZero(16 * e);
      BlankRecord(e, name);
    }
  }

  lemma DotsProper()
    ensures Proper(Dot()) && Proper(DotDot())
  {
  }

  lemma DirPageRecords(n: nat, parent: nat, e: nat)
    requires 0 < n < 0x1_0000_0000 && 0 < parent < 0x1_0000_0000 && e < PER_BLOCK
    ensures Word(DirPage(n, parent), 16 * e) == if e == 0 then n else if e == 1 then parent else 0
  {
    hide Word, PutRecord;
    var one := PutRecord(ZeroPage(), 0, n, Dot());
    WordZero(16 * e);
    PutRecordWord(ZeroPage(), 0, n, Dot(), e);
    PutRecordWord(one, 1, parent, DotDot(), e);
  }

  /** Behind its first block the inode reads as zero. */
  ghost predicate RestBlank(d: Disk, n: nat) {
    forall b: nat :: 0 < b < MAX_BLOCKS ==> DataAt(d, PosOf(n, b)) == ZeroPage()
  }

  lemma NewDirHolds(d: Disk, inodes: seq<Inode>, n: nat, parent: nat)
    requires NewDir(d, inodes, n, parent) && 0 < n && 0 < parent && RestBlank(d, n)
    ensures DirHolds(d, n, inodes[n].size, map[Dot() := n, DotDot() := parent])
  {
    hide Called, RecordIno, DirPage, DataAt, PosOf, RestBlank;
    forall r: nat, name: Name
      ensures Called(d, n, r, name) <==> (r == 0 && name == Dot()) || (r == 1 && name == DotDot())
      ensures RecordIno(d, n, r) == if r == 0 then n else if r == 1 then parent else 0
    {
      NewRecord(d, inodes, n, parent, r, name);
    }
    assert Called(d, n, 0, Dot()) && Called(d, n, 1, DotDot());
    forall r: nat | RecordIno(d, n, r) != 0 ensures r < PER_BLOCK * Scanned(inodes[n].size) && HasName(d, n, r) {
      NewRecord(d, inodes, n, parent, r, Dot());
    }
  }

  lemma UsedOrdinary(d: Disk, dir: nat, b: nat, e: nat)
    requires b < MAX_BLOCKS && e < PER_BLOCK
    ensures Ordinary(DataAt(d, PosOf(dir, b)), e) <==>
      RecordIno(d, dir, PER_BLOCK * b + e) != 0 && !Called(d, dir, PER_BLOCK * b + e, Dot()) &&
      !Called(d, dir, PER_BLOCK * b + e, DotDot())
  {
    hide PosOf, DataAt, Word, NameIs;
    RecordIn(b, PER_BLOCK * b + e);
    DotsProper();
  }

  /** dir_empty decides whether the map has no names but the two. */
  lemma EmptyIff(d: Disk, dir: nat, size: nat, names: map<Name, nat>)
    requires DirHolds(d, dir, size, names)
    ensures NoOrdinary(d, dir, Blocks(size)) <==>
      forall name: Name :: name in names ==> name == Dot() || name == DotDot()
  {
    hide Called, RecordIno, PosOf, DataAt, Ordinary, Dot, DotDot;
    if NoOrdinary(d, dir, Blocks(size)) {
      forall name: Name | name in names ensures name == Dot() || name == DotDot() {
        var r: nat :| Called(d, dir, r, name);
        NamedOrdinary(d, dir, size, names, r, name);
      }
    } else {
      var b: nat, e: nat :| b < Blocks(size) && b < MAX_BLOCKS && e < PER_BLOCK &&
          Ordinary(DataAt(d, PosOf(dir, b)), e);
      UsedOrdinary(d, dir, b, e);
      var name: Name :| Called(d, dir, PER_BLOCK * b + e, name);
      assert name in names;
    }
  }

  lemma NamedOrdinary(d: Disk, dir: nat, size: nat, names: map<Name, nat>, r: nat, name: Name)
    requires DirHolds(d, dir, size, names) && Called(d, dir, r, name) && NoOrdinary(d, dir, Blocks(size))
    ensures name == Dot() || name == DotDot()
  {
    hide Called, RecordIno, PosOf, DataAt, Ordinary, Dot, DotDot;
    CalledInUse(d, dir, r, name);
    var b, e := r / PER_BLOCK, r % PER_BLOCK;
    InUseBound(d, dir, r);
    RecordSplit(r, size);
    UsedOrdinary(d, dir, b, e);
    OneNameEach(d, dir, r, name, Dot());
    OneNameEach(d, dir, r, name, DotDot());
  }

  lemma InUseBound(d: Disk, dir: nat, r: nat)
    ensures RecordIno(d, dir, r) != 0 ==> r / PER_BLOCK < MAX_BLOCKS
  {
    hide PosOf, DataAt, Word;
  }

  lemma RecordSplit(r: nat, size: nat)
    requires size > 0 && r < PER_BLOCK * Scanned(size)
    ensures r == PER_BLOCK * (r / PER_BLOCK) + r % PER_BLOCK && r / PER_BLOCK < Blocks(size)
  {
  }
}
