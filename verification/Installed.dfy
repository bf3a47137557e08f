/** A disk as mkfs leaves it is where runs of file requests start. */
module Installed {
  import opened Layout
  import opened FileIndex
  import opened Files
  import opened Directory
  import M = Mkfs
  import N = DirNames
  import T = NameTree
  import S = FileService

  predicate Apart(inputs: seq<M.Input>) {
    forall i, j :: 0 <= i < j < |inputs| ==> inputs[i].name != inputs[j].name
  }

  /** The names of the root directory after the first m inputs. */
  function RootNames(inputs: seq<M.Input>, m: nat): map<seq<Byte>, nat>
    requires m <= |inputs|
  {
    if m == 0 then map[Dot() := ROOT, DotDot() := ROOT] else RootNames(inputs, m - 1)[inputs[m - 1].name := m + 1]
  }

  function EntityOf(inputs: seq<M.Input>, i: nat): T.Entity
    requires ROOT <= i < |inputs| + 2
  {
    if i == ROOT then T.Dir(RootNames(inputs, |inputs|)) else Stored(inputs[i - 2].bytes)
  }

  /** A file with nothing but zeros behind its end. */
  function Stored(bytes: seq<Byte>): T.Entity {
    T.File(bytes, T.Blank(if |bytes| <= MAX_SIZE then MAX_SIZE - |bytes| else 0), 1, 0)
  }

  /** The files under their names in the root directory, and nothing else. */
  function TreeOf(inputs: seq<M.Input>): T.Model {
    map i | ROOT <= i < |inputs| + 2 :: EntityOf(inputs, i)
  }

  /** What a name stands for: record e of the root directory, for an inode number. */
  predicate Record(inputs: seq<M.Input>, m: nat, e: nat, name: seq<Byte>)
    requires m <= |inputs|
  {
    (e == 0 && name == Dot()) || (e == 1 && name == DotDot()) || (2 <= e < m + 2 && name == inputs[e - 2].name)
  }

  function InoOf(e: nat): nat { if e < 2 then ROOT else e }

  lemma {:induction false} NameIffRecord(inputs: seq<M.Input>, m: nat, name: seq<Byte>)
    requires M.Named(inputs) && Apart(inputs) && m <= |inputs|
    ensures forall e: nat :: Record(inputs, m, e, name) ==>
      name in RootNames(inputs, m) && RootNames(inputs, m)[name] == InoOf(e)
    ensures name in RootNames(inputs, m) ==> exists e: nat :: Record(inputs, m, e, name)
  {
    if m == 0 {
      assert name == Dot() ==> Record(inputs, 0, 0, name);
      assert name == DotDot() ==> Record(inputs, 0, 1, name);
    } else {
      NameIffRecord(inputs, m - 1, name);
      if name == inputs[m - 1].name {
        assert Record(inputs, m, m + 1, name);
      } else if name in RootNames(inputs, m) {
        var e: nat :| Record(inputs, m - 1, e, name);
        assert Record(inputs, m, e, name);
      }
    }
  }

  lemma OneRecord(inputs: seq<M.Input>, e: nat, f: nat, name: seq<Byte>)
    requires M.Named(inputs) && Apart(inputs) && Record(inputs, |inputs|, e, name) && Record(inputs, |inputs|, f, name)
    ensures e == f
  {
    T.Dots();
  }

  /** The inode numbers in the root directory's block. */
  lemma {:induction false} RootWords(inputs: seq<M.Input>, m: nat, e: nat)
    requires m <= |inputs| && m + 1 < PER_BLOCK && (forall j :: 0 <= j < m ==> |inputs[j].name| < NAME_MAX)
    requires e < PER_BLOCK
    ensures Word(M.RootPage(inputs, m), 16 * e) == if e < m + 2 then InoOf(e) else 0
  {
    hide PutRecord, Word, DirPage;
    if m == 0 {
      N.DirPageRecords(ROOT, ROOT, e);
    } else {
      RootWords(inputs, m - 1, e);
      PutRecordWord(M.RootPage(inputs, m - 1), m + 1, m + 1, inputs[m - 1].name, e);
    }
  }

  // --------------------------------------------------------------- the root directory

  ghost predicate RootOf(d: Disk, inputs: seq<M.Input>) {
    && M.Named(inputs) && Apart(inputs) && |inputs| + 1 < PER_BLOCK
    && (forall i :: 0 <= i < |inputs| ==> |inputs[i].name| < NAME_MAX)
    && DataAt(d, Top(ROOT, 0)) == M.RootPage(inputs, |inputs|) && N.RestBlank(d, ROOT)
  }

  lemma RootRecords(d: Disk, inputs: seq<M.Input>, r: nat, name: seq<Byte>)
    requires RootOf(d, inputs)
    ensures N.Called(d, ROOT, r, name) <==> Record(inputs, |inputs|, r, name)
    ensures N.RecordIno(d, ROOT, r) == if r < |inputs| + 2 then InoOf(r) else 0
  {
    hide DataAt, PosOf, Word, Matches, M.RootPage, Proper;
    N.DotsProper();
    PosShape(ROOT, 0);
    var b, e := r / PER_BLOCK, r % PER_BLOCK;
    if b == 0 {
      RootWords(inputs, |inputs|, e);
      if Proper(name) { M.RootMatches(inputs, |inputs|, e, name); }
    } else if b < MAX_BLOCKS {
      WordZero(16 * e);
      BlankRecord(e, name);
    }
  }

  lemma RootHolds(d: Disk, inputs: seq<M.Input>)
    requires RootOf(d, inputs)
    ensures N.DirHolds(d, ROOT, PAGE_SIZE, RootNames(inputs, |inputs|))
  {
    hide RootOf, N.Called, N.RecordIno, RootNames, Record;
    forall r: nat, name: seq<Byte> ensures N.Called(d, ROOT, r, name) <==> Record(inputs, |inputs|, r, name) {
      RootRecords(d, inputs, r, name);
    }
    forall r: nat ensures N.RecordIno(d, ROOT, r) == if r < |inputs| + 2 then InoOf(r) else 0 {
      RootRecords(d, inputs, r, Dot());
    }
    RootFacts(d, inputs);
    forall r: nat, name: seq<Byte> | N.Called(d, ROOT, r, name)
      ensures name in RootNames(inputs, |inputs|) && RootNames(inputs, |inputs|)[name] == N.RecordIno(d, ROOT, r)
    {
      NameIffRecord(inputs, |inputs|, name);
      RecordBound(inputs, r, name);
    }
    forall r: nat, q: nat, name: seq<Byte> | N.Called(d, ROOT, r, name) && N.Called(d, ROOT, q, name) ensures r == q {
      OneRecord(inputs, r, q, name);
    }
    forall name: seq<Byte> | name in RootNames(inputs, |inputs|) ensures exists r: nat :: N.Called(d, ROOT, r, name) {
      NameIffRecord(inputs, |inputs|, name);
      var e: nat :| Record(inputs, |inputs|, e, name);
      assert N.Called(d, ROOT, e, name);
    }
    forall r: nat | N.RecordIno(d, ROOT, r) != 0 ensures r < PER_BLOCK * Scanned(PAGE_SIZE) && N.HasName(d, ROOT, r) {
      NamedRecord(inputs, r);
      assert N.Called(d, ROOT, r, RecordName(inputs, r));
    }
  }

  function RecordName(inputs: seq<M.Input>, r: nat): seq<Byte>
    requires r < |inputs| + 2
  {
    if r == 0 then Dot() else if r == 1 then DotDot() else inputs[r - 2].name
  }

  lemma NamedRecord(inputs: seq<M.Input>, r: nat)
    requires r < |inputs| + 2
    ensures Record(inputs, |inputs|, r, RecordName(inputs, r))
  {
  }

  lemma RecordBound(inputs: seq<M.Input>, e: nat, name: seq<Byte>)
    requires Record(inputs, |inputs|, e, name)
    ensures e < |inputs| + 2
  {
  }

  lemma RootFacts(d: Disk, inputs: seq<M.Input>)
    requires RootOf(d, inputs)
    ensures M.Named(inputs) && Apart(inputs) && |inputs| + 1 < PER_BLOCK
  {
  }

  // ------------------------------------------------------------------------- the tree

  lemma TreeHolds(inputs: seq<M.Input>)
    requires M.Named(inputs) && Apart(inputs)
    ensures T.TreeOk(TreeOf(inputs))
  {
    hide RootNames, M.Named, Apart;
    var m, names := TreeOf(inputs), RootNames(inputs, |inputs|);
    T.Dots();
    NamedRecord(inputs, 0);
    NamedRecord(inputs, 1);
    NameIffRecord(inputs, |inputs|, Dot());
    NameIffRecord(inputs, |inputs|, DotDot());
    forall name: seq<Byte> | name in names
      ensures names[name] in m
      ensures (T.Given(name) ==> ROOT < names[name] < |inputs| + 2 && inputs[names[name] - 2].name == name)
    {
      NameIffRecord(inputs, |inputs|, name);
    }
    assert T.DirOk(m, ROOT);
    assert T.Climbs(m, ROOT, 0);
  }

  /** Mounted, the disk agrees with that tree, so every run of requests can start there. */
  method Begin(diskSize: nat, startLba: nat, inputs: seq<M.Input>) returns (ok: bool, fs: MyFs?)
    requires M.Named(inputs) && Apart(inputs)
    ensures ok <==> inputs != [] && M.Geometry.Plan(diskSize, startLba).Some? &&
                    M.Buildable(M.Geometry.Plan(diskSize, startLba).value, inputs)
    ensures ok ==> fs != null && fresh(fs) && S.Agrees(fs, TreeOf(inputs))
  {
    hide M.Mounted, M.Geometry.Plan, M.Geometry.Mounts, M.Buildable, M.Named, Apart, MyFs.Valid, S.Agrees;
    ok, fs := M.Install(diskSize, startLba, inputs);
    if ok { MountedFits(fs, inputs); }
  }

  lemma MountedFits(fs: MyFs, inputs: seq<M.Input>)
    requires fs.Valid() && M.Mounted(fs, inputs) && M.Named(inputs) && Apart(inputs) && |fs.inodes| <= 0x1_0000_0000
    requires forall i :: 0 <= i < |fs.open| ==> fs.open[i] == 0
    ensures S.Agrees(fs, TreeOf(inputs))
  {
    hide Inv, Content, M.Named, Apart, T.TreeOk, RootNames, M.RootPage, DataAt, N.DirHolds;
    var d, m := fs.View(Tops(fs.inodes, fs.live)), TreeOf(inputs);
    TreeHolds(inputs);
    S.OneBlock(d, fs.first, ROOT, fs.first);
    RootHolds(d, inputs);
    forall i | i in m ensures S.Stands(d, fs.inodes[i], fs.open[i], i, m[i]) {
      if i != ROOT {
        assert M.Stored(d, fs.inodes[i - 2 + 2], i - 2 + 2, inputs[i - 2].bytes);
        StoredHolds(d, fs.inodes[i], i, inputs[i - 2].bytes);
      }
    }
  }

  lemma StoredHolds(d: Disk, inode: Inode, n: nat, bytes: seq<Byte>)
    requires M.Stored(d, inode, n, bytes)
    ensures S.Holds(d, inode, 0, n, Stored(bytes))
  {
    hide Content;
    var f := Stored(bytes);
    assert f.bytes + f.behind == S.Extent(d, n);
  }
}
