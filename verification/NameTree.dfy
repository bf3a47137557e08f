/** What users know of the file system: byte arrays and directories of names. The tree that
    the names form, and that every request keeps it one. */
module NameTree {
  import opened Layout
  import opened Files
  import opened Directory

  type Name = seq<Byte>

  /** `behind` is what the blocks of a file hold behind its end. */
  datatype Entity = File(bytes: seq<Byte>, behind: seq<Byte>, links: nat, open: nat) | Dir(names: map<Name, nat>)

  function Blank(n: nat): seq<Byte> { seq(n, _ => 0) }

  type Model = map<nat, Entity>

  predicate IsFile(m: Model, i: nat) { i in m && m[i].File? }
  predicate IsDir(m: Model, i: nat) { i in m && m[i].Dir? }

  /** A name other than the two every directory has. */
  predicate Given(name: Name) { name != Dot() && name != DotDot() }

  /** Directory p gives entity i this name. */
  predicate Names(m: Model, p: nat, name: Name, i: nat) {
    IsDir(m, p) && Given(name) && name in m[p].names && m[p].names[name] == i
  }

  ghost predicate Child(m: Model, p: nat, i: nat) {
    exists name: Name :: Names(m, p, name, i)
  }

  /** A directory names itself and its parent, which names it back unless it is the root, and
      otherwise only what exists. */
  ghost predicate DirOk(m: Model, i: nat)
    requires IsDir(m, i)
  {
    var names := m[i].names;
    && Dot() in names && names[Dot()] == i && DotDot() in names && IsDir(m, names[DotDot()])
    && (if i == ROOT then names[DotDot()] == ROOT else Child(m, names[DotDot()], i))
    && (forall name: Name :: name in names ==> names[name] in m)
  }

  /** The root is n steps up from directory i. */
  ghost predicate Climbs(m: Model, i: nat, n: nat)
    decreases n
  {
    if n == 0 then i == ROOT
    else IsDir(m, i) && DotDot() in m[i].names && Climbs(m, m[i].names[DotDot()], n - 1)
  }

  ghost predicate Hangs(m: Model, i: nat) {
    exists n: nat :: Climbs(m, i, n)
  }

  /** The names form a tree: besides what names say of each other, every directory hangs from
      the root. */
  ghost predicate TreeOk(m: Model) {
    NamesOk(m) && forall i :: IsDir(m, i) ==> Hangs(m, i)
  }

  /** No entity has two names, and the root has none; a file with a name counts a link. */
  ghost predicate NamesOk(m: Model) {
    && IsDir(m, ROOT) && (forall i :: IsDir(m, i) ==> DirOk(m, i))
    && (forall p, q, a: Name, b: Name, i :: Names(m, p, a, i) && Names(m, q, b, i) ==> p == q && a == b)
    && (forall p, a: Name :: !Names(m, p, a, ROOT))
    && (forall p, a: Name, i :: Names(m, p, a, i) && IsFile(m, i) ==> m[i].links > 0)
  }

  lemma Dots()
    ensures Dot() != DotDot() && !Given(Dot()) && !Given(DotDot())
  {
  }

  lemma DirFacts(m: Model, i: nat)
    requires TreeOk(m) && IsDir(m, i)
    ensures DirOk(m, i)
  {
    hide DirOk;
  }

  lemma OneName(m: Model, p: nat, q: nat, a: Name, b: Name, i: nat)
    requires TreeOk(m) && Names(m, p, a, i) && Names(m, q, b, i)
    ensures p == q && a == b && i != ROOT && i in m && (IsFile(m, i) ==> m[i].links > 0)
  {
    hide DirOk, Names;
    NamedExists(m, p, a, i);
  }

  // ------------------------------------------------------------------ the way up

  /** The way up from a directory that stays, if no directory on it changes its parent. */
  lemma {:induction false} ClimbsStill(m: Model, m': Model, i: nat, n: nat)
    requires Climbs(m, i, n) && IsDir(m', i)
    requires forall x :: IsDir(m, x) && IsDir(m', x) && DotDot() in m[x].names ==> SameParent(m, m', x)
    ensures Climbs(m', i, n)
    decreases n
  {
    hide DotDot;
    if n > 0 { ClimbsStill(m, m', m[i].names[DotDot()], n - 1); }
  }

  ghost predicate SameParent(m: Model, m': Model, x: nat)
    requires IsDir(m, x) && IsDir(m', x) && DotDot() in m[x].names
  {
    DotDot() in m'[x].names && m'[x].names[DotDot()] == m[x].names[DotDot()] && IsDir(m', m[x].names[DotDot()])
  }

  lemma HangsStill(m: Model, m': Model, i: nat)
    requires Hangs(m, i) && IsDir(m', i)
    requires forall x :: IsDir(m, x) && IsDir(m', x) && DotDot() in m[x].names ==> SameParent(m, m', x)
    ensures Hangs(m', i)
  {
    hide SameParent;
    var n: nat :| Climbs(m, i, n);
    ClimbsStill(m, m', i, n);
  }

  /** Names that lead from entity p to entity i. */
  ghost predicate Leads(m: Model, p: nat, path: seq<Name>, i: nat)
    decreases |path|
  {
    if path == [] then p == i
    else exists q :: Names(m, p, path[0], q) && Leads(m, q, path[1..], i)
  }

  lemma {:induction false} LeadsOn(m: Model, p: nat, path: seq<Name>, i: nat, name: Name, j: nat)
    requires Leads(m, p, path, i) && Names(m, i, name, j)
    ensures Leads(m, p, path + [name], j)
    decreases |path|
  {
    hide Names;
    if path == [] {
      assert [name][1..] == [];
      assert Leads(m, j, [name][1..], j);
      assert ([] + [name]) == [name];
    } else {
      var q :| Names(m, p, path[0], q) && Leads(m, q, path[1..], i);
      LeadsOn(m, q, path[1..], i, name, j);
      assert (path + [name])[1..] == path[1..] + [name];
    }
  }

  lemma {:induction false} DirReached(m: Model, i: nat, n: nat) returns (path: seq<Name>)
    requires TreeOk(m) && IsDir(m, i) && Climbs(m, i, n)
    ensures Leads(m, ROOT, path, i)
    decreases n
  {
    hide Leads, Names, NamesOk, Hangs, DotDot, Dot;
    path := [];
    if i == ROOT {
      NoWay(m, ROOT);
    } else {
      DirFacts(m, i);
      var p := m[i].names[DotDot()];
      var up := DirReached(m, p, n - 1);
      var name: Name :| Names(m, p, name, i);
      LeadsOn(m, ROOT, up, p, name, i);
      path := up + [name];
    }
  }

  lemma NoWay(m: Model, i: nat)
    ensures Leads(m, i, [], i)
  {
  }

  /** Everything that has a name, and every directory, is found from the root along names. */
  lemma Reached(m: Model, i: nat) returns (path: seq<Name>)
    requires TreeOk(m) && (IsDir(m, i) || exists p :: Child(m, p, i))
    ensures Leads(m, ROOT, path, i)
  {
    hide Leads, Names, NamesOk, Climbs;
    if IsDir(m, i) {
      var n: nat :| Climbs(m, i, n);
      path := DirReached(m, i, n);
    } else {
      var p :| Child(m, p, i);
      var name: Name :| Names(m, p, name, i);
      NamingDir(m, p, name, i);
      var n: nat :| Climbs(m, p, n);
      var up := DirReached(m, p, n);
      LeadsOn(m, ROOT, up, p, name, i);
      path := up + [name];
    }
  }

  lemma NamingDir(m: Model, p: nat, name: Name, i: nat)
    requires Names(m, p, name, i)
    ensures IsDir(m, p)
  {
  }

  // ------------------------------------------------------------------ creation

  function NewEntity(n: nat, parent: nat, kind: nat): Entity {
    if kind == DIRECTORY then Dir(map[Dot() := n, DotDot() := parent]) else File([], Blank(MAX_SIZE), 1, 0)
  }

  function Added(m: Model, parent: nat, name: Name, n: nat, kind: nat): Model
    requires IsDir(m, parent)
  {
    m[parent := Dir(m[parent].names[name := n])][n := NewEntity(n, parent, kind)]
  }

  /** A name that may be given in this directory. */
  predicate NewName(m: Model, parent: nat, name: Name) {
    IsDir(m, parent) && Given(name) && 0 < |name| < NAME_MAX && name !in m[parent].names
  }

  lemma AddedNames(m: Model, parent: nat, name: Name, n: nat, kind: nat, p: nat, a: Name, i: nat)
    requires IsDir(m, parent) && n !in m && NewName(m, parent, name)
    ensures Names(Added(m, parent, name, n, kind), p, a, i) <==>
      (p == parent && a == name && i == n) || Names(m, p, a, i)
  {
    var m' := Added(m, parent, name, n, kind);
    if p == n { assert IsDir(m', p) ==> m'[p].names.Keys == {Dot(), DotDot()}; }
  }

  lemma AddedTree(m: Model, parent: nat, name: Name, n: nat, kind: nat)
    requires TreeOk(m) && NewName(m, parent, name) && n !in m && n != ROOT
    ensures TreeOk(Added(m, parent, name, n, kind))
  {
    hide Names, DirOk, Given;
    var m' := Added(m, parent, name, n, kind);
    forall p, a: Name, i ensures Names(m', p, a, i) <==> (p == parent && a == name && i == n) || Names(m, p, a, i) {
      AddedNames(m, parent, name, n, kind, p, a, i);
    }
    forall p, a: Name ensures !Names(m, p, a, n) { NamedExists(m, p, a, n); }
    forall i | IsDir(m', i) ensures DirOk(m', i) { AddedDir(m, parent, name, n, kind, i); }
    forall p, a: Name, i | Names(m, p, a, i) ensures i in m { NamedExists(m, p, a, i); }
    forall i | IsDir(m', i) ensures Hangs(m', i) { AddedHangs(m, parent, name, n, kind, i); }
  }

  /** A new directory hangs one below its parent. */
  lemma AddedHangs(m: Model, parent: nat, name: Name, n: nat, kind: nat, i: nat)
    requires TreeOk(m) && NewName(m, parent, name) && n !in m && IsDir(Added(m, parent, name, n, kind), i)
    ensures Hangs(Added(m, parent, name, n, kind), i)
  {
    hide Dot, DotDot, NamesOk, DirOk;
    Dots();
    var m' := Added(m, parent, name, n, kind);
    forall x | IsDir(m, x) && IsDir(m', x) && DotDot() in m[x].names ensures SameParent(m, m', x) {
      AddedParent(m, parent, name, n, kind, x);
    }
    if i == n {
      HangsStill(m, m', parent);
      var k: nat :| Climbs(m', parent, k);
      assert Climbs(m', n, k + 1);
    } else {
      HangsStill(m, m', i);
    }
  }

  lemma AddedParent(m: Model, parent: nat, name: Name, n: nat, kind: nat, x: nat)
    requires TreeOk(m) && NewName(m, parent, name) && n !in m && IsDir(m, x) && DotDot() in m[x].names
    ensures IsDir(Added(m, parent, name, n, kind), x) && SameParent(m, Added(m, parent, name, n, kind), x)
  {
    hide TreeOk, Dot, DotDot;
    Dots();
    DirFacts(m, x);
  }

  lemma NamedExists(m: Model, p: nat, a: Name, i: nat)
    requires TreeOk(m)
    ensures Names(m, p, a, i) ==> i in m
  {
    if Names(m, p, a, i) { assert DirOk(m, p); }
  }

  lemma AddedDir(m: Model, parent: nat, name: Name, n: nat, kind: nat, i: nat)
    requires TreeOk(m) && NewName(m, parent, name) && n !in m && n != ROOT && IsDir(Added(m, parent, name, n, kind), i)
    ensures DirOk(Added(m, parent, name, n, kind), i)
  {
    hide TreeOk, Dot, DotDot;
    Dots();
    var m' := Added(m, parent, name, n, kind);
    if i == n {
      assert Names(m', parent, name, n);
    } else {
      DirFacts(m, i);
      var q := m[i].names[DotDot()];
      if i != ROOT {
        var a: Name :| Names(m, q, a, i);
        assert Names(m', q, a, i);
      }
    }
  }

  // ------------------------------------------------------------------- removal

  /** Only the two names of its own. */
  predicate Empty(e: Entity) { e.Dir? ==> forall name: Name :: name in e.names ==> !Given(name) }

  predicate Removable(m: Model, parent: nat, name: Name) {
    IsDir(m, parent) && Given(name) && name in m[parent].names && m[parent].names[name] in m &&
    Empty(m[m[parent].names[name]])
  }

  /** An open file loses its name and its link; anything else goes altogether. */
  function Removed(m: Model, parent: nat, name: Name): Model
    requires Removable(m, parent, name)
  {
    var i := m[parent].names[name];
    var k := m[parent := Dir(m[parent].names - {name})];
    if m[i].File? && m[i].open > 0 then k[i := m[i].(links := 0)] else k - {i}
  }

  lemma RemovedNotParent(m: Model, parent: nat, name: Name)
    requires Removable(m, parent, name)
    ensures m[parent].names[name] != parent
  {
  }

  lemma RemovedNames(m: Model, parent: nat, name: Name, p: nat, a: Name, j: nat)
    requires Removable(m, parent, name)
    ensures Names(Removed(m, parent, name), p, a, j) <==> !(p == parent && a == name) && Names(m, p, a, j)
  {
    hide Dot, DotDot;
    RemovedNotParent(m, parent, name);
    var i := m[parent].names[name];
    var m' := Removed(m, parent, name);
    if p == i {
      assert !Names(m, p, a, j);
    } else {
      assert p in m' <==> p in m;
      if p in m && p != parent { assert m'[p] == m[p]; }
    }
  }

  lemma RemovedTree(m: Model, parent: nat, name: Name)
    requires TreeOk(m) && Removable(m, parent, name)
    ensures TreeOk(Removed(m, parent, name))
  {
    hide DirOk, Names, Given;
    var m' := Removed(m, parent, name);
    forall p, a: Name, j ensures Names(m', p, a, j) <==> !(p == parent && a == name) && Names(m, p, a, j) {
      RemovedNames(m, parent, name, p, a, j);
    }
    forall j | IsDir(m', j) ensures DirOk(m', j) { RemovedDir(m, parent, name, j); }
    RootStays(m, parent, name);
    forall p, a: Name, j | Names(m', p, a, j) && IsFile(m', j) ensures m'[j].links > 0 {
      RemovedLink(m, parent, name, p, a, j);
    }
    forall j | IsDir(m', j) ensures Hangs(m', j) { RemovedHangs(m, parent, name, j); }
  }

  lemma RemovedHangs(m: Model, parent: nat, name: Name, j: nat)
    requires TreeOk(m) && Removable(m, parent, name) && IsDir(Removed(m, parent, name), j)
    ensures Hangs(Removed(m, parent, name), j)
  {
    hide Dot, DotDot, NamesOk, Removed, Removable, Climbs;
    var m' := Removed(m, parent, name);
    forall x | IsDir(m, x) && IsDir(m', x) && DotDot() in m[x].names ensures SameParent(m, m', x) {
      RemovedParent(m, parent, name, x);
    }
    Shrunk(m, parent, name, j);
    HangsStill(m, m', j);
  }

  lemma RemovedParent(m: Model, parent: nat, name: Name, x: nat)
    requires TreeOk(m) && Removable(m, parent, name)
    requires IsDir(m, x) && IsDir(Removed(m, parent, name), x) && DotDot() in m[x].names
    ensures SameParent(m, Removed(m, parent, name), x)
  {
    hide TreeOk, Dot, DotDot, Removed, Empty;
    Dots();
    DirFacts(m, x);
    Shrunk(m, parent, name, x);
    NoChildren(m, m[parent].names[name], x, parent, name);
    Shrunk(m, parent, name, m[x].names[DotDot()]);
  }

  lemma RootStays(m: Model, parent: nat, name: Name)
    requires TreeOk(m) && Removable(m, parent, name)
    ensures IsDir(Removed(m, parent, name), ROOT)
  {
    assert Names(m, parent, name, m[parent].names[name]);
  }

  lemma RemovedLink(m: Model, parent: nat, name: Name, p: nat, a: Name, j: nat)
    requires TreeOk(m) && Removable(m, parent, name)
    requires Names(Removed(m, parent, name), p, a, j) && IsFile(Removed(m, parent, name), j)
    ensures Removed(m, parent, name)[j].links > 0
  {
    hide TreeOk, Dot, DotDot, Empty;
    var i := m[parent].names[name];
    RemovedNotParent(m, parent, name);
    RemovedNames(m, parent, name, p, a, j);
    assert Names(m, parent, name, i) && Names(m, p, a, j);
    if j == i {
      OneName(m, parent, p, name, a, i);
      assert false;
    }
    OneName(m, p, p, a, a, j);
  }

  lemma RemovedDir(m: Model, parent: nat, name: Name, j: nat)
    requires TreeOk(m) && Removable(m, parent, name) && IsDir(Removed(m, parent, name), j)
    ensures DirOk(Removed(m, parent, name), j)
  {
    hide TreeOk, Dot, DotDot, Empty, Names;
    Dots();
    var i, m' := m[parent].names[name], Removed(m, parent, name);
    RemovedNotParent(m, parent, name);
    Shrunk(m, parent, name, j);
    DirFacts(m, j);
    NoChildren(m, i, j, parent, name);
    var q := m[j].names[DotDot()];
    Shrunk(m, parent, name, q);
    if j != ROOT {
      var a: Name :| Names(m, q, a, j);
      RemovedOther(m, parent, name, q, a, j);
    }
    forall x: Name | x in m'[j].names ensures m'[j].names[x] in m' { StillThere(m, parent, name, j, x); }
  }

  /** What is left of directory j. */
  lemma Shrunk(m: Model, parent: nat, name: Name, j: nat)
    requires Removable(m, parent, name)
    ensures var i, m' := m[parent].names[name], Removed(m, parent, name);
      && (IsDir(m', j) <==> IsDir(m, j) && j != i)
      && (IsDir(m', j) ==> m'[j].names == if j == parent then m[j].names - {name} else m[j].names)
      && (j in m' <==> j in m && (j != i || (m[i].File? && m[i].open > 0)))
  {
    hide Dot, DotDot, Given, Empty;
    RemovedNotParent(m, parent, name);
  }

  lemma RemovedOther(m: Model, parent: nat, name: Name, q: nat, a: Name, j: nat)
    requires TreeOk(m) && Removable(m, parent, name) && Names(m, q, a, j) && IsDir(Removed(m, parent, name), j)
    ensures Names(Removed(m, parent, name), q, a, j)
  {
    hide TreeOk, Dot, DotDot, Empty;
    var i := m[parent].names[name];
    Shrunk(m, parent, name, j);
    RemovedNames(m, parent, name, q, a, j);
  }

  lemma StillThere(m: Model, parent: nat, name: Name, j: nat, x: Name)
    requires TreeOk(m) && Removable(m, parent, name) && IsDir(Removed(m, parent, name), j)
    requires x in Removed(m, parent, name)[j].names
    ensures Removed(m, parent, name)[j].names[x] in Removed(m, parent, name)
  {
    hide TreeOk, Empty, Removed, Dot, DotDot;
    var i := m[parent].names[name];
    Shrunk(m, parent, name, j);
    DirFacts(m, j);
    NoChildren(m, i, j, parent, name);
    var y := m[j].names[x];
    Shrunk(m, parent, name, y);
    if y == i {
      assert Names(m, parent, name, i);
      if Given(x) { OneName(m, parent, j, name, x, i); }
    }
  }

  /** An empty directory is nobody's parent. */
  lemma NoChildren(m: Model, i: nat, j: nat, parent: nat, name: Name)
    requires TreeOk(m) && Removable(m, parent, name) && i == m[parent].names[name] && IsDir(m, j) && j != i
    ensures DotDot() in m[j].names && m[j].names[DotDot()] != i
  {
    hide TreeOk, Dot, DotDot;
    DirFacts(m, j);
    assert Names(m, parent, name, i);
    OneName(m, parent, parent, name, name, i);
    forall a: Name ensures !Names(m, i, a, j) { assert Empty(m[i]); }
  }

  // ------------------------------------------------------------ changes to files

  /** Only file i differs, and it keeps or had lost its links. */
  lemma FileTree(m: Model, i: nat, f: Entity)
    requires TreeOk(m) && IsFile(m, i) && f.File? && f.links == m[i].links
    ensures TreeOk(m[i := f])
  {
    hide DirOk;
    var m' := m[i := f];
    forall p, a: Name, j ensures Names(m', p, a, j) <==> Names(m, p, a, j) { }
    forall j | IsDir(m', j) ensures DirOk(m', j) {
      forall x: Name | x in m[j].names
        ensures m[j].names[x] in m'
      {
        assert DirOk(m, j) && m'.Keys == m.Keys;
        Exists(m, j, x);
      }
      StillDir(m, m', j);
    }
    DirsHang(m, m');
  }

  /** Where all directories are as they were, they hang as they did. */
  lemma DirsHang(m: Model, m': Model)
    requires TreeOk(m) && forall x :: IsDir(m, x) <==> IsDir(m', x)
    requires forall x :: IsDir(m, x) ==> x in m' && m'[x] == m[x]
    ensures forall x :: IsDir(m', x) ==> Hangs(m', x)
  {
    hide DotDot, Dot;
    forall x | IsDir(m, x) && DotDot() in m[x].names ensures SameParent(m, m', x) { DirFacts(m, x); }
    forall x | IsDir(m', x) ensures Hangs(m', x) { HangsStill(m, m', x); }
  }

  lemma Exists(m: Model, j: nat, x: Name)
    requires IsDir(m, j) && DirOk(m, j) && x in m[j].names
    ensures m[j].names[x] in m
  {
  }

  lemma StillDir(m: Model, m': Model, j: nat)
    requires TreeOk(m) && IsDir(m, j) && IsDir(m', j) && m'[j] == m[j]
    requires forall x :: IsDir(m, x) ==> IsDir(m', x) && m'[x] == m[x]
    requires forall x: Name :: x in m[j].names ==> m[j].names[x] in m'
    ensures DirOk(m', j)
  {
    assert DirOk(m, j);
    var q := m[j].names[DotDot()];
    if j != ROOT {
      var a: Name :| Names(m, q, a, j);
      assert Names(m', q, a, j);
    }
  }

  /** A file without links can go: nobody names it. */
  lemma GoneTree(m: Model, i: nat)
    requires TreeOk(m) && IsFile(m, i) && m[i].links == 0
    ensures TreeOk(m - {i})
  {
    hide DirOk;
    var m' := m - {i};
    forall p, a: Name, j ensures Names(m', p, a, j) <==> Names(m, p, a, j) { }
    forall j | IsDir(m', j) ensures DirOk(m', j) {
      forall x: Name | x in m[j].names ensures m[j].names[x] in m' { NotFreed(m, i, j, x); }
      StillDir(m, m', j);
    }
    DirsHang(m, m');
  }

  lemma NotFreed(m: Model, i: nat, j: nat, x: Name)
    requires TreeOk(m) && IsFile(m, i) && m[i].links == 0 && IsDir(m, j) && x in m[j].names
    ensures m[j].names[x] in m && m[j].names[x] != i
  {
    assert DirOk(m, j);
    if Given(x) { assert Names(m, j, x, m[j].names[x]); }
  }
}
