/** How the page tables and the page allocator account for each other, and that
    every paired change of the two keeps the account. */
module Linkage {
  import opened Layout
  import opened SharedPages
  import opened PageTree
  import Pmm

  type Frames = seq<Pmm.Frame>

  predicate TablePage(v: Frames, threads: set<nat>, f: nat) {
    && 0 < f < |v| && v[f].used && !v[f].reserved && v[f].owner == Pmm.PageTable && v[f].refs == 0
    && f !in threads
  }

  /** The page-table pages are exactly the tables of the live address spaces and the
      kernel's own; every PTE names a user page; and every refcount is the number of
      PTEs that name the page. */
  ghost predicate Linked(t: Tree, v: Frames, threads: set<nat>, kernelTables: set<nat>) {
    && |v| > 0 && v[0].reserved && Pmm.Clean(v)
    && (BOOT_KERNEL_PML4 < |v| ==> v[BOOT_KERNEL_PML4].reserved)
    && (forall f :: f in kernelTables ==> 0 < f < |v| && v[f].used && v[f].owner == Pmm.PageTable)
    && (forall f :: f in t.home ==> TablePage(v, threads, f) && f !in kernelTables)
    && (forall f :: 0 <= f < |v| && v[f].used && v[f].owner == Pmm.PageTable ==>
          f in t.home || f in kernelTables)
    && (forall q :: q in t.ptes ==> Pmm.UserAt(v, t.ptes[q].frame))
    && (forall f :: Pmm.UserAt(v, f) ==> UserPageOk(t.ptes, v, threads, f))
  }

  ghost predicate UserPageOk(ptes: map<Va, Pte>, v: Frames, threads: set<nat>, f: nat)
    requires f < |v|
  {
    0 < f && !v[f].reserved && f !in threads && v[f].refs == |Refs(ptes, f)|
  }

  lemma Untaken(t: Tree, v: Frames, threads: set<nat>, kt: set<nat>, f: nat)
    requires Linked(t, v, threads, kt) && Pmm.RunAt(v, threads, f, 1)
    ensures 0 < f && f !in t.home && f !in kt && Refs(t.ptes, f) == {}
  {
    assert Pmm.Available(v, threads, f);
  }

  lemma TakeTable(t: Tree, g: Tree, v: Frames, threads: set<nat>, kt: set<nat>, f: nat)
    requires Linked(t, v, threads, kt) && Pmm.RunAt(v, threads, f, 1)
    requires g.home.Keys == t.home.Keys + {f} && g.ptes == t.ptes
    ensures Linked(g, Pmm.Taken(v, f, 1, Pmm.PageTable), threads, kt)
  {
    assert Pmm.Available(v, threads, f);
    var w := Pmm.Taken(v, f, 1, Pmm.PageTable);
    forall x | Pmm.UserAt(w, x) ensures UserPageOk(g.ptes, w, threads, x) { assert Pmm.UserAt(v, x); }
  }

  lemma DropTable(t: Tree, g: Tree, v: Frames, threads: set<nat>, kt: set<nat>, f: nat)
    requires Linked(t, v, threads, kt) && f in t.home
    requires g.home.Keys == t.home.Keys - {f} && g.ptes == t.ptes
    ensures Linked(g, Pmm.Freed(v, f, 1), threads, kt)
  {
    var w := Pmm.Freed(v, f, 1);
    forall x | Pmm.UserAt(w, x) ensures UserPageOk(g.ptes, w, threads, x) { assert Pmm.UserAt(v, x); }
  }

  lemma TakeUser(t: Tree, v: Frames, threads: set<nat>, kt: set<nat>, f: nat)
    requires Linked(t, v, threads, kt) && Pmm.RunAt(v, threads, f, 1)
    ensures Linked(t, Pmm.Taken(v, f, 1, Pmm.User), threads, kt)
  {
    assert Pmm.Available(v, threads, f);
    Untaken(t, v, threads, kt, f);
    var w := Pmm.Taken(v, f, 1, Pmm.User);
    forall x | Pmm.UserAt(w, x) ensures UserPageOk(t.ptes, w, threads, x) { assert x == f || Pmm.UserAt(v, x); }
  }

  /** Giving back a user page that was never mapped. */
  lemma DropUser(t: Tree, v: Frames, threads: set<nat>, kt: set<nat>, f: nat)
    requires Linked(t, v, threads, kt) && Pmm.UserAt(v, f) && v[f].refs == 0
    ensures Linked(t, Pmm.Freed(v, f, 1), threads, kt)
  {
    var w := Pmm.Freed(v, f, 1);
    forall x | Pmm.UserAt(w, x) ensures UserPageOk(t.ptes, w, threads, x) { assert Pmm.UserAt(v, x); }
    forall q | q in t.ptes ensures t.ptes[q].frame != f {
      assert Refs(t.ptes, f) == {};
      assert q !in Refs(t.ptes, f);
    }
  }

  lemma AddPte(t: Tree, g: Tree, v: Frames, threads: set<nat>, kt: set<nat>, q: Va, e: Pte)
    requires Linked(t, v, threads, kt) && q !in t.ptes && Pmm.UserAt(v, e.frame)
    requires g.home.Keys == t.home.Keys && g.ptes == t.ptes[q := e]
    ensures Linked(g, Pmm.Acquired(v, e.frame), threads, kt)
  {
    var w := Pmm.Acquired(v, e.frame);
    forall f | Pmm.UserAt(w, f) ensures UserPageOk(g.ptes, w, threads, f) {
      assert Pmm.UserAt(v, f);
      AddRef(t.ptes, q, e, f);
    }
  }

  lemma DelPte(t: Tree, g: Tree, v: Frames, threads: set<nat>, kt: set<nat>, q: Va)
    requires Linked(t, v, threads, kt) && q in t.ptes
    requires g.home.Keys == t.home.Keys && g.ptes == t.ptes - {q}
    ensures t.ptes[q].frame < |v| && v[t.ptes[q].frame].refs > 0
    ensures Linked(g, Pmm.Released(v, t.ptes[q].frame), threads, kt)
  {
    assert q in Refs(t.ptes, t.ptes[q].frame);
    assert UserPageOk(t.ptes, v, threads, t.ptes[q].frame);
    var w := Pmm.Released(v, t.ptes[q].frame);
    forall f | Pmm.UserAt(w, f) ensures UserPageOk(g.ptes, w, threads, f) {
      assert Pmm.UserAt(v, f);
      DropRef(t.ptes, q, f);
    }
    forall x | x in g.ptes ensures Pmm.UserAt(w, g.ptes[x].frame) {
      DropRef(t.ptes, q, g.ptes[x].frame);
      assert x in Refs(g.ptes, g.ptes[x].frame);
    }
  }

  /** Rewriting the flags of a PTE. */
  lemma ReflagPte(t: Tree, g: Tree, v: Frames, threads: set<nat>, kt: set<nat>, q: Va, e: Pte)
    requires Linked(t, v, threads, kt) && q in t.ptes && e.frame == t.ptes[q].frame
    requires g.home.Keys == t.home.Keys && g.ptes == t.ptes[q := e]
    ensures Linked(g, v, threads, kt)
  {
    forall f | Pmm.UserAt(v, f) ensures UserPageOk(g.ptes, v, threads, f) {
      SameRefs(t.ptes, g.ptes, f);
      assert UserPageOk(t.ptes, v, threads, f);
    }
  }

  /** Pointing a PTE at a user page that has no mapping yet. */
  lemma MovePte(t: Tree, g: Tree, v: Frames, threads: set<nat>, kt: set<nat>, q: Va, e: Pte)
    requires Linked(t, v, threads, kt) && q in t.ptes
    requires Pmm.UserAt(v, e.frame) && e.frame != t.ptes[q].frame
    requires g.home.Keys == t.home.Keys && g.ptes == t.ptes[q := e]
    ensures t.ptes[q].frame < |v| && v[t.ptes[q].frame].refs > 0
    ensures Linked(g, Pmm.Released(Pmm.Acquired(v, e.frame), t.ptes[q].frame), threads, kt)
  {
    hide Linked;
    var o, n := t.ptes[q].frame, e.frame;
    var mid := t.(ptes := t.ptes - {q});
    DelPte(t, mid, v, threads, kt, q);
    assert mid.ptes[q := e] == g.ptes;
    AddPte(mid, g, Pmm.Released(v, o), threads, kt, q, e);
    assert Pmm.Acquired(Pmm.Released(v, o), n) == Pmm.Released(Pmm.Acquired(v, n), o);
  }

  /** Writing bytes into a page changes no account. */
  lemma FillKeeps(t: Tree, v: Frames, threads: set<nat>, kt: set<nat>, f: nat, bytes: Page)
    requires Linked(t, v, threads, kt) && f < |v|  && v[f].used
    ensures Linked(t, v[f := v[f].(bytes := bytes)], threads, kt)
  {
    var w := v[f := v[f].(bytes := bytes)];
    forall x | Pmm.UserAt(w, x) ensures UserPageOk(t.ptes, w, threads, x) { assert Pmm.UserAt(v, x); }
  }

  // ----------------------------------------- what the address spaces leave alone

  /** Used, and neither a user page nor a table. */
  predicate Foreign(f: Pmm.Frame) {
    f.used && f.owner != Pmm.User && f.owner != Pmm.PageTable
  }

  datatype Rest = Rest(size: nat, reserved: set<nat>, foreign: map<nat, Pmm.Frame>)

  /** How much memory there is, what is reserved, and the pages of other owners. */
  ghost function Others(v: Frames): Rest {
    Rest(|v|, set f: nat | f < |v| && v[f].reserved, map f: nat | f < |v| && Foreign(v[f]) :: v[f])
  }

  ghost predicate LeavesOthers(v: Frames, w: Frames) {
    |w| == |v| && forall f :: 0 <= f < |v| ==> Untouched(v[f], w[f])
  }

  predicate Untouched(f: Pmm.Frame, g: Pmm.Frame) {
    g.reserved == f.reserved && (Foreign(f) || Foreign(g) ==> g == f)
  }

  lemma OthersStay(v: Frames, w: Frames)
    requires LeavesOthers(v, w)
    ensures Others(w) == Others(v)
  {
    hide Foreign;
    forall f: nat | f < |v| ensures Untouched(v[f], w[f]) { }
  }

  /** What is free follows from the tree and the pages the address spaces leave alone. */
  lemma FreePages(t: Tree, v: Frames, threads: set<nat>, kt: set<nat>, f: nat)
    requires Linked(t, v, threads, kt) && (forall x: nat :: Pmm.UserAt(v, x) ==> v[x].refs > 0) && f < |v|
    ensures Pmm.Available(v, threads, f) <==>
      && f !in threads && f !in Others(v).reserved && f !in Others(v).foreign
      && f !in t.home && f !in kt && Refs(t.ptes, f) == {}
  {
    if f in t.home { assert TablePage(v, threads, f); }
    if Pmm.UserAt(v, f) { assert UserPageOk(t.ptes, v, threads, f); }
    if Refs(t.ptes, f) != {} {
      var q :| q in Refs(t.ptes, f);
      assert Pmm.UserAt(v, t.ptes[q].frame);
    }
  }
}
