/** Four-level page tables kept in physical pages, and what each atomic change to
    them does to the flat map from virtual page to PTE that they represent. */
module PageTree {
  import opened Layout
  import opened SharedPages

  /** A 64-bit table entry: PTE_P, PTE_RW, PTE_US, PTE_PS, PTE_COW and the frame. */
  datatype Entry = Entry(p: bool, rw: bool, us: bool, ps: bool, cow: bool, frame: nat)

  const NONE := Entry(false, false, false, false, false, 0)

  function TableEntry(f: nat): Entry { Entry(true, true, true, false, false, f) }
  function LeafEntry(e: Pte): Entry { Entry(true, e.rw, true, false, e.cow, e.frame) }

  type Table = s: seq<Entry> | |s| == ENTRIES witness seq(ENTRIES, _ => NONE)

  function EmptyTable(): Table { seq(ENTRIES, _ => NONE) }

  /** The tables by frame, with the two ghosts that make them a forest: which frame
      sits at a position and where a frame sits; and the flat map they stand for. */
  datatype Tree = Tree(tables: map<nat, Table>, node: map<Pos, nat>, home: map<nat, Pos>,
                       ptes: map<Va, Pte>)

  /** Every position has its own frame, every table page has its position, and
      every table but a PML4 hangs from another. */
  ghost predicate Placed(t: Tree) {
    && (forall p :: p in t.node ==>
          p.InRange() && t.node[p] in t.home && t.home[t.node[p]] == p)
    && (forall f :: f in t.home ==> t.home[f] in t.node && t.node[t.home[f]] == f)
    && t.tables.Keys == t.home.Keys
    && (forall p :: p in t.node ==> if p.Root? then t.node[p] == p.r else p.up in t.node)
  }

  ghost predicate Upper(t: Tree)
    requires Placed(t)
  {
    forall p, i :: p in t.node && p.Level() >= 2 && 0 <= i < p.Fan() ==>
      t.tables[t.node[p]][i] == if Child(p, i) in t.node then TableEntry(t.node[Child(p, i)]) else NONE
  }

  ghost predicate Lower(t: Tree)
    requires Placed(t)
  {
    forall q: Va :: q.InRange() && q.Pt() in t.node ==>
      t.tables[t.node[q.Pt()]][q.d] == if q in t.ptes then LeafEntry(t.ptes[q]) else NONE
  }

  ghost predicate Leaves(t: Tree) {
    forall q :: q in t.ptes ==> q.InRange() && q.Pt() in t.node
  }

  /** The kernel half of every PML4 is the boot one. */
  ghost predicate KernelHalf(t: Tree, kernel: Table)
    requires Placed(t)
  {
    forall r, i :: Root(r) in t.node && USER_ENTRIES <= i < ENTRIES ==>
      t.tables[t.node[Root(r)]][i] == kernel[i]
  }

  ghost predicate TreeInv(t: Tree, kernel: Table) {
    Placed(t) && Upper(t) && Lower(t) && Leaves(t) && KernelHalf(t, kernel)
  }

  ghost predicate NonEmpty(t: Tree, p: Pos) {
    p in t.node && t.node[p] in t.tables && exists i :: 0 <= i < ENTRIES && t.tables[t.node[p]][i].p
  }

  /** No PDPT, PD or PT of the user half is empty. */
  ghost predicate Tight(t: Tree) {
    forall p :: p in t.node && p.Child? ==> NonEmpty(t, p)
  }

  lemma TableAbove(t: Tree, p: Pos)
    requires Placed(t) && Upper(t) && p in t.node && p.Child?
    ensures p.up in t.node && p.up.Level() >= 2 && p.idx < p.up.Fan()
    ensures t.tables[t.node[p.up]][p.idx] == TableEntry(t.node[p])
    ensures NonEmpty(t, p.up)
  {
    assert Child(p.up, p.idx) == p;
    assert t.tables[t.node[p.up]][p.idx].p;
  }

  lemma LeafAbove(t: Tree, q: Va)
    requires Placed(t) && Lower(t) && Leaves(t) && q in t.ptes
    ensures t.tables[t.node[q.Pt()]][q.d] == LeafEntry(t.ptes[q])
    ensures NonEmpty(t, q.Pt())
  {
    assert t.tables[t.node[q.Pt()]][q.d].p;
  }

  // ------------------------------------------------------------ atomic changes

  /** A zeroed table page hung into an absent slot. */
  function Grow(t: Tree, p: Pos, i: nat, f: nat): Tree
    requires p in t.node && t.node[p] in t.tables && i < ENTRIES
  {
    Tree(t.tables[t.node[p] := t.tables[t.node[p]][i := TableEntry(f)]][f := EmptyTable()],
         t.node[Child(p, i) := f], t.home[f := Child(p, i)], t.ptes)
  }

  lemma {:induction false} GrowPlaced(t: Tree, p: Pos, i: nat, f: nat)
    requires Placed(t)
    requires p in t.node && p.Level() >= 2 && i < p.Fan() && Child(p, i) !in t.node && f !in t.home
    ensures Placed(Grow(t, p, i, f))
  {
    hide EmptyTable, TableEntry, Pos.InRange, Pos.Level, Pos.Fan;
    GrownRange(t, p, i);
    var g := Grow(t, p, i, f);
    forall x | x in g.node
      ensures x.InRange() && g.node[x] in g.home && g.home[g.node[x]] == x
      ensures if x.Root? then g.node[x] == x.r else x.up in g.node
    {
      GrownNode(t, p, i, f, x);
    }
    forall h | h in g.home ensures g.home[h] in g.node && g.node[g.home[h]] == h { GrownHome(t, p, i, f, h); }
  }

  lemma {:induction false} GrownNode(t: Tree, p: Pos, i: nat, f: nat, x: Pos)
    requires Placed(t) && p in t.node && Child(p, i).InRange() && i < ENTRIES && Child(p, i) !in t.node && f !in t.home
    requires x in Grow(t, p, i, f).node
    ensures var g := Grow(t, p, i, f);
      && x.InRange() && g.node[x] in g.home && g.home[g.node[x]] == x
      && if x.Root? then g.node[x] == x.r else x.up in g.node
  {
  }

  lemma {:induction false} GrownHome(t: Tree, p: Pos, i: nat, f: nat, h: nat)
    requires Placed(t) && p in t.node && i < ENTRIES && Child(p, i) !in t.node && f !in t.home
    requires h in Grow(t, p, i, f).home
    ensures var g := Grow(t, p, i, f); g.home[h] in g.node && g.node[g.home[h]] == h
  {
  }

  lemma {:induction false} GrownRange(t: Tree, p: Pos, i: nat)
    requires Placed(t) && p in t.node && p.Level() >= 2 && i < p.Fan()
    ensures Child(p, i).InRange() && i < ENTRIES
  {
  }

  /** Where a table is, and that no other is there. */
  lemma NodeFacts(t: Tree, x: Pos)
    requires Placed(t) && x in t.node
    ensures x.InRange() && t.node[x] in t.tables && t.node[x] in t.home && t.home[t.node[x]] == x
  {
  }

  lemma GrowUpper(t: Tree, p: Pos, i: nat, f: nat)
    requires Placed(t) && Upper(t)
    requires p in t.node && p.Level() >= 2 && i < p.Fan() && Child(p, i) !in t.node && f !in t.home
    requires Placed(Grow(t, p, i, f))
    ensures Upper(Grow(t, p, i, f))
  {
    hide Placed;
    NodeFacts(t, p);
    var g := Grow(t, p, i, f);
    forall x, j | x in g.node && x.Level() >= 2 && 0 <= j < x.Fan()
      ensures g.node[x] in g.tables
      ensures g.tables[g.node[x]][j] == if Child(x, j) in g.node then TableEntry(g.node[Child(x, j)]) else NONE
    {
      if x == Child(p, i) {
        NoChild(t, x, j);
      } else {
        NodeFacts(t, x);
        assert (x == p && j == i) || Child(x, j) != Child(p, i);
      }
    }
  }

  lemma NoChild(t: Tree, x: Pos, j: nat)
    requires Placed(t) && x !in t.node
    ensures Child(x, j) !in t.node && Child(x, j) != x
  {
    var y := Child(x, j);
    assert y.up == x;
    assert x < y;
  }

  lemma GrowLower(t: Tree, p: Pos, i: nat, f: nat)
    requires Placed(t) && Lower(t) && Leaves(t)
    requires p in t.node && p.Level() >= 2 && i < p.Fan() && Child(p, i) !in t.node && f !in t.home
    requires Placed(Grow(t, p, i, f))
    ensures Lower(Grow(t, p, i, f)) && Leaves(Grow(t, p, i, f))
  {
    hide Placed;
    NodeFacts(t, p);
    var g := Grow(t, p, i, f);
    forall q: Va | q.InRange() && q.Pt() in g.node
      ensures g.node[q.Pt()] in g.tables
      ensures g.tables[g.node[q.Pt()]][q.d] == if q in g.ptes then LeafEntry(g.ptes[q]) else NONE
    {
      if q.Pt() == Child(p, i) {
        assert q !in t.ptes;
      } else {
        LevelOne(q);
        NodeFacts(t, q.Pt());
      }
    }
  }

  lemma LevelOne(q: Va)
    ensures q.Pt().Level() == 1
  {
    assert q.Pt().up.up.Level() == 3;
  }

  lemma GrowKeeps(t: Tree, kernel: Table, p: Pos, i: nat, f: nat)
    requires TreeInv(t, kernel)
    requires p in t.node && p.Level() >= 2 && i < p.Fan() && Child(p, i) !in t.node && f !in t.home
    ensures TreeInv(Grow(t, p, i, f), kernel)
  {
    hide Upper, Lower, Leaves, KernelHalf;
    GrowPlaced(t, p, i, f);
    GrowUpper(t, p, i, f);
    GrowLower(t, p, i, f);
    GrowKernel(t, kernel, p, i, f);
  }

  lemma GrowKernel(t: Tree, kernel: Table, p: Pos, i: nat, f: nat)
    requires Placed(t) && KernelHalf(t, kernel)
    requires p in t.node && p.Level() >= 2 && i < p.Fan() && Child(p, i) !in t.node && f !in t.home
    requires Placed(Grow(t, p, i, f))
    ensures KernelHalf(Grow(t, p, i, f), kernel)
  {
    hide Placed;
    NodeFacts(t, p);
    var g := Grow(t, p, i, f);
    forall r, j | Root(r) in g.node && USER_ENTRIES <= j < ENTRIES
      ensures g.node[Root(r)] in g.tables && g.tables[g.node[Root(r)]][j] == kernel[j]
    {
      NodeFacts(t, Root(r));
    }
  }

  /** An empty table page taken out of its slot. */
  function Prune(t: Tree, p: Pos): Tree
    requires p.Child? && p in t.node && p.up in t.node && t.node[p.up] in t.tables && p.idx < ENTRIES
  {
    var up := t.node[p.up];
    Tree(t.tables[up := t.tables[up][p.idx := NONE]] - {t.node[p]},
         t.node - {p}, t.home - {t.node[p]}, t.ptes)
  }

  lemma NothingBelow(t: Tree, p: Pos)
    requires Placed(t) && Upper(t) && Lower(t) && Leaves(t) && p in t.node && !NonEmpty(t, p)
    ensures forall x :: x in t.node && x.Child? ==> x.up != p
    ensures forall q :: q in t.ptes ==> q.Pt() != p
  {
    forall x | x in t.node && x.Child? ensures x.up != p { TableAbove(t, x); }
    forall q | q in t.ptes ensures q.Pt() != p { LeafAbove(t, q); }
  }

  lemma PrunePlaced(t: Tree, p: Pos)
    requires Placed(t) && Leaves(t) && p in t.node && p.Child?
    requires forall x :: x in t.node && x.Child? ==> x.up != p
    requires forall q :: q in t.ptes ==> q.Pt() != p
    ensures p.idx < ENTRIES && Placed(Prune(t, p)) && Leaves(Prune(t, p))
  {
  }

  lemma PruneUpper(t: Tree, p: Pos)
    requires Placed(t) && Upper(t) && p in t.node && p.Child? && p.idx < ENTRIES && Placed(Prune(t, p))
    ensures Upper(Prune(t, p))
  {
    var g := Prune(t, p);
    TableAbove(t, p);
    forall x, j | x in g.node && x.Level() >= 2 && 0 <= j < x.Fan()
      ensures g.tables[g.node[x]][j] == if Child(x, j) in g.node then TableEntry(g.node[Child(x, j)]) else NONE
    {
      if Child(x, j) != p {
        assert g.tables[g.node[x]][j] == t.tables[t.node[x]][j];
      }
    }
  }

  lemma PruneLower(t: Tree, p: Pos)
    requires Placed(t) && Upper(t) && Lower(t) && p in t.node && p.Child? && p.idx < ENTRIES && Placed(Prune(t, p))
    ensures Lower(Prune(t, p))
  {
    var g := Prune(t, p);
    TableAbove(t, p);
    forall q: Va | q.InRange() && q.Pt() in g.node
      ensures g.tables[g.node[q.Pt()]][q.d] == if q in g.ptes then LeafEntry(g.ptes[q]) else NONE
    {
      assert q.Pt() != p.up;
      assert g.tables[g.node[q.Pt()]] == t.tables[t.node[q.Pt()]];
    }
  }

  lemma PruneKeeps(t: Tree, kernel: Table, p: Pos)
    requires TreeInv(t, kernel)
    requires p in t.node && p.Child? && !NonEmpty(t, p)
    ensures p.idx < ENTRIES && TreeInv(Prune(t, p), kernel)
  {
    NothingBelow(t, p);
    PrunePlaced(t, p);
    PruneUpper(t, p);
    PruneLower(t, p);
    TableAbove(t, p);
  }

  /** Undoing a growth restores the tables exactly. */
  lemma GrowThenPrune(t: Tree, p: Pos, i: nat, f: nat)
    requires Placed(t) && Upper(t)
    requires p in t.node && p.Level() >= 2 && i < p.Fan() && Child(p, i) !in t.node && f !in t.home
    ensures Prune(Grow(t, p, i, f), Child(p, i)) == t
  {
    RestoreTables(t.tables, t.node[p], i, f);
    assert t.node[Child(p, i) := f] - {Child(p, i)} == t.node;
    assert t.home[f := Child(p, i)] - {f} == t.home;
  }

  lemma RestoreTables(tables: map<nat, Table>, n: nat, i: nat, f: nat)
    requires n in tables && f !in tables && i < ENTRIES && tables[n][i] == NONE
    ensures var g := tables[n := tables[n][i := TableEntry(f)]][f := EmptyTable()];
      g[n := g[n][i := NONE]] - {f} == tables
  {
    var g := tables[n := tables[n][i := TableEntry(f)]][f := EmptyTable()];
    assert g[n][i := NONE] == tables[n];
  }

  function SetLeaf(t: Tree, q: Va, e: Pte): Tree
    requires q.d < ENTRIES && q.Pt() in t.node && t.node[q.Pt()] in t.tables
  {
    var f := t.node[q.Pt()];
    t.(tables := t.tables[f := t.tables[f][q.d := LeafEntry(e)]], ptes := t.ptes[q := e])
  }

  /** Only slot `d` of the page's PT is written, so every other page keeps its PTE. */
  lemma LeafSlots(t: Tree, g: Tree, q: Va, e: Entry)
    requires Placed(t) && Upper(t) && Lower(t) && Leaves(t) && q.InRange() && q.Pt() in t.node
    requires g.node == t.node && g.home == t.home
    requires g.tables == t.tables[t.node[q.Pt()] := t.tables[t.node[q.Pt()]][q.d := e]]
    requires g.ptes.Keys - {q} == t.ptes.Keys - {q}
    requires forall x :: x in t.ptes && x != q ==> x in g.ptes && g.ptes[x] == t.ptes[x]
    requires e == if q in g.ptes then LeafEntry(g.ptes[q]) else NONE
    ensures Placed(g) && Upper(g) && Lower(g) && Leaves(g)
  {
    LeafPlaced(t, g, q, e);
    LeafUpper(t, g, q, e);
    LeafLower(t, g, q, e);
    forall x | x in g.ptes ensures x.InRange() && x.Pt() in g.node {
      assert x == q || x in t.ptes.Keys - {q};
    }
  }

  lemma LeafPlaced(t: Tree, g: Tree, q: Va, e: Entry)
    requires Placed(t) && q.InRange() && q.Pt() in t.node && g.node == t.node && g.home == t.home
    requires g.tables == t.tables[t.node[q.Pt()] := t.tables[t.node[q.Pt()]][q.d := e]]
    ensures Placed(g)
  {
  }

  lemma LeafUpper(t: Tree, g: Tree, q: Va, e: Entry)
    requires Placed(t) && Upper(t) && Placed(g) && q.InRange() && q.Pt() in t.node && g.node == t.node
    requires g.home == t.home
    requires g.tables == t.tables[t.node[q.Pt()] := t.tables[t.node[q.Pt()]][q.d := e]]
    ensures Upper(g)
  {
    hide Placed;
    LevelOne(q);
    NodeFacts(t, q.Pt());
    forall x, j | x in g.node && x.Level() >= 2 && 0 <= j < x.Fan()
      ensures g.node[x] in g.tables
      ensures g.tables[g.node[x]][j] == if Child(x, j) in g.node then TableEntry(g.node[Child(x, j)]) else NONE
    {
      NodeFacts(t, x);
    }
  }

  lemma LeafLower(t: Tree, g: Tree, q: Va, e: Entry)
    requires Placed(t) && Lower(t) && Placed(g) && q.InRange() && q.Pt() in t.node && g.node == t.node
    requires g.home == t.home
    requires g.tables == t.tables[t.node[q.Pt()] := t.tables[t.node[q.Pt()]][q.d := e]]
    requires g.ptes.Keys - {q} == t.ptes.Keys - {q}
    requires forall x :: x in t.ptes && x != q ==> x in g.ptes && g.ptes[x] == t.ptes[x]
    requires e == if q in g.ptes then LeafEntry(g.ptes[q]) else NONE
    ensures Lower(g)
  {
    hide Placed;
    NodeFacts(t, q.Pt());
    forall x: Va | x.InRange() && x.Pt() in g.node
      ensures g.node[x.Pt()] in g.tables
      ensures g.tables[g.node[x.Pt()]][x.d] == if x in g.ptes then LeafEntry(g.ptes[x]) else NONE
    {
      NodeFacts(t, x.Pt());
      if x != q {
        SamePt(x, q);
        assert x in g.ptes.Keys - {q} <==> x in t.ptes.Keys - {q};
      }
    }
  }

  lemma SamePt(x: Va, q: Va)
    requires x != q
    ensures x.Pt() == q.Pt() ==> x.d != q.d
  {
  }

  lemma SetLeafKeeps(t: Tree, kernel: Table, q: Va, e: Pte)
    requires TreeInv(t, kernel) && q.InRange() && q.Pt() in t.node
    ensures TreeInv(SetLeaf(t, q, e), kernel)
  {
    hide Upper, Lower;
    LeafSlots(t, SetLeaf(t, q, e), q, LeafEntry(e));
    LeafKernel(t, SetLeaf(t, q, e), kernel, q);
  }

  lemma LeafKernel(t: Tree, g: Tree, kernel: Table, q: Va)
    requires Placed(t) && KernelHalf(t, kernel) && Placed(g) && q.InRange() && q.Pt() in t.node && g.node == t.node
    requires t.tables.Keys <= g.tables.Keys
    requires forall f :: f in t.tables && f != t.node[q.Pt()] ==> g.tables[f] == t.tables[f]
    ensures KernelHalf(g, kernel)
  {
    hide Placed;
    NodeFacts(t, q.Pt());
    forall r, j | Root(r) in g.node && USER_ENTRIES <= j < ENTRIES
      ensures g.node[Root(r)] in g.tables && g.tables[g.node[Root(r)]][j] == kernel[j]
    {
      NodeFacts(t, Root(r));
    }
  }

  function ClearLeaf(t: Tree, q: Va): Tree
    requires q.d < ENTRIES && q.Pt() in t.node && t.node[q.Pt()] in t.tables
  {
    var f := t.node[q.Pt()];
    t.(tables := t.tables[f := t.tables[f][q.d := NONE]], ptes := t.ptes - {q})
  }

  lemma ClearLeafKeeps(t: Tree, kernel: Table, q: Va)
    requires TreeInv(t, kernel) && q.InRange() && q.Pt() in t.node
    ensures TreeInv(ClearLeaf(t, q), kernel)
  {
    hide Upper, Lower;
    LeafSlots(t, ClearLeaf(t, q), q, NONE);
    LeafKernel(t, ClearLeaf(t, q), kernel, q);
  }

  function UserHalfOf(kernel: Table): Table {
    seq(ENTRIES, i requires 0 <= i < ENTRIES => if i < USER_ENTRIES then NONE else kernel[i])
  }

  function AddRoot(t: Tree, r: nat, kernel: Table): Tree {
    Tree(t.tables[r := UserHalfOf(kernel)], t.node[Root(r) := r], t.home[r := Root(r)], t.ptes)
  }

  lemma AddRootKeeps(t: Tree, kernel: Table, r: nat)
    requires TreeInv(t, kernel) && r !in t.home
    ensures TreeInv(AddRoot(t, r, kernel), kernel)
  {
    hide Upper, Lower, Leaves, KernelHalf;
    assert Root(r) !in t.node;
    AddRootPlaced(t, kernel, r);
    AddRootTables(t, kernel, r);
  }

  lemma AddRootPlaced(t: Tree, kernel: Table, r: nat)
    requires Placed(t) && r !in t.home && Root(r) !in t.node
    ensures Placed(AddRoot(t, r, kernel))
  {
  }

  lemma AddRootTables(t: Tree, kernel: Table, r: nat)
    requires TreeInv(t, kernel) && r !in t.home && Root(r) !in t.node && Placed(AddRoot(t, r, kernel))
    ensures TreeInv(AddRoot(t, r, kernel), kernel)
  {
    hide Placed;
    var g := AddRoot(t, r, kernel);
    forall x, j | x in g.node && x.Level() >= 2 && 0 <= j < x.Fan()
      ensures g.node[x] in g.tables
      ensures g.tables[g.node[x]][j] == if Child(x, j) in g.node then TableEntry(g.node[Child(x, j)]) else NONE
    {
      if x == Root(r) { NoChild(t, x, j); } else { NodeFacts(t, x); }
    }
    forall q: Va | q.InRange() && q.Pt() in g.node
      ensures g.node[q.Pt()] in g.tables
      ensures g.tables[g.node[q.Pt()]][q.d] == if q in g.ptes then LeafEntry(g.ptes[q]) else NONE
    {
      NodeFacts(t, q.Pt());
    }
    forall u, j | Root(u) in g.node && USER_ENTRIES <= j < ENTRIES
      ensures g.node[Root(u)] in g.tables && g.tables[g.node[Root(u)]][j] == kernel[j]
    {
      if u != r { NodeFacts(t, Root(u)); }
    }
  }

  function DropRoot(t: Tree, r: nat): Tree {
    Tree(t.tables - {r}, t.node - {Root(r)}, t.home - {r}, t.ptes)
  }

  lemma DropRootKeeps(t: Tree, kernel: Table, r: nat)
    requires TreeInv(t, kernel) && Root(r) in t.node
    requires forall i :: 0 <= i < USER_ENTRIES ==> Child(Root(r), i) !in t.node
    ensures TreeInv(DropRoot(t, r), kernel)
  {
    hide Placed, Upper, Lower, Leaves, KernelHalf, DropRoot, NonEmpty;
    forall x | x in t.node && x.Child? ensures x.up != Root(r) { TableAbove(t, x); }
    DropRootPlaced(t, r);
    DropRootUpper(t, r);
    DropRootLower(t, r);
    DropRootKernel(t, kernel, r);
  }

  lemma DropRootPlaced(t: Tree, r: nat)
    requires Placed(t) && Root(r) in t.node && forall x :: x in t.node && x.Child? ==> x.up != Root(r)
    ensures Placed(DropRoot(t, r))
  {
    hide Pos.InRange;
    var g := DropRoot(t, r);
    assert t.node[Root(r)] == r;
    forall p | p in g.node ensures g.node[p] in g.home && g.home[g.node[p]] == p { assert t.home[t.node[p]] == p; }
  }

  lemma DropRootUpper(t: Tree, r: nat)
    requires Placed(t) && Upper(t) && Placed(DropRoot(t, r)) && forall x :: x in t.node && x.Child? ==> x.up != Root(r)
    ensures Upper(DropRoot(t, r))
  {
    var g := DropRoot(t, r);
    forall p, i | p in g.node && p.Level() >= 2 && 0 <= i < p.Fan()
      ensures g.tables[g.node[p]][i] == if Child(p, i) in g.node then TableEntry(g.node[Child(p, i)]) else NONE
    {
      assert p in t.node && Child(p, i) != Root(r);
    }
  }

  lemma DropRootLower(t: Tree, r: nat)
    requires Placed(t) && Lower(t) && Leaves(t) && Placed(DropRoot(t, r))
    ensures Lower(DropRoot(t, r)) && Leaves(DropRoot(t, r))
  {
    var g := DropRoot(t, r);
    forall q: Va | q.InRange() && q.Pt() in g.node
      ensures g.tables[g.node[q.Pt()]][q.d] == if q in g.ptes then LeafEntry(g.ptes[q]) else NONE
    {
      assert q.Pt() in t.node && q.Pt() != Root(r);
    }
    forall q | q in g.ptes ensures q.InRange() && q.Pt() in g.node { assert q.Pt() != Root(r); }
  }

  lemma DropRootKernel(t: Tree, kernel: Table, r: nat)
    requires Placed(t) && KernelHalf(t, kernel) && Placed(DropRoot(t, r))
    ensures KernelHalf(DropRoot(t, r), kernel)
  {
  }
}
