/** The address-space operations of kernel/memory.c on real page tables in real
    pages, each tied to the flat machine of SharedPages. */
module VirtualMemory {
  import opened Layout
  import opened SharedPages
  import opened PageTree
  import opened Linkage
  import Pmm

  /** The pages an allocation could still take. */
  ghost function Avail(v: Frames, threads: set<nat>): set<nat> {
    set f | 0 <= f < |v| && Pmm.Available(v, threads, f)
  }

  lemma NoRun(v: Frames, threads: set<nat>)
    ensures (forall s: nat :: !Pmm.RunAt(v, threads, s, 1)) <==> Avail(v, threads) == {}
  {
    forall f | f in Avail(v, threads) ensures Pmm.RunAt(v, threads, f, 1) { }
    forall s: nat | Pmm.RunAt(v, threads, s, 1) ensures s in Avail(v, threads) { assert Pmm.Available(v, threads, s); }
  }

  lemma AvailTaken(v: Frames, threads: set<nat>, f: nat, o: Pmm.Owner)
    requires Pmm.RunAt(v, threads, f, 1)
    ensures |Avail(Pmm.Taken(v, f, 1, o), threads)| == |Avail(v, threads)| - 1
  {
    assert Pmm.Available(v, threads, f);
    assert Avail(Pmm.Taken(v, f, 1, o), threads) == Avail(v, threads) - {f};
  }

  /** A mapping takes the pages of its new tables and no other. */
  lemma AvailMapped(t: Tree, g: Tree, kernel: Table, v: Frames, w: Frames, threads: set<nat>, kt: set<nat>, q: Va,
                    f: nat)
    requires TreeInv(t, kernel) && TreeInv(g, kernel) && Extends(t, g, q) && Mapped(v, w, t, g, f) && Acquirable(v, f)
    requires Linked(g, w, threads, kt)
    ensures |Avail(w, threads)| + |g.node| == |Avail(v, threads)| + |t.node|
  {
    hide TreeInv, Linked, Extends, Mapped, Acquirable, Avail;
    var made := g.home.Keys - t.home.Keys;
    forall x: nat
      ensures x in Avail(w, threads) <==> x in Avail(v, threads) && x !in made
      ensures x in made ==> x in Avail(v, threads)
    {
      AvailMappedAt(t, g, v, w, threads, kt, f, x);
    }
    ExtendsHome(t, g, q);
    Exchanged(Avail(v, threads), Avail(w, threads), t.home.Keys, g.home.Keys);
    NodesAreHomes(t, kernel);
    NodesAreHomes(g, kernel);
  }

  lemma Exchanged(a: set<nat>, b: set<nat>, h: set<nat>, k: set<nat>)
    requires h <= k && (forall x: nat :: x in k && x !in h ==> x in a)
    requires forall x: nat :: x in b <==> x in a && !(x in k && x !in h)
    ensures |b| + |k| == |a| + |h|
  {
    var made := k - h;
    assert k == h + made && |k| == |h| + |made|;
    assert a == b + made && |a| == |b| + |made|;
  }

  lemma AvailMappedAt(t: Tree, g: Tree, v: Frames, w: Frames, threads: set<nat>, kt: set<nat>, f: nat, x: nat)
    requires Mapped(v, w, t, g, f) && Acquirable(v, f) && Linked(g, w, threads, kt)
    ensures x in Avail(w, threads) <==> x in Avail(v, threads) && x !in g.home.Keys - t.home.Keys
    ensures x in g.home.Keys - t.home.Keys ==> x in Avail(v, threads)
  {
    hide Linked;
    if x in g.home { HomeIsTable(g, w, threads, kt, x); }
  }

  lemma NodesAreHomes(t: Tree, kernel: Table)
    requires TreeInv(t, kernel)
    ensures |t.node| == |t.home.Keys| == |t.home|
  {
    FramesOf(t, t.node.Keys);
    assert (set p | p in t.node.Keys :: t.node[p]) == t.home.Keys by {
      forall f | f in t.home.Keys
        ensures f in (set p | p in t.node.Keys :: t.node[p])
      {
        assert t.home[f] in t.node.Keys;
      }
    }
    assert |t.node| == |t.node.Keys| && |t.home| == |t.home.Keys|;
  }

  lemma {:induction false} FramesOf(t: Tree, s: set<Pos>)
    requires Placed(t) && s <= t.node.Keys
    ensures |set p | p in s :: t.node[p]| == |s|
    decreases |s|
  {
    if s != {} {
      var y :| y in s;
      var rest := s - {y};
      FramesOf(t, rest);
      var image := set p | p in rest :: t.node[p];
      forall p | p in rest ensures t.node[p] != t.node[y] { assert t.home[t.node[p]] == p; }
      assert (set p | p in s :: t.node[p]) == image + {t.node[y]};
    }
  }

  // -------------------------------------------------- the tables pages need

  /** The tables on the way to the pages, without the PML4. */
  ghost function Ways(pages: set<Va>): set<Pos> {
    set q, l | q in pages && 1 <= l <= 3 :: q.Above(l)
  }

  lemma WayOf(pages: set<Va>, p: Pos)
    ensures p in Ways(pages) <==> exists q :: q in pages && (p == q.Above(1) || p == q.Above(2) || p == q.Above(3))
  {
  }

  lemma WaysOne(q: Va)
    ensures Ways({q}) == {q.Above(1), q.Above(2), q.Above(3)}
  {
    forall p ensures p in Ways({q}) <==> p in {q.Above(1), q.Above(2), q.Above(3)} { WayOf({q}, p); }
  }

  lemma WaysMore(a: set<Va>, b: set<Va>)
    ensures Ways(a + b) == Ways(a) + Ways(b)
  {
    forall p ensures p in Ways(a + b) <==> p in Ways(a) + Ways(b) {
      WayOf(a, p);
      WayOf(b, p);
      WayOf(a + b, p);
    }
  }

  /** Mapping a page puts the tables on its way there, and nothing else. */
  lemma WayMade(t: Tree, g: Tree, kernel: Table, q: Va)
    requires TreeInv(g, kernel) && Extends(t, g, q) && q in g.ptes
    ensures g.node.Keys == t.node.Keys + Ways({q})
  {
    hide TreeInv;
    WaysOne(q);
    PathPresent(g, kernel, q, 1);
    PathPresent(g, kernel, q, 2);
    PathPresent(g, kernel, q, 3);
  }

  lemma PathClosed(t: Tree, kernel: Table, q: Va)
    requires TreeInv(t, kernel)
    ensures q.Above(1) in t.node ==> q.Above(2) in t.node
    ensures q.Above(2) in t.node ==> q.Above(3) in t.node
    ensures q.Above(1) != q.Above(2) && q.Above(2) != q.Above(3) && q.Above(1) != q.Above(3)
  {
    assert q.Above(1).up == q.Above(2) && q.Above(2).up == q.Above(3);
    assert q.Above(3).Level() == 3 && q.Above(2).Level() == 2 && q.Above(1).Level() == 1;
  }

  lemma {:induction false} LackingIs(t: Tree, kernel: Table, q: Va)
    requires TreeInv(t, kernel)
    ensures Lacking(t, q, 4) == |Ways({q}) - t.node.Keys|
  {
    hide TreeInv, Va.Above, Ways;
    WaysOne(q);
    PathClosed(t, kernel, q);
    var lacks := Ways({q}) - t.node.Keys;
    if q.Above(3) !in t.node {
      assert lacks == {q.Above(3), q.Above(2), q.Above(1)};
    } else if q.Above(2) !in t.node {
      assert lacks == {q.Above(2), q.Above(1)};
    } else if q.Above(1) !in t.node {
      assert lacks == {q.Above(1)};
      assert Lacking(t, q, 2) == 1;
    } else {
      assert lacks == {};
      assert Lacking(t, q, 2) == Lacking(t, q, 1);
    }
  }

  /** What pmm_acquire_user_mapping accepts. */
  predicate Acquirable(v: Frames, f: nat) {
    f != 0 && Pmm.UserAt(v, f) && v[f].refs != Pmm.UINT32_MAX
  }

  /** How many tables are missing on the way to `q` below the one of the given level. */
  ghost function Lacking(t: Tree, q: Va, level: nat): (n: nat)
    requires 1 <= level <= 4
    ensures n <= level - 1
  {
    if level == 1 then 0 else if q.Above(level - 1) in t.node then Lacking(t, q, level - 1) else level - 1
  }

  /** A page f can be mapped at `q`: it can be referenced once more, and there is a frame for
      every missing table. */
  ghost predicate MapsBelow(t: Tree, v: Frames, threads: set<nat>, failing: nat, q: Va, level: nat, f: nat)
    requires 1 <= level <= 4
  {
    && Acquirable(v, f) && Lacking(t, q, level) <= |Avail(v, threads)|
    && (failing == 0 || Lacking(t, q, level) == 0)
  }

  /** New tables lie only on the way to `q`; nothing else moved. */
  ghost predicate Extends(t: Tree, g: Tree, q: Va) {
    && (forall x :: x in t.node ==> x in g.node && g.node[x] == t.node[x])
    && (forall x :: x in g.node && x !in t.node ==> x == q.Above(3) || x == q.Above(2) || x == q.Above(1))
    && t.home.Keys <= g.home.Keys
  }

  /** One more reference on `f`, some available pages turned into tables. */
  ghost predicate Mapped(v: Frames, w: Frames, t: Tree, g: Tree, f: nat) {
    && |w| == |v|
    && forall x :: 0 <= x < |v| ==>
         if x in g.home && x !in t.home then !v[x].used && !v[x].reserved
         else w[x] == if x == f then v[x].(refs := v[x].refs + 1) else v[x]
  }

  /** A non-empty table has a table or a page below it. */
  lemma SomethingBelow(t: Tree, kernel: Table, x: Pos)
    requires TreeInv(t, kernel) && x.Child? && NonEmpty(t, x)
    ensures (exists i :: Child(x, i) in t.node) || (exists q :: q in t.ptes && q.Pt() == x)
  {
    var i :| 0 <= i < ENTRIES && t.tables[t.node[x]][i].p;
    LevelBound(x);
    if x.Level() == 1 {
      LevelOnePath(x);
      var q := PageAt(x, i);
      assert q.Pt() == x && q.InRange();
    } else {
      assert Child(x, i) in t.node;
    }
  }

  /** Mapping a page leaves no empty table. */
  lemma TightAfter(t: Tree, g: Tree, kernel: Table, q: Va)
    requires TreeInv(t, kernel) && TreeInv(g, kernel) && Tight(t)
    requires Extends(t, g, q) && t.ptes.Keys + {q} == g.ptes.Keys
    ensures Tight(g)
  {
    hide TreeInv, NonEmpty;
    forall x | x in g.node && x.Child? ensures NonEmpty(g, x) {
      if x in t.node {
        StillBelow(t, g, kernel, x);
      } else {
        OnPath(g, kernel, q);
      }
    }
  }

  lemma StillBelow(t: Tree, g: Tree, kernel: Table, x: Pos)
    requires TreeInv(t, kernel) && TreeInv(g, kernel) && x.Child? && NonEmpty(t, x)
    requires forall y :: y in t.node ==> y in g.node
    requires t.ptes.Keys <= g.ptes.Keys
    ensures NonEmpty(g, x)
  {
    SomethingBelow(t, kernel, x);
    if y :| y in t.node && y.Child? && y.up == x {
      TableAbove(g, y);
    } else {
      assert forall i :: Child(x, i) !in t.node by {
        forall i ensures Child(x, i) !in t.node { assert Child(x, i).up == x; }
      }
      var q :| q in t.ptes && q.Pt() == x;
      assert q in g.ptes.Keys;
      LeafAbove(g, q);
    }
  }

  lemma OnPath(g: Tree, kernel: Table, q: Va)
    requires TreeInv(g, kernel) && q in g.ptes
    ensures NonEmpty(g, q.Above(3)) && NonEmpty(g, q.Above(2)) && NonEmpty(g, q.Above(1))
  {
    hide Lower, Leaves, KernelHalf;
    PathPresent(g, kernel, q, 1);
    LeafUnder(g, kernel, q);
    TableAbove(g, q.Pt());
    TableAbove(g, q.Pt().up);
  }

  lemma LeafUnder(g: Tree, kernel: Table, q: Va)
    requires TreeInv(g, kernel) && q in g.ptes
    ensures NonEmpty(g, q.Pt())
  {
    hide Upper, KernelHalf;
    LeafAbove(g, q);
  }

  /** Equal up to the bytes of pages nobody owns. */
  predicate Alike(f: Pmm.Frame, g: Pmm.Frame) {
    && f.used == g.used && f.reserved == g.reserved && f.owner == g.owner && f.refs == g.refs
    && (f.used ==> f.bytes == g.bytes)
  }

  ghost predicate SameFrames(v: Frames, w: Frames) {
    |v| == |w| && forall i :: 0 <= i < |v| ==> Alike(v[i], w[i])
  }

  // ----------------------------------------- the surroundings of the address spaces

  ghost function Roots(t: Tree): set<nat> {
    set p | p in t.node && p.Root? :: p.r
  }

  lemma RootsSame(t: Tree, g: Tree)
    requires forall k :: Root(k) in g.node <==> Root(k) in t.node
    ensures Roots(g) == Roots(t)
  {
    forall k ensures k in Roots(t) <==> Root(k) in t.node { RootIn(t, k); }
    forall k ensures k in Roots(g) <==> Root(k) in g.node { RootIn(g, k); }
  }

  lemma RootIn(t: Tree, k: nat)
    ensures k in Roots(t) <==> Root(k) in t.node
  {
    if Root(k) in t.node { assert Root(k).r == k; }
  }

  lemma RootsMore(t: Tree, g: Tree, c: nat)
    requires Root(c) in g.node && (forall x :: x in t.node ==> x in g.node)
    requires forall x :: x in g.node && x !in t.node ==> x.Space() == c
    ensures Roots(g) == Roots(t) + {c}
  {
    forall k ensures k in Roots(g) <==> k in Roots(t) + {c} {
      RootIn(t, k);
      RootIn(g, k);
      assert Root(k).Space() == k;
    }
  }

  lemma RootsLess(t: Tree, g: Tree, r: nat)
    requires SpaceGone(t, g, r)
    ensures Roots(g) == Roots(t) - {r}
  {
    forall k ensures k in Roots(g) <==> k in Roots(t) - {r} {
      RootIn(t, k);
      RootIn(g, k);
      assert Root(k).Space() == k;
    }
  }

  lemma RootsExtended(t: Tree, g: Tree, q: Va)
    requires Extends(t, g, q)
    ensures Roots(g) == Roots(t)
  {
    AboveChild(q);
    RootsSame(t, g);
  }

  lemma RootsShrunk(t: Tree, g: Tree, q: Va)
    requires Shrinks(t, g, q)
    ensures Roots(g) == Roots(t)
  {
    AboveChild(q);
    RootsSame(t, g);
  }

  lemma AboveChild(q: Va)
    ensures q.Above(1).Child? && q.Above(2).Child? && q.Above(3).Child?
  {
  }

  lemma OthersAlike(v: Frames, w: Frames)
    requires SameFrames(w, v)
    ensures Others(w) == Others(v)
  {
    forall f | 0 <= f < |v| ensures Untouched(v[f], w[f]) { assert Alike(w[f], v[f]); }
    OthersStay(v, w);
  }

  lemma OthersTaken(v: Frames, threads: set<nat>, f: nat, o: Pmm.Owner)
    requires Pmm.RunAt(v, threads, f, 1) && (o == Pmm.User || o == Pmm.PageTable)
    ensures Others(Pmm.Taken(v, f, 1, o)) == Others(v)
  {
    assert Pmm.Available(v, threads, f);
    OthersStay(v, Pmm.Taken(v, f, 1, o));
  }

  lemma OthersMapped(t: Tree, g: Tree, v: Frames, w: Frames, threads: set<nat>, kt: set<nat>, f: nat)
    requires Linked(g, w, threads, kt) && Mapped(v, w, t, g, f) && Acquirable(v, f)
    ensures Others(w) == Others(v)
  {
    hide Linked;
    forall x: nat | x < |v| ensures Untouched(v[x], w[x]) {
      if x in g.home { HomeIsTable(g, w, threads, kt, x); }
    }
    OthersStay(v, w);
  }

  lemma HomeIsTable(t: Tree, v: Frames, threads: set<nat>, kt: set<nat>, f: nat)
    requires Linked(t, v, threads, kt) && f in t.home
    ensures TablePage(v, threads, f)
  {
  }

  lemma OthersPruned(t: Tree, g: Tree, v: Frames, w: Frames, threads: set<nat>, kt: set<nat>, f: nat)
    requires Linked(t, v, threads, kt) && Pmm.UserAt(v, f) && v[f].refs > 0 && Pruned(Pmm.Released(v, f), w, t, g)
    ensures Others(w) == Others(v)
  {
    hide Linked;
    forall x: nat | x < |v| ensures Untouched(v[x], w[x]) {
      if x in t.home { HomeIsTable(t, v, threads, kt, x); }
    }
    OthersStay(v, w);
  }

  lemma OthersSettled(t: Tree, g: Tree, v: Frames, w: Frames, threads: set<nat>, kt: set<nat>)
    requires Linked(t, v, threads, kt) && Settled(v, w, t, g)
    ensures Others(w) == Others(v)
  {
    hide Linked;
    forall x: nat | x < |v| ensures Untouched(v[x], w[x]) {
      assert SettledAt(v, w, t, g, x);
      if x in t.home { HomeIsTable(t, v, threads, kt, x); }
    }
    OthersStay(v, w);
  }

  lemma OthersSpread(t: Tree, g: Tree, v: Frames, w: Frames, threads: set<nat>, kt: set<nat>)
    requires Linked(g, w, threads, kt) && Spread(v, w, t, g)
    ensures Others(w) == Others(v)
  {
    hide Linked;
    forall x: nat | x < |v| ensures Untouched(v[x], w[x]) {
      if x in g.home { HomeIsTable(g, w, threads, kt, x); }
    }
    OthersStay(v, w);
  }

  lemma OthersMoved(t: Tree, v: Frames, w: Frames, threads: set<nat>, kt: set<nat>, q: Va, n: nat)
    requires Linked(t, v, threads, kt) && Pmm.RunAt(v, threads, n, 1) && q in t.ptes && t.ptes[q].frame < |v|
    requires n < |v| && Moved(Copied(v, n, t.ptes[q].frame), w, t.ptes[q].frame, n)
    ensures Others(w) == Others(v)
  {
    assert Pmm.Available(v, threads, n);
    assert Pmm.UserAt(v, t.ptes[q].frame);
    OthersStay(v, w);
  }

  lemma SlotOf(t: Tree, kernel: Table, p: Pos, i: nat)
    requires TreeInv(t, kernel) && p in t.node && p.Level() >= 2 && i < p.Fan()
    ensures t.node[p] in t.tables
    ensures t.tables[t.node[p]][i].p <==> Child(p, i) in t.node
    ensures Child(p, i) in t.node ==> t.tables[t.node[p]][i].frame == t.node[Child(p, i)]
  {
  }

  lemma LeafOf(t: Tree, kernel: Table, q: Va)
    requires TreeInv(t, kernel) && q.InRange() && q.Pt() in t.node
    ensures t.node[q.Pt()] in t.tables
    ensures t.tables[t.node[q.Pt()]][q.d] == if q in t.ptes then LeafEntry(t.ptes[q]) else NONE
  {
  }

  lemma StepDown(q: Va, level: nat)
    requires q.InRange() && 2 <= level <= 4
    ensures q.Above(level - 1) == Child(q.Above(level), q.At(level))
    ensures q.Above(level).Level() == level && q.At(level) < q.Above(level).Fan() <= ENTRIES
  {
    assert Child(Root(q.r), q.a).Level() == 3;
    assert Child(Child(Root(q.r), q.a), q.b).Level() == 2;
  }

  /** The tables on the way to a mapped page are all there. */
  lemma PathPresent(t: Tree, kernel: Table, q: Va, level: nat)
    requires TreeInv(t, kernel) && q in t.ptes && 1 <= level <= 4
    ensures q.Above(level) in t.node
  {
    assert q.Pt() in t.node;
    assert q.Pt().up in t.node;
    assert q.Pt().up.up in t.node;
  }

  lemma GrownEmpty(t: Tree, p: Pos, i: nat, f: nat)
    requires p in t.node && t.node[p] in t.tables && i < ENTRIES
    ensures !NonEmpty(Grow(t, p, i, f), Child(p, i))
    ensures Grow(t, p, i, f).ptes == t.ptes
    ensures Child(p, i) in Grow(t, p, i, f).node && Grow(t, p, i, f).node[Child(p, i)] == f
    ensures p in Grow(t, p, i, f).node && (Child(p, i) != p ==> Grow(t, p, i, f).node[p] == t.node[p])
  {
  }

  lemma AboveOne(q: Va)
    ensures q.Above(1) == q.Pt()
  {
  }

  /** A new table is one less that is missing. */
  lemma GrownLacks(t: Tree, q: Va, level: nat, f: nat)
    requires q.InRange() && 2 <= level <= 4 && Placed(t) && q.Above(level) in t.node && q.Above(level - 1) !in t.node
    ensures t.node[q.Above(level)] in t.tables && q.At(level) < ENTRIES
    ensures Lacking(t, q, level) == level - 1
    ensures Lacking(Grow(t, q.Above(level), q.At(level), f), q, level - 1) == level - 2
  {
    StepDown(q, level);
    if level > 2 {
      StepDown(q, level - 1);
      assert q.Above(level - 2) !in t.node;
      assert q.Above(level - 2) != q.Above(level - 1);
    }
  }

  lemma MapsGrown(t: Tree, v: Frames, threads: set<nat>, q: Va, level: nat, child: nat, f: nat)
    requires q.InRange() && 2 <= level <= 4 && Placed(t) && q.Above(level) in t.node && q.Above(level - 1) !in t.node
    requires Pmm.RunAt(v, threads, child, 1)
    ensures t.node[q.Above(level)] in t.tables && q.At(level) < ENTRIES
    ensures MapsBelow(t, v, threads, 0, q, level, f) <==>
      MapsBelow(Grow(t, q.Above(level), q.At(level), child), Pmm.Taken(v, child, 1, Pmm.PageTable), threads, 0, q,
          level - 1, f)
  {
    hide Acquirable, Avail, Lacking, Pmm.RunAt, Pmm.Taken, Grow;
    GrownLacks(t, q, level, child);
    AvailTaken(v, threads, child, Pmm.PageTable);
    TakenAcquirable(v, threads, child, f);
  }

  /** From t and v, the next table on the way to `q` has been made in frame `child`. */
  ghost predicate Made(t: Tree, v: Frames, threads: set<nat>, g: Tree, w: Frames, q: Va, level: nat, child: nat) {
    && q.InRange() && 2 <= level <= 4 && q.Above(level) in t.node && t.node[q.Above(level)] in t.tables
    && q.At(level) < ENTRIES
    && child !in t.home && q.Above(level - 1) !in t.node && Pmm.RunAt(v, threads, child, 1)
    && g == Grow(t, q.Above(level), q.At(level), child) && w == Pmm.Taken(v, child, 1, Pmm.PageTable)
  }

  lemma MadeOf(t: Tree, v: Frames, threads: set<nat>, g: Tree, w: Frames, q: Va, level: nat, child: nat)
    requires q.InRange() && 2 <= level <= 4 && q.Above(level) in t.node && t.node[q.Above(level)] in t.tables
    requires q.At(level) < ENTRIES && child !in t.home && q.Above(level - 1) !in t.node
    requires Pmm.RunAt(v, threads, child, 1) && g == Grow(t, q.Above(level), q.At(level), child)
    requires w == Pmm.Taken(v, child, 1, Pmm.PageTable)
    ensures Made(t, v, threads, g, w, q, level, child)
  {
  }

  lemma MadeNow(t: Tree, v: Frames, threads: set<nat>, g: Tree, w: Frames, q: Va, level: nat, child: nat, f: nat)
    requires Placed(t) && Made(t, v, threads, g, w, q, level, child)
    ensures g.ptes == t.ptes && q.Above(level - 1) in g.node && g.node[q.Above(level - 1)] == child
    ensures MapsBelow(t, v, threads, 0, q, level, f) <==> MapsBelow(g, w, threads, 0, q, level - 1, f)
  {
    hide Placed, Grow, Pmm.RunAt, Pmm.Taken, MapsBelow, Va.Above, Va.At, NonEmpty;
    StepDown(q, level);
    MapsGrown(t, v, threads, q, level, child, f);
    GrownEmpty(t, q.Above(level), q.At(level), child);
  }

  lemma MadeFacts(t: Tree, v: Frames, threads: set<nat>, g: Tree, w: Frames, q: Va, level: nat, child: nat, f: nat)
    requires Made(t, v, threads, g, w, q, level, child)
    ensures Acquirable(w, f) <==> Acquirable(v, f)
    ensures q.Above(level) in t.node && q.Above(level).Level() >= 2 && q.At(level) < q.Above(level).Fan()
    ensures child !in t.home && Child(q.Above(level), q.At(level)) !in t.node && Pmm.RunAt(v, threads, child, 1)
    ensures t.node[q.Above(level)] in t.tables && q.At(level) < ENTRIES
    ensures g == Grow(t, q.Above(level), q.At(level), child)
    ensures w == Pmm.Taken(v, child, 1, Pmm.PageTable)
  {
    hide Grow, Pmm.RunAt, Pmm.Taken, Acquirable, Va.Above, Va.At;
    StepDown(q, level);
    TakenAcquirable(v, threads, child, f);
  }

  lemma MadeThenMapped(t: Tree, v: Frames, t1: Tree, v1: Frames, g: Tree, w: Frames, threads: set<nat>, q: Va,
                       level: nat,
                       child: nat, f: nat)
    requires Made(t, v, threads, t1, v1, q, level, child) && Extends(t1, g, q) && Mapped(v1, w, t1, g, f)
    requires Acquirable(v, f)
    ensures Extends(t, g, q) && Mapped(v, w, t, g, f)
  {
    hide Grow, Pmm.RunAt, Pmm.Taken, Acquirable, Extends, Mapped;
    StepDown(q, level);
    GrownThenMapped(t, t1, g, v, w, threads, q, q.Above(level), q.At(level), child, f);
  }

  lemma MapsStep(t: Tree, v: Frames, threads: set<nat>, failing: nat, q: Va, level: nat, f: nat)
    requires 1 <= level <= 4
    ensures level == 1 ==> (MapsBelow(t, v, threads, failing, q, level, f) <==> Acquirable(v, f))
    ensures level > 1 && q.Above(level - 1) in t.node ==>
      (MapsBelow(t, v, threads, failing, q, level, f) <==> MapsBelow(t, v, threads, failing, q, level - 1, f))
    ensures level > 1 && q.Above(level - 1) !in t.node && (failing != 0 || Avail(v, threads) == {}) ==>
      !MapsBelow(t, v, threads, failing, q, level, f)
  {
    hide Acquirable, Avail, Va.Above;
  }

  lemma SameRefl(v: Frames)
    ensures SameFrames(v, v)
  {
  }

  lemma LeafInstalled(t: Tree, v: Frames, q: Va, e: Pte)
    requires Placed(t) && q.d < ENTRIES && q.Pt() in t.node && e.frame < |v|
    ensures t.node[q.Pt()] in t.tables
    ensures Extends(t, SetLeaf(t, q, e), q)
    ensures Mapped(v, Pmm.Acquired(v, e.frame), t, SetLeaf(t, q, e), e.frame)
  {
  }

  lemma PlacedOf(t: Tree, kernel: Table)
    requires TreeInv(t, kernel)
    ensures Placed(t) && Upper(t)
  {
  }

  lemma AcquirableFits(v: Frames, f: nat)
    requires Acquirable(v, f)
    ensures f < |v|
  {
  }

  /** Growing a table on the way and mapping below it, seen as one change. */
  lemma GrownThenMapped(t: Tree, t1: Tree, g: Tree, v: Frames, w: Frames, threads: set<nat>, q: Va, p: Pos,
                        i: nat, child: nat, f: nat)
    requires p in t.node && t.node[p] in t.tables && i < ENTRIES && t1 == Grow(t, p, i, child)
    requires Child(p, i) == q.Above(3) || Child(p, i) == q.Above(2) || Child(p, i) == q.Above(1)
    requires Child(p, i) !in t.node && child !in t.home && Pmm.RunAt(v, threads, child, 1)
    requires Extends(t1, g, q) && Mapped(Pmm.Taken(v, child, 1, Pmm.PageTable), w, t1, g, f)
    requires Acquirable(v, f)
    ensures Extends(t, g, q) && Mapped(v, w, t, g, f)
  {
    hide Va.Above;
    assert Pmm.Available(v, threads, child);
    assert t1.home.Keys == t.home.Keys + {child};
    assert forall x :: x in t.node ==> x in t1.node && t1.node[x] == t.node[x];
  }

  lemma TakenAcquirable(v: Frames, threads: set<nat>, child: nat, f: nat)
    requires Pmm.RunAt(v, threads, child, 1)
    ensures Acquirable(Pmm.Taken(v, child, 1, Pmm.PageTable), f) <==> Acquirable(v, f)
  {
    assert Pmm.Available(v, threads, child);
  }

  lemma UndoTaken(v: Frames, w: Frames, threads: set<nat>, child: nat)
    requires Pmm.RunAt(v, threads, child, 1) && Pmm.Clean(v)
    requires SameFrames(w, Pmm.Taken(v, child, 1, Pmm.PageTable))
    ensures SameFrames(Pmm.Freed(w, child, 1), v)
  {
    assert Pmm.Available(v, threads, child);
  }

  lemma CleanOf(t: Tree, v: Frames, threads: set<nat>, kt: set<nat>)
    requires Linked(t, v, threads, kt)
    ensures Pmm.Clean(v)
  {
  }

  /** What the three table reads of a lookup find. */
  lemma PathOrNot(t: Tree, kernel: Table, q: Va)
    requires TreeInv(t, kernel) && q.InRange() && Root(q.r) in t.node
    ensures q.r in t.tables
    ensures q.Pt() in t.node ==> t.tables[q.r][q.a].p
    ensures t.tables[q.r][q.a].p ==>
      && var f3 := t.tables[q.r][q.a].frame;
      && f3 in t.tables && q.Above(3) in t.node && t.node[q.Above(3)] == f3
      && (q.Pt() in t.node ==> t.tables[f3][q.b].p && !t.tables[f3][q.b].ps)
      && (t.tables[f3][q.b].p && !t.tables[f3][q.b].ps ==>
            && var f2 := t.tables[f3][q.b].frame;
            && f2 in t.tables && q.Above(2) in t.node && t.node[q.Above(2)] == f2
            && (t.tables[f2][q.c].p && !t.tables[f2][q.c].ps <==> q.Pt() in t.node)
            && (q.Pt() in t.node ==> t.tables[f2][q.c].frame == t.node[q.Pt()]))
    ensures q in t.ptes ==> q.Pt() in t.node
  {
    StepDown(q, 4);
    StepDown(q, 3);
    StepDown(q, 2);
    if q.Pt() in t.node {
      assert q.Pt().up in t.node;
      assert q.Pt().up.up in t.node;
    }
  }

  lemma RootFrame(t: Tree, kernel: Table, r: nat)
    requires TreeInv(t, kernel) && Root(r) in t.node
    ensures t.node[Root(r)] == r && r in t.tables
  {
  }

  /** Tables were only taken away, and only on the way to `q`. */
  ghost predicate Shrinks(t: Tree, g: Tree, q: Va) {
    && (forall x :: x in g.node ==> x in t.node && g.node[x] == t.node[x])
    && (forall x :: x in t.node && x !in g.node ==> x == q.Above(3) || x == q.Above(2) || x == q.Above(1))
    && g.home.Keys <= t.home.Keys
  }

  /** The pages of the tables taken away are blank again, all others untouched. */
  ghost predicate Pruned(v: Frames, w: Frames, t: Tree, g: Tree) {
    && |w| == |v|
    && forall x :: 0 <= x < |v| ==>
         w[x] == if x in t.home && x !in g.home then Pmm.Blank(v[x]) else v[x]
  }

  /** Only the table at `p` may be empty. */
  ghost predicate TightBut(t: Tree, p: Pos) {
    forall x :: x in t.node && x.Child? && x != p ==> NonEmpty(t, x)
  }

  lemma TightAtLast(t: Tree, p: Pos)
    ensures TightBut(t, p) && (p.Root? || NonEmpty(t, p)) ==> Tight(t)
  {
  }

  lemma ShrinkRefl(t: Tree, v: Frames, q: Va)
    ensures Shrinks(t, t, q) && Pruned(v, v, t, t)
  {
  }

  lemma PruneShrinks(t: Tree, t1: Tree, g: Tree, q: Va, p: Pos)
    requires p in t.node && t1.node == t.node - {p} && t1.home.Keys <= t.home.Keys
    requires p == q.Above(3) || p == q.Above(2) || p == q.Above(1)
    requires Shrinks(t1, g, q)
    ensures Shrinks(t, g, q)
  {
    hide Va.Above;
  }

  lemma ShrunkHome(t: Tree, g: Tree, q: Va)
    requires Shrinks(t, g, q)
    ensures g.home.Keys <= t.home.Keys
  {
  }

  lemma PruneBlanks(t: Tree, t1: Tree, g: Tree, v: Frames, w: Frames, f: nat)
    requires f in t.home && f < |v| && t1.home == t.home - {f} && g.home.Keys <= t1.home.Keys
    requires Pruned(Pmm.Freed(v, f, 1), w, t1, g)
    ensures Pruned(v, w, t, g)
  {
    assert f !in g.home.Keys;
    forall x | 0 <= x < |v| ensures w[x] == if x in t.home && x !in g.home then Pmm.Blank(v[x]) else v[x] {
      assert x in t1.home <==> x in t.home && x != f;
    }
  }

  lemma PruneTight(t: Tree, kernel: Table, p: Pos)
    requires TreeInv(t, kernel) && p in t.node && p.Child? && !NonEmpty(t, p) && TightBut(t, p)
    requires p.idx < ENTRIES && TreeInv(Prune(t, p), kernel)
    ensures TightBut(Prune(t, p), p.up)
  {
    var g := Prune(t, p);
    forall x | x in g.node && x.Child? && x != p.up ensures NonEmpty(g, x) {
      assert NonEmpty(t, x);
      assert g.tables[g.node[x]] == t.tables[t.node[x]];
    }
  }

  lemma PlacedFacts(t: Tree, kernel: Table, p: Pos)
    requires TreeInv(t, kernel) && p in t.node
    ensures t.node[p] in t.tables && t.node[p] in t.home && t.home[t.node[p]] == p && p.InRange()
    ensures t.home.Keys == t.tables.Keys
    ensures p.Child? ==> p.up in t.node
  {
  }

  lemma TableFreeable(t: Tree, v: Frames, threads: set<nat>, kt: set<nat>, f: nat)
    requires Linked(t, v, threads, kt) && f in t.home
    ensures 0 < f < |v| && Pmm.Freeable(v, threads, f, Pmm.Is(Pmm.PageTable))
  {
  }

  lemma PageZero(t: Tree, v: Frames, threads: set<nat>, kt: set<nat>)
    requires Linked(t, v, threads, kt)
    ensures |v| > 0 && v[0].reserved
  {
  }

  // ------------------------------------------- what the flat machine sees of it

  ghost function UserPages(v: Frames): map<nat, UserPage> {
    map f | 0 <= f < |v| && Pmm.UserAt(v, f) :: UserPage(v[f].refs, v[f].bytes)
  }

  ghost function Abstract(t: Tree, v: Frames): State {
    State(t.ptes, UserPages(v))
  }

  /** A user page behind a PTE. */
  lemma PteFacts(t: Tree, v: Frames, threads: set<nat>, kt: set<nat>, q: Va)
    requires Linked(t, v, threads, kt) && q in t.ptes
    ensures var f := t.ptes[q].frame;
      0 < f < |v| && Pmm.UserAt(v, f) && v[f].refs > 0 && v[f].refs == |Refs(t.ptes, f)| && !v[f].reserved
  {
    var f := t.ptes[q].frame;
    assert UserPageOk(t.ptes, v, threads, f);
    assert q in Refs(t.ptes, f);
  }

  lemma ReleasedPages(v: Frames, w: Frames, t: Tree, g: Tree, threads: set<nat>, kt: set<nat>, f: nat)
    requires Linked(t, v, threads, kt) && Pmm.UserAt(v, f) && v[f].refs > 0
    requires Pruned(Pmm.Released(v, f), w, t, g)
    ensures UserPages(w) == Release(UserPages(v), f)
  {
    hide Linked, Pruned, Pmm.Released;
    assert |w| == |v| by { PrunedLength(v, w, t, g, f); }
    forall x | 0 <= x < |v|
      ensures Pmm.UserAt(w, x) <==> Pmm.UserAt(v, x) && (x != f || v[f].refs > 1)
      ensures Pmm.UserAt(w, x) ==> w[x].bytes == v[x].bytes && w[x].refs == if x == f then v[x].refs - 1 else v[x].refs
    {
      ReleasedAt(v, w, t, g, threads, kt, f, x);
    }
  }

  lemma PrunedLength(v: Frames, w: Frames, t: Tree, g: Tree, f: nat)
    requires f < |v| && v[f].refs > 0 && Pruned(Pmm.Released(v, f), w, t, g)
    ensures |w| == |v|
  {
  }

  lemma ReleasedAt(v: Frames, w: Frames, t: Tree, g: Tree, threads: set<nat>, kt: set<nat>, f: nat, x: nat)
    requires Linked(t, v, threads, kt) && Pmm.UserAt(v, f) && v[f].refs > 0 && x < |v|
    requires Pruned(Pmm.Released(v, f), w, t, g)
    ensures Pmm.UserAt(w, x) <==> Pmm.UserAt(v, x) && (x != f || v[f].refs > 1)
    ensures Pmm.UserAt(w, x) ==> w[x].bytes == v[x].bytes && w[x].refs == if x == f then v[x].refs - 1 else v[x].refs
  {
    if x in t.home { assert TablePage(v, threads, x); }
  }

  lemma ClearTight(t: Tree, q: Va)
    requires Tight(t) && q.d < ENTRIES && q.Pt() in t.node && t.node[q.Pt()] in t.tables && Placed(t)
    ensures TightBut(ClearLeaf(t, q), q.Pt())
  {
  }

  lemma UnmapSummary(t: Tree, v: Frames, t1: Tree, g: Tree, w: Frames, threads: set<nat>, kt: set<nat>, q: Va)
    requires Linked(t, v, threads, kt) && q in t.ptes
    requires t.ptes[q].frame < |v| && v[t.ptes[q].frame].refs > 0
    requires t1.node == t.node && t1.home == t.home && Shrinks(t1, g, q)
    requires g.ptes == t.ptes - {q} && Pruned(Pmm.Released(v, t.ptes[q].frame), w, t1, g)
    ensures Shrinks(t, g, q)
    ensures Pruned(Pmm.Released(v, t.ptes[q].frame), w, t, g)
    ensures var f := t.ptes[q].frame; f in UserPages(v) && UserPages(v)[f].refs > 0
    ensures Abstract(g, w) == Unmap(Abstract(t, v), q)
  {
    hide Linked, Shrinks, UserPages;
    var f := t.ptes[q].frame;
    ShrinkSame(t, t1, g, q);
    PteFacts(t, v, threads, kt, q);
    assert Pruned(Pmm.Released(v, f), w, t, g);
    UserPageIn(v, f);
    ReleasedPages(v, w, t, g, threads, kt, f);
  }

  lemma LeafRange(t: Tree, kernel: Table, q: Va)
    requires TreeInv(t, kernel) && q in t.ptes
    ensures q.InRange() && q.Pt() in t.node
  {
  }

  lemma ClearedTables(t: Tree, q: Va)
    requires q.d < ENTRIES && q.Pt() in t.node && t.node[q.Pt()] in t.tables
    ensures var f := t.node[q.Pt()];
      ClearLeaf(t, q).tables == t.tables[f := t.tables[f][q.d := NONE]]
    ensures ClearLeaf(t, q).ptes == t.ptes - {q}
    ensures ClearLeaf(t, q).node == t.node && ClearLeaf(t, q).home == t.home
  {
  }

  lemma FrameAddress(f: nat)
    ensures f * PAGE_SIZE / PAGE_SIZE == f && f * PAGE_SIZE % PAGE_SIZE == 0 && (f > 0 ==> f * PAGE_SIZE > 0)
  {
  }

  ghost predicate SamePlaces(t: Tree, g: Tree) {
    g.node == t.node && g.home == t.home
  }

  lemma SetTables(t: Tree, q: Va, e: Pte)
    requires q.d < ENTRIES && q.Pt() in t.node && t.node[q.Pt()] in t.tables
    ensures var f := t.node[q.Pt()];
      SetLeaf(t, q, e).tables == t.tables[f := t.tables[f][q.d := LeafEntry(e)]]
    ensures SetLeaf(t, q, e).ptes == t.ptes[q := e] && SamePlaces(t, SetLeaf(t, q, e))
  {
  }

  lemma AcquirableUser(v: Frames, n: nat)
    requires Acquirable(v, n)
    ensures 0 < n < |v| && Pmm.UserAt(v, n) && v[n].refs != Pmm.UINT32_MAX
  {
  }

  predicate IsCow(t: Tree, q: Va) {
    q in t.ptes && t.ptes[q].cow
  }

  /** Another PTE names the page of `q` too. */
  ghost predicate IsShared(ptes: map<Va, Pte>, q: Va) {
    q in ptes && |Refs(ptes, ptes[q].frame)| > 1
  }

  /** How many pages a copy on write at `q` takes. */
  ghost function Due(ptes: map<Va, Pte>, q: Va): nat {
    if IsShared(ptes, q) then 1 else 0
  }

  /** The next allocation of one page fails. */
  ghost predicate NoPage(failing: nat, v: Frames, threads: set<nat>) {
    failing != 0 || |Avail(v, threads)| == 0
  }

  lemma NoPageIff(failing: nat, v: Frames, threads: set<nat>)
    ensures NoPage(failing, v, threads) <==> failing != 0 || forall s: nat :: !Pmm.RunAt(v, threads, s, 1)
  {
    hide Avail, Pmm.RunAt;
    NoRun(v, threads);
  }

  /** The flat machine took a copy-on-write fault at `q`, with `n` as the new page. */
  ghost predicate Faulted(s: State, s': State, q: Va, n: nat) {
    && q in s.ptes && s.ptes[q].frame in s.pages && s.pages[s.ptes[q].frame].refs > 0
    && (s.pages[s.ptes[q].frame].refs > 1 ==> n !in s.pages)
    && s' == CowFault(s, q, n)
  }

  lemma TightSame(t: Tree, g: Tree, kernel: Table)
    requires TreeInv(t, kernel) && TreeInv(g, kernel) && Tight(t)
    requires SamePlaces(t, g) && t.ptes.Keys == g.ptes.Keys
    ensures Tight(g)
  {
    hide TreeInv, NonEmpty;
    forall x | x in g.node && x.Child? ensures NonEmpty(g, x) { StillBelow(t, g, kernel, x); }
  }

  lemma FaultAlone(t: Tree, g: Tree, v: Frames, threads: set<nat>, kt: set<nat>, q: Va)
    requires Linked(t, v, threads, kt) && q in t.ptes && t.ptes[q].frame < |v| && v[t.ptes[q].frame].refs == 1
    requires g.ptes == t.ptes[q := Pte(t.ptes[q].frame, true, false)]
    ensures Faulted(Abstract(t, v), Abstract(g, v), q, 0)
  {
    hide Linked, UserPages;
    PteFacts(t, v, threads, kt, q);
    UserPageIn(v, t.ptes[q].frame);
  }

  /** The page state between the copy and the change of the PTE. */
  ghost function Copied(v: Frames, n: nat, o: nat): Frames
    requires n < |v| && o < |v|
  {
    var v1 := Pmm.Taken(v, n, 1, Pmm.User);
    v1[n := v1[n].(bytes := v[o].bytes)]
  }

  lemma CopiedIs(v: Frames, n: nat, o: nat)
    requires n < |v| && o < |v| && |Pmm.Taken(v, n, 1, Pmm.User)| == |v|
    ensures Copied(v, n, o) == var w := Pmm.Taken(v, n, 1, Pmm.User); w[n := w[n].(bytes := v[o].bytes)]
  {
  }

  lemma FreshCopy(t: Tree, v: Frames, threads: set<nat>, kt: set<nat>, q: Va, n: nat)
    requires Linked(t, v, threads, kt) && q in t.ptes && Pmm.RunAt(v, threads, n, 1)
    ensures var o := t.ptes[q].frame;
      && n < |v| && o < |v| && n != o && |Pmm.Taken(v, n, 1, Pmm.User)| == |v|
      && Pmm.Taken(v, n, 1, Pmm.User)[o] == v[o]
      && Linked(t, Copied(v, n, o), threads, kt) && Acquirable(Copied(v, n, o), n)
  {
    hide Linked, Refs;
    var o := t.ptes[q].frame;
    assert Pmm.Available(v, threads, n);
    PteFacts(t, v, threads, kt, q);
    TakeUser(t, v, threads, kt, n);
    PageZero(t, v, threads, kt);
    FillKeeps(t, Pmm.Taken(v, n, 1, Pmm.User), threads, kt, n, v[o].bytes);
  }

  lemma FaultShared(t: Tree, v: Frames, g: Tree, w: Frames, threads: set<nat>, kt: set<nat>, q: Va, n: nat)
    requires Linked(t, v, threads, kt) && q in t.ptes && Pmm.RunAt(v, threads, n, 1)
    requires n < |v| && t.ptes[q].frame < |v| && v[t.ptes[q].frame].refs > 1
    requires g.ptes == t.ptes[q := Pte(n, true, false)]
    requires Moved(Copied(v, n, t.ptes[q].frame), w, t.ptes[q].frame, n)
    ensures Faulted(Abstract(t, v), Abstract(g, w), q, n)
  {
    hide Linked, Refs;
    var o := t.ptes[q].frame;
    assert Pmm.Available(v, threads, n);
    PteFacts(t, v, threads, kt, q);
    UserPageIn(v, o);
    assert UserPages(w) == Release(UserPages(v), o)[n := UserPage(1, v[o].bytes)];
  }

  lemma RepointFacts(t: Tree, kernel: Table, v: Frames, threads: set<nat>, kt: set<nat>, q: Va, n: nat)
    requires TreeInv(t, kernel) && Linked(t, v, threads, kt) && q in t.ptes
    requires n != t.ptes[q].frame && Acquirable(v, n)
    ensures var e, o := Pte(n, true, false), t.ptes[q].frame;
      && q.d < ENTRIES && q.Pt() in t.node && t.node[q.Pt()] in t.tables
      && t.tables[t.node[q.Pt()]][q.d].frame == o && n < |v|
      && SetLeaf(t, q, e).tables == t.tables[t.node[q.Pt()] := t.tables[t.node[q.Pt()]][q.d := LeafEntry(e)]]
      && SetLeaf(t, q, e).ptes == t.ptes[q := e] && SamePlaces(t, SetLeaf(t, q, e))
      && TreeInv(SetLeaf(t, q, e), kernel)
      && 0 < o < |v| && o != n && v[o].refs > 0 && Pmm.UserAt(v, o)
      && (forall w :: Moved(v, w, o, n) ==> Linked(SetLeaf(t, q, e), w, threads, kt))
  {
    hide TreeInv, Linked, SetLeaf, Refs, Pmm.UserAt, Acquirable;
    var e := Pte(n, true, false);
    LeafRange(t, kernel, q);
    LeafOf(t, kernel, q);
    PteFacts(t, v, threads, kt, q);
    SetLeafKeeps(t, kernel, q, e);
    SetTables(t, q, e);
    AcquirableUser(v, n);
    MovePte(t, SetLeaf(t, q, e), v, threads, kt, q, e);
  }

  /** One reference moved from page `o` to page `n`. */
  ghost predicate Moved(v: Frames, w: Frames, o: nat, n: nat) {
    && n < |v| && o < |v| && o != n && v[o].refs > 0
    && w == Pmm.Released(Pmm.Acquired(v, n), o)
  }

  /** A copy on write takes one page. */
  lemma AvailCopied(v: Frames, w: Frames, threads: set<nat>, o: nat, n: nat)
    requires n < |v| && o < |v| && v[o].refs > 1 && v[o].used && Pmm.Available(v, threads, n)
    requires Moved(Copied(v, n, o), w, o, n)
    ensures |Avail(w, threads)| + 1 == |Avail(v, threads)|
  {
    assert Avail(w, threads) == Avail(v, threads) - {n};
  }

  lemma MovedNow(v: Frames, o: nat, n: nat)
    requires n < |v| && o < |v| && o != n && v[o].refs > 0 && Pmm.UserAt(v, o)
    ensures Pmm.UserAt(Pmm.Acquired(v, n), o) && Pmm.Acquired(v, n)[o].refs > 0
    ensures Moved(v, Pmm.Released(Pmm.Acquired(v, n), o), o, n)
  {
  }

  lemma ShrinkSame(t: Tree, t1: Tree, g: Tree, q: Va)
    requires t1.node == t.node && t1.home == t.home
    requires Shrinks(t1, g, q)
    ensures Shrinks(t, g, q)
  {
  }

  lemma UserPageIn(v: Frames, f: nat)
    requires Pmm.UserAt(v, f)
    ensures f in UserPages(v) && UserPages(v)[f] == UserPage(v[f].refs, v[f].bytes)
  {
  }

  // ---------------------------------------------------------- whole subtrees

  /** Table `x` is table `p` or hangs somewhere below it. */
  ghost predicate Under(x: Pos, p: Pos) {
    x == p || (x.Child? && Under(x.up, p))
  }

  lemma UnderLevel(x: Pos, p: Pos)
    requires Under(x, p)
    ensures x.Level() <= p.Level()
  {
  }

  lemma UnderChild(x: Pos, p: Pos, i: nat)
    requires Under(x, Child(p, i))
    ensures Under(x, p) && x != p
  {
    UnderLevel(x, Child(p, i));
  }

  lemma SiblingsApart(p: Pos, i: nat, j: nat)
    requires i != j
    ensures !Under(Child(p, j), Child(p, i)) && !Under(p, Child(p, i))
  {
    if Under(p, Child(p, i)) { UnderLevel(p, Child(p, i)); }
  }

  lemma AboveStep(q: Va, level: nat)
    requires 2 <= level <= 4
    ensures q.Above(level - 1) == Child(q.Above(level), q.At(level))
  {
  }

  /** Pages whose way leads through table `p`. */
  ghost predicate Through(q: Va, p: Pos) {
    1 <= p.Level() <= 4 && q.Above(p.Level()) == p
  }

  /** Only tables below `p` and pages through `p` went away. */
  ghost predicate Outside(t: Tree, g: Tree, p: Pos) {
    && (forall x :: x in g.node ==> x in t.node && g.node[x] == t.node[x])
    && (forall x :: x in t.node && !Under(x, p) ==> x in g.node)
    && (forall q :: q in g.ptes ==> q in t.ptes && g.ptes[q] == t.ptes[q])
    && (forall q :: q in t.ptes && !Through(q, p) ==> q in g.ptes)
    && g.home.Keys <= t.home.Keys
  }

  /** Pages that lost a table or their last mapping are blank; other user pages keep
      their bytes; everything else is untouched. */
  ghost predicate Settled(v: Frames, w: Frames, t: Tree, g: Tree) {
    && |w| == |v|
    && (forall x :: 0 <= x < |v| ==> SettledAt(v, w, t, g, x))
  }

  ghost predicate SettledAt(v: Frames, w: Frames, t: Tree, g: Tree, x: nat)
    requires x < |v| && |w| == |v|
  {
    if x in t.home && x !in g.home then w[x] == Pmm.Blank(v[x])
    else if Pmm.UserAt(v, x) then
      || (w[x] == v[x].(refs := w[x].refs) && w[x].refs <= v[x].refs && (w[x].refs > 0 || v[x].refs == 0))
      || (w[x] == Pmm.Blank(v[x]) && v[x].refs > 0)
    else w[x] == v[x]
  }

  lemma OutsideRefl(t: Tree, v: Frames, p: Pos)
    ensures Outside(t, t, p) && Settled(v, v, t, t)
  {
  }

  lemma OutsideTrans(t: Tree, t1: Tree, g: Tree, p: Pos)
    requires Outside(t, t1, p) && Outside(t1, g, p)
    ensures Outside(t, g, p)
  {
  }

  lemma OutsideChild(t: Tree, g: Tree, p: Pos, i: nat)
    requires Outside(t, g, Child(p, i)) && 2 <= p.Level() <= 4
    ensures Outside(t, g, p)
  {
    forall x | x in t.node && !Under(x, p) ensures x in g.node {
      if Under(x, Child(p, i)) { UnderChild(x, p, i); }
    }
    forall q | q in t.ptes && !Through(q, p) ensures q in g.ptes { AboveStep(q, p.Level()); }
  }

  lemma SettledTrans(v: Frames, v1: Frames, w: Frames, t: Tree, t1: Tree, g: Tree, threads: set<nat>, kt: set<nat>)
    requires Settled(v, v1, t, t1) && Settled(v1, w, t1, g)
    requires t1.home.Keys <= t.home.Keys && g.home.Keys <= t1.home.Keys
    requires Linked(t, v, threads, kt) && Linked(t1, v1, threads, kt)
    ensures Settled(v, w, t, g)
  {
    forall x | 0 <= x < |v| ensures SettledAt(v, w, t, g, x) {
      assert SettledAt(v, v1, t, t1, x) && SettledAt(v1, w, t1, g, x);
      if x in t.home { assert TablePage(v, threads, x); }
      if x in t1.home { assert TablePage(v1, threads, x); }
      assert x in t1.home ==> x in t.home.Keys;
      assert x in g.home ==> x in t1.home.Keys;
    }
  }

  lemma PageOf(p: Pos, i: nat)
    requires p.InRange() && p.Level() == 1 && i < ENTRIES
    ensures var q := PageAt(p, i); q.InRange() && q.Pt() == p && q.d == i && Through(q, p)
  {
    LevelOnePath(p);
    assert p.up.InRange() && p.up.up.InRange();
  }

  lemma ClearedOutside(t: Tree, g: Tree, v: Frames, w: Frames, threads: set<nat>, kt: set<nat>, q: Va, p: Pos)
    requires Linked(t, v, threads, kt) && q in t.ptes && Through(q, p)
    requires SamePlaces(t, g) && g.ptes == t.ptes - {q}
    requires t.ptes[q].frame < |v| && v[t.ptes[q].frame].refs > 0
    requires w == Pmm.Released(v, t.ptes[q].frame)
    ensures Outside(t, g, p) && Settled(v, w, t, g)
  {
    assert Pmm.UserAt(v, t.ptes[q].frame);
  }

  lemma PtEmptied(t: Tree, kernel: Table, p: Pos)
    requires TreeInv(t, kernel) && p in t.node && p.InRange() && p.Level() == 1
    requires forall j :: 0 <= j < ENTRIES ==> PageAt(p, j) !in t.ptes
    ensures !NonEmpty(t, p)
  {
    forall j | 0 <= j < ENTRIES ensures !t.tables[t.node[p]][j].p {
      PageOf(p, j);
      LeafOf(t, kernel, PageAt(p, j));
    }
  }

  /** Nothing of the user half hangs below table `p` any more. */
  ghost predicate Bare(t: Tree, p: Pos) {
    && (p.Level() >= 2 ==> forall j :: 0 <= j < p.Fan() ==> Child(p, j) !in t.node)
    && (p.Child? ==> !NonEmpty(t, p))
  }

  lemma TableEmptied(t: Tree, kernel: Table, p: Pos)
    requires TreeInv(t, kernel) && p in t.node && p.Level() >= 2
    requires forall j :: 0 <= j < p.Fan() ==> Child(p, j) !in t.node
    ensures Bare(t, p)
  {
    if p.Child? {
      forall j | 0 <= j < ENTRIES ensures !t.tables[t.node[p]][j].p { SlotOf(t, kernel, p, j); }
    }
  }

  lemma PtBare(t: Tree, p: Pos)
    requires p.Level() == 1 && !NonEmpty(t, p)
    ensures Bare(t, p)
  {
  }

  lemma BareEmpty(t: Tree, p: Pos)
    requires Bare(t, p) && p.Child?
    ensures !NonEmpty(t, p)
  {
  }

  lemma PrunedOutside(t: Tree, g: Tree, v: Frames, w: Frames, threads: set<nat>, kt: set<nat>, p: Pos)
    requires Placed(t) && Linked(t, v, threads, kt) && p in t.node && p.Child? && p.idx < ENTRIES
    requires g == Prune(t, p) && w == Pmm.Freed(v, t.node[p], 1)
    ensures Outside(t, g, p) && Settled(v, w, t, g)
  {
    hide Linked, Through;
    assert g.node == t.node - {p} && g.ptes == t.ptes && g.home == t.home - {t.node[p]};
    FreedSettled(t, g, v, w, threads, kt, t.node[p]);
  }

  lemma FreedSettled(t: Tree, g: Tree, v: Frames, w: Frames, threads: set<nat>, kt: set<nat>, f: nat)
    requires Linked(t, v, threads, kt) && f in t.home
    requires g.home == t.home - {f} && w == Pmm.Freed(v, f, 1)
    ensures Settled(v, w, t, g)
  {
    assert TablePage(v, threads, f);
  }

  lemma HomesShrink(t: Tree, g: Tree, p: Pos)
    requires Outside(t, g, p)
    ensures g.home.Keys <= t.home.Keys
    ensures forall x :: x in g.node ==> x in t.node
  {
  }

  lemma KeptOutside(t: Tree, g: Tree, c: Pos, x: Pos)
    requires Outside(t, g, c) && x in t.node && !Under(x, c)
    ensures x in g.node && g.node[x] == t.node[x]
  {
  }

  /** Emptying a child table and taking it away, seen as one change below `p`. */
  lemma RemovedChild(t: Tree, v: Frames, t1: Tree, v1: Frames, g: Tree, w: Frames, kernel: Table,
                     threads: set<nat>, kt: set<nat>, p: Pos, i: nat)
    requires TreeInv(t, kernel) && TreeInv(t1, kernel) && Linked(t, v, threads, kt) && Linked(t1, v1, threads, kt)
    requires Child(p, i) in t1.node && 2 <= p.Level() <= 4 && i < ENTRIES && p in t1.node && t1.node[p] in t1.tables
    requires Outside(t, t1, Child(p, i)) && Settled(v, v1, t, t1)
    requires g == Prune(t1, Child(p, i)) && w == Pmm.Freed(v1, t1.node[Child(p, i)], 1)
    ensures Outside(t, g, p) && Settled(v, w, t, g)
    ensures Child(p, i) !in g.node && (forall x :: x in g.node ==> x in t.node)
    ensures p in g.node && g.node[p] == t1.node[p]
  {
    hide TreeInv, Linked, Outside, Settled, Pmm.Freed;
    var c := Child(p, i);
    PlacedOf(t1, kernel);
    PrunedOutside(t1, g, v1, w, threads, kt, c);
    OutsideTrans(t, t1, g, c);
    OutsideChild(t, g, p, i);
    HomesShrink(t, t1, c);
    HomesShrink(t1, g, c);
    SettledTrans(v, v1, w, t, t1, g, threads, kt);
  }

  lemma SpaceUnder(x: Pos, r: nat)
    ensures Under(x, Root(r)) <==> x.Space() == r
  {
  }

  lemma {:induction false} BareRoot(t: Tree, kernel: Table, r: nat, x: Pos)
    requires TreeInv(t, kernel) && Bare(t, Root(r)) && x in t.node && x.Space() == r
    ensures x == Root(r)
  {
    if x.Child? {
      PlacedFacts(t, kernel, x);
      BareRoot(t, kernel, r, x.up);
    }
  }

  lemma BarePages(t: Tree, kernel: Table, r: nat)
    requires TreeInv(t, kernel) && Bare(t, Root(r))
    ensures forall q :: q in t.ptes ==> q.r != r
  {
    forall q | q in t.ptes ensures q.r != r {
      if q.r == r { BareRoot(t, kernel, r, q.Pt()); }
    }
  }

  /** Address space `r` is gone, with every table and every PTE of it; no other space
      lost or gained anything. */
  ghost predicate SpaceGone(t: Tree, g: Tree, r: nat) {
    && (forall x :: x in g.node <==> x in t.node && x.Space() != r)
    && (forall x :: x in g.node ==> g.node[x] == t.node[x])
    && (forall q :: q in g.ptes <==> q in t.ptes && q.r != r)
    && (forall q :: q in g.ptes ==> g.ptes[q] == t.ptes[q])
  }

  lemma RootDropped(t: Tree, t1: Tree, g: Tree, kernel: Table, r: nat)
    requires TreeInv(t1, kernel) && Bare(t1, Root(r)) && Outside(t, t1, Root(r)) && g == DropRoot(t1, r)
    ensures SpaceGone(t, g, r)
  {
    BarePages(t1, kernel, r);
    forall x ensures x in g.node <==> x in t.node && x.Space() != r {
      SpaceUnder(x, r);
      if x in t1.node && x.Space() == r { BareRoot(t1, kernel, r, x); }
    }
    forall q | q in t.ptes && q.r != r ensures q in g.ptes { assert !Through(q, Root(r)); }
  }

  /** The spaces other than r keep their roots and their pages. */
  ghost predicate Spared(t: Tree, g: Tree, r: nat) {
    && (forall k :: Root(k) in t.node && k != r ==> Root(k) in g.node)
    && (forall q :: q in t.ptes && q.r != r ==> q in g.ptes)
  }

  lemma SparedRefl(t: Tree, r: nat)
    ensures Spared(t, t, r)
  {
  }

  lemma SparedGone(t: Tree, g: Tree, r: nat)
    requires SpaceGone(t, g, r)
    ensures Spared(t, g, r)
  {
    forall k | Root(k) in t.node && k != r ensures Root(k) in g.node { assert Root(k).Space() == k; }
  }

  /** No user page is waiting without a mapping. */
  ghost predicate NoOrphans(v: Frames) {
    forall f: nat :: Pmm.UserAt(v, f) ==> v[f].refs > 0
  }

  lemma ExitPages(t: Tree, v: Frames, g: Tree, w: Frames, threads: set<nat>, kt: set<nat>, r: nat)
    requires Linked(t, v, threads, kt) && Linked(g, w, threads, kt) && NoOrphans(v)
    requires SpaceGone(t, g, r) && Settled(v, w, t, g)
    ensures NoOrphans(w) && Abstract(g, w) == Exit(Abstract(t, v), r)
  {
    hide Linked;
    assert g.ptes == Exit(Abstract(t, v), r).ptes;
    forall f: nat | f < |v| ensures Pmm.UserAt(w, f) <==> Pmm.UserAt(v, f) && Refs(g.ptes, f) != {} {
      ExitPage(t, v, g, w, threads, kt, r, f);
    }
    forall f: nat | Pmm.UserAt(w, f)
      ensures w[f].bytes == v[f].bytes && w[f].refs == |Refs(g.ptes, f)| && w[f].refs > 0
    {
      ExitPage(t, v, g, w, threads, kt, r, f);
    }
  }

  lemma ExitPage(t: Tree, v: Frames, g: Tree, w: Frames, threads: set<nat>, kt: set<nat>, r: nat, f: nat)
    requires Linked(t, v, threads, kt) && Linked(g, w, threads, kt) && NoOrphans(v)
    requires SpaceGone(t, g, r) && Settled(v, w, t, g) && f < |v| == |w|
    ensures Pmm.UserAt(w, f) <==> Pmm.UserAt(v, f) && Refs(g.ptes, f) != {}
    ensures Pmm.UserAt(w, f) ==> w[f].bytes == v[f].bytes && w[f].refs == |Refs(g.ptes, f)| && w[f].refs > 0
  {
    assert SettledAt(v, w, t, g, f);
    ExitPageAt(g, v, w, threads, kt, f);
    if f in t.home { assert TablePage(v, threads, f); }
    if Pmm.UserAt(w, f) { assert UserPageOk(g.ptes, w, threads, f); }
  }

  lemma ExitPageAt(g: Tree, v: Frames, w: Frames, threads: set<nat>, kt: set<nat>, f: nat)
    requires Linked(g, w, threads, kt) && |v| == |w| && f < |v|
    ensures Refs(g.ptes, f) != {} ==> Pmm.UserAt(w, f)
    ensures Pmm.UserAt(w, f) && w[f].refs > 0 ==> Refs(g.ptes, f) != {}
  {
    if Refs(g.ptes, f) != {} {
      var q :| q in Refs(g.ptes, f);
      assert Pmm.UserAt(w, g.ptes[q].frame);
    }
    if Pmm.UserAt(w, f) { assert UserPageOk(g.ptes, w, threads, f); }
  }

  lemma RootSettled(t: Tree, v: Frames, t1: Tree, v1: Frames, g: Tree, w: Frames, threads: set<nat>, kt: set<nat>,
                    r: nat)
    requires Linked(t, v, threads, kt) && Linked(t1, v1, threads, kt) && r in t1.home
    requires Outside(t, t1, Root(r)) && Settled(v, v1, t, t1)
    requires g == DropRoot(t1, r) && w == Pmm.Freed(v1, r, 1)
    ensures Settled(v, w, t, g)
  {
    hide Outside;
    HomesShrink(t, t1, Root(r));
    FreedSettled(t1, g, v1, w, threads, kt, r);
    SettledTrans(v, v1, w, t, t1, g, threads, kt);
  }

  lemma DropRootFacts(t: Tree, kernel: Table, v: Frames, threads: set<nat>, kt: set<nat>, r: nat)
    requires TreeInv(t, kernel) && Linked(t, v, threads, kt) && Root(r) in t.node && Bare(t, Root(r))
    ensures r in t.home && TreeInv(DropRoot(t, r), kernel) && DropRoot(t, r).tables == t.tables - {r}
    ensures 0 < r < |v| && Pmm.Freeable(v, threads, r, Pmm.Is(Pmm.PageTable))
    ensures Linked(DropRoot(t, r), Pmm.Freed(v, r, 1), threads, kt)
  {
    hide TreeInv, Linked, Pmm.Freed, Pmm.Freeable;
    RootFrame(t, kernel, r);
    PlacedFacts(t, kernel, Root(r));
    DropRootKeeps(t, kernel, r);
    TableFreeable(t, v, threads, kt, r);
    DropTable(t, DropRoot(t, r), v, threads, kt, r);
  }

  // ------------------------------------------------------------------ cloning

  /** Space `c` holds sealed copies of some PTEs of space `a`; all else is as in `t`. */
  ghost predicate Cloning(t: Tree, g: Tree, a: nat, c: nat) {
    && (forall x :: x in t.node ==> x in g.node && g.node[x] == t.node[x])
    && (forall x :: x in g.node && x !in t.node ==> x.Space() == c)
    && (forall q :: q in t.ptes ==> q in g.ptes && g.ptes[q] == t.ptes[q])
    && (forall q :: q in g.ptes && q !in t.ptes ==>
          q.r == c && q.(r := a) in t.ptes && g.ptes[q] == Seal(t.ptes[q.(r := a)]))
    && t.home.Keys <= g.home.Keys
  }

  /** Some unowned pages became tables; user pages kept everything but the refcount. */
  ghost predicate Spread(v: Frames, w: Frames, t: Tree, g: Tree) {
    && |w| == |v|
    && forall x :: 0 <= x < |v| ==>
         if x in g.home && x !in t.home then !v[x].used && !v[x].reserved
         else if Pmm.UserAt(v, x) then w[x] == v[x].(refs := w[x].refs)
         else Alike(v[x], w[x])
  }

  lemma SpreadSame(v: Frames, v1: Frames, w: Frames, t: Tree, g: Tree)
    requires Spread(v, v1, t, g) && SameFrames(w, v1)
    ensures Spread(v, w, t, g)
  {
    forall x | 0 <= x < |v|
      ensures if x in g.home && x !in t.home then !v[x].used && !v[x].reserved
              else if Pmm.UserAt(v, x) then w[x] == v[x].(refs := w[x].refs)
              else Alike(v[x], w[x])
    {
      assert Alike(w[x], v1[x]);
    }
  }

  lemma CloningRefl(t: Tree, v: Frames, a: nat, c: nat)
    ensures Cloning(t, t, a, c) && Spread(v, v, t, t)
  {
  }

  lemma AboveSpace(q: Va, level: nat)
    requires 1 <= level <= 4
    ensures q.Above(level).Space() == q.r
  {
    assert Child(Root(q.r), q.a).Space() == q.r;
    assert Child(Child(Root(q.r), q.a), q.b).Space() == q.r;
  }

  lemma CloneStep(t: Tree, t1: Tree, g: Tree, a: nat, c: nat, q: Va)
    requires Cloning(t, t1, a, c) && q in t.ptes && q.r == a && a != c
    requires Extends(t1, g, q.(r := c)) && g.ptes == t1.ptes[q.(r := c) := Seal(t.ptes[q])]
    requires forall x :: x in t.ptes ==> x.r != c
    ensures Cloning(t, g, a, c)
  {
    hide Va.Above, Pos.Space;
    var k := q.(r := c);
    AboveSpace(k, 3);
    AboveSpace(k, 2);
    AboveSpace(k, 1);
    assert k.(r := a) == q;
  }

  lemma SpreadStep(v: Frames, v1: Frames, w: Frames, t: Tree, t1: Tree, g: Tree, f: nat)
    requires Spread(v, v1, t, t1) && Mapped(v1, w, t1, g, f) && Pmm.UserAt(v, f)
    requires t.home.Keys <= t1.home.Keys <= g.home.Keys
    ensures Spread(v, w, t, g)
  {
    forall x | 0 <= x < |v|
      ensures if x in g.home && x !in t.home then !v[x].used && !v[x].reserved
              else if Pmm.UserAt(v, x) then w[x] == v[x].(refs := w[x].refs)
              else Alike(v[x], w[x])
    {
      assert x in t.home ==> x in t1.home.Keys;
      assert x in t1.home ==> x in g.home.Keys;
    }
  }

  /** Byte address covered by the first slot of the table at `p`. */
  function Base(p: Pos): nat {
    if p.Root? then 0 else Base(p.up) + p.idx * Span(p.up.Level())
  }

  /** Bytes one slot of a table of the given level covers. */
  function Span(level: int): nat {
    if level == 4 then 0x80_0000_0000 else if level == 3 then 0x4000_0000
    else if level == 2 then 0x20_0000 else 0x1000
  }

  lemma BaseOfPage(p: Pos, i: nat)
    requires p.InRange() && p.Level() == 1 && i < ENTRIES
    ensures Base(p) + i * 0x1000 == Rebuild(PageAt(p, i))
  {
    LevelOnePath(p);
    assert p.up.up.Level() == 3 && p.up.Level() == 2;
    assert Base(p.up.up) == p.up.up.idx * 0x80_0000_0000;
    assert Base(p.up) == Base(p.up.up) + p.up.idx * 0x4000_0000;
  }

  lemma SpaceOfPage(p: Pos, i: nat)
    requires p.InRange() && p.Level() == 1
    ensures PageAt(p, i).r == p.Space()
  {
    LevelOnePath(p);
    assert p.up.up.Space() == p.up.up.up.r;
    assert p.up.Space() == p.up.up.up.r;
  }

  lemma SplitOther(p: Pos, i: nat, c: nat)
    requires p.InRange() && p.Level() == 1 && i < ENTRIES
    ensures Base(p) + i * 0x1000 < USER_TOP && (Base(p) + i * 0x1000) % PAGE_SIZE == 0
    ensures Split(c, Base(p) + i * 0x1000) == PageAt(p, i).(r := c)
  {
    hide Base, Split, Rebuild;
    PageOf(p, i);
    BaseOfPage(p, i);
    var k := PageAt(p, i).(r := c);
    assert Rebuild(k) == Rebuild(PageAt(p, i)) by { RebuildSame(PageAt(p, i), c); }
    SplitRebuild(k);
  }

  lemma RebuildSame(q: Va, c: nat)
    ensures Rebuild(q.(r := c)) == Rebuild(q)
  {
  }

  lemma ExtendsHome(t: Tree, g: Tree, q: Va)
    requires Extends(t, g, q)
    ensures t.home.Keys <= g.home.Keys
    ensures forall x :: x in t.node ==> x in g.node && g.node[x] == t.node[x]
  {
  }

  lemma CloningHome(t: Tree, g: Tree, a: nat, c: nat, q: Va)
    requires Cloning(t, g, a, c)
    ensures t.home.Keys <= g.home.Keys
    ensures q.r != c ==> (q in t.ptes <==> q in g.ptes) && (q in t.ptes ==> g.ptes[q] == t.ptes[q])
    ensures forall x :: x in t.node ==> x in g.node && g.node[x] == t.node[x]
  {
  }

  /** Every page of the parent that goes through `p` by a slot below `i` has its copy. */
  ghost predicate HasCopies(t: Tree, g: Tree, c: nat, p: Pos, i: nat)
    requires 1 <= p.Level() <= 4
  {
    forall q :: q in t.ptes && Through(q, p) && q.At(p.Level()) < i ==> q.(r := c) in g.ptes
  }

  lemma CloningSlot(t: Tree, g: Tree, kernel: Table, p: Pos, i: nat, c: nat)
    requires TreeInv(t, kernel) && TreeInv(g, kernel) && Cloning(t, g, p.Space(), c) && p.Space() != c
    requires p in t.node && p.Level() >= 2 && i < p.Fan()
    ensures p in g.node && g.node[p] == t.node[p] && g.node[p] in g.tables
    ensures g.tables[g.node[p]][i].p <==> Child(p, i) in t.node
    ensures Child(p, i) in t.node ==> g.tables[g.node[p]][i].frame == t.node[Child(p, i)]
  {
    SlotOf(g, kernel, p, i);
    assert Child(p, i).Space() == p.Space();
  }

  lemma ChildBase(p: Pos, i: nat)
    ensures Base(Child(p, i)) == Base(p) + i * Span(p.Level())
    ensures Child(p, i).Space() == p.Space() && Child(p, i).Level() == p.Level() - 1
    ensures p.InRange() && p.Level() >= 2 && i < p.Fan() ==> Child(p, i).InRange()
  {
  }

  // ---------------------------------------------- what can stop a clone

  function PagesOf(ptes: map<Va, Pte>, r: nat): set<Va> {
    set q | q in ptes && q.r == r
  }

  /** Where slot `i` of a table of the given level starts. */
  function Reach(base: nat, i: nat, level: int): nat { base + i * Span(level) }

  /** The copies so far lie below `bound`, and what they took is the tables on their ways. */
  ghost predicate Paid(t: Tree, v: Frames, g: Tree, w: Frames, threads: set<nat>, c: nat, bound: nat) {
    && g.node.Keys == t.node.Keys + Ways(PagesOf(g.ptes, c))
    && |Avail(w, threads)| + |g.node| == |Avail(v, threads)| + |t.node|
    && forall q :: q in g.ptes && q.r == c ==> Rebuild(q) < bound
  }

  /** Pages for the tables on the ways to the space's pages are short, or a refcount would
      not hold the copies. */
  ghost predicate CannotClone(v: Frames, threads: set<nat>, ptes: map<Va, Pte>, a: nat) {
    |Avail(v, threads)| < |Ways(PagesOf(ptes, a))| || Overfull(ptes, a)
  }

  /** Counting every page of the space twice, some page has too many mappings. */
  ghost predicate Overfull(ptes: map<Va, Pte>, a: nat) {
    exists f: nat :: |Refs(ptes, f)| + |RefsIn(ptes, a, f)| > Pmm.UINT32_MAX
  }

  function RefsIn(ptes: map<Va, Pte>, a: nat, f: nat): set<Va> {
    set q | q in ptes && q.r == a && ptes[q].frame == f
  }

  /** What stands against cloning space a: allocations are set to fail, the pages for its PML4
      and tables are short, or a refcount would not hold the copies. */
  ghost predicate Uncloneable(failing: nat, v: Frames, threads: set<nat>, ptes: map<Va, Pte>, a: nat) {
    failing != 0 || |Avail(v, threads)| < 1 + |Ways(PagesOf(ptes, a))| || Overfull(ptes, a)
  }

  lemma ReachIs(base: nat, i: nat, level: int)
    ensures Reach(base, i, level) == base + i * Span(level)
  {
  }

  lemma PaidNone(t: Tree, v: Frames, threads: set<nat>, c: nat, bound: nat)
    requires forall x :: x in t.ptes ==> x.r != c
    ensures Paid(t, v, t, v, threads, c, bound)
  {
    assert PagesOf(t.ptes, c) == {};
    assert Ways({}) == {};
  }

  lemma PaidMore(t: Tree, v: Frames, g: Tree, w: Frames, threads: set<nat>, c: nat, bound: nat, more: nat)
    requires Paid(t, v, g, w, threads, c, bound) && bound <= more
    ensures Paid(t, v, g, w, threads, c, more)
  {
    hide Ways, PagesOf, Avail;
  }

  lemma ReachNext(base: nat, i: nat, level: int)
    requires 1 <= level <= 4
    ensures Reach(base, 0, level) == base
    ensures Reach(base, i, level) <= Reach(base, i + 1, level)
    ensures level == 1 ==> Reach(base, i, level) == base + i * 0x1000
    ensures level >= 2 ==> Reach(Reach(base, i, level), ENTRIES, level - 1) == Reach(base, i + 1, level)
  {
    assert (i + 1) * Span(level) == i * Span(level) + Span(level);
  }

  lemma PaidStep(t: Tree, v: Frames, t1: Tree, v1: Frames, g: Tree, w: Frames, threads: set<nat>, c: nat, q: Va, e: Pte)
    requires Paid(t, v, t1, v1, threads, c, Rebuild(q)) && q.r == c && g.ptes == t1.ptes[q := e]
    requires g.node.Keys == t1.node.Keys + Ways({q})
    requires |Avail(w, threads)| + |g.node| == |Avail(v1, threads)| + |t1.node|
    ensures Paid(t, v, g, w, threads, c, Rebuild(q) + PAGE_SIZE)
  {
    hide Ways, Avail, PagesOf, Rebuild;
    PagesPlus(t1.ptes, c, q, e);
    WaysMore(PagesOf(t1.ptes, c), {q});
    Associates(t.node.Keys, Ways(PagesOf(t1.ptes, c)), Ways({q}));
  }

  lemma PagesPlus(ptes: map<Va, Pte>, c: nat, q: Va, e: Pte)
    requires q.r == c
    ensures PagesOf(ptes[q := e], c) == PagesOf(ptes, c) + {q}
  {
  }

  lemma Associates<T>(a: set<T>, b: set<T>, c: set<T>)
    ensures a + b + c == a + (b + c)
  {
  }

  /** Renaming the space loses no page. */
  lemma {:induction false} Renamed(s: set<Va>, c: nat, a: nat)
    requires forall x :: x in s ==> x.r == c
    ensures |set x | x in s :: x.(r := a)| == |s|
    decreases |s|
  {
    if s != {} {
      var y :| y in s;
      var rest := s - {y};
      Renamed(rest, c, a);
      var image := set x | x in rest :: x.(r := a);
      forall x | x in rest ensures x.(r := a) != y.(r := a) {
        assert x.(r := a).(r := c) == x && y.(r := a).(r := c) == y;
      }
      assert (set x | x in s :: x.(r := a)) == image + {y.(r := a)};
    }
  }

  /** The same place in another space. */
  ghost function Transposed(p: Pos, a: nat): Pos {
    if p.Root? then Root(a) else Child(Transposed(p.up, a), p.idx)
  }

  lemma {:induction false} MovedBack(p: Pos, a: nat)
    ensures Transposed(Transposed(p, a), p.Space()) == p
  {
    if p.Child? { MovedBack(p.up, a); }
  }

  ghost function AllTransposed(s: set<Pos>, a: nat): set<Pos> {
    set p | p in s :: Transposed(p, a)
  }

  lemma {:induction false} PlacesRenamed(s: set<Pos>, c: nat, a: nat)
    requires forall p :: p in s ==> p.Space() == c
    ensures |AllTransposed(s, a)| == |s|
    decreases |s|
  {
    hide Transposed;
    if s != {} {
      var y :| y in s;
      var rest := s - {y};
      PlacesRenamed(rest, c, a);
      forall p | p in rest ensures Transposed(p, a) != Transposed(y, a) {
        MovedBack(p, a);
        MovedBack(y, a);
      }
      assert Transposed(y, a) !in AllTransposed(rest, a);
      assert AllTransposed(s, a) == AllTransposed(rest, a) + {Transposed(y, a)};
    }
  }

  lemma WayRenamed(q: Va, a: nat, l: nat)
    requires 1 <= l <= 3
    ensures Transposed(q.Above(l), a) == q.(r := a).Above(l)
  {
    assert Transposed(Child(Root(q.r), q.a), a) == Child(Root(a), q.a);
    assert Transposed(Child(Child(Root(q.r), q.a), q.b), a) == Child(Child(Root(a), q.a), q.b);
  }

  function InSpace(s: set<Va>, a: nat): set<Va> {
    set x | x in s :: x.(r := a)
  }

  /** Another space needs as many tables for the same pages. */
  lemma WaysRenamed(s: set<Va>, c: nat, a: nat)
    requires forall x :: x in s ==> x.r == c
    ensures |Ways(InSpace(s, a))| == |Ways(s)|
  {
    hide Transposed;
    forall p | p in Ways(s) ensures p.Space() == c { WaySpace(s, c, p); }
    PlacesRenamed(Ways(s), c, a);
    forall p | p in Ways(InSpace(s, a)) ensures p in AllTransposed(Ways(s), a) {
      var y, l :| y in InSpace(s, a) && 1 <= l <= 3 && p == y.Above(l);
      var q :| q in s && y == q.(r := a);
      WayRenamed(q, a, l);
      assert q.Above(l) in Ways(s);
    }
    forall p | p in AllTransposed(Ways(s), a) ensures p in Ways(InSpace(s, a)) {
      var x :| x in Ways(s) && p == Transposed(x, a);
      var q, l :| q in s && 1 <= l <= 3 && x == q.Above(l);
      WayRenamed(q, a, l);
      assert q.(r := a) in InSpace(s, a);
    }
    assert Ways(InSpace(s, a)) == AllTransposed(Ways(s), a);
  }

  lemma WaySpace(s: set<Va>, c: nat, p: Pos)
    requires (forall x :: x in s ==> x.r == c) && p in Ways(s)
    ensures p.Space() == c && p.Child?
  {
    var q, l :| q in s && 1 <= l <= 3 && p == q.Above(l);
    AboveSpace(q, l);
  }

  /** Every copy has its original. */
  lemma CopiesBack(t: Tree, g: Tree, a: nat, c: nat)
    requires Cloning(t, g, a, c) && (forall x :: x in t.ptes ==> x.r != c)
    ensures InSpace(PagesOf(g.ptes, c), a) <= PagesOf(t.ptes, a)
  {
  }

  lemma RefsSplit(t: Tree, g: Tree, a: nat, c: nat, f: nat)
    requires Cloning(t, g, a, c) && (forall x :: x in t.ptes ==> x.r != c)
    ensures |Refs(g.ptes, f)| == |Refs(t.ptes, f)| + |RefsIn(g.ptes, c, f)|
  {
    assert Refs(g.ptes, f) == Refs(t.ptes, f) + RefsIn(g.ptes, c, f);
    assert Refs(t.ptes, f) !! RefsIn(g.ptes, c, f);
  }

  lemma CopiesRefs(t: Tree, g: Tree, a: nat, c: nat, f: nat)
    requires Cloning(t, g, a, c) && (forall x :: x in t.ptes ==> x.r != c)
    ensures InSpace(RefsIn(g.ptes, c, f), a) <= RefsIn(t.ptes, a, f)
    ensures |InSpace(RefsIn(g.ptes, c, f), a)| == |RefsIn(g.ptes, c, f)|
  {
    Renamed(RefsIn(g.ptes, c, f), c, a);
  }

  lemma Smaller<T>(a: set<T>, b: set<T>)
    requires a <= b
    ensures |a| <= |b|
  {
    assert b == a + (b - a);
  }

  /** The child's PML4 is the one page more. */
  lemma AfterPageDir(threads: set<nat>, v0: Frames, v: Frames, ptes: map<Va, Pte>, a: nat, c: nat)
    requires Pmm.RunAt(v0, threads, c, 1) && v == Pmm.Taken(v0, c, 1, Pmm.PageTable)
    ensures CannotClone(v, threads, ptes, a) <==> Uncloneable(0, v0, threads, ptes, a)
  {
    hide Overfull, PagesOf, Ways, Avail, Pmm.Taken, Pmm.RunAt;
    AvailTaken(v0, threads, c, Pmm.PageTable);
  }

  /** Whatever makes map_page refuse a copy is among the reasons known beforehand. */
  lemma CopyRefused(t: Tree, g: Tree, kernel: Table, v: Frames, w: Frames, threads: set<nat>, kt: set<nat>, a: nat,
                    c: nat, q: Va)
    requires Cloning(t, g, a, c) && (forall x :: x in t.ptes ==> x.r != c) && Linked(g, w, threads, kt)
    requires TreeInv(g, kernel)
    requires Paid(t, v, g, w, threads, c, Rebuild(q)) && q in t.ptes && q.r == a && q in g.ptes
    requires g.ptes[q] == t.ptes[q]
    requires q.(r := c) in g.ptes || !MapsBelow(g, w, threads, 0, q.(r := c), 4, t.ptes[q].frame)
    ensures CannotClone(v, threads, t.ptes, a)
  {
    hide TreeInv, Linked, Cloning, Avail, Refs, PagesOf, Lacking, RefsIn, Ways, Rebuild;
    RebuildSame(q, c);
    PteFacts(g, w, threads, kt, q);
    LackingIs(g, kernel, q.(r := c));
    if Acquirable(w, t.ptes[q].frame) {
      TablesShort(t, g, v, w, threads, a, c, q);
    } else {
      CountFull(t, g, a, c, q);
    }
  }

  lemma CountFull(t: Tree, g: Tree, a: nat, c: nat, q: Va)
    requires Cloning(t, g, a, c) && (forall x :: x in t.ptes ==> x.r != c)
    requires q in t.ptes && q.r == a && q.(r := c) !in g.ptes && |Refs(g.ptes, t.ptes[q].frame)| >= Pmm.UINT32_MAX
    ensures Overfull(t.ptes, a)
  {
    hide Cloning, Refs;
    var f := t.ptes[q].frame;
    RefsSplit(t, g, a, c, f);
    CopiesRefs(t, g, a, c, f);
    forall x | x in RefsIn(g.ptes, c, f) ensures x.(r := a) != q { assert x.(r := a).(r := c) == x; }
    Smaller(InSpace(RefsIn(g.ptes, c, f), a), RefsIn(t.ptes, a, f) - {q});
    assert |RefsIn(t.ptes, a, f) - {q}| == |RefsIn(t.ptes, a, f)| - 1;
  }

  lemma TablesShort(t: Tree, g: Tree, v: Frames, w: Frames, threads: set<nat>, a: nat, c: nat, q: Va)
    requires Cloning(t, g, a, c) && (forall x :: x in t.ptes ==> x.r != c) && q in t.ptes && q.r == a
    requires Paid(t, v, g, w, threads, c, Rebuild(q)) && |Avail(w, threads)| < |Ways({q.(r := c)}) - g.node.Keys|
    ensures |Avail(v, threads)| < |Ways(PagesOf(t.ptes, a))|
  {
    hide Cloning, Avail, Ways, Rebuild, PagesOf;
    var copies := PagesOf(g.ptes, c) + {q.(r := c)};
    PagesIn(g.ptes, c);
    WaysMore(PagesOf(g.ptes, c), {q.(r := c)});
    AddedUp(t.node.Keys, Ways(PagesOf(g.ptes, c)), Ways({q.(r := c)}));
    assert |t.node| == |t.node.Keys| && |g.node| == |g.node.Keys|;
    CopiesBack(t, g, a, c);
    assert InSpace(copies, a) <= PagesOf(t.ptes, a) by { PagesIn(t.ptes, a); }
    WaysRenamed(copies, c, a);
    WaysGrow(InSpace(copies, a), PagesOf(t.ptes, a));
  }

  lemma PagesIn(ptes: map<Va, Pte>, r: nat)
    ensures forall q :: q in PagesOf(ptes, r) <==> q in ptes && q.r == r
  {
  }

  lemma AddedUp(s: set<Pos>, x: set<Pos>, y: set<Pos>)
    ensures |s + x| + |y - (s + x)| <= |s| + |x + y|
  {
    assert s + x + (y - (s + x)) == s + (x + y);
    assert |s + x + (y - (s + x))| == |s + x| + |y - (s + x)|;
    assert s + (x + y) == s + ((x + y) - s);
    assert |s + ((x + y) - s)| == |s| + |(x + y) - s|;
    Smaller((x + y) - s, x + y);
  }

  lemma WaysGrow(a: set<Va>, b: set<Va>)
    requires a <= b
    ensures |Ways(a)| <= |Ways(b)|
  {
    Smaller(Ways(a), Ways(b));
  }

  /** A clone that went through could be paid for and counted. */
  lemma CloneAfforded(t: Tree, g: Tree, v: Frames, w: Frames, threads: set<nat>, kt: set<nat>, a: nat, c: nat,
                      bound: nat)
    requires Cloning(t, g, a, c) && (forall x :: x in t.ptes ==> x.r != c) && Linked(g, w, threads, kt)
    requires forall q :: q in t.ptes && q.r == a ==> q.(r := c) in g.ptes
    requires Paid(t, v, g, w, threads, c, bound) && (forall x :: x in t.node && x.Space() == c ==> x.Root?)
    requires forall f :: 0 <= f < |w| ==> w[f].refs <= Pmm.UINT32_MAX
    ensures !CannotClone(v, threads, t.ptes, a)
  {
    hide Linked, Cloning, Avail, Ways, PagesOf, Refs, RefsIn, Rebuild;
    AllCopied(t, g, a, c);
    PagesIn(g.ptes, c);
    WaysRenamed(PagesOf(g.ptes, c), c, a);
    forall p | p in Ways(PagesOf(g.ptes, c)) ensures p !in t.node { WaySpace(PagesOf(g.ptes, c), c, p); }
    assert |t.node.Keys + Ways(PagesOf(g.ptes, c))| == |t.node.Keys| + |Ways(PagesOf(g.ptes, c))|;
    assert |t.node| == |t.node.Keys| && |g.node| == |g.node.Keys|;
    forall f: nat ensures |Refs(t.ptes, f)| + |RefsIn(t.ptes, a, f)| <= Pmm.UINT32_MAX {
      RefsSplit(t, g, a, c, f);
      AllRefs(t, g, a, c, f);
      RefsBound(g, w, threads, kt, f);
    }
  }

  lemma AllCopied(t: Tree, g: Tree, a: nat, c: nat)
    requires Cloning(t, g, a, c) && (forall x :: x in t.ptes ==> x.r != c)
    requires forall q :: q in t.ptes && q.r == a ==> q.(r := c) in g.ptes
    ensures InSpace(PagesOf(g.ptes, c), a) == PagesOf(t.ptes, a)
  {
    CopiesBack(t, g, a, c);
    forall q | q in PagesOf(t.ptes, a) ensures q in InSpace(PagesOf(g.ptes, c), a) {
      assert q.(r := c) in PagesOf(g.ptes, c) && q.(r := c).(r := a) == q;
    }
  }

  lemma AllRefs(t: Tree, g: Tree, a: nat, c: nat, f: nat)
    requires Cloning(t, g, a, c) && (forall x :: x in t.ptes ==> x.r != c)
    requires forall q :: q in t.ptes && q.r == a ==> q.(r := c) in g.ptes
    ensures |RefsIn(t.ptes, a, f)| == |RefsIn(g.ptes, c, f)|
  {
    CopiesRefs(t, g, a, c, f);
    forall q | q in RefsIn(t.ptes, a, f) ensures q in InSpace(RefsIn(g.ptes, c, f), a) {
      var x := q.(r := c);
      assert x in g.ptes && x.(r := a) == q && x in RefsIn(g.ptes, c, f);
    }
    assert InSpace(RefsIn(g.ptes, c, f), a) == RefsIn(t.ptes, a, f);
  }

  lemma RefsBound(g: Tree, w: Frames, threads: set<nat>, kt: set<nat>, f: nat)
    requires Linked(g, w, threads, kt) && forall x :: 0 <= x < |w| ==> w[x].refs <= Pmm.UINT32_MAX
    ensures |Refs(g.ptes, f)| <= Pmm.UINT32_MAX
  {
    if Refs(g.ptes, f) != {} {
      var q :| q in Refs(g.ptes, f);
      assert UserPageOk(g.ptes, w, threads, f);
    }
  }

  lemma HasCopiesNone(t: Tree, g: Tree, c: nat, p: Pos)
    requires 1 <= p.Level() <= 4
    ensures HasCopies(t, g, c, p, 0)
  {
  }

  lemma HasCopiesLeaf(t: Tree, g1: Tree, g: Tree, c: nat, p: Pos, i: nat)
    requires p.InRange() && p.Level() == 1 && i < ENTRIES && HasCopies(t, g1, c, p, i)
    requires forall q :: q in g1.ptes ==> q in g.ptes
    requires PageAt(p, i) in t.ptes ==> PageAt(p, i).(r := c) in g.ptes
    ensures HasCopies(t, g, c, p, i + 1)
  {
    forall q | q in t.ptes && Through(q, p) && q.At(1) < i + 1 ensures q.(r := c) in g.ptes {
      if q.d == i { assert q == PageAt(p, i); }
    }
  }

  lemma HasCopiesTable(t: Tree, g1: Tree, g: Tree, c: nat, p: Pos, i: nat, kernel: Table)
    requires TreeInv(t, kernel) && 2 <= p.Level() <= 4 && HasCopies(t, g1, c, p, i)
    requires forall q :: q in g1.ptes ==> q in g.ptes
    requires Child(p, i) in t.node ==> HasCopies(t, g, c, Child(p, i), ENTRIES)
    ensures HasCopies(t, g, c, p, i + 1)
  {
    hide TreeInv;
    var level := p.Level();
    forall q | q in t.ptes && Through(q, p) && q.At(level) < i + 1 ensures q.(r := c) in g.ptes {
      if q.At(level) == i {
        AboveStep(q, level);
        PathPresent(t, kernel, q, level - 1);
        LeafRange(t, kernel, q);
      }
    }
  }

  /** The PTEs through slots of `p` below `i` are sealed, all others are as before. */
  ghost predicate SealedTo(t: Tree, g: Tree, p: Pos, i: nat)
    requires 1 <= p.Level() <= 4
  {
    && SamePlaces(t, g) && g.ptes.Keys == t.ptes.Keys
    && forall q :: q in t.ptes ==>
         g.ptes[q] == if Through(q, p) && q.At(p.Level()) < i then Seal(t.ptes[q]) else t.ptes[q]
  }

  lemma SealedNone(t: Tree, p: Pos)
    requires 1 <= p.Level() <= 4
    ensures SealedTo(t, t, p, 0)
  {
  }

  lemma SealedLeaf(t: Tree, g1: Tree, g: Tree, p: Pos, i: nat)
    requires p.InRange() && p.Level() == 1 && i < ENTRIES && SealedTo(t, g1, p, i) && SamePlaces(g1, g)
    requires g.ptes == if PageAt(p, i) in g1.ptes then g1.ptes[PageAt(p, i) := Seal(g1.ptes[PageAt(p, i)])] else g1.ptes
    ensures SealedTo(t, g, p, i + 1)
  {
    PageOf(p, i);
    forall q | q in t.ptes
      ensures g.ptes[q] == if Through(q, p) && q.At(1) < i + 1 then Seal(t.ptes[q]) else t.ptes[q]
    {
      if Through(q, p) && q.d == i { assert q == PageAt(p, i); }
    }
  }

  lemma SealedTable(t: Tree, g1: Tree, g: Tree, p: Pos, i: nat)
    requires 2 <= p.Level() <= 4 && i < p.Fan() && SealedTo(t, g1, p, i)
    requires SealedTo(g1, g, Child(p, i), ENTRIES)
    requires forall q :: q in t.ptes ==> q.InRange()
    ensures SealedTo(t, g, p, i + 1)
  {
    var level := p.Level();
    forall q | q in t.ptes
      ensures g.ptes[q] == if Through(q, p) && q.At(level) < i + 1 then Seal(t.ptes[q]) else t.ptes[q]
    {
      AboveStep(q, level);
      assert q.At(level - 1) < ENTRIES;
      assert Through(q, Child(p, i)) <==> Through(q, p) && q.At(level) == i;
      assert q in g1.ptes.Keys;
    }
  }

  lemma SealedSkip(t: Tree, g: Tree, kernel: Table, p: Pos, i: nat)
    requires TreeInv(t, kernel) && 2 <= p.Level() <= 4 && SealedTo(t, g, p, i) && Child(p, i) !in t.node
    ensures SealedTo(t, g, p, i + 1)
  {
    hide TreeInv;
    var level := p.Level();
    forall q | q in t.ptes
      ensures g.ptes[q] == if Through(q, p) && q.At(level) < i + 1 then Seal(t.ptes[q]) else t.ptes[q]
    {
      AboveStep(q, level);
      PathPresent(t, kernel, q, level - 1);
    }
  }

  lemma SealedPlaces(t: Tree, g: Tree, p: Pos, i: nat)
    requires 1 <= p.Level() <= 4 && SealedTo(t, g, p, i)
    ensures SamePlaces(t, g) && g.ptes.Keys == t.ptes.Keys
  {
  }

  lemma AllInRange(t: Tree, kernel: Table)
    requires TreeInv(t, kernel)
    ensures forall q :: q in t.ptes ==> q.InRange()
  {
  }

  // ------------------------------------------------------- outcomes of a clone

  lemma NoSpace(t: Tree, kernel: Table, c: nat)
    requires TreeInv(t, kernel) && c !in t.home
    ensures forall x :: x in t.node ==> x.Space() != c
    ensures forall q :: q in t.ptes ==> q.r != c
  {
    forall x | x in t.node ensures x.Space() != c { RootOf(t, kernel, x); }
    forall q | q in t.ptes ensures q.r != c {
      PathPresent(t, kernel, q, 4);
      RootFrame(t, kernel, q.r);
    }
  }

  lemma {:induction false} RootOf(t: Tree, kernel: Table, x: Pos)
    requires TreeInv(t, kernel) && x in t.node
    ensures x.Space() in t.home
  {
    PlacedFacts(t, kernel, x);
    if x.Child? { RootOf(t, kernel, x.up); } else { RootFrame(t, kernel, x.r); }
  }

  /** Positions and PTEs determine the tables, slot by slot. */
  lemma TreeDetermined(t: Tree, g: Tree, kernel: Table)
    requires TreeInv(t, kernel) && TreeInv(g, kernel)
    requires t.node == g.node && t.ptes == g.ptes
    ensures t == g
  {
    HomeDetermined(t, g);
    forall f | f in t.tables ensures t.tables[f] == g.tables[f] {
      assert f in t.tables.Keys;
      var p := t.home[f];
      LevelBound(p);
      forall i | 0 <= i < ENTRIES ensures t.tables[f][i] == g.tables[f][i] {
        TableDetermined(t, g, kernel, p, i);
      }
    }
    assert t.tables == g.tables;
  }

  lemma HomeDetermined(t: Tree, g: Tree)
    requires Placed(t) && Placed(g) && t.node == g.node
    ensures t.home == g.home && t.tables.Keys == g.tables.Keys
  {
    assert forall f :: f in t.home ==> f in g.home && g.home[f] == t.home[f];
    assert forall f :: f in g.home ==> f in t.home;
  }

  lemma TableDetermined(t: Tree, g: Tree, kernel: Table, p: Pos, i: nat)
    requires TreeInv(t, kernel) && TreeInv(g, kernel) && t.node == g.node && t.ptes == g.ptes
    requires p in t.node && i < ENTRIES
    ensures t.node[p] in t.tables && g.node[p] in g.tables
    ensures t.tables[t.node[p]][i] == g.tables[g.node[p]][i]
  {
    LevelBound(p);
    if p.Root? && i >= USER_ENTRIES {
      assert Root(p.r) in t.node && Root(p.r) in g.node;
      assert t.tables[t.node[Root(p.r)]][i] == kernel[i];
      assert g.tables[g.node[Root(p.r)]][i] == kernel[i];
    } else if p.Level() == 1 {
      PageOf(p, i);
      LeafOf(t, kernel, PageAt(p, i));
      LeafOf(g, kernel, PageAt(p, i));
    }
  }

  /** A clone that failed and was destroyed again left no trace. */
  lemma CloneUndone(t0: Tree, t: Tree, t1: Tree, g: Tree, kernel: Table, a: nat, c: nat)
    requires TreeInv(t0, kernel) && TreeInv(g, kernel) && c !in t0.home
    requires t == AddRoot(t0, c, kernel) && Cloning(t, t1, a, c) && SpaceGone(t1, g, c)
    ensures g == t0
  {
    hide TreeInv;
    NoSpace(t0, kernel, c);
    forall x ensures x in g.node <==> x in t0.node { }
    assert g.node == t0.node;
    assert g.ptes == t0.ptes;
    TreeDetermined(g, t0, kernel);
  }

  lemma FramesUndone(t0: Tree, v0: Frames, t: Tree, v: Frames, t1: Tree, v1: Frames, w: Frames,
                     threads: set<nat>, kt: set<nat>, a: nat, c: nat, kernel: Table)
    requires Linked(t0, v0, threads, kt) && Linked(t1, v1, threads, kt) && Linked(t0, w, threads, kt)
    requires Pmm.RunAt(v0, threads, c, 1) && v == Pmm.Taken(v0, c, 1, Pmm.PageTable)
    requires c !in t0.home && t == AddRoot(t0, c, kernel)
    requires Cloning(t, t1, a, c) && Spread(v, v1, t, t1) && Settled(v1, w, t1, t0)
    ensures SameFrames(w, v0)
  {
    hide Linked, Cloning, Spread, Settled;
    assert Pmm.Available(v0, threads, c);
    SpreadLength(v, v1, t, t1);
    forall x | 0 <= x < |v0| ensures |w| == |v0| && Alike(w[x], v0[x]) {
      FrameUndone(t0, v0, t, v, t1, v1, w, threads, kt, a, c, x);
    }
    LengthOf(v1, w, t1, t0);
  }

  lemma SpreadLength(v: Frames, w: Frames, t: Tree, g: Tree)
    requires Spread(v, w, t, g)
    ensures |w| == |v|
  {
  }

  lemma LengthOf(v: Frames, w: Frames, t: Tree, g: Tree)
    requires Settled(v, w, t, g)
    ensures |w| == |v|
  {
  }

  lemma FrameUndone(t0: Tree, v0: Frames, t: Tree, v: Frames, t1: Tree, v1: Frames, w: Frames,
                    threads: set<nat>, kt: set<nat>, a: nat, c: nat, x: nat)
    requires Linked(t0, v0, threads, kt) && Linked(t1, v1, threads, kt) && Linked(t0, w, threads, kt)
    requires Pmm.RunAt(v0, threads, c, 1) && v == Pmm.Taken(v0, c, 1, Pmm.PageTable) && x < |v0|
    requires c !in t0.home && t.home.Keys == t0.home.Keys + {c} && t.ptes == t0.ptes
    requires Cloning(t, t1, a, c) && Spread(v, v1, t, t1) && Settled(v1, w, t1, t0)
    ensures |w| == |v0| && Alike(w[x], v0[x])
  {
    assert Pmm.Available(v0, threads, c);
    assert SettledAt(v1, w, t1, t0, x);
    assert x in t.home ==> x in t1.home.Keys;
    if Pmm.UserAt(v0, x) {
      UserUndone(t0, v0, t, v, t1, v1, w, threads, kt, a, c, x);
    } else if x in t1.home {
      assert TablePage(v1, threads, x);
    }
  }

  lemma UserUndone(t0: Tree, v0: Frames, t: Tree, v: Frames, t1: Tree, v1: Frames, w: Frames,
                   threads: set<nat>, kt: set<nat>, a: nat, c: nat, x: nat)
    requires Linked(t0, v0, threads, kt) && Linked(t1, v1, threads, kt) && Linked(t0, w, threads, kt)
    requires c < |v0| && v == Pmm.Taken(v0, c, 1, Pmm.PageTable) && x != c && t.ptes == t0.ptes
    requires Pmm.UserAt(v0, x) && Cloning(t, t1, a, c) && Spread(v, v1, t, t1) && Settled(v1, w, t1, t0)
    ensures |w| == |v0| && Alike(w[x], v0[x])
  {
    hide Linked, Cloning, Refs;
    assert SettledAt(v1, w, t1, t0, x);
    SpreadUser(v, v1, t, t1, x);
    PageCounted(t0, v0, threads, kt, x);
    PageCounted(t1, v1, threads, kt, x);
    if |Refs(t1.ptes, x)| > 0 {
      PtesUser(t0, w, threads, kt);
      CopiesPoint(t, t1, w, a, c, x);
    }
    if Pmm.UserAt(w, x) { PageCounted(t0, w, threads, kt, x); }
  }

  lemma SpreadUser(v: Frames, w: Frames, t: Tree, g: Tree, x: nat)
    requires Spread(v, w, t, g) && Pmm.UserAt(v, x)
    ensures |w| == |v| && Pmm.UserAt(w, x) && w[x] == v[x].(refs := w[x].refs)
    ensures x in g.home ==> x in t.home
  {
  }

  lemma PageCounted(t: Tree, v: Frames, threads: set<nat>, kt: set<nat>, x: nat)
    requires Linked(t, v, threads, kt) && Pmm.UserAt(v, x)
    ensures v[x].refs == |Refs(t.ptes, x)| && x !in t.home
  {
    assert UserPageOk(t.ptes, v, threads, x);
    assert x in t.home ==> TablePage(v, threads, x);
  }

  lemma PtesUser(t: Tree, v: Frames, threads: set<nat>, kt: set<nat>)
    requires Linked(t, v, threads, kt)
    ensures forall q :: q in t.ptes ==> Pmm.UserAt(v, t.ptes[q].frame)
  {
  }

  /** A page some copy maps is mapped by the parent too. */
  lemma CopiesPoint(t: Tree, t1: Tree, w: Frames, a: nat, c: nat, x: nat)
    requires Cloning(t, t1, a, c) && |Refs(t1.ptes, x)| > 0
    requires forall q :: q in t.ptes ==> Pmm.UserAt(w, t.ptes[q].frame)
    ensures Pmm.UserAt(w, x)
  {
    var q :| q in Refs(t1.ptes, x);
    var q0 := if q in t.ptes then q else q.(r := a);
    assert t.ptes[q0].frame == x;
  }

  /** A clone that went through: both spaces hold the sealed PTEs. */
  lemma ClonePtes(t: Tree, t1: Tree, g: Tree, kernel: Table, a: nat, c: nat)
    requires TreeInv(t, kernel) && a != c && (forall q :: q in t.ptes ==> q.r != c)
    requires Cloning(t, t1, a, c) && HasCopies(t, t1, c, Root(a), USER_ENTRIES)
    requires SealedTo(t1, g, Root(a), USER_ENTRIES)
    requires forall q :: q in t1.ptes ==> q.InRange()
    ensures g.ptes == ForkPtes(t.ptes, a, c)
  {
    hide TreeInv, ForkPtes;
    AllInRange(t, kernel);
    forall q
      ensures q in g.ptes <==> q in ForkPtes(t.ptes, a, c)
      ensures q in g.ptes ==> g.ptes[q] == ForkPtes(t.ptes, a, c)[q]
    {
      ClonePteAt(t, t1, g, a, c, q);
    }
  }

  lemma ClonePteAt(t: Tree, t1: Tree, g: Tree, a: nat, c: nat, q: Va)
    requires a != c && (forall q :: q in t.ptes ==> q.r != c && q.InRange())
    requires Cloning(t, t1, a, c) && HasCopies(t, t1, c, Root(a), USER_ENTRIES)
    requires SealedTo(t1, g, Root(a), USER_ENTRIES)
    requires forall q :: q in t1.ptes ==> q.InRange()
    ensures q in g.ptes <==> q in ForkPtes(t.ptes, a, c)
    ensures q in g.ptes ==> g.ptes[q] == ForkPtes(t.ptes, a, c)[q]
  {
    hide ForkPtes;
    ForkKeys(t.ptes, a, c, q);
    assert q in g.ptes.Keys <==> q in t1.ptes.Keys;
    assert Through(q, Root(a)) <==> q.r == a;
    if q.r == c && q.(r := a) in t.ptes {
      var q0 := q.(r := a);
      assert Through(q0, Root(a)) && q0.At(4) < USER_ENTRIES && q0.(r := c) == q;
    }
  }

  lemma ClonePages(t: Tree, v: Frames, g: Tree, w: Frames, threads: set<nat>, kt: set<nat>, a: nat, c: nat)
    requires Linked(t, v, threads, kt) && Linked(g, w, threads, kt) && Spread(v, w, t, g)
    requires g.ptes == ForkPtes(t.ptes, a, c)
    ensures Abstract(g, w) == Fork(Abstract(t, v), a, c)
  {
    hide Linked, ForkPtes, Refs;
    forall x | 0 <= x < |v| ensures Pmm.UserAt(w, x) <==> Pmm.UserAt(v, x) {
      if Pmm.UserAt(v, x) { SpreadUser(v, w, t, g, x); }
      if Pmm.UserAt(w, x) { PageCounted(g, w, threads, kt, x); }
    }
    forall x: nat | Pmm.UserAt(w, x) ensures w[x].refs == |Refs(g.ptes, x)| && w[x].bytes == v[x].bytes {
      SpreadUser(v, w, t, g, x);
      PageCounted(g, w, threads, kt, x);
    }
  }

  /** Taking the page for the child's PML4 is invisible to the user pages. */
  lemma TakenPages(v: Frames, threads: set<nat>, c: nat)
    requires Pmm.RunAt(v, threads, c, 1)
    ensures UserPages(Pmm.Taken(v, c, 1, Pmm.PageTable)) == UserPages(v)
  {
    assert Pmm.Available(v, threads, c);
  }

  /** The child's PML4 is new: no table and no page of its space existed. */
  lemma ChildSpace(t0: Tree, t: Tree, v0: Frames, v: Frames, kernel: Table, threads: set<nat>, kt: set<nat>,
                   a: nat, c: nat)
    requires TreeInv(t0, kernel) && TreeInv(t, kernel) && Linked(t, v, threads, kt) && Root(a) in t0.node
    requires c != 0 && c !in t0.home && t == AddRoot(t0, c, kernel)
    ensures c != a && c != BOOT_KERNEL_PML4 && Root(a) in t.node && t.node[Root(a)] == a && Root(c) in t.node
    ensures Root(a).Level() == 4 && Root(a).Space() == a && Root(a).InRange() && Base(Root(a)) == 0
    ensures (forall q :: q in t.ptes ==> q.r != c) && (forall x :: x in t.node && x.Space() == c ==> x.Root?)
    ensures t.ptes == t0.ptes && (Tight(t0) ==> Tight(t))
  {
    NoSpace(t0, kernel, c);
    RootFrame(t0, kernel, a);
    PlacedFacts(t0, kernel, Root(a));
    assert TablePage(v, threads, c);
    forall x | x in t0.node && x.Child? && NonEmpty(t0, x) ensures NonEmpty(t, x) {
      StillBelow(t0, t, kernel, x);
    }
  }

  lemma CloneDone(t0: Tree, v0: Frames, t: Tree, v: Frames, t1: Tree, g: Tree, w: Frames, kernel: Table,
                  threads: set<nat>, kt: set<nat>, a: nat, c: nat)
    requires TreeInv(t0, kernel) && TreeInv(t, kernel) && TreeInv(t1, kernel) && TreeInv(g, kernel)
    requires Linked(t, v, threads, kt) && Linked(g, w, threads, kt) && Pmm.RunAt(v0, threads, c, 1)
    requires t == AddRoot(t0, c, kernel) && v == Pmm.Taken(v0, c, 1, Pmm.PageTable)
    requires a != c && (forall q :: q in t.ptes ==> q.r != c)
    requires Cloning(t, t1, a, c) && HasCopies(t, t1, c, Root(a), USER_ENTRIES) && Spread(v, w, t, t1)
    requires SealedTo(t1, g, Root(a), USER_ENTRIES)
    ensures Root(c) in g.node && (forall x :: x in g.node && x !in t0.node ==> x.Space() == c)
    ensures forall x :: x in t0.node ==> x in g.node
    ensures g.ptes == ForkPtes(t0.ptes, a, c) && Abstract(g, w) == Fork(Abstract(t0, v0), a, c)
    ensures Tight(t1) ==> Tight(g)
  {
    hide TreeInv, Linked, HasCopies, Spread, ForkPtes, Fork, UserPages, Pmm.Taken, Pmm.RunAt;
    AllInRange(t1, kernel);
    ClonePtes(t, t1, g, kernel, a, c);
    TakenPages(v0, threads, c);
    SpreadPlaces(v, w, t, t1, g);
    ClonePages(t, v, g, w, threads, kt, a, c);
    if Tight(t1) { TightSame(t1, g, kernel); }
  }

  lemma SpreadPlaces(v: Frames, w: Frames, t: Tree, t1: Tree, g: Tree)
    requires Spread(v, w, t, t1) && t1.home == g.home
    ensures Spread(v, w, t, g)
  {
  }

  class AddressSpaces {
    const pmm: Pmm.PageMap
    const kernel: Table                  // the boot PML4
    ghost const kernelTables: set<nat>   // table pages of the direct map
    var tables: map<nat, Table>
    ghost var tree: Tree

    ghost predicate Valid()
      reads this, pmm, pmm.bits, pmm.reservedBits, pmm.owners, pmm.refcounts, pmm.mem
    {
      && pmm.Valid() && pmm.ready
      && tables == tree.tables
      && TreeInv(tree, kernel)
      && Linked(tree, pmm.view, pmm.threads, kernelTables)
    }

    /** No address space yet: the only page-table pages are the direct map's. */
    constructor (pmm: Pmm.PageMap, kernel: Table, ghost kernelTables: set<nat>)
      requires pmm.Valid() && pmm.ready
      requires Linked(Tree(map[], map[], map[], map[]), pmm.view, pmm.threads, kernelTables)
      ensures Valid() && this.pmm == pmm && this.kernel == kernel && this.kernelTables == kernelTables
      ensures tree == Tree(map[], map[], map[], map[])
    {
      this.pmm, this.kernel, this.kernelTables := pmm, kernel, kernelTables;
      tables := map[];
      tree := Tree(map[], map[], map[], map[]);
    }

    /** pmm_acquire_user_mapping of a page that is known to accept it. */
    method TakeRef(f: nat)
      requires pmm.Valid() && pmm.ready && Acquirable(pmm.view, f)
      modifies pmm`view, pmm.refcounts
      ensures pmm.Valid() && f < |old(pmm.view)| && pmm.view == Pmm.Acquired(old(pmm.view), f)
    {
      FrameAddress(f);
      var r := pmm.Acquire(f * PAGE_SIZE);
      assert r == 0;
    }

    /** pmm_release_user_mapping of a page that has a reference. */
    method GiveRef(f: nat)
      requires pmm.Valid() && pmm.ready && f != 0 && Pmm.UserAt(pmm.view, f) && pmm.view[f].refs > 0
      modifies pmm`view, pmm.bits, pmm.owners, pmm.refcounts, pmm.mem
      ensures pmm.Valid() && pmm.view == Pmm.Released(old(pmm.view), f)
    {
      FrameAddress(f);
      var r := pmm.Release(f * PAGE_SIZE);
      assert r == 0;
    }

    /** alloc_page_owned, as a frame number. */
    method TakePage(owner: Pmm.Owner) returns (page: nat)
      requires pmm.Valid() && pmm.ready && owner !in {Pmm.Free, Pmm.Reserved} && |pmm.view| > 0 && pmm.view[0].reserved
      modifies pmm`view, pmm`failAllocations, pmm.bits, pmm.owners, pmm.refcounts
      ensures pmm.Valid() && pmm.failAllocations <= old(pmm.failAllocations)
      ensures page == 0 <==> NoPage(old(pmm.failAllocations), old(pmm.view), pmm.threads)
      ensures page == 0 ==> pmm.view == old(pmm.view)
      ensures page != 0 ==>
        Pmm.RunAt(old(pmm.view), pmm.threads, page, 1) && pmm.view == Pmm.Taken(old(pmm.view), page, 1, owner)
    {
      hide Pmm.PageMap.Valid, Avail, Pmm.Taken, Pmm.RunAt, NoPage;
      NoPageIff(pmm.failAllocations, pmm.view, pmm.threads);
      var paddr := pmm.AllocPages(1, owner);
      page := paddr / PAGE_SIZE;
    }

    // ------------------------------------------------------------ table pages

    /** One level of map_page: follow slot `i`, or hang a zeroed page-table page
        into it. `child` is 0 when no page could be had. */
    method EnsureTable(ghost p: Pos, at: nat, i: nat) returns (child: nat, created: bool)
      requires Valid() && p in tree.node && tree.node[p] == at && p.Level() >= 2 && i < p.Fan()
      modifies this`tables, this`tree, pmm`view, pmm`failAllocations, pmm.bits, pmm.owners, pmm.refcounts
      ensures Valid()
      ensures child == 0 ==> !created && Child(p, i) !in tree.node
      ensures !created ==> tree == old(tree) && pmm.view == old(pmm.view)
      ensures child != 0 ==> Child(p, i) in tree.node && tree.node[Child(p, i)] == child
      ensures created ==> child !in old(tree.home) && Child(p, i) !in old(tree.node)
      ensures created ==> Pmm.RunAt(old(pmm.view), pmm.threads, child, 1)
      ensures created ==> tree == Grow(old(tree), p, i, child)
      ensures created ==> pmm.view == Pmm.Taken(old(pmm.view), child, 1, Pmm.PageTable)
      ensures child == 0 <==>
        Child(p, i) !in old(tree.node) && (old(pmm.failAllocations) != 0 || Avail(old(pmm.view), pmm.threads) == {})
      ensures !created && child != 0 ==>
        Child(p, i) in old(tree.node) && pmm.failAllocations == old(pmm.failAllocations)
      ensures pmm.failAllocations <= old(pmm.failAllocations)
    {
      hide TreeInv, Linked, Pmm.RunAt, Pmm.Taken, Avail;
      SlotOf(tree, kernel, p, i);
      PageZero(tree, pmm.view, pmm.threads, kernelTables);
      var e := tables[at][i];
      if e.p {
        PlacedFacts(tree, kernel, Child(p, i));
        TableFreeable(tree, pmm.view, pmm.threads, kernelTables, e.frame);
        return e.frame, false;
      }
      NoRun(pmm.view, pmm.threads);
      var paddr := pmm.AllocPages(1, Pmm.PageTable);
      if paddr == 0 { return 0, false; }
      child, created := paddr / PAGE_SIZE, true;
      Untaken(tree, old(pmm.view), pmm.threads, kernelTables, child);
      GrowKeeps(tree, kernel, p, i, child);
      TakeTable(tree, Grow(tree, p, i, child), old(pmm.view), pmm.threads, kernelTables, child);
      tables := tables[at := tables[at][i := TableEntry(child)]][child := EmptyTable()];
      tree := Grow(tree, p, i, child);
    }

    /** Clear slot `i` and give the empty table page below it back. */
    method RemoveTable(ghost p: Pos, at: nat, i: nat, child: nat)
      requires Valid() && p in tree.node && p.Child? && !NonEmpty(tree, p)
      requires p.up in tree.node && tree.node[p.up] == at && p.idx == i && tree.node[p] == child && i < ENTRIES
      modifies this`tables, this`tree, pmm`view, pmm.bits, pmm.owners, pmm.refcounts, pmm.mem
      ensures Valid()
      ensures at in old(tree.tables) && tree == Prune(old(tree), p)
      ensures pmm.view == Pmm.Freed(old(pmm.view), child, 1)
    {
      hide TreeInv, Linked, NonEmpty, Pmm.Freed, Pmm.Freeable;
      PruneKeeps(tree, kernel, p);
      PlacedFacts(tree, kernel, p);
      PlacedFacts(tree, kernel, p.up);
      TableFreeable(tree, pmm.view, pmm.threads, kernelTables, child);
      DropTable(tree, Prune(tree, p), pmm.view, pmm.threads, kernelTables, child);
      tables := tables[at := tables[at][i := NONE]];
      pmm.FreeFrame(child, Pmm.PageTable);
      tables := tables - {child};
      tree := Prune(tree, p);
    }

    // -------------------------------------------------------------- map_page

    /** The last step of map_page: the PTE is written first and taken back if the
        page cannot be referenced. */
    method InstallLeaf(q: Va, at: nat, e: Pte) returns (r: int)
      requires Valid() && q.InRange() && q.Pt() in tree.node && tree.node[q.Pt()] == at
      modifies this`tables, this`tree, pmm`view, pmm.refcounts
      ensures Valid()
      ensures r == 0 || r == -1 || r == -2
      ensures r == -2 <==> q in old(tree.ptes)
      ensures r != 0 ==> tree == old(tree) && pmm.view == old(pmm.view)
      ensures r == -1 ==> !Acquirable(old(pmm.view), e.frame)
      ensures r == 0 ==> Acquirable(old(pmm.view), e.frame) && pmm.view == Pmm.Acquired(old(pmm.view), e.frame)
      ensures r == 0 ==> at in old(tree.tables) && tree == SetLeaf(old(tree), q, e)
    {
      hide TreeInv, Linked;
      LeafOf(tree, kernel, q);
      if tables[at][q.d].p { return -2; }
      tables := tables[at := tables[at][q.d := LeafEntry(e)]];
      r := pmm.Acquire(e.frame * PAGE_SIZE);
      if r != 0 {
        tables := tables[at := tables[at][q.d := NONE]];
        assert old(tables)[at][q.d := LeafEntry(e)][q.d := NONE] == old(tables)[at];
        assert tables == old(tables);
        return -1;
      }
      SetLeafKeeps(tree, kernel, q, e);
      AddPte(tree, SetLeaf(tree, q, e), old(pmm.view), pmm.threads, kernelTables, q, e);
      tree := SetLeaf(tree, q, e);
    }

    /** Take away a table that was created and is still empty: everything is as it
        was before it was created. */
    method UndoTable(ghost t: Tree, ghost v: Frames, ghost p: Pos, at: nat, i: nat, child: nat)
      requires Valid() && TreeInv(t, kernel) && Linked(t, v, pmm.threads, kernelTables)
      requires p in t.node && t.node[p] == at && p.Level() >= 2 && i < p.Fan()
      requires child !in t.home && Child(p, i) !in t.node && Pmm.RunAt(v, pmm.threads, child, 1)
      requires at in t.tables && tree == Grow(t, p, i, child)
      requires SameFrames(pmm.view, Pmm.Taken(v, child, 1, Pmm.PageTable))
      modifies this`tables, this`tree, pmm`view, pmm.bits, pmm.owners, pmm.refcounts, pmm.mem
      ensures Valid() && tree == t && SameFrames(pmm.view, v)
    {
      hide TreeInv, Linked, Pmm.RunAt, Pmm.Taken, Pmm.Freed, SameFrames, Pmm.PageMap.Valid, Grow, Prune, NonEmpty;
      PlacedOf(t, kernel);
      GrownEmpty(t, p, i, child);
      GrowThenPrune(t, p, i, child);
      CleanOf(t, v, pmm.threads, kernelTables);
      UndoTaken(v, pmm.view, pmm.threads, child);
      RemoveTable(Child(p, i), at, i, child);
    }

    /** One step of map_page down to the next table, which is made if it is missing. */
    method Descend(q: Va, level: nat, at: nat, ghost f: nat) returns (child: nat, created: bool)
      requires Valid() && q.InRange() && 2 <= level <= 4
      requires q.Above(level) in tree.node && tree.node[q.Above(level)] == at
      modifies this`tables, this`tree, pmm`view, pmm`failAllocations, pmm.bits, pmm.owners, pmm.refcounts
      ensures Valid() && pmm.failAllocations <= old(pmm.failAllocations) && tree.ptes == old(tree.ptes)
      ensures !created ==> tree == old(tree) && pmm.view == old(pmm.view)
      ensures child == 0 ==> !created && q !in tree.ptes
      ensures child == 0 ==> !MapsBelow(old(tree), old(pmm.view), pmm.threads, old(pmm.failAllocations), q, level, f)
      ensures child != 0 ==> q.Above(level - 1) in tree.node && tree.node[q.Above(level - 1)] == child
      ensures child != 0 ==>
        (MapsBelow(old(tree), old(pmm.view), pmm.threads, old(pmm.failAllocations), q, level, f) <==>
         MapsBelow(tree, pmm.view, pmm.threads, pmm.failAllocations, q, level - 1, f))
      ensures created ==> Made(old(tree), old(pmm.view), pmm.threads, tree, pmm.view, q, level, child)
    {
      hide TreeInv, Linked, Pmm.RunAt, Pmm.Taken, Acquirable, Avail, Pmm.PageMap.Valid, Grow, Va.Above, Va.At,
        MapsBelow, Lacking, Placed, Upper, NonEmpty, Made;
      ghost var t0, v0, n0 := tree, pmm.view, pmm.failAllocations;
      PlacedOf(t0, kernel);
      MapsStep(t0, v0, pmm.threads, n0, q, level, f);
      StepDown(q, level);
      PlacedFacts(tree, kernel, q.Above(level));
      if q in t0.ptes { PathPresent(t0, kernel, q, level - 1); }
      child, created := EnsureTable(q.Above(level), at, q.At(level));
      if created {
        assert n0 == 0 && pmm.failAllocations == 0;
        assert Made(t0, v0, pmm.threads, tree, pmm.view, q, level, child) by {
          MadeOf(t0, v0, pmm.threads, tree, pmm.view, q, level, child);
        }
        MadeNow(t0, v0, pmm.threads, tree, pmm.view, q, level, child, f);
      } else if child != 0 {
        assert tree == t0 && pmm.view == v0 && pmm.failAllocations == n0 && q.Above(level - 1) in t0.node;
      }
    }

    /** map_page from the table of the given level down. The source writes the three
        levels out; each takes its own new table away again if a lower one fails. */
    method MapBelow(q: Va, level: nat, at: nat, e: Pte) returns (r: int)
      requires Valid() && q.InRange() && 1 <= level <= 4
      requires q.Above(level) in tree.node && tree.node[q.Above(level)] == at
      modifies this`tables, this`tree, pmm`view, pmm`failAllocations, pmm.bits, pmm.owners, pmm.refcounts, pmm.mem
      ensures Valid()
      ensures r == 0 || r == -1 || r == -2
      ensures r == -2 <==> q in old(tree.ptes)
      ensures r != 0 ==> tree == old(tree) && SameFrames(pmm.view, old(pmm.view))
      ensures r == -1 <==>
        q !in old(tree.ptes) &&
        !MapsBelow(old(tree), old(pmm.view), pmm.threads, old(pmm.failAllocations), q, level, e.frame)
      ensures r == 0 ==> Acquirable(old(pmm.view), e.frame)
      ensures r == 0 ==> tree.ptes == old(tree.ptes)[q := e] && Extends(old(tree), tree, q)
      ensures r == 0 ==> Mapped(old(pmm.view), pmm.view, old(tree), tree, e.frame)
      ensures pmm.failAllocations <= old(pmm.failAllocations)
      decreases level
    {
      hide TreeInv, Linked, Pmm.RunAt, Pmm.Taken, Pmm.Freed, Acquirable, Avail, Extends, Mapped, SameFrames,
        Pmm.PageMap.Valid, Grow, Prune, NonEmpty, Va.Above, Va.At, MapsBelow, Lacking, Made;
      ghost var t0, v0 := tree, pmm.view;
      PlacedOf(t0, kernel);
      SameRefl(v0);
      if level == 1 {
        AboveOne(q);
        MapsStep(t0, v0, pmm.threads, pmm.failAllocations, q, level, e.frame);
        r := InstallLeaf(q, at, e);
        if r == 0 {
          AcquirableFits(v0, e.frame);
          LeafInstalled(t0, v0, q, e);
        }
        return;
      }
      var child, created := Descend(q, level, at, e.frame);
      if child == 0 { return -1; }
      ghost var t1, v1 := tree, pmm.view;
      r := MapBelow(q, level - 1, child, e);
      if created {
        MadeFacts(t0, v0, pmm.threads, t1, v1, q, level, child, e.frame);
        if r == 0 {
          MadeThenMapped(t0, v0, t1, v1, tree, pmm.view, pmm.threads, q, level, child, e.frame);
        } else {
          UndoTable(t0, v0, q.Above(level), at, q.At(level), child);
        }
      }
    }

    /** map_page of a user page: all of it happens, or nothing does. */
    method MapPage(r: nat, vaddr: nat, paddr: nat, rw: bool, cow: bool) returns (res: int)
      requires Valid() && vaddr < USER_TOP && (r == 0 || Root(r) in tree.node)
      modifies this`tables, this`tree, pmm`view, pmm`failAllocations, pmm.bits, pmm.owners, pmm.refcounts, pmm.mem
      ensures Valid()
      ensures res == 0 || res == -1 || res == -2
      ensures res != 0 ==> tree == old(tree) && SameFrames(pmm.view, old(pmm.view))
      ensures res == -2 <==> r != 0 && vaddr % PAGE_SIZE == 0 && paddr % PAGE_SIZE == 0 &&
                             Split(r, vaddr) in old(tree.ptes)
      ensures res == -1 <==>
        || r == 0 || vaddr % PAGE_SIZE != 0 || paddr % PAGE_SIZE != 0
        || (Split(r, vaddr) !in old(tree.ptes) &&
            !MapsBelow(old(tree), old(pmm.view), pmm.threads, old(pmm.failAllocations), Split(r, vaddr), 4,
                       paddr / PAGE_SIZE))
      ensures res == 0 ==> r != 0 && vaddr % PAGE_SIZE == 0 && paddr % PAGE_SIZE == 0
      ensures res == 0 ==> Acquirable(old(pmm.view), paddr / PAGE_SIZE)
      ensures res == 0 ==> tree.ptes == old(tree.ptes)[Split(r, vaddr) := Pte(paddr / PAGE_SIZE, rw, cow)]
      ensures res == 0 ==> Extends(old(tree), tree, Split(r, vaddr))
      ensures res == 0 ==> Mapped(old(pmm.view), pmm.view, old(tree), tree, paddr / PAGE_SIZE)
      ensures res == 0 && old(Tight(tree)) ==> Tight(tree)
      ensures res == 0 ==> tree.node.Keys == old(tree.node.Keys) + Ways({Split(r, vaddr)})
      ensures res == 0 ==>
        |Avail(pmm.view, pmm.threads)| + |tree.node| == |Avail(old(pmm.view), pmm.threads)| + |old(tree.node)|
      ensures pmm.failAllocations <= old(pmm.failAllocations)
      ensures Others(pmm.view) == old(Others(pmm.view)) && Roots(tree) == old(Roots(tree))
    {
      hide TreeInv, Linked, Acquirable, Avail, Extends, Mapped, SameFrames, Tight, Pmm.PageMap.Valid, Others, Roots,
        Ways;
      SameRefl(pmm.view);
      if r == 0 { return -1; }
      if vaddr % PAGE_SIZE != 0 || paddr % PAGE_SIZE != 0 { return -1; }
      var q := Split(r, vaddr);
      SplitInRange(r, vaddr);
      RootFrame(tree, kernel, r);
      res := MapBelow(q, 4, r, Pte(paddr / PAGE_SIZE, rw, cow));
      if res == 0 {
        AvailMapped(old(tree), tree, kernel, old(pmm.view), pmm.view, pmm.threads, kernelTables, q, paddr / PAGE_SIZE);
        WayMade(old(tree), tree, kernel, q);
        OthersMapped(old(tree), tree, old(pmm.view), pmm.view, pmm.threads, kernelTables, paddr / PAGE_SIZE);
        RootsExtended(old(tree), tree, q);
      } else {
        OthersAlike(old(pmm.view), pmm.view);
      }
      if res == 0 && old(Tight(tree)) {
        TightAfter(old(tree), tree, kernel, q);
      }
    }

    // ------------------------------------------------------- lookup and unmap

    /** Follow the present entries from the PML4 to the table of the given level. */
    method Walk(q: Va, level: nat) returns (f: nat)
      requires Valid() && q.InRange() && 1 <= level <= 4 && q.Above(level) in tree.node
      ensures f == tree.node[q.Above(level)]
      decreases 4 - level
    {
      hide TreeInv, Linked, Pmm.PageMap.Valid;
      if level == 4 {
        RootFrame(tree, kernel, q.r);
        return q.r;
      }
      StepDown(q, level + 1);
      PlacedFacts(tree, kernel, q.Above(level));
      var up := Walk(q, level + 1);
      SlotOf(tree, kernel, q.Above(level + 1), q.At(level + 1));
      f := tables[up][q.At(level + 1)].frame;
    }

    /** get_user_pte: the PT slot of a page, if all three upper tables are there. */
    method GetUserPte(r: nat, vaddr: nat) returns (found: bool, pt: nat, e: Entry)
      requires Valid() && vaddr < USER_TOP && (r == 0 || Root(r) in tree.node)
      ensures found <==> r != 0 && vaddr % PAGE_SIZE == 0 && Split(r, vaddr).Pt() in tree.node
      ensures found ==> pt == tree.node[Split(r, vaddr).Pt()]
      ensures found ==> e == if Split(r, vaddr) in tree.ptes then LeafEntry(tree.ptes[Split(r, vaddr)]) else NONE
      ensures r != 0 && vaddr % PAGE_SIZE == 0 && Split(r, vaddr) in tree.ptes ==> found
    {
      hide TreeInv, Linked, Pmm.PageMap.Valid;
      found, pt, e := false, 0, NONE;
      if r == 0 || vaddr % PAGE_SIZE != 0 { return; }
      var q := Split(r, vaddr);
      SplitInRange(r, vaddr);
      PathOrNot(tree, kernel, q);
      var pml4e := tables[r][q.a];
      if !pml4e.p { return; }
      var pdpte := tables[pml4e.frame][q.b];
      if !pdpte.p || pdpte.ps { return; }
      var pde := tables[pdpte.frame][q.c];
      if !pde.p || pde.ps { return; }
      LeafOf(tree, kernel, q);
      return true, pde.frame, tables[pde.frame][q.d];
    }

    /** The scan of one table for a present entry. */
    method IsEmpty(ghost p: Pos, at: nat) returns (empty: bool)
      requires Valid() && p in tree.node && tree.node[p] == at
      ensures empty <==> !NonEmpty(tree, p)
    {
      hide TreeInv, Linked, Pmm.PageMap.Valid;
      PlacedFacts(tree, kernel, p);
      for i := 0 to ENTRIES
        invariant forall j :: 0 <= j < i ==> !tables[at][j].p
      {
        if tables[at][i].p { return false; }
      }
      return true;
    }

    /** The tail of unmap_user_page: free the PT if it became empty, then the PD,
        then the PDPT; the PML4 stays. */
    method PruneUp(q: Va, level: nat)
      requires Valid() && q.InRange() && 1 <= level <= 4 && q.Above(level) in tree.node
      modifies this`tables, this`tree, pmm`view, pmm.bits, pmm.owners, pmm.refcounts, pmm.mem
      ensures Valid() && tree.ptes == old(tree.ptes)
      ensures Shrinks(old(tree), tree, q) && Pruned(old(pmm.view), pmm.view, old(tree), tree)
      ensures old(TightBut(tree, q.Above(level))) ==> Tight(tree)
      decreases 4 - level
    {
      hide TreeInv, Linked, NonEmpty, Shrinks, Pruned, Tight, TightBut, Pmm.PageMap.Valid, Pmm.Freed, Placed, Refs;
      ghost var p, t, v := q.Above(level), tree, pmm.view;
      ShrinkRefl(t, v, q);
      TightAtLast(t, p);
      if level == 4 { return; }
      var f := Walk(q, level);
      var empty := IsEmpty(p, f);
      if !empty { return; }
      StepDown(q, level + 1);
      PlacedFacts(t, kernel, p);
      PlacedOf(t, kernel);
      TableFreeable(t, v, pmm.threads, kernelTables, f);
      var up := Walk(q, level + 1);
      RemoveTable(p, up, q.At(level + 1), f);
      PlacedFacts(t, kernel, p.up);
      if TightBut(t, p) { PruneTight(t, kernel, p); }
      ghost var g := tree;
      PruneUp(q, level + 1);
      PruneShrinks(t, g, tree, q, p);
      ShrunkHome(g, tree, q);
      PruneBlanks(t, g, tree, v, pmm.view, f);
    }

    ghost function Abs(): State
      reads this, pmm
    {
      Abstract(tree, pmm.view)
    }

    /** Clear a present PTE and drop its reference. */
    method ClearPte(ghost q: Va, pt: nat, i: nat, f: nat)
      requires Valid() && q in tree.ptes && q.Pt() in tree.node && pt == tree.node[q.Pt()]
      requires i == q.d && f == tree.ptes[q].frame
      modifies this`tables, this`tree, pmm`view, pmm.bits, pmm.owners, pmm.refcounts, pmm.mem
      ensures Valid() && q.InRange() && pt in old(tree.tables)
      ensures tree == ClearLeaf(old(tree), q)
      ensures f < |old(pmm.view)| && old(pmm.view)[f].refs > 0
      ensures pmm.view == Pmm.Released(old(pmm.view), f)
      ensures old(Tight(tree)) ==> TightBut(tree, q.Pt())
    {
      hide TreeInv, Linked, Tight, TightBut, Pmm.PageMap.Valid, Pmm.Released, Placed, Upper, Refs, ClearLeaf,
        Pmm.UserAt;
      ghost var t, v := tree, pmm.view;
      LeafRange(t, kernel, q);
      PlacedOf(t, kernel);
      PlacedFacts(t, kernel, q.Pt());
      PteFacts(t, v, pmm.threads, kernelTables, q);
      ClearLeafKeeps(t, kernel, q);
      ClearedTables(t, q);
      DelPte(t, ClearLeaf(t, q), v, pmm.threads, kernelTables, q);
      if Tight(t) { ClearTight(t, q); }
      tables := tables[pt := tables[pt][i := NONE]];
      GiveRef(f);
      tree := ClearLeaf(t, q);
    }

    /** unmap_user_page of a user-owned page. It succeeds exactly on a mapped page. */
    method UnmapUserPage(r: nat, vaddr: nat) returns (res: int)
      requires Valid() && vaddr < USER_TOP && (r == 0 || Root(r) in tree.node)
      modifies this`tables, this`tree, pmm`view, pmm.bits, pmm.owners, pmm.refcounts, pmm.mem
      ensures Valid()
      ensures res == 0 || res == -1
      ensures res == 0 <==> r != 0 && vaddr % PAGE_SIZE == 0 && Split(r, vaddr) in old(tree.ptes)
      ensures res != 0 ==> tree == old(tree) && pmm.view == old(pmm.view)
      ensures res == 0 ==> tree.ptes == old(tree.ptes) - {Split(r, vaddr)}
      ensures res == 0 ==> Shrinks(old(tree), tree, Split(r, vaddr))
      ensures res == 0 ==>
        && var f := old(tree.ptes)[Split(r, vaddr)].frame;
        && f < |old(pmm.view)| && old(pmm.view)[f].refs > 0
        && Pruned(Pmm.Released(old(pmm.view), f), pmm.view, old(tree), tree)
        && f in UserPages(old(pmm.view)) && UserPages(old(pmm.view))[f].refs > 0
      ensures res == 0 ==> Abs() == Unmap(old(Abs()), Split(r, vaddr))
      ensures res == 0 && old(Tight(tree)) ==> Tight(tree)
      ensures Others(pmm.view) == old(Others(pmm.view)) && Roots(tree) == old(Roots(tree))
    {
      hide TreeInv, Linked, Shrinks, Pruned, Tight, TightBut, Pmm.PageMap.Valid, UserPages, Pmm.Released, Others,
        Roots;
      ghost var t, v := tree, pmm.view;
      if vaddr % PAGE_SIZE != 0 { return -1; }
      var found, pt, e := GetUserPte(r, vaddr);
      if !found || !e.p || !e.us { return -1; }
      var q := Split(r, vaddr);
      SplitInRange(r, vaddr);
      LeafOf(t, kernel, q);
      ClearPte(q, pt, q.d, e.frame);
      ghost var t1 := tree;
      PruneUp(q, 1);
      UnmapSummary(t, v, t1, tree, pmm.view, pmm.threads, kernelTables, q);
      PteFacts(t, v, pmm.threads, kernelTables, q);
      OthersPruned(t, tree, v, pmm.view, pmm.threads, kernelTables, t.ptes[q].frame);
      RootsShrunk(t, tree, q);
      return 0;
    }

    // --------------------------------------------------------- copy on write

    /** Write `e` over a present PTE of the same page. */
    method Reflag(ghost q: Va, pt: nat, i: nat, e: Pte)
      requires Valid() && q in tree.ptes && q.Pt() in tree.node && pt == tree.node[q.Pt()] && i == q.d
      requires e.frame == tree.ptes[q].frame
      modifies this`tables, this`tree
      ensures Valid() && SamePlaces(old(tree), tree) && tree.ptes == old(tree.ptes)[q := e]
    {
      hide TreeInv, Linked, Pmm.PageMap.Valid, SetLeaf;
      LeafRange(tree, kernel, q);
      PlacedFacts(tree, kernel, q.Pt());
      SetLeafKeeps(tree, kernel, q, e);
      SetTables(tree, q, e);
      ReflagPte(tree, SetLeaf(tree, q, e), pmm.view, pmm.threads, kernelTables, q, e);
      tables := tables[pt := tables[pt][i := LeafEntry(e)]];
      tree := SetLeaf(tree, q, e);
    }

    /** Point a present PTE at the unmapped user page `n`, writable and private. */
    method Repoint(q: Va, pt: nat, n: nat)
      requires Valid() && q in tree.ptes && q.Pt() in tree.node && pt == tree.node[q.Pt()]
      requires n != tree.ptes[q].frame && Acquirable(pmm.view, n)
      modifies this`tables, this`tree, pmm`view, pmm.bits, pmm.owners, pmm.refcounts, pmm.mem
      ensures Valid() && SamePlaces(old(tree), tree) && tree.ptes == old(tree.ptes)[q := Pte(n, true, false)]
      ensures Moved(old(pmm.view), pmm.view, old(tree.ptes)[q].frame, n)
    {
      hide TreeInv, Linked, Pmm.PageMap.Valid, SetLeaf, Pmm.UserAt, Acquirable, Moved;
      ghost var t := tree;
      RepointFacts(t, kernel, pmm.view, pmm.threads, kernelTables, q, n);
      var o := tables[pt][q.d].frame;
      MovedNow(pmm.view, o, n);
      TakeRef(n);
      tables := tables[pt := tables[pt][q.d := LeafEntry(Pte(n, true, false))]];
      GiveRef(o);
      tree := SetLeaf(t, q, Pte(n, true, false));
    }

    /** handle_cow_page_fault: a sole owner gets its page back writable, a sharer gets
        a private copy. On failure nothing changed. */
    method HandleCow(r: nat, vaddr: nat) returns (res: int, ghost n: nat)
      requires Valid() && vaddr < USER_TOP && (r == 0 || Root(r) in tree.node)
      modifies this`tables, this`tree, pmm`view, pmm`failAllocations, pmm.bits, pmm.owners, pmm.refcounts, pmm.mem
      ensures Valid()
      ensures res == 0 || res == -1
      ensures res != 0 ==> tree == old(tree) && pmm.view == old(pmm.view)
      ensures res != 0 <==>
        || r == 0 || !IsCow(old(tree), Split(r, vaddr))
        || (IsShared(old(tree.ptes), Split(r, vaddr)) && NoPage(old(pmm.failAllocations), old(pmm.view), pmm.threads))
      ensures res == 0 ==> r != 0 && IsCow(old(tree), Split(r, vaddr))
      ensures res == 0 ==> SamePlaces(old(tree), tree) && Faulted(old(Abs()), Abs(), Split(r, vaddr), n)
      ensures res == 0 && old(Tight(tree)) ==> Tight(tree)
      ensures res == 0 ==>
        |Avail(pmm.view, pmm.threads)| + Due(old(tree.ptes), Split(r, vaddr)) == |Avail(old(pmm.view), pmm.threads)|
      ensures pmm.failAllocations <= old(pmm.failAllocations)
      ensures (res == 0 ==> pmm.failAllocations == old(pmm.failAllocations))
      ensures Others(pmm.view) == old(Others(pmm.view))
    {
      hide TreeInv, Linked, Pmm.PageMap.Valid, Faulted, Tight, Abstract, Avail, Refs, Split, Pmm.UserAt, Others;
      SplitMasked(r, vaddr);
      n := 0;
      var found, pt, e := GetUserPte(r, vaddr - vaddr % PAGE_SIZE);
      if !found || !(e.p && e.us && e.cow) { return -1, 0; }
      var q := Split(r, vaddr);
      ghost var t := tree;
      PteFacts(t, pmm.view, pmm.threads, kernelTables, q);
      FrameAddress(e.frame);
      var refs := pmm.Refcount(e.frame * PAGE_SIZE);  // at least 1: this PTE
      if refs == 1 {
        Reflag(q, pt, q.d, Pte(e.frame, true, false));
        FaultAlone(t, tree, pmm.view, pmm.threads, kernelTables, q);
        res := 0;
      } else {
        res, n := CopyPage(q, pt, e.frame);
      }
      if res == 0 && Tight(t) { TightSame(t, tree, kernel); }
    }

    /** The shared case: allocate, copy, and move this PTE over. */
    method CopyPage(q: Va, pt: nat, o: nat) returns (res: int, ghost n: nat)
      requires Valid() && IsCow(tree, q) && q.Pt() in tree.node && pt == tree.node[q.Pt()]
      requires o == tree.ptes[q].frame && o < |pmm.view| && pmm.view[o].refs > 1
      modifies this`tables, this`tree, pmm`view, pmm`failAllocations, pmm.bits, pmm.owners, pmm.refcounts, pmm.mem
      ensures Valid()
      ensures res == 0 || res == -1
      ensures res != 0 ==> tree == old(tree) && pmm.view == old(pmm.view)
      ensures res != 0 <==> NoPage(old(pmm.failAllocations), old(pmm.view), pmm.threads)
      ensures res == 0 ==> SamePlaces(old(tree), tree) && Faulted(old(Abs()), Abs(), q, n)
      ensures res == 0 ==> tree.ptes.Keys == old(tree.ptes.Keys)
      ensures res == 0 ==> |Avail(pmm.view, pmm.threads)| + 1 == |Avail(old(pmm.view), pmm.threads)|
      ensures pmm.failAllocations <= old(pmm.failAllocations)
      ensures Others(pmm.view) == old(Others(pmm.view))
    {
      hide TreeInv, Linked, Pmm.PageMap.Valid, Faulted, Abstract, Avail, Moved, Acquirable, Copied, Others, Refs;
      ghost var t, v := tree, pmm.view;
      var page := TakeCopy(q, o);
      n := page;
      if page == 0 { return -1, 0; }
      Repoint(q, pt, page);
      FaultShared(t, v, tree, pmm.view, pmm.threads, kernelTables, q, page);
      PteFacts(t, v, pmm.threads, kernelTables, q);
      assert Pmm.Available(v, pmm.threads, page);
      AvailCopied(v, pmm.view, pmm.threads, o, page);
      OthersMoved(t, v, pmm.view, pmm.threads, kernelTables, q, page);
      res := 0;
    }

    /** A page of one's own with the bytes of page `o`, not mapped yet; 0 if there is none. */
    method TakeCopy(ghost q: Va, o: nat) returns (page: nat)
      requires Valid() && q in tree.ptes && o == tree.ptes[q].frame && o < |pmm.view|
      modifies pmm`view, pmm`failAllocations, pmm.bits, pmm.owners, pmm.refcounts, pmm.mem
      ensures Valid()
      ensures page == 0 ==> pmm.view == old(pmm.view)
      ensures page == 0 <==> NoPage(old(pmm.failAllocations), old(pmm.view), pmm.threads)
      ensures page != 0 ==> Pmm.RunAt(old(pmm.view), pmm.threads, page, 1) && page < |old(pmm.view)| && page != o
      ensures page != 0 ==> pmm.view == Copied(old(pmm.view), page, o) && Acquirable(pmm.view, page)
      ensures pmm.failAllocations <= old(pmm.failAllocations)
    {
      hide TreeInv, Linked, Pmm.PageMap.Valid, Avail, Pmm.Taken, Pmm.RunAt, Acquirable, Copied, NoPage;
      ghost var v := pmm.view;
      PageZero(tree, v, pmm.threads, kernelTables);
      page := TakePage(Pmm.User);
      if page == 0 { return 0; }
      FreshCopy(tree, v, pmm.threads, kernelTables, q, page);
      CopiedIs(v, page, o);
      var bytes := pmm.Load(o);
      pmm.Fill(page, bytes);
      assert pmm.view == Copied(v, page, o);
    }

    // ------------------------------------------------- creating and destroying

    /** create_page_dir: a PML4 with an empty user half and the kernel's upper half. */
    method CreatePageDir() returns (r: nat)
      requires Valid()
      modifies this`tables, this`tree, pmm`view, pmm`failAllocations, pmm.bits, pmm.owners, pmm.refcounts
      ensures Valid()
      ensures r == 0 ==> tree == old(tree) && pmm.view == old(pmm.view)
      ensures r == 0 <==> old(pmm.failAllocations) != 0 || Avail(old(pmm.view), pmm.threads) == {}
      ensures r != 0 ==> r !in old(tree.home) && tree == AddRoot(old(tree), r, kernel)
      ensures r != 0 ==> Pmm.RunAt(old(pmm.view), pmm.threads, r, 1)
      ensures r != 0 ==> pmm.view == Pmm.Taken(old(pmm.view), r, 1, Pmm.PageTable)
      ensures pmm.failAllocations <= old(pmm.failAllocations) && Others(pmm.view) == old(Others(pmm.view))
    {
      hide TreeInv, Linked, Pmm.PageMap.Valid, Avail, Pmm.RunAt, Pmm.Taken, Others;
      PageZero(tree, pmm.view, pmm.threads, kernelTables);
      NoRun(pmm.view, pmm.threads);
      var paddr := pmm.AllocPages(1, Pmm.PageTable);
      if paddr == 0 { return 0; }
      r := paddr / PAGE_SIZE;
      OthersTaken(old(pmm.view), pmm.threads, r, Pmm.PageTable);
      Untaken(tree, old(pmm.view), pmm.threads, kernelTables, r);
      AddRootKeeps(tree, kernel, r);
      TakeTable(tree, AddRoot(tree, r, kernel), old(pmm.view), pmm.threads, kernelTables, r);
      tables := tables[r := UserHalfOf(kernel)];
      tree := AddRoot(tree, r, kernel);
    }

    /** The innermost loop of destroy_user_address_space: one PT. */
    method DestroyPt(ghost p: Pos, at: nat)
      requires Valid() && p in tree.node && tree.node[p] == at && p.InRange() && p.Level() == 1
      modifies this`tables, this`tree, pmm`view, pmm.bits, pmm.owners, pmm.refcounts, pmm.mem
      ensures Valid() && SamePlaces(old(tree), tree)
      ensures Outside(old(tree), tree, p) && Settled(old(pmm.view), pmm.view, old(tree), tree)
      ensures !NonEmpty(tree, p)
    {
      hide TreeInv, Linked, Pmm.PageMap.Valid, Outside, Settled, NonEmpty;
      ghost var t, v := tree, pmm.view;
      OutsideRefl(t, v, p);
      for i := 0 to ENTRIES
        invariant Valid() && SamePlaces(t, tree)
        invariant Outside(t, tree, p) && Settled(v, pmm.view, t, tree)
        invariant forall j :: 0 <= j < i ==> PageAt(p, j) !in tree.ptes
      {
        DestroySlot(p, at, i, t, v);
      }
      PtEmptied(tree, kernel, p);
    }

    method DestroySlot(ghost p: Pos, at: nat, i: nat, ghost t: Tree, ghost v: Frames)
      requires Valid() && p in tree.node && tree.node[p] == at && p.InRange() && p.Level() == 1 && i < ENTRIES
      requires SamePlaces(t, tree) && Outside(t, tree, p) && Settled(v, pmm.view, t, tree)
      requires Linked(t, v, pmm.threads, kernelTables)
      modifies this`tables, this`tree, pmm`view, pmm.bits, pmm.owners, pmm.refcounts, pmm.mem
      ensures Valid() && SamePlaces(t, tree)
      ensures Outside(t, tree, p) && Settled(v, pmm.view, t, tree)
      ensures forall q :: q in tree.ptes <==> q in old(tree.ptes) && q != PageAt(p, i)
    {
      hide TreeInv, Linked, Pmm.PageMap.Valid, Outside, Settled, ClearLeaf, Pmm.Released;
      ghost var t1, v1, q := tree, pmm.view, PageAt(p, i);
      PageOf(p, i);
      LeafOf(t1, kernel, q);
      var e := tables[at][i];
      if e.p && e.us {
        LevelOnePath(p);
        ClearPte(q, at, i, e.frame);
        ClearedTables(t1, q);
        ClearedOutside(t1, tree, v1, pmm.view, pmm.threads, kernelTables, q, p);
        OutsideTrans(t, t1, tree, p);
        SettledTrans(v, v1, pmm.view, t, t1, tree, pmm.threads, kernelTables);
      }
    }

    /** The nested loops of destroy_user_address_space, from the table at `p` down:
        release every page, give back every table below. */
    method DestroyBelow(ghost p: Pos, at: nat, level: nat)
      requires Valid() && p in tree.node && tree.node[p] == at && p.InRange() && p.Level() == level && level >= 1
      modifies this`tables, this`tree, pmm`view, pmm.bits, pmm.owners, pmm.refcounts, pmm.mem
      ensures Valid() && p in tree.node && tree.node[p] == at && Bare(tree, p)
      ensures Outside(old(tree), tree, p) && Settled(old(pmm.view), pmm.view, old(tree), tree)
      decreases level, 1
    {
      hide TreeInv, Linked, Pmm.PageMap.Valid, Outside, Settled, NonEmpty, Bare, Pos.InRange;
      if level == 1 {
        DestroyPt(p, at);
        PtBare(tree, p);
        return;
      }
      ghost var t, v := tree, pmm.view;
      OutsideRefl(t, v, p);
      LevelBound(p);
      var fan := if level == 4 then USER_ENTRIES else ENTRIES;
      for i := 0 to fan
        invariant Valid() && p in tree.node && tree.node[p] == at
        invariant Outside(t, tree, p) && Settled(v, pmm.view, t, tree)
        invariant forall j :: 0 <= j < i ==> Child(p, j) !in tree.node
      {
        DestroyChild(p, at, level, i, t, v);
      }
      TableEmptied(tree, kernel, p);
    }

    method DestroyChild(ghost p: Pos, at: nat, level: nat, i: nat, ghost t: Tree, ghost v: Frames)
      requires Valid() && p in tree.node && tree.node[p] == at && p.InRange() && p.Level() == level
      requires level >= 2 && i < p.Fan()
      requires Outside(t, tree, p) && Settled(v, pmm.view, t, tree)
      requires Linked(t, v, pmm.threads, kernelTables)
      modifies this`tables, this`tree, pmm`view, pmm.bits, pmm.owners, pmm.refcounts, pmm.mem
      ensures Valid() && p in tree.node && tree.node[p] == at
      ensures Outside(t, tree, p) && Settled(v, pmm.view, t, tree)
      ensures Child(p, i) !in tree.node
      ensures forall x :: x in tree.node ==> x in old(tree.node)
      decreases level, 0
    {
      hide TreeInv, Linked, Pmm.PageMap.Valid, Outside, Settled, NonEmpty, Bare, Pmm.Freed, Prune;
      ghost var t1, v1, c := tree, pmm.view, Child(p, i);
      SlotOf(t1, kernel, p, i);
      LevelBound(p);
      var e := tables[at][i];
      if e.p {
        DestroyBelow(c, e.frame, level - 1);
        ghost var t2, v2 := tree, pmm.view;
        BareEmpty(t2, c);
        SiblingsApart(p, i, i + 1);
        KeptOutside(t1, t2, c, p);
        PlacedOf(t2, kernel);
        PlacedFacts(t2, kernel, c);
        RemoveTable(c, at, i, e.frame);
        RemovedChild(t1, v1, t2, v2, tree, pmm.view, kernel, pmm.threads, kernelTables, p, i);
        OutsideTrans(t, t1, tree, p);
        HomesShrink(t, t1, p);
        HomesShrink(t1, tree, p);
        SettledTrans(v, v1, pmm.view, t, t1, tree, pmm.threads, kernelTables);
      }
    }

    /** destroy_user_address_space: every table page and every reference of the space
        goes exactly once, nothing of any other space is touched. */
    method DestroyUserAddressSpace(r: nat)
      requires Valid() && (r == 0 || r == BOOT_KERNEL_PML4 || Root(r) in tree.node)
      modifies this`tables, this`tree, pmm`view, pmm.bits, pmm.owners, pmm.refcounts, pmm.mem
      ensures Valid()
      ensures r == 0 || r == BOOT_KERNEL_PML4 ==> tree == old(tree) && pmm.view == old(pmm.view)
      ensures r != 0 && r != BOOT_KERNEL_PML4 ==>
        SpaceGone(old(tree), tree, r) && Settled(old(pmm.view), pmm.view, old(tree), tree)
      ensures r != 0 && r != BOOT_KERNEL_PML4 && old(NoOrphans(pmm.view)) ==>
        NoOrphans(pmm.view) && Abs() == Exit(old(Abs()), r)
      ensures Others(pmm.view) == old(Others(pmm.view))
    {
      hide TreeInv, Linked, Pmm.PageMap.Valid, Outside, Settled, Bare, NoOrphans, SpaceGone, DropRoot, Abstract, Exit,
        Pmm.Freed, Others;
      if r == 0 || r == BOOT_KERNEL_PML4 { return; }
      ghost var t, v := tree, pmm.view;
      RootFrame(t, kernel, r);
      DestroyBelow(Root(r), r, 4);
      ghost var t1, v1 := tree, pmm.view;
      FreeRoot(r);
      RootDropped(t, t1, tree, kernel, r);
      RootSettled(t, v, t1, v1, tree, pmm.view, pmm.threads, kernelTables, r);
      if NoOrphans(v) { ExitPages(t, v, tree, pmm.view, pmm.threads, kernelTables, r); }
      OthersSettled(t, tree, v, pmm.view, pmm.threads, kernelTables);
    }

    method FreeRoot(r: nat)
      requires Valid() && Root(r) in tree.node && Bare(tree, Root(r))
      modifies this`tables, this`tree, pmm`view, pmm.bits, pmm.owners, pmm.refcounts, pmm.mem
      ensures Valid() && tree == DropRoot(old(tree), r) && r in old(tree.home)
      ensures pmm.view == Pmm.Freed(old(pmm.view), r, 1)
    {
      hide TreeInv, Linked, Pmm.PageMap.Valid, Pmm.Freed, Pmm.Freeable, DropRoot, Bare;
      DropRootFacts(tree, kernel, pmm.view, pmm.threads, kernelTables, r);
      pmm.FreeFrame(r, Pmm.PageTable);
      tables := tables - {r};
      tree := DropRoot(tree, r);
    }

    // ------------------------------------------------------------------ cloning

    /** One PTE of the parent copied into the child, sealed if it is writable. The
        parent's own PTE is left alone. */
    method CloneSlot(ghost p: Pos, at: nat, i: nat, base: nat, c: nat, ghost t: Tree, ghost v: Frames)
      returns (ok: bool)
      requires Valid() && p in t.node && t.node[p] == at && p.InRange() && p.Level() == 1 && i < ENTRIES
      requires base == Base(p) && p.Space() != c && c != 0 && Root(c) in tree.node
      requires Linked(t, v, pmm.threads, kernelTables) && (forall x :: x in t.ptes ==> x.r != c)
      requires Cloning(t, tree, p.Space(), c) && Spread(v, pmm.view, t, tree)
      requires Paid(t, v, tree, pmm.view, pmm.threads, c, Reach(base, i, 1)) && pmm.failAllocations == 0
      modifies this`tables, this`tree, pmm`view, pmm`failAllocations, pmm.bits, pmm.owners, pmm.refcounts, pmm.mem
      ensures Valid() && Root(c) in tree.node
      ensures Cloning(t, tree, p.Space(), c) && Spread(v, pmm.view, t, tree)
      ensures ok ==> Paid(t, v, tree, pmm.view, pmm.threads, c, Reach(base, i + 1, 1))
      ensures !ok ==> CannotClone(v, pmm.threads, t.ptes, p.Space())
      ensures pmm.failAllocations == 0
      ensures ok && PageAt(p, i) in t.ptes ==> PageAt(p, i).(r := c) in tree.ptes
      ensures forall q :: q in old(tree.ptes) ==> q in tree.ptes
      ensures old(Tight(tree)) ==> Tight(tree)
    {
      hide TreeInv, Linked, Pmm.PageMap.Valid, Cloning, Spread, Extends, Mapped, Split, Pos.InRange, Base, Rebuild,
        Acquirable, Avail, SameFrames, Tight, Pmm.UserAt, Refs, Paid, CannotClone, Reach, Ways, MapsBelow, Others,
        Roots;
      ghost var q, t1, v1 := PageAt(p, i), tree, pmm.view;
      PageOf(p, i);
      BaseOfPage(p, i);
      RebuildSame(q, c);
      ReachNext(base, i, 1);
      ReachNext(base, i + 1, 1);
      PaidMore(t, v, t1, v1, pmm.threads, c, Reach(base, i, 1), Reach(base, i + 1, 1));
      SpaceOfPage(p, i);
      CloningHome(t, t1, p.Space(), c, q);
      LeafOf(t1, kernel, q);
      var e := tables[at][i];
      if !e.p || !e.us { return true; }
      PteFacts(t, v, pmm.threads, kernelTables, q);
      SplitOther(p, i, c);
      FrameAddress(e.frame);
      var rw, cow := e.rw, e.cow;
      if rw { rw, cow := false, true; }
      var res := MapPage(c, base + i * 0x1000, e.frame * PAGE_SIZE, rw, cow);
      if res != 0 {
        SpreadSame(v, v1, pmm.view, t, t1);
        CopyRefused(t, t1, kernel, v, v1, pmm.threads, kernelTables, p.Space(), c, q);
        return false;
      }
      ExtendsHome(t1, tree, q.(r := c));
      CloneStep(t, t1, tree, p.Space(), c, q);
      SpreadStep(v, v1, pmm.view, t, t1, tree, e.frame);
      PaidStep(t, v, t1, v1, tree, pmm.view, pmm.threads, c, q.(r := c), Pte(e.frame, rw, cow));
      return true;
    }

    /** The first pass of clone_user_address_space, from the parent's table at `p` down:
        every present user PTE gets its copy, or `ok` is false. */
    method CloneBelow(ghost p: Pos, at: nat, level: nat, base: nat, c: nat, ghost t: Tree, ghost v: Frames)
      returns (ok: bool)
      requires Valid() && p in t.node && t.node[p] == at && p.InRange() && p.Level() == level && 1 <= level <= 4
      requires base == Base(p) && p.Space() != c && c != 0 && Root(c) in tree.node && TreeInv(t, kernel)
      requires Linked(t, v, pmm.threads, kernelTables) && (forall x :: x in t.ptes ==> x.r != c)
      requires Cloning(t, tree, p.Space(), c) && Spread(v, pmm.view, t, tree)
      requires Paid(t, v, tree, pmm.view, pmm.threads, c, base) && pmm.failAllocations == 0
      modifies this`tables, this`tree, pmm`view, pmm`failAllocations, pmm.bits, pmm.owners, pmm.refcounts, pmm.mem
      ensures Valid() && Root(c) in tree.node
      ensures Cloning(t, tree, p.Space(), c) && Spread(v, pmm.view, t, tree)
      ensures ok ==> Paid(t, v, tree, pmm.view, pmm.threads, c, Reach(base, p.Fan(), level))
      ensures !ok ==> CannotClone(v, pmm.threads, t.ptes, p.Space())
      ensures pmm.failAllocations == 0
      ensures ok ==> HasCopies(t, tree, c, p, p.Fan())
      ensures forall q :: q in old(tree.ptes) ==> q in tree.ptes
      ensures old(Tight(tree)) ==> Tight(tree)
      decreases level
    {
      hide TreeInv, Linked, Pmm.PageMap.Valid, Cloning, Spread, Pos.InRange, Base, HasCopies, PageAt, Tight, Paid,
        CannotClone, Reach;
      LevelBound(p);
      ReachNext(base, 0, level);
      HasCopiesNone(t, tree, c, p);
      var fan := if level == 4 then USER_ENTRIES else ENTRIES;
      for i := 0 to fan
        invariant Valid() && Root(c) in tree.node
        invariant Cloning(t, tree, p.Space(), c) && Spread(v, pmm.view, t, tree)
        invariant HasCopies(t, tree, c, p, i)
        invariant Paid(t, v, tree, pmm.view, pmm.threads, c, Reach(base, i, level)) && pmm.failAllocations == 0
        invariant forall q :: q in old(tree.ptes) ==> q in tree.ptes
        invariant old(Tight(tree)) ==> Tight(tree)
      {
        ghost var g := tree;
        ReachNext(base, i, level);
        if level == 1 {
          ok := CloneSlot(p, at, i, base, c, t, v);
          if !ok { return; }
          HasCopiesLeaf(t, g, tree, c, p, i);
        } else {
          CloningSlot(t, g, kernel, p, i, c);
          var e := tables[at][i];
          if e.p {
            ChildBase(p, i);
            assert Reach(base, i, level) == base + i * Span(level) by { ReachIs(base, i, level); }
            ok := CloneBelow(Child(p, i), e.frame, level - 1, base + i * Span(level), c, t, v);
            if !ok { return; }
          } else {
            PaidMore(t, v, tree, pmm.view, pmm.threads, c, Reach(base, i, level), Reach(base, i + 1, level));
          }
          HasCopiesTable(t, g, tree, c, p, i, kernel);
        }
      }
      ok := true;
    }

    /** The second pass, over one PTE: a writable page becomes copy-on-write. */
    method SealSlot(ghost p: Pos, at: nat, i: nat)
      requires Valid() && p in tree.node && tree.node[p] == at && p.InRange() && p.Level() == 1 && i < ENTRIES
      modifies this`tables, this`tree
      ensures Valid() && SamePlaces(old(tree), tree)
      ensures tree.ptes == if PageAt(p, i) in old(tree.ptes)
                           then old(tree.ptes)[PageAt(p, i) := Seal(old(tree.ptes)[PageAt(p, i)])] else old(tree.ptes)
    {
      hide TreeInv, Linked, Pmm.PageMap.Valid;
      ghost var q := PageAt(p, i);
      PageOf(p, i);
      LeafOf(tree, kernel, q);
      var e := tables[at][i];
      if e.p && e.us && e.rw {
        Reflag(q, at, i, Pte(e.frame, false, true));
      }
    }

    /** The second pass of clone_user_address_space, from the table at `p` down. */
    method SealBelow(ghost p: Pos, at: nat, level: nat)
      requires Valid() && p in tree.node && tree.node[p] == at && p.InRange() && p.Level() == level && 1 <= level <= 4
      modifies this`tables, this`tree
      ensures Valid() && SealedTo(old(tree), tree, p, p.Fan())
      decreases level
    {
      hide TreeInv, Linked, Pmm.PageMap.Valid, Pos.InRange, PageAt, SealedTo;
      ghost var t := tree;
      LevelBound(p);
      SealedNone(t, p);
      AllInRange(t, kernel);
      var fan := if level == 4 then USER_ENTRIES else ENTRIES;
      for i := 0 to fan
        invariant Valid() && SealedTo(t, tree, p, i)
      {
        ghost var g := tree;
        SealedPlaces(t, g, p, i);
        if level == 1 {
          SealSlot(p, at, i);
          SealedLeaf(t, g, tree, p, i);
        } else {
          SlotOf(g, kernel, p, i);
          var e := tables[at][i];
          if e.p {
            ChildBase(p, i);
            SealBelow(Child(p, i), e.frame, level - 1);
            SealedTable(t, g, tree, p, i);
          } else {
            SealedSkip(t, g, kernel, p, i);
          }
        }
      }
    }

    lemma CloneFits(t: Tree, g: Tree, kernel: Table, v: Frames, w: Frames, a: nat, c: nat, bound: nat)
      requires pmm.Valid() && w == pmm.view && TreeInv(t, kernel) && Linked(g, w, pmm.threads, kernelTables)
      requires Cloning(t, g, a, c) && HasCopies(t, g, c, Root(a), USER_ENTRIES)
      requires Paid(t, v, g, w, pmm.threads, c, bound)
      requires (forall x :: x in t.ptes ==> x.r != c) && (forall x :: x in t.node && x.Space() == c ==> x.Root?)
      ensures !CannotClone(v, pmm.threads, t.ptes, a)
    {
      hide TreeInv, Linked, Cloning, Paid, CannotClone, Rebuild;
      AllInRange(t, kernel);
      forall f | 0 <= f < |w| ensures w[f].refs <= Pmm.UINT32_MAX { assert w[f].refs == pmm.refcounts[f]; }
      CloneAfforded(t, g, v, w, pmm.threads, kernelTables, a, c, bound);
    }

    /** clone_user_address_space. Either the child is a complete copy-on-write twin and
        the parent's writable pages are sealed, or nothing changed at all. */
    method CloneUserAddressSpace(a: nat) returns (c: nat)
      requires Valid() && a != 0 && Root(a) in tree.node
      modifies this`tables, this`tree, pmm`view, pmm`failAllocations, pmm.bits, pmm.owners, pmm.refcounts, pmm.mem
      ensures Valid()
      ensures c == 0 ==> tree == old(tree) && SameFrames(pmm.view, old(pmm.view))
      ensures c == 0 <==> Uncloneable(old(pmm.failAllocations), old(pmm.view), pmm.threads, old(tree.ptes), a)
      ensures c != 0 ==> c != a && c !in old(tree.home) && Root(c) in tree.node
      ensures c != 0 ==> forall x :: x in tree.node && x !in old(tree.node) ==> x.Space() == c
      ensures c != 0 ==> forall x :: x in old(tree.node) ==> x in tree.node
      ensures c != 0 ==> tree.ptes == ForkPtes(old(tree.ptes), a, c)
      ensures c != 0 ==> Abs() == Fork(old(Abs()), a, c)
      ensures c != 0 && old(Tight(tree)) ==> Tight(tree)
      ensures pmm.failAllocations <= old(pmm.failAllocations) && Others(pmm.view) == old(Others(pmm.view))
    {
      hide TreeInv, Linked, Pmm.PageMap.Valid, SameFrames, Tight, Fork, ForkPtes, Abstract, Pmm.RunAt, Pmm.Taken,
        Others, AddRoot, SpaceGone, Settled, Cloning, Spread, HasCopies, SealedTo, Avail, Paid, PagesOf, CannotClone,
        Overfull, Ways;
      ghost var t0, v0 := tree, pmm.view;
      SameRefl(v0);
      c := CreatePageDir();
      if c == 0 { return; }
      ghost var t, v := tree, pmm.view;
      ChildSpace(t0, t, v0, v, kernel, pmm.threads, kernelTables, a, c);
      CloningRefl(t, v, a, c);
      PaidNone(t, v, pmm.threads, c, 0);
      AfterPageDir(pmm.threads, v0, v, t.ptes, a, c);
      var ok := CloneBelow(Root(a), a, 4, 0, c, t, v);
      ghost var t1, v1 := tree, pmm.view;
      if !ok {
        DestroyUserAddressSpace(c);
        CloneUndone(t0, t, t1, tree, kernel, a, c);
        FramesUndone(t0, v0, t, v, t1, v1, pmm.view, pmm.threads, kernelTables, a, c, kernel);
        OthersAlike(v0, pmm.view);
        return 0;
      }
      CloningHome(t, t1, a, c, Va(a, 0, 0, 0, 0));
      OthersSpread(t, t1, v, v1, pmm.threads, kernelTables);
      CloneFits(t, t1, kernel, v, v1, a, c, Reach(0, USER_ENTRIES, 4));
      SealBelow(Root(a), a, 4);
      CloneDone(t0, v0, t, v, t1, tree, pmm.view, kernel, pmm.threads, kernelTables, a, c);
    }
  }
}
