/** Processes as owners of an address space and its areas (kernel/process.c): mmap,
    munmap, stack growth, fork and exit. */
module Process {
  import opened Layout
  import opened SharedPages
  import opened PageTree
  import opened Linkage
  import opened VirtualMemory
  import opened AreaList
  import Pmm

  // ----------------------------------------------------------- one fresh page

  /** The flat machine mapped a page nobody owned before. */
  ghost predicate MappedFresh(s: State, s': State, q: Va, f: nat, bytes: seq<Byte>, rw: bool) {
    q !in s.ptes && f !in s.pages && s' == MapFresh(s, q, f, bytes, rw)
  }

  /** Pages in use keep everything; the others may only become tables or user pages,
      and come back clean. */
  ghost predicate Kept(v: Frames, w: Frames) {
    && |w| == |v|
    && forall x :: 0 <= x < |v| ==> KeptAt(v[x], w[x])
  }

  predicate KeptAt(f: Pmm.Frame, g: Pmm.Frame) {
    if f.used then g == f
    else g.reserved == f.reserved &&
         if g.used then !g.reserved && (g.owner == Pmm.PageTable || g.owner == Pmm.User)
         else g.owner == f.owner && g.refs == f.refs
  }

  lemma KeptRefl(v: Frames)
    ensures Kept(v, v)
  {
  }

  lemma KeptSame(v: Frames, v1: Frames, w: Frames)
    requires Kept(v, v1) && SameFrames(w, v1)
    ensures Kept(v, w)
  {
    forall x | 0 <= x < |v| ensures KeptAt(v[x], w[x]) { assert Alike(w[x], v1[x]); }
  }

  /** Allocating a user page and mapping it, as the allocator sees it. */
  lemma FreshMapped(t: Tree, v: Frames, g: Tree, w: Frames, threads: set<nat>, kt: set<nat>, f: nat)
    requires Linked(t, v, threads, kt) && Linked(g, w, threads, kt) && Pmm.RunAt(v, threads, f, 1)
    requires Mapped(Pmm.Taken(v, f, 1, Pmm.User), w, t, g, f) && t.home.Keys <= g.home.Keys
    ensures Kept(v, w)
    ensures f < |v| && UserPages(w) == UserPages(v)[f := UserPage(1, v[f].bytes)] && f !in UserPages(v)
  {
    hide Linked, KeptAt;
    assert Pmm.Available(v, threads, f);
    forall x: nat | x < |v| ensures KeptAt(v[x], w[x]) && (Pmm.UserAt(w, x) <==> Pmm.UserAt(v, x) || x == f) {
      FreshMappedAt(t, v, g, w, threads, kt, f, x);
    }
    assert UserPages(w) == UserPages(v)[f := UserPage(1, v[f].bytes)];
  }

  lemma FreshMappedAt(t: Tree, v: Frames, g: Tree, w: Frames, threads: set<nat>, kt: set<nat>, f: nat, x: nat)
    requires Linked(t, v, threads, kt) && Linked(g, w, threads, kt) && Pmm.RunAt(v, threads, f, 1) && x < |v|
    requires Mapped(Pmm.Taken(v, f, 1, Pmm.User), w, t, g, f) && t.home.Keys <= g.home.Keys
    ensures KeptAt(v[x], w[x]) && (Pmm.UserAt(w, x) <==> Pmm.UserAt(v, x) || x == f)
  {
    assert Pmm.Available(v, threads, f);
    if x in g.home { assert TablePage(w, threads, x); }
    if x in t.home { assert TablePage(v, threads, x); }
  }

  /** Giving back a page that could not be mapped. */
  lemma FreshReturned(v: Frames, w: Frames, threads: set<nat>, f: nat)
    requires Pmm.RunAt(v, threads, f, 1) && Pmm.Clean(v)
    requires SameFrames(w, Pmm.Taken(v, f, 1, Pmm.User))
    ensures SameFrames(Pmm.Freed(w, f, 1), v)
    ensures f < |w| && Pmm.UserAt(w, f) && w[f].refs == 0
  {
    assert Pmm.Available(v, threads, f);
    forall x | 0 <= x < |v| ensures Alike(Pmm.Freed(w, f, 1)[x], v[x]) {
      assert Alike(w[x], Pmm.Taken(v, f, 1, Pmm.User)[x]);
    }
    assert Alike(w[f], Pmm.Taken(v, f, 1, Pmm.User)[f]);
  }

  lemma UserFreeable(t: Tree, v: Frames, threads: set<nat>, kt: set<nat>, f: nat)
    requires Linked(t, v, threads, kt) && Pmm.UserAt(v, f) && v[f].refs == 0
    ensures 0 < f < |v| && Pmm.Freeable(v, threads, f, Pmm.Is(Pmm.User))
  {
    assert UserPageOk(t.ptes, v, threads, f);
  }

  lemma FreshIsAcquirable(v: Frames, threads: set<nat>, f: nat)
    requires Pmm.RunAt(v, threads, f, 1) && |v| > 0 && v[0].reserved
    ensures Acquirable(Pmm.Taken(v, f, 1, Pmm.User), f)
  {
    assert Pmm.Available(v, threads, f);
  }

  /** A page at `q` and the tables missing on the way to it cannot be had. */
  ghost predicate NoRoom(t: Tree, q: Va, failing: nat, v: Frames, threads: set<nat>) {
    failing != 0 || |Avail(v, threads)| < 1 + |Ways({q}) - t.node.Keys|
  }

  /** alloc_page_owned(USER) and map_page, with the page freed again when the mapping
      fails: how mmap, stack growth, thread stacks and the loader get memory. */
  method MapNewPage(vm: AddressSpaces, r: nat, vaddr: nat, rw: bool) returns (res: int, ghost f: nat)
    requires vm.Valid() && r != 0 && Root(r) in vm.tree.node && vaddr < USER_TOP && vaddr % PAGE_SIZE == 0
    modifies vm`tables, vm`tree, vm.pmm`view, vm.pmm`failAllocations, vm.pmm.bits, vm.pmm.owners, vm.pmm.refcounts,
             vm.pmm.mem
    ensures vm.Valid()
    ensures res == 0 || res == -1
    ensures res != 0 ==> vm.tree == old(vm.tree) && SameFrames(vm.pmm.view, old(vm.pmm.view))
    ensures res == 0 ==> Split(r, vaddr) !in old(vm.tree.ptes) && Extends(old(vm.tree), vm.tree, Split(r, vaddr))
    ensures res == 0 ==> vm.tree.ptes == old(vm.tree.ptes)[Split(r, vaddr) := Pte(f, rw, false)]
    ensures res == 0 ==> Kept(old(vm.pmm.view), vm.pmm.view) && f < |old(vm.pmm.view)| && !old(vm.pmm.view)[f].used
    ensures res == 0 ==> MappedFresh(old(vm.Abs()), vm.Abs(), Split(r, vaddr), f, old(vm.pmm.view)[f].bytes, rw)
    ensures res == 0 && old(Tight(vm.tree)) ==> Tight(vm.tree)
    ensures res != 0 <==>
      || Split(r, vaddr) in old(vm.tree.ptes)
      || NoRoom(old(vm.tree), Split(r, vaddr), old(vm.pmm.failAllocations), old(vm.pmm.view), vm.pmm.threads)
    ensures res == 0 ==> vm.tree.node.Keys == old(vm.tree.node.Keys) + Ways({Split(r, vaddr)})
    ensures res == 0 ==>
      |Avail(vm.pmm.view, vm.pmm.threads)| + |vm.tree.node| + 1 ==
          |Avail(old(vm.pmm.view), vm.pmm.threads)| + |old(vm.tree.node)|
    ensures vm.pmm.failAllocations <= old(vm.pmm.failAllocations)
    ensures Others(vm.pmm.view) == old(Others(vm.pmm.view)) && Roots(vm.tree) == old(Roots(vm.tree))
  {
    hide TreeInv, Linked, Pmm.PageMap.Valid, SameFrames, Extends, Kept, MappedFresh, Tight, Split, Abstract, Mapped,
      Others, Roots, Ways, Lacking, Pmm.Taken, Pmm.RunAt, Acquirable, Avail, UserPages, Pmm.Freed, Pmm.Freeable;
    ghost var t, v := vm.tree, vm.pmm.view;
    SameRefl(v);
    PageZero(t, v, vm.pmm.threads, vm.kernelTables);
    NoRun(v, vm.pmm.threads);
    var paddr := vm.pmm.AllocPages(1, Pmm.User);
    f := 0;
    if paddr == 0 { return -1, 0; }
    var page := paddr / PAGE_SIZE;
    AvailTaken(v, vm.pmm.threads, page, Pmm.User);
    FreshIsAcquirable(v, vm.pmm.threads, page);
    TakeUser(t, v, vm.pmm.threads, vm.kernelTables, page);
    ghost var v1 := vm.pmm.view;
    LackingIs(t, vm.kernel, Split(r, vaddr));
    res := vm.MapPage(r, vaddr, paddr, rw, false);
    if res != 0 {
      GiveBack(vm, t, v, page);
      OthersAlike(v, vm.pmm.view);
      return -1, 0;
    }
    f := page;
    OthersTaken(v, vm.pmm.threads, page, Pmm.User);
    FreshSummary(t, v, vm.tree, vm.pmm.view, vm.pmm.threads, vm.kernelTables, Split(r, vaddr), page, rw);
    return 0, page;
  }

  method GiveBack(vm: AddressSpaces, ghost t: Tree, ghost v: Frames, page: nat)
    requires vm.Valid() && vm.tree == t && Linked(t, v, vm.pmm.threads, vm.kernelTables)
    requires Pmm.RunAt(v, vm.pmm.threads, page, 1)
    requires SameFrames(vm.pmm.view, Pmm.Taken(v, page, 1, Pmm.User))
    modifies vm.pmm`view, vm.pmm.bits, vm.pmm.owners, vm.pmm.refcounts, vm.pmm.mem
    ensures vm.Valid() && SameFrames(vm.pmm.view, v)
  {
    hide TreeInv, Linked, Pmm.PageMap.Valid, SameFrames, Pmm.Taken, Pmm.RunAt, Pmm.Freed, Pmm.Freeable, Pmm.Clean,
      Pmm.UserAt;
    CleanOf(t, v, vm.pmm.threads, vm.kernelTables);
    FreshReturned(v, vm.pmm.view, vm.pmm.threads, page);
    UserFreeable(t, vm.pmm.view, vm.pmm.threads, vm.kernelTables, page);
    DropUser(t, vm.pmm.view, vm.pmm.threads, vm.kernelTables, page);
    vm.pmm.FreeFrame(page, Pmm.User);
  }

  lemma FreshSummary(t: Tree, v: Frames, g: Tree, w: Frames, threads: set<nat>, kt: set<nat>, q: Va, f: nat, rw: bool)
    requires Linked(t, v, threads, kt) && Linked(g, w, threads, kt) && Pmm.RunAt(v, threads, f, 1)
    requires Mapped(Pmm.Taken(v, f, 1, Pmm.User), w, t, g, f) && Extends(t, g, q)
    requires q !in t.ptes && g.ptes == t.ptes[q := Pte(f, rw, false)]
    ensures Kept(v, w) && f < |v| && !v[f].used
    ensures MappedFresh(Abstract(t, v), Abstract(g, w), q, f, v[f].bytes, rw)
  {
    hide Linked, Mapped, UserPages, Kept, Pmm.Taken;
    ExtendsHome(t, g, q);
    FreshMapped(t, v, g, w, threads, kt, f);
    assert Pmm.Available(v, threads, f);
  }

  // -------------------------------------------------- a growing run of pages

  /** A page of space `r` in the byte range [lo, hi). */
  predicate InRun(q: Va, r: nat, lo: nat, hi: nat) {
    q.InRange() && q.r == r && lo <= Rebuild(q) < hi
  }

  /** Compared with (t0, v0), the only new PTEs are the pages of the run, each on a page
      that was free then; nothing that was there has gone or changed. */
  ghost predicate Growing(t0: Tree, v0: Frames, t: Tree, v: Frames, r: nat, lo: nat, hi: nat, rw: bool) {
    && Kept(v0, v)
    && (forall x :: x in t0.node ==> x in t.node && t.node[x] == t0.node[x])
    && (forall k :: Root(k) in t.node ==> Root(k) in t0.node)
    && (forall q :: q in t0.ptes ==> q in t.ptes && t.ptes[q] == t0.ptes[q])
    && (forall q :: q in t.ptes && q !in t0.ptes <==> InRun(q, r, lo, hi))
    && (forall q :: q in t.ptes && q !in t0.ptes ==>
          t.ptes[q].rw == rw && !t.ptes[q].cow && t.ptes[q].frame < |v0| && !v0[t.ptes[q].frame].used)
    && (forall f: nat :: Pmm.UserAt(v, f) && f < |v0| && !v0[f].used ==> v[f].refs > 0)
  }

  lemma GrowingOthers(t: Tree, v: Frames, g: Tree, w: Frames, r: nat, lo: nat, hi: nat, rw: bool)
    requires Growing(t, v, g, w, r, lo, hi, rw)
    ensures Others(w) == Others(v) && Roots(g) == Roots(t)
  {
    forall x: nat | x < |v| ensures Untouched(v[x], w[x]) { assert KeptAt(v[x], w[x]); }
    OthersStay(v, w);
    RootsSame(t, g);
  }

  lemma GrowingNone(t: Tree, v: Frames, r: nat, lo: nat, rw: bool)
    ensures Growing(t, v, t, v, r, lo, lo, rw)
  {
    KeptRefl(v);
  }

  lemma GrowingSame(t0: Tree, v0: Frames, t: Tree, v: Frames, w: Frames, r: nat, lo: nat, hi: nat, rw: bool)
    requires Growing(t0, v0, t, v, r, lo, hi, rw) && SameFrames(w, v)
    ensures Growing(t0, v0, t, w, r, lo, hi, rw)
  {
    hide Rebuild;
    KeptSame(v0, v, w);
    forall f: nat | Pmm.UserAt(w, f) && f < |v0| && !v0[f].used ensures w[f].refs > 0 {
      assert Alike(w[f], v[f]);
    }
  }

  /** The page at `hi` is the only one a longer run adds. */
  lemma RunStep(q: Va, r: nat, lo: nat, hi: nat)
    requires lo <= hi && hi % PAGE_SIZE == 0 && hi < USER_TOP
    ensures InRun(q, r, lo, hi + PAGE_SIZE) <==> InRun(q, r, lo, hi) || q == Split(r, hi)
    ensures !InRun(Split(r, hi), r, lo, hi)
    ensures InRun(q, r, hi, hi + PAGE_SIZE) <==> q == Split(r, hi)
  {
    hide Rebuild, Split;
    SplitInRange(r, hi);
    RebuildSplit(r, hi);
    SplitSpace(r, hi);
    if q.InRange() && q.r == r && hi <= Rebuild(q) < hi + PAGE_SIZE {
      SplitRebuild(q);
      assert Rebuild(q) == hi;
    }
  }

  /** Some page of the run is mapped already. */
  ghost predicate InTheWay(ptes: map<Va, Pte>, r: nat, lo: nat, hi: nat) {
    exists q :: q in ptes && InRun(q, r, lo, hi)
  }

  lemma WasInTheWay(t0: Tree, v0: Frames, t: Tree, v: Frames, r: nat, lo: nat, hi: nat, rw: bool)
    requires Growing(t0, v0, t, v, r, lo, hi, rw) && lo <= hi < USER_TOP && hi % PAGE_SIZE == 0
    ensures Split(r, hi) in t.ptes ==> InTheWay(t0.ptes, r, lo, hi + PAGE_SIZE)
  {
    hide Split, Rebuild;
    RunStep(Split(r, hi), r, lo, hi);
    if Split(r, hi) in t.ptes { assert Split(r, hi) in t0.ptes; }
  }

  lemma StillInTheWay(ptes: map<Va, Pte>, r: nat, lo: nat, hi: nat, end: nat)
    requires InTheWay(ptes, r, lo, hi) && hi <= end
    ensures InTheWay(ptes, r, lo, end)
  {
    var q :| q in ptes && InRun(q, r, lo, hi);
    assert InRun(q, r, lo, end);
  }

  ghost function RunPages(r: nat, lo: nat, n: nat): set<Va> {
    set k: nat | k < n :: Split(r, lo + k * PAGE_SIZE)
  }

  /** What n pages from `lo` on take: themselves, and every table missing on their ways once. */
  ghost function RunCost(t: Tree, r: nat, lo: nat, n: nat): nat {
    n + |Ways(RunPages(r, lo, n)) - t.node.Keys|
  }

  /** What stands against backing a run of n pages. */
  ghost predicate Unpayable(t: Tree, r: nat, lo: nat, n: nat, failing: nat, v: Frames, threads: set<nat>) {
    || InTheWay(t.ptes, r, lo, lo + n * PAGE_SIZE)
    || (n > 0 && failing != 0)
    || |Avail(v, threads)| < RunCost(t, r, lo, n)
  }

  /** The first n pages of a run are mapped and paid for. */
  ghost predicate RunPaid(t: Tree, v: Frames, g: Tree, w: Frames, threads: set<nat>, r: nat, lo: nat, n: nat,
                          failing: nat) {
    && g.node.Keys == t.node.Keys + Ways(RunPages(r, lo, n))
    && |Avail(w, threads)| + |g.node| + n == |Avail(v, threads)| + |t.node|
    && (n > 0 ==> failing == 0)
  }

  lemma RunPaidNone(t: Tree, v: Frames, threads: set<nat>, r: nat, lo: nat, failing: nat)
    ensures RunPaid(t, v, t, v, threads, r, lo, 0, failing)
  {
    assert RunPages(r, lo, 0) == {};
    assert Ways({}) == {};
  }

  lemma OneMorePage(r: nat, lo: nat, n: nat)
    ensures RunPages(r, lo, n + 1) == RunPages(r, lo, n) + {Split(r, lo + n * PAGE_SIZE)}
    ensures Ways(RunPages(r, lo, n + 1)) == Ways(RunPages(r, lo, n)) + Ways({Split(r, lo + n * PAGE_SIZE)})
  {
    hide Split, Ways;
    WaysMore(RunPages(r, lo, n), {Split(r, lo + n * PAGE_SIZE)});
  }

  lemma RunPaidStep(t: Tree, v: Frames, t1: Tree, v1: Frames, g: Tree, w: Frames, threads: set<nat>, r: nat, lo: nat,
                    n: nat,
                    failing: nat)
    requires RunPaid(t, v, t1, v1, threads, r, lo, n, failing) && failing == 0
    requires g.node.Keys == t1.node.Keys + Ways({Split(r, lo + n * PAGE_SIZE)})
    requires |Avail(w, threads)| + |g.node| + 1 == |Avail(v1, threads)| + |t1.node|
    ensures RunPaid(t, v, g, w, threads, r, lo, n + 1, failing)
  {
    hide Split, Ways, RunPages, Avail;
    OneMorePage(r, lo, n);
  }

  lemma MoreTables(s: set<Pos>, x: set<Pos>, y: set<Pos>, all: set<Pos>)
    requires x + y <= all
    ensures |s + x| + |y - (s + x)| <= |s| + |all - s|
  {
    assert s + x + (y - (s + x)) == s + ((x + y) - s);
    assert |s + x + (y - (s + x))| == |s + x| + |y - (s + x)|;
    assert |s + ((x + y) - s)| == |s| + |(x + y) - s|;
    Smaller((x + y) - s, all - s);
  }

  lemma {:induction false} RunsGrow(r: nat, lo: nat, n: nat, m: nat)
    requires n <= m
    ensures Ways(RunPages(r, lo, n)) <= Ways(RunPages(r, lo, m))
    decreases m
  {
    hide Split, Ways, RunPages;
    if n < m {
      RunsGrow(r, lo, n, m - 1);
      OneMorePage(r, lo, m - 1);
    }
  }

  lemma FewerPages(start: nat, hi: nat, end: nat, n: nat)
    requires start <= hi < end && start % PAGE_SIZE == 0 && end % PAGE_SIZE == 0 && hi == start + n * PAGE_SIZE
    ensures n < (end - start) / PAGE_SIZE && start + (end - start) / PAGE_SIZE * PAGE_SIZE == end
  {
  }

  lemma RunNotFailing(t: Tree, v: Frames, g: Tree, w: Frames, threads: set<nat>, r: nat, lo: nat, n: nat, failing: nat)
    requires RunPaid(t, v, g, w, threads, r, lo, n, failing)
    ensures n > 0 ==> failing == 0
  {
  }

  lemma NotPayable(t: Tree, r: nat, lo: nat, n: nat, failing: nat, v: Frames, threads: set<nat>)
    requires InTheWay(t.ptes, r, lo, lo + n * PAGE_SIZE)
    ensures Unpayable(t, r, lo, n, failing, v, threads)
  {
  }

  /** The tables there and those of the next page are among those of the whole run. */
  lemma TablesAhead(t: Tree, t1: Tree, r: nat, lo: nat, n: nat, m: nat)
    requires t1.node.Keys == t.node.Keys + Ways(RunPages(r, lo, n)) && n < m
    ensures |t1.node.Keys| + |Ways({Split(r, lo + n * PAGE_SIZE)}) - t1.node.Keys| <=
            |t.node.Keys| + |Ways(RunPages(r, lo, m)) - t.node.Keys|
  {
    hide Split, Ways, RunPages;
    OneMorePage(r, lo, n);
    RunsGrow(r, lo, n + 1, m);
    MoreTables(t.node.Keys, Ways(RunPages(r, lo, n)), Ways({Split(r, lo + n * PAGE_SIZE)}), Ways(RunPages(r, lo, m)));
  }

  /** When the next page cannot be had, the run could not be paid for. */
  lemma RunShort(t: Tree, v: Frames, t1: Tree, v1: Frames, threads: set<nat>, r: nat, lo: nat, n: nat, m: nat,
                 failing: nat)
    requires RunPaid(t, v, t1, v1, threads, r, lo, n, failing) && n < m
    requires NoRoom(t1, Split(r, lo + n * PAGE_SIZE), failing, v1, threads)
    ensures Unpayable(t, r, lo, m, failing, v, threads)
  {
    hide Split, Ways, RunPages, Avail, InTheWay;
    TablesAhead(t, t1, r, lo, n, m);
    assert |t1.node| == |t1.node.Keys| && |t.node| == |t.node.Keys|;
  }

  lemma RunAfforded(t: Tree, v: Frames, g: Tree, w: Frames, threads: set<nat>, r: nat, lo: nat, n: nat, failing: nat,
                    rw: bool)
    requires RunPaid(t, v, g, w, threads, r, lo, n, failing) && Growing(t, v, g, w, r, lo, lo + n * PAGE_SIZE, rw)
    ensures !Unpayable(t, r, lo, n, failing, v, threads)
  {
    hide Split, Ways, RunPages, Avail, Kept, InRun;
    var all := Ways(RunPages(r, lo, n));
    assert t.node.Keys + all == t.node.Keys + (all - t.node.Keys);
    assert |t.node.Keys + (all - t.node.Keys)| == |t.node.Keys| + |all - t.node.Keys|;
    assert |g.node| == |g.node.Keys| && |t.node| == |t.node.Keys|;
  }

  lemma SplitSpace(r: nat, a: nat)
    ensures Split(r, a).r == r
  {
  }

  lemma GrowingMap(t0: Tree, v0: Frames, t: Tree, v: Frames, g: Tree, w: Frames, r: nat, lo: nat, hi: nat, rw: bool,
                   f: nat)
    requires Growing(t0, v0, t, v, r, lo, hi, rw) && lo <= hi && hi % PAGE_SIZE == 0 && hi < USER_TOP
    requires Split(r, hi) !in t.ptes && g.ptes == t.ptes[Split(r, hi) := Pte(f, rw, false)]
    requires Extends(t, g, Split(r, hi)) && Kept(v, w) && f < |v| && !v[f].used
    requires UserPages(w) == UserPages(v)[f := UserPage(1, v[f].bytes)]
    ensures Growing(t0, v0, g, w, r, lo, hi + PAGE_SIZE, rw)
  {
    hide Rebuild, Split;
    forall q ensures q in g.ptes && q !in t0.ptes <==> InRun(q, r, lo, hi + PAGE_SIZE) { RunStep(q, r, lo, hi); }
    KeptTrans(v0, v, w);
    forall k | Root(k) in g.node ensures Root(k) in t0.node { NotRoot(Split(r, hi)); }
    forall x: nat | Pmm.UserAt(w, x) && x < |v0| && !v0[x].used ensures w[x].refs > 0 {
      UserPageIn(w, x);
      if x != f { assert x in UserPages(v); }
    }
  }

  lemma NotRoot(q: Va)
    ensures !q.Above(3).Root? && !q.Above(2).Root? && !q.Above(1).Root?
  {
  }

  lemma KeptTrans(v: Frames, v1: Frames, w: Frames)
    requires Kept(v, v1) && Kept(v1, w)
    ensures Kept(v, w)
  {
    forall x | 0 <= x < |v| ensures KeptAt(v[x], w[x]) { assert KeptAt(v[x], v1[x]) && KeptAt(v1[x], w[x]); }
  }

  /** In tables without empty ones, every table but a PML4 leads to some page. */
  lemma {:induction false} LeadsToPage(t: Tree, kernel: Table, x: Pos) returns (q: Va)
    requires TreeInv(t, kernel) && Tight(t) && x in t.node && x.Child? && 1 <= x.Level() <= 3
    ensures q in t.ptes && q.Above(x.Level()) == x
    decreases x.Level()
  {
    hide TreeInv;
    SomethingBelow(t, kernel, x);
    if y :| y in t.node && y.Child? && y.up == x {
      PlacedFacts(t, kernel, y);
      LevelBound(y);
      q := LeadsToPage(t, kernel, y);
      AboveStep(q, x.Level());
    } else {
      assert forall i :: Child(x, i) !in t.node by {
        forall i ensures Child(x, i) !in t.node { assert Child(x, i).up == x; }
      }
      q :| q in t.ptes && q.Pt() == x;
      PtLevel(q);
    }
  }

  /** Where no table is empty, the tables on the ways are all tables of the space. */
  lemma TightWays(t: Tree, kernel: Table, a: nat)
    requires TreeInv(t, kernel) && Tight(t)
    ensures Ways(PagesOf(t.ptes, a)) == set p | p in t.node && p.Child? && p.Space() == a
  {
    hide TreeInv, Tight;
    var all := set p | p in t.node && p.Child? && p.Space() == a;
    forall p | p in all ensures p in Ways(PagesOf(t.ptes, a)) {
      PlacedFacts(t, kernel, p);
      LevelBound(p);
      var q := LeadsToPage(t, kernel, p);
      AboveSpace(q, p.Level());
      assert q in PagesOf(t.ptes, a);
    }
    forall p | p in Ways(PagesOf(t.ptes, a)) ensures p in all {
      WaySpace(PagesOf(t.ptes, a), a, p);
      var q, l :| q in PagesOf(t.ptes, a) && 1 <= l <= 3 && p == q.Above(l);
      PathPresent(t, kernel, q, l);
    }
  }

  lemma PtLevel(q: Va)
    ensures q.Pt().Level() == 1
  {
    assert Child(Root(q.r), q.a).Level() == 3;
    assert Child(Child(Root(q.r), q.a), q.b).Level() == 2;
  }

  lemma TablesStay(t0: Tree, t: Tree, g: Tree, kernel: Table, q: Va)
    requires TreeInv(t0, kernel) && TreeInv(g, kernel) && Tight(t0) && Shrinks(t, g, q)
    requires forall x :: x in t0.node ==> x in t.node && t.node[x] == t0.node[x]
    requires forall q :: q in t0.ptes ==> q in g.ptes
    ensures forall x :: x in t0.node ==> x in g.node && g.node[x] == t0.node[x]
  {
    hide TreeInv, Tight;
    forall x | x in t0.node ensures x in g.node && g.node[x] == t0.node[x] {
      PlacedFacts(t0, kernel, x);
      LevelBound(x);
      if x.Child? {
        var k := LeadsToPage(t0, kernel, x);
        PathPresent(g, kernel, k, x.Level());
      } else {
        NotRoot(q);
      }
    }
  }

  lemma UnmapKept(t0: Tree, v0: Frames, t: Tree, v: Frames, g: Tree, w: Frames, threads: set<nat>, kt: set<nat>, f: nat)
    requires Placed(t0) && Placed(g) && Linked(t0, v0, threads, kt) && Linked(t, v, threads, kt) && Kept(v0, v)
    requires f < |v0| && f < |v| && !v0[f].used && v[f].refs > 0 && Pmm.UserAt(v, f)
    requires Pruned(Pmm.Released(v, f), w, t, g)
    requires forall x :: x in t0.node ==> x in g.node && g.node[x] == t0.node[x]
    ensures Kept(v0, w)
  {
    forall x | 0 <= x < |v0| ensures KeptAt(v0[x], w[x]) {
      assert KeptAt(v0[x], v[x]);
      if x in t.home { assert TablePage(v, threads, x); }
      if x in t0.home { assert t0.home[x] in g.node; assert x in g.home; }
    }
  }

  lemma GrowingUnmap(t0: Tree, v0: Frames, t: Tree, v: Frames, g: Tree, w: Frames, kernel: Table,
                     threads: set<nat>, kt: set<nat>, r: nat, lo: nat, hi: nat, rw: bool)
    requires TreeInv(t0, kernel) && TreeInv(t, kernel) && TreeInv(g, kernel) && Tight(t0)
    requires Linked(t0, v0, threads, kt) && Linked(t, v, threads, kt)
    requires Growing(t0, v0, t, v, r, lo, hi, rw)
    requires lo < hi <= USER_TOP && lo % PAGE_SIZE == 0 && hi % PAGE_SIZE == 0
    requires Split(r, lo) in t.ptes && g.ptes == t.ptes - {Split(r, lo)} && Shrinks(t, g, Split(r, lo))
    requires var f := t.ptes[Split(r, lo)].frame;
      f < |v| && v[f].refs > 0 && Pruned(Pmm.Released(v, f), w, t, g)
    ensures Growing(t0, v0, g, w, r, lo + PAGE_SIZE, hi, rw)
  {
    hide TreeInv, Linked, Tight, Rebuild, Split, Kept, Pruned, InRun, Placed, Upper, Refs, Pmm.Released;
    var q0 := Split(r, lo);
    var f := t.ptes[q0].frame;
    RunStep(q0, r, lo, lo);
    RunTail(q0, r, lo, hi);
    assert q0 !in t0.ptes;
    TablesStay(t0, t, g, kernel, q0);
    PlacedOf(t0, kernel);
    PlacedOf(g, kernel);
    PteFacts(t, v, threads, kt, q0);
    UnmapKept(t0, v0, t, v, g, w, threads, kt, f);
    forall q ensures q in g.ptes && q !in t0.ptes <==> InRun(q, r, lo + PAGE_SIZE, hi) { RunTail(q, r, lo, hi); }
    UnmapOrphans(v0, v, w, t, g, f);
    GrowingIntro(t0, v0, g, w, r, lo + PAGE_SIZE, hi, rw);
  }

  lemma GrowingIntro(t0: Tree, v0: Frames, t: Tree, v: Frames, r: nat, lo: nat, hi: nat, rw: bool)
    requires Kept(v0, v)
    requires forall x :: x in t0.node ==> x in t.node && t.node[x] == t0.node[x]
    requires forall k :: Root(k) in t.node ==> Root(k) in t0.node
    requires forall q :: q in t0.ptes ==> q in t.ptes && t.ptes[q] == t0.ptes[q]
    requires forall q :: q in t.ptes && q !in t0.ptes <==> InRun(q, r, lo, hi)
    requires forall q :: q in t.ptes && q !in t0.ptes ==>
          t.ptes[q].rw == rw && !t.ptes[q].cow && t.ptes[q].frame < |v0| && !v0[t.ptes[q].frame].used
    requires forall f: nat :: Pmm.UserAt(v, f) && f < |v0| && !v0[f].used ==> v[f].refs > 0
    ensures Growing(t0, v0, t, v, r, lo, hi, rw)
  {
  }

  lemma RunTail(q: Va, r: nat, lo: nat, hi: nat)
    requires lo < hi <= USER_TOP && lo % PAGE_SIZE == 0 && hi % PAGE_SIZE == 0
    ensures InRun(q, r, lo, hi) <==> InRun(q, r, lo + PAGE_SIZE, hi) || q == Split(r, lo)
    ensures !InRun(Split(r, lo), r, lo + PAGE_SIZE, hi)
  {
    hide Rebuild, Split;
    RunStep(q, r, lo, lo);
    RunStep(Split(r, lo), r, lo, lo);
    assert lo + PAGE_SIZE <= hi;
  }

  lemma UnmapOrphans(v0: Frames, v: Frames, w: Frames, t: Tree, g: Tree, f: nat)
    requires f < |v| && v[f].refs > 0 && Pruned(Pmm.Released(v, f), w, t, g)
    requires forall x: nat :: Pmm.UserAt(v, x) && x < |v0| && !v0[x].used ==> v[x].refs > 0
    ensures forall x: nat :: Pmm.UserAt(w, x) && x < |v0| && !v0[x].used ==> w[x].refs > 0
  {
    forall x: nat | Pmm.UserAt(w, x) && x < |v0| && !v0[x].used ensures w[x].refs > 0 {
      assert Pmm.UserAt(v, x);
    }
  }

  /** When the run is empty again, tables and pages are exactly what they were. */
  lemma RolledBack(t0: Tree, v0: Frames, g: Tree, w: Frames, kernel: Table, threads: set<nat>, kt: set<nat>,
                   r: nat, lo: nat, rw: bool)
    requires TreeInv(t0, kernel) && TreeInv(g, kernel) && Tight(t0) && Tight(g)
    requires Linked(t0, v0, threads, kt) && Linked(g, w, threads, kt)
    requires Growing(t0, v0, g, w, r, lo, lo, rw)
    ensures g == t0 && SameFrames(w, v0)
  {
    hide TreeInv, Linked, Tight, Kept;
    assert g.ptes == t0.ptes by { assert forall q :: !InRun(q, r, lo, lo); }
    forall x | x in g.node ensures x in t0.node {
      PlacedFacts(g, kernel, x);
      LevelBound(x);
      if x.Child? {
        var q := LeadsToPage(g, kernel, x);
        PathPresent(t0, kernel, q, x.Level());
      } else {
        assert x == Root(x.r);
      }
    }
    assert g.node == t0.node;
    TreeDetermined(g, t0, kernel);
    FramesBack(t0, v0, w, threads, kt);
  }

  lemma FramesBack(t: Tree, v: Frames, w: Frames, threads: set<nat>, kt: set<nat>)
    requires Linked(t, v, threads, kt) && Linked(t, w, threads, kt) && Kept(v, w)
    requires forall f: nat :: Pmm.UserAt(w, f) && f < |v| && !v[f].used ==> w[f].refs > 0
    ensures SameFrames(w, v)
  {
    forall x | 0 <= x < |v| ensures Alike(w[x], v[x]) {
      assert KeptAt(v[x], w[x]);
      if Pmm.UserAt(w, x) && w[x].refs > 0 { MappedInBoth(t, v, w, threads, kt, x); }
    }
  }

  lemma MappedInBoth(t: Tree, v: Frames, w: Frames, threads: set<nat>, kt: set<nat>, x: nat)
    requires Linked(t, v, threads, kt) && Linked(t, w, threads, kt)
    requires Pmm.UserAt(w, x) && w[x].refs > 0
    ensures Pmm.UserAt(v, x)
  {
    PageCounted(t, w, threads, kt, x);
    var q :| q in Refs(t.ptes, x);
    assert Pmm.UserAt(v, t.ptes[q].frame);
  }

  // ------------------------------------------------------------------ process

  /** Every page of an anonymous area that is not a stack is mapped. */
  ghost predicate Backed(ptes: map<Va, Pte>, r: nat, areas: seq<Area>) {
    forall i, q ::
      (0 <= i < |areas| && Fixed(areas[i]) && InRun(q, r, areas[i].start, areas[i].end)) ==> q in ptes
  }

  /** What munmap agrees to cut: anonymous and not a stack. */
  predicate Fixed(x: Area) {
    x.flags.anon && !x.flags.growsDown
  }

  const UINT64_MAX := 0xFFFF_FFFF_FFFF_FFFF

  function RoundUp(length: nat): nat {
    (length + PAGE_SIZE - 1) / PAGE_SIZE * PAGE_SIZE
  }

  datatype Prot = Prot(read: bool, write: bool, exec: bool, other: bool)

  function MmapArea(start: nat, size: nat, prot: Prot): Area {
    Area(start, start + size, Flags(prot.read, prot.write, prot.exec, false, true), 0)
  }

  /** What a caller of mmap may count on: the rights asked for, anonymous, and no stack. */
  predicate Grants(x: Area, start: nat, size: nat, prot: Prot) {
    && x.start == start && x.end == start + size && x.offset == 0
    && x.flags.read == prot.read && x.flags.write == prot.write && x.flags.exec == prot.exec
    && x.flags.anon && !x.flags.growsDown
  }

  /** The interval lies inside one area munmap may cut; a cut out of its middle needs a node. */
  ghost predicate Removable(xs: seq<Area>, address: nat, length: nat, node: bool) {
    address != 0 && address % PAGE_SIZE == 0 && length != 0 &&
    exists k: nat :: Inside(xs, k, address, RoundUp(length), node)
  }

  predicate Inside(xs: seq<Area>, k: nat, address: nat, size: nat, node: bool) {
    k < |xs| && xs[k].start <= address < xs[k].end && address + size <= xs[k].end &&
    xs[k].flags.anon && !xs[k].flags.growsDown &&
    (xs[k].start < address && address + size < xs[k].end ==> node)
  }

  /** Areas end below 2^47, so the overflow tests turn nothing away that would fit. */
  lemma OnlyInside(xs: seq<Area>, address: nat, length: nat, node: bool)
    requires Sorted(xs)
    ensures Removable(xs, address, length, node) ==>
              address != 0 && address % PAGE_SIZE == 0 && length != 0 &&
              length <= UINT64_MAX - (PAGE_SIZE - 1) && address <= UINT64_MAX - RoundUp(length)
  {
    if Removable(xs, address, length, node) {
      var k: nat :| Inside(xs, k, address, RoundUp(length), node);
      AreaBounds(xs, k);
      RoundUpFacts(length);
    }
  }

  /** The area find_vma returns is the only one that can hold the interval. */
  lemma OneRemovable(xs: seq<Area>, at: nat, address: nat, length: nat, node: bool)
    requires Sorted(xs) && at <= |xs| && address != 0 && address % PAGE_SIZE == 0 && length != 0
    requires at < |xs| ==> In(xs, address, at)
    requires at == |xs| ==> !Covered(xs, address)
    ensures Removable(xs, address, length, node) <==> Inside(xs, at, address, RoundUp(length), node)
  {
    if Removable(xs, address, length, node) {
      var k: nat :| Inside(xs, k, address, RoundUp(length), node);
      assert In(xs, address, k);
      OneArea(xs, address, k, at);
    }
  }

  lemma RoundUpFacts(length: nat)
    ensures length <= RoundUp(length) < length + PAGE_SIZE && RoundUp(length) % PAGE_SIZE == 0
  {
  }

  class Process {
    const vm: AddressSpaces
    const r: nat              // PML4 frame
    var areas: seq<Area>
    var nextMmapBase: nat

    /** The address space side of the invariant. */
    ghost predicate Mapping()
      reads vm, vm.pmm, vm.pmm.bits, vm.pmm.reservedBits, vm.pmm.owners, vm.pmm.refcounts, vm.pmm.mem
    {
      vm.Valid() && r != 0 && Root(r) in vm.tree.node && Tight(vm.tree) && SharedPages.Inv(vm.Abs())
    }

    ghost predicate Valid()
      reads this, vm, vm.pmm, vm.pmm.bits, vm.pmm.reservedBits, vm.pmm.owners, vm.pmm.refcounts, vm.pmm.mem
    {
      && Mapping()
      && Sorted(areas) && Backed(vm.tree.ptes, r, areas) && nextMmapBase % PAGE_SIZE == 0
    }

    constructor (vm: AddressSpaces, r: nat)
      requires vm.Valid() && r != 0 && Root(r) in vm.tree.node && Tight(vm.tree) && SharedPages.Inv(vm.Abs())
      ensures Valid() && this.vm == vm && this.r == r && areas == [] && nextMmapBase == 0x6000_0000_0000
    {
      hide AddressSpaces.Valid, AddressSpaces.Abs, SharedPages.Inv, Tight, Backed;
      this.vm, this.r := vm, r;
      areas, nextMmapBase := [], 0x6000_0000_0000;
      new;
      BackedNone(vm.tree.ptes, r);
    }

    /** process_add_vma; `node` tells whether kmalloc has room for the list node. */
    method AddArea(x: Area, node: bool) returns (res: int, ghost k: nat)
      requires Sorted(areas)
      modifies this`areas
      ensures res == 0 <==> x.Well() && !Overlaps(old(areas), x.start, x.end) && node
      ensures res == 0 || (res == -1 && areas == old(areas))
      ensures res == 0 ==> k <= |old(areas)| && areas == InsertAt(old(areas), k, x) && Sorted(areas)
      ensures res == 0 && k < |old(areas)| ==> old(areas)[k].start >= x.start
    {
      k := 0;
      if x.start == 0 || x.start >= x.end || x.start % PAGE_SIZE != 0 || x.end % PAGE_SIZE != 0 ||
         x.end > USER_TOP {
        return -1, 0;
      }
      var overlap := FindOverlap(areas, x.start, x.end);
      if overlap || !node { return -1, 0; }
      var at := InsertionPoint(areas, x.start);
      InsertSorted(areas, at, x);
      areas := InsertAt(areas, at, x);
      return 0, at;
    }

    /** Where mmap puts an area of `length` bytes: at the hint, or at the first of the
        addresses base, base + length, base + 2 * length, ... that overlaps nothing. */
    method Place(hint: nat, length: nat) returns (ok: bool, start: nat, ghost k: nat)
      requires length > 0 && length % PAGE_SIZE == 0 && hint % PAGE_SIZE == 0 && nextMmapBase % PAGE_SIZE == 0
      ensures ok ==> 0 < start && start % PAGE_SIZE == 0 && start + length <= USER_TOP
      ensures ok ==> !Overlaps(areas, start, start + length)
      ensures hint != 0 ==> (ok <==> hint + length <= USER_TOP && !Overlaps(areas, hint, hint + length))
      ensures hint != 0 && ok ==> start == hint
      ensures hint == 0 && ok ==> nextMmapBase != 0 && FirstFree(areas, nextMmapBase, length, start, k)
      ensures hint == 0 && !ok && nextMmapBase != 0 ==>
        forall j: nat :: Fits(Candidate(nextMmapBase, j, length), length) ==>
        Blocked(areas, Candidate(nextMmapBase, j, length), length)
    {
      hide Candidate, Overlaps;
      k := 0;
      start := if hint != 0 then hint else nextMmapBase;
      CandidateFacts(nextMmapBase, 0, length);
      if start == 0 || start >= USER_TOP || length > USER_TOP - start {
        forall j: nat
          ensures Candidate(nextMmapBase, j, length) >= nextMmapBase
        {
          CandidateMono(nextMmapBase, 0, j, length);
        }
        return false, start, 0;
      }
      var taken := FindOverlap(areas, start, start + length);
      if !taken { return true, start, 0; }
      if hint != 0 { return false, start, 0; }
      while true
        invariant start == Candidate(nextMmapBase, k, length) && 0 < start && start % PAGE_SIZE == 0
        invariant start + length <= USER_TOP && Blocked(areas, start, length)
        invariant forall j: nat :: j < k ==> Blocked(areas, Candidate(nextMmapBase, j, length), length)
        decreases USER_TOP - start
      {
        start := start + length;
        CandidateFacts(nextMmapBase, k, length);
        k := k + 1;
        if start >= USER_TOP || length > USER_TOP - start {
          forall j: nat | j >= k
            ensures Candidate(nextMmapBase, j, length) >= start
          {
            CandidateMono(nextMmapBase, k, j, length);
          }
          return false, start, k;
        }
        taken := FindOverlap(areas, start, start + length);
        if !taken { return true, start, k; }
      }
    }

    /** One more page of the run. */
    method MapNext(ghost t: Tree, ghost v: Frames, lo: nat, hi: nat, rw: bool) returns (res: int)
      requires Mapping() && Growing(t, v, vm.tree, vm.pmm.view, r, lo, hi, rw)
      requires lo <= hi < USER_TOP && hi % PAGE_SIZE == 0 && Root(r) in t.node
      modifies vm`tables, vm`tree, vm.pmm`view, vm.pmm`failAllocations, vm.pmm.bits, vm.pmm.owners,
               vm.pmm.refcounts, vm.pmm.mem
      ensures Mapping() && (res == 0 || res == -1)
      ensures Growing(t, v, vm.tree, vm.pmm.view, r, lo, if res == 0 then hi + PAGE_SIZE else hi, rw)
      ensures res != 0 ==>
        || InTheWay(t.ptes, r, lo, hi + PAGE_SIZE)
        || NoRoom(old(vm.tree), Split(r, hi), old(vm.pmm.failAllocations), old(vm.pmm.view), vm.pmm.threads)
      ensures res == 0 ==>
        old(vm.pmm.failAllocations) == 0 && vm.tree.node.Keys == old(vm.tree.node.Keys) + Ways({Split(r, hi)})
      ensures res == 0 ==>
        |Avail(vm.pmm.view, vm.pmm.threads)| + |vm.tree.node| + 1 ==
            |Avail(old(vm.pmm.view), vm.pmm.threads)| + |old(vm.tree.node)|
      ensures vm.pmm.failAllocations <= old(vm.pmm.failAllocations)
    {
      hide AddressSpaces.Valid, SharedPages.Inv, Growing, Kept, MappedFresh, Tight, Split, Extends, SameFrames, Avail,
        InTheWay, Ways;
      ghost var t1, v1, s := vm.tree, vm.pmm.view, vm.Abs();
      ghost var f;
      res, f := MapNewPage(vm, r, hi, rw);
      if res != 0 {
        GrowingSame(t, v, t1, v1, vm.pmm.view, r, lo, hi, rw);
        SameAbs(t1, v1, vm.pmm.view);
        WasInTheWay(t, v, t1, v1, r, lo, hi, rw);
      } else {
        MappedFreshFacts(s, vm.Abs(), Split(r, hi), f, v1[f].bytes, rw);
        GrowingMap(t, v, t1, v1, vm.tree, vm.pmm.view, r, lo, hi, rw, f);
        GrowingRoot(t, v, vm.tree, vm.pmm.view, r, lo, hi + PAGE_SIZE, rw);
      }
    }

    /** The rollback of mmap takes the mapped pages away, lowest first. */
    method UnmapFirst(ghost t: Tree, ghost v: Frames, lo: nat, ghost hi: nat, ghost rw: bool)
      requires Mapping() && Growing(t, v, vm.tree, vm.pmm.view, r, lo, hi, rw) && Root(r) in t.node
      requires lo < hi <= USER_TOP && lo % PAGE_SIZE == 0 && hi % PAGE_SIZE == 0
      requires TreeInv(t, vm.kernel) && Tight(t) && Linked(t, v, vm.pmm.threads, vm.kernelTables)
      modifies vm`tables, vm`tree, vm.pmm`view, vm.pmm.bits, vm.pmm.owners, vm.pmm.refcounts, vm.pmm.mem
      ensures Mapping() && Growing(t, v, vm.tree, vm.pmm.view, r, lo + PAGE_SIZE, hi, rw)
    {
      hide TreeInv, Linked, Pmm.PageMap.Valid, SharedPages.Inv, Growing, Kept, Tight, Split, Shrinks, Pruned, Unmap,
        UserPages, Pmm.Released;
      ghost var t1, v1, s := vm.tree, vm.pmm.view, vm.Abs();
      RunHead(t, v, t1, v1, r, lo, hi, rw);
      UnmapKeepsInv(s, Split(r, lo));
      var res := vm.UnmapUserPage(r, lo);
      GrowingUnmap(t, v, t1, v1, vm.tree, vm.pmm.view, vm.kernel, vm.pmm.threads, vm.kernelTables, r, lo, hi, rw);
      GrowingRoot(t, v, vm.tree, vm.pmm.view, r, lo + PAGE_SIZE, hi, rw);
    }

    method Rollback(ghost t: Tree, ghost v: Frames, start: nat, hi: nat, ghost rw: bool)
      requires Mapping() && Growing(t, v, vm.tree, vm.pmm.view, r, start, hi, rw) && Root(r) in t.node
      requires start <= hi <= USER_TOP && start % PAGE_SIZE == 0 && hi % PAGE_SIZE == 0
      requires TreeInv(t, vm.kernel) && Tight(t) && Linked(t, v, vm.pmm.threads, vm.kernelTables)
      modifies vm`tables, vm`tree, vm.pmm`view, vm.pmm.bits, vm.pmm.owners, vm.pmm.refcounts, vm.pmm.mem
      ensures Mapping() && vm.tree == t && SameFrames(vm.pmm.view, v)
    {
      hide TreeInv, Linked, Pmm.PageMap.Valid, SharedPages.Inv, Growing, Tight, SameFrames, UserPages;
      var lo := start;
      while lo < hi
        invariant start <= lo <= hi && lo % PAGE_SIZE == 0 && Mapping()
        invariant Growing(t, v, vm.tree, vm.pmm.view, r, lo, hi, rw)
      {
        UnmapFirst(t, v, lo, hi, rw);
        lo := lo + PAGE_SIZE;
      }
      RolledBack(t, v, vm.tree, vm.pmm.view, vm.kernel, vm.pmm.threads, vm.kernelTables, r, hi, rw);
    }

    /** The page loop of process_mmap with its rollback. */
    method MapRun(start: nat, end: nat, rw: bool) returns (res: int)
      requires Mapping() && start <= end <= USER_TOP && start % PAGE_SIZE == 0 && end % PAGE_SIZE == 0
      modifies vm`tables, vm`tree, vm.pmm`view, vm.pmm`failAllocations, vm.pmm.bits, vm.pmm.owners,
               vm.pmm.refcounts, vm.pmm.mem
      ensures Mapping() && (res == 0 || res == -1)
      ensures res == 0 ==> Growing(old(vm.tree), old(vm.pmm.view), vm.tree, vm.pmm.view, r, start, end, rw)
      ensures res != 0 ==> vm.tree == old(vm.tree) && SameFrames(vm.pmm.view, old(vm.pmm.view))
      ensures res != 0 <==> Unpayable(old(vm.tree), r, start, (end - start) / PAGE_SIZE, old(vm.pmm.failAllocations),
                                      old(vm.pmm.view), vm.pmm.threads)
      ensures vm.pmm.failAllocations <= old(vm.pmm.failAllocations)
    {
      hide TreeInv, Linked, Pmm.PageMap.Valid, SharedPages.Inv, Growing, Tight, SameFrames, UserPages, Avail,
        InTheWay, RunPaid, Ways, NoRoom, Unpayable, Split;
      ghost var t, v, failing := vm.tree, vm.pmm.view, vm.pmm.failAllocations;
      RunPaidNone(t, v, vm.pmm.threads, r, start, failing);
      ghost var all := (end - start) / PAGE_SIZE;
      GrowingNone(t, v, r, start, rw);
      var hi := start;
      ghost var n := 0;
      while hi < end
        invariant start <= hi <= end && hi % PAGE_SIZE == 0 && Mapping() && hi == start + n * PAGE_SIZE
        invariant Growing(t, v, vm.tree, vm.pmm.view, r, start, hi, rw)
        invariant RunPaid(t, v, vm.tree, vm.pmm.view, vm.pmm.threads, r, start, n, failing)
        invariant vm.pmm.failAllocations <= failing && (n == 0 ==> vm.pmm.failAllocations == failing)
      {
        ghost var t1, v1, failing1 := vm.tree, vm.pmm.view, vm.pmm.failAllocations;
        FewerPages(start, hi, end, n);
        RunNotFailing(t, v, t1, v1, vm.pmm.threads, r, start, n, failing);
        res := MapNext(t, v, start, hi, rw);
        if res != 0 {
          if InTheWay(t.ptes, r, start, hi + PAGE_SIZE) {
            StillInTheWay(t.ptes, r, start, hi + PAGE_SIZE, end);
            NotPayable(t, r, start, all, failing, v, vm.pmm.threads);
          } else {
            RunShort(t, v, t1, v1, vm.pmm.threads, r, start, n, all, failing);
          }
          Rollback(t, v, start, hi, rw);
          return -1;
        }
        RunPaidStep(t, v, t1, v1, vm.tree, vm.pmm.view, vm.pmm.threads, r, start, n, failing);
        hi := hi + PAGE_SIZE;
        n := n + 1;
      }
      RunAfforded(t, v, vm.tree, vm.pmm.view, vm.pmm.threads, r, start, n, failing, rw);
      return 0;
    }

    /** The pages of an area just listed; the area goes again when one cannot be had. */
    method BackArea(x: Area, ghost k: nat, ghost before: seq<Area>) returns (res: int)
      requires Mapping() && Sorted(areas) && k <= |before| && areas == InsertAt(before, k, x) && x.Well()
      requires Backed(vm.tree.ptes, r, before)
      modifies this`areas, vm`tables, vm`tree, vm.pmm`view, vm.pmm`failAllocations, vm.pmm.bits, vm.pmm.owners,
               vm.pmm.refcounts, vm.pmm.mem
      ensures Mapping() && (res == 0 || res == -1)
      ensures res != 0 ==> areas == before && vm.tree == old(vm.tree) && SameFrames(vm.pmm.view, old(vm.pmm.view))
      ensures res == 0 ==> areas == old(areas) && Backed(vm.tree.ptes, r, areas)
      ensures res == 0 ==>
        Growing(old(vm.tree), old(vm.pmm.view), vm.tree, vm.pmm.view, r, x.start, x.end, x.flags.write)
      ensures res != 0 <==>
        Unpayable(old(vm.tree), r, x.start, (x.end - x.start) / PAGE_SIZE, old(vm.pmm.failAllocations),
                                      old(vm.pmm.view), vm.pmm.threads)
      ensures vm.pmm.failAllocations <= old(vm.pmm.failAllocations)
    {
      hide Mapping, Growing, SameFrames, Backed, Sorted, SharedPages.Inv, Tight, AddressSpaces.Valid, Unpayable;
      ghost var t, v := vm.tree, vm.pmm.view;
      res := MapRun(x.start, x.end, x.flags.write);
      if res != 0 {
        RemoveArea(x.start, k, before, x);
        return -1;
      }
      BackedMore(t, v, vm.tree, vm.pmm.view, r, before, k, x);
    }

    /** process_mmap of private anonymous memory. A success adds one area and maps every
        page of it on a page that was free; a failure changes nothing. */
    method Mmap(hint: nat, length: nat, prot: Prot, flagsOk: bool, node: bool)
      returns (res: int, address: nat, ghost k: nat)
      requires Valid()
      modifies this, vm`tables, vm`tree, vm.pmm`view, vm.pmm`failAllocations, vm.pmm.bits, vm.pmm.owners,
               vm.pmm.refcounts, vm.pmm.mem
      ensures Valid()
      ensures res == 0 || res == -1
      ensures res != 0 ==> areas == old(areas) && nextMmapBase == old(nextMmapBase) && address == 0
      ensures res != 0 ==> vm.tree == old(vm.tree) && SameFrames(vm.pmm.view, old(vm.pmm.view))
      ensures res == 0 ==> length > 0 && flagsOk && !prot.other && (hint != 0 ==> address == hint)
      ensures res == 0 ==> k <= |old(areas)| && !Overlaps(old(areas), address, address + RoundUp(length))
      ensures res == 0 ==> k < |areas| && areas == InsertAt(old(areas), k, areas[k])
      ensures res == 0 ==> Grants(areas[k], address, RoundUp(length), prot)
      ensures res == 0 ==> Growing(old(vm.tree), old(vm.pmm.view), vm.tree, vm.pmm.view, r,
                                   address, address + RoundUp(length), prot.write)
      ensures nextMmapBase == if res == 0 && hint == 0 then address + RoundUp(length) + PAGE_SIZE else old(nextMmapBase)
      ensures res != 0 <==>
        || !node || BadRequest(hint, length, prot, flagsOk)
        || NoPlace(old(areas), old(nextMmapBase), hint, RoundUp(length))
        || Unbacked(old(vm.tree), r, old(areas), old(nextMmapBase), hint, RoundUp(length), old(vm.pmm.failAllocations),
                    old(vm.pmm.view), vm.pmm.threads)
      ensures vm.pmm.failAllocations <= old(vm.pmm.failAllocations) && Others(vm.pmm.view) == old(Others(vm.pmm.view))
      ensures Roots(vm.tree) == old(Roots(vm.tree))
    {
      hide Unpayable, Candidate, Unbacked, NoPlace, PlaceIs, Mapping, Growing, SameFrames, RoundUp, Backed, Sorted,
        Overlaps, SharedPages.Inv, Tight, AddressSpaces.Valid, Others, Roots;
      address, k := 0, 0;
      ghost var areas0 := areas;
      SameRefl(vm.pmm.view);
      if length == 0 || !flagsOk || prot.other || hint % PAGE_SIZE != 0 || length > UINT64_MAX - (PAGE_SIZE - 1) {
        return -1, 0, 0;
      }
      var size := RoundUp(length);
      RoundUpFacts(length);
      ghost var n;
      var ok, start;
      ok, start, n := Place(hint, size);
      if !ok {
        Nowhere(areas, nextMmapBase, hint, size);
        return -1, 0, 0;
      }
      var added;
      added, k := AddArea(MmapArea(start, size, prot), node);
      if added != 0 { return -1, 0, 0; }
      PlaceFound(areas0, nextMmapBase, hint, size, start, n);
      BackedIff(vm.tree, r, areas0, nextMmapBase, hint, size, start, vm.pmm.failAllocations, vm.pmm.view,
                vm.pmm.threads);
      res := BackArea(MmapArea(start, size, prot), k, areas0);
      if res != 0 {
        OthersAlike(old(vm.pmm.view), vm.pmm.view);
        return -1, 0, 0;
      }
      GrowingOthers(old(vm.tree), old(vm.pmm.view), vm.tree, vm.pmm.view, r, start, start + size, prot.write);
      if hint == 0 { nextMmapBase := start + size + PAGE_SIZE; }
      return 0, start, k;
    }

    /** The failure path of mmap: unlink the area that starts at `start`. */
    method RemoveArea(start: nat, ghost k: nat, ghost before: seq<Area>, ghost x: Area)
      requires k <= |before| && areas == InsertAt(before, k, x) && x.start == start && Sorted(areas) && x.Well()
      modifies this`areas
      ensures areas == before
    {
      var i := 0;
      while i < |areas| && areas[i].start != start
        invariant 0 <= i <= k
      {
        assert areas[k] == x;
        i := i + 1;
      }
      assert areas[k] == x;
      assert i == k;
      RemoveInserted(before, k, x);
      areas := RemoveAt(areas, i);
    }

    // ---------------------------------------------------------------- munmap

    /** One page of the munmap loop. */
    method DropPage(ghost t: Tree, ghost m: Memory, lo: nat, page: nat)
      requires Mapping() && Dropping(t, m, vm.tree, Mem(vm.Abs()), r, lo, page) && Root(r) in t.node
      requires lo <= page < USER_TOP && page % PAGE_SIZE == 0 && Split(r, page) in t.ptes
      modifies vm`tables, vm`tree, vm.pmm`view, vm.pmm.bits, vm.pmm.owners, vm.pmm.refcounts, vm.pmm.mem
      ensures Mapping() && Dropping(t, m, vm.tree, Mem(vm.Abs()), r, lo, page + PAGE_SIZE)
      ensures forall k :: Root(k) in old(vm.tree.node) ==> Root(k) in vm.tree.node
      ensures Others(vm.pmm.view) == old(Others(vm.pmm.view)) && Roots(vm.tree) == old(Roots(vm.tree))
    {
      hide AddressSpaces.Valid, SharedPages.Inv, Tight, Split, Shrinks, Pruned, Unmap, UserPages, Mem, Dropping,
        Pmm.Released, Others, Roots;
      ghost var t1, s := vm.tree, vm.Abs();
      DroppingHead(t, m, t1, Mem(s), r, lo, page);
      UnmapKeepsInv(s, Split(r, page));
      UnmapRefines(s, Split(r, page));
      var res := vm.UnmapUserPage(r, page);
      forall k | Root(k) in t1.node ensures Root(k) in vm.tree.node { RootStays(t1, vm.tree, Split(r, page), k); }
      DroppingStep(t, m, t1, Mem(s), vm.tree, Mem(vm.Abs()), r, lo, page);
    }

    /** The loop of process_munmap over the pages of the interval. */
    method DropRun(ghost t: Tree, ghost m: Memory, address: nat, end: nat, ghost at: nat)
      requires Mapping() && t == vm.tree && m == Mem(vm.Abs()) && Sorted(areas) && Backed(t.ptes, r, areas)
      requires at < |areas| && Fixed(areas[at]) && areas[at].start <= address < end <= areas[at].end <= USER_TOP
      requires address % PAGE_SIZE == 0 && end % PAGE_SIZE == 0
      modifies vm`tables, vm`tree, vm.pmm`view, vm.pmm.bits, vm.pmm.owners, vm.pmm.refcounts, vm.pmm.mem
      ensures Mapping() && Dropping(t, m, vm.tree, Mem(vm.Abs()), r, address, end)
      ensures forall k :: Root(k) in t.node ==> Root(k) in vm.tree.node
      ensures Others(vm.pmm.view) == old(Others(vm.pmm.view)) && Roots(vm.tree) == old(Roots(vm.tree))
    {
      hide Mapping, Backed, Sorted, Mem, Dropping, Split, AddressSpaces.Abs, Others, Roots;
      DroppingNone(t, m, r, address);
      MappingRoot();
      var page := address;
      while page < end
        invariant address <= page <= end && page % PAGE_SIZE == 0 && Mapping() && areas == old(areas)
        invariant Dropping(t, m, vm.tree, Mem(vm.Abs()), r, address, page)
        invariant forall k :: Root(k) in t.node ==> Root(k) in vm.tree.node
        invariant Others(vm.pmm.view) == old(Others(vm.pmm.view)) && Roots(vm.tree) == old(Roots(vm.tree))
      {
        BackedPage(t.ptes, r, areas, at, page);
        DropPage(t, m, address, page);
        page := page + PAGE_SIZE;
      }
    }

    /** process_munmap of part of one mmap-created area: exactly the interval goes from
        the list, exactly its pages go from memory. */
    method Munmap(address: nat, length: nat, node: bool) returns (res: int, ghost k: nat)
      requires Valid()
      modifies this`areas, vm`tables, vm`tree, vm.pmm`view, vm.pmm.bits, vm.pmm.owners, vm.pmm.refcounts, vm.pmm.mem
      ensures Valid()
      ensures res == 0 || res == -1
      ensures res == 0 <==> Removable(old(areas), address, length, node)
      ensures res != 0 ==> areas == old(areas) && vm.tree == old(vm.tree) && vm.pmm.view == old(vm.pmm.view)
      ensures res == 0 ==> Inside(old(areas), k, address, RoundUp(length), node)
      ensures res == 0 ==> areas == Cut(old(areas), k, address, address + RoundUp(length))
      ensures res == 0 ==> Dropping(old(vm.tree), old(Mem(vm.Abs())), vm.tree, Mem(vm.Abs()), r,
                                    address, address + RoundUp(length))
      ensures forall k :: Root(k) in old(vm.tree.node) ==> Root(k) in vm.tree.node
      ensures Others(vm.pmm.view) == old(Others(vm.pmm.view)) && Roots(vm.tree) == old(Roots(vm.tree))
    {
      hide Mapping, RoundUp, Backed, Sorted, Mem, Dropping, Split, AddressSpaces.Abs, Removable, In, Covered, Others,
        Roots;
      k := 0;
      OnlyInside(areas, address, length, node);
      if address == 0 || address % PAGE_SIZE != 0 || length == 0 || length > UINT64_MAX - (PAGE_SIZE - 1) {
        return -1, 0;
      }
      var size := RoundUp(length);
      RoundUpFacts(length);
      if address > UINT64_MAX - size { return -1, 0; }
      var end := address + size;
      var at := Find(areas, address);
      OneRemovable(areas, at, address, length, node);
      if at == |areas| || end > areas[at].end || !Fixed(areas[at]) { return -1, 0; }
      var split := address > areas[at].start && end < areas[at].end;
      if split && !node { return -1, 0; }
      AreaBounds(areas, at);
      ghost var t, m := vm.tree, Mem(vm.Abs());
      DropRun(t, m, address, end, at);
      CutSorted(areas, at, address, end);
      BackedCut(t.ptes, vm.tree.ptes, r, areas, at, address, end, t, m, vm.tree, Mem(vm.Abs()));
      areas := Cut(areas, at, address, end);
      return 0, at;
    }

    lemma MappingRoot()
      requires Mapping()
      ensures Root(r) in vm.tree.node
    {
    }

    // ---------------------------------------------------------- stack growth

    /** process_handle_page_fault: an absent page of a stack area is mapped fresh. */
    method HandlePageFault(address: nat, write: bool) returns (res: int, ghost f: nat)
      requires Valid()
      modifies vm`tables, vm`tree, vm.pmm`view, vm.pmm`failAllocations, vm.pmm.bits, vm.pmm.owners,
               vm.pmm.refcounts, vm.pmm.mem
      ensures Valid()
      ensures res == 0 || res == -1
      ensures res != 0 ==> vm.tree == old(vm.tree) && SameFrames(vm.pmm.view, old(vm.pmm.view))
      ensures res == 0 ==> Grown(old(vm.tree.ptes), vm.tree.ptes, old(vm.Abs()), vm.Abs(), r, areas, address, write, f)
      ensures forall k :: Root(k) in old(vm.tree.node) ==> Root(k) in vm.tree.node
      ensures res != 0 <==>
        || address == 0 || address >= USER_TOP || !StackAccess(areas, address, write)
        || Split(r, address) in old(vm.tree.ptes)
        || NoRoom(old(vm.tree), Split(r, address), old(vm.pmm.failAllocations), old(vm.pmm.view), vm.pmm.threads)
      ensures vm.pmm.failAllocations <= old(vm.pmm.failAllocations)
      ensures Others(vm.pmm.view) == old(Others(vm.pmm.view)) && Roots(vm.tree) == old(Roots(vm.tree))
    {
      hide AddressSpaces.Valid, SharedPages.Inv, Tight, Split, Sorted, Backed, SameFrames, Extends, Kept, Mem,
        MappedFresh, UserPages, Grown, AddressSpaces.Abs, StackFault, In, Avail, StackAccess, Others, Roots, NoRoom;
      f := 0;
      SameRefl(vm.pmm.view);
      if address == 0 || address >= USER_TOP { return -1, 0; }
      var page := address - address % PAGE_SIZE;
      SplitMasked(r, address);
      var k := Find(areas, page);
      var found, pt, e := vm.GetUserPte(r, page);
      NoAccess(areas, k, address, write);
      if k == |areas| || !areas[k].flags.growsDown || (found && e.p) || (write && !areas[k].flags.write) {
        return -1, 0;
      }
      GrowsHere(areas, k, address, write);
      assert StackAccess(areas, address, write) by { AccessOf(areas, k, address, write); }
      res, f := GrowStack(address, write, k);
    }

    /** The faulting page of area k is allocated and mapped with the area's rights. */
    method GrowStack(address: nat, write: bool, k: nat) returns (res: int, ghost f: nat)
      requires Valid() && 0 < address < USER_TOP && StackFault(areas, k, address, write)
      modifies vm`tables, vm`tree, vm.pmm`view, vm.pmm`failAllocations, vm.pmm.bits, vm.pmm.owners,
               vm.pmm.refcounts, vm.pmm.mem
      ensures Valid()
      ensures res == 0 || res == -1
      ensures res != 0 ==> vm.tree == old(vm.tree) && SameFrames(vm.pmm.view, old(vm.pmm.view))
      ensures res == 0 ==> Grown(old(vm.tree.ptes), vm.tree.ptes, old(vm.Abs()), vm.Abs(), r, areas, address, write, f)
      ensures forall k :: Root(k) in old(vm.tree.node) ==> Root(k) in vm.tree.node
      ensures res != 0 <==>
        || Split(r, address) in old(vm.tree.ptes)
        || NoRoom(old(vm.tree), Split(r, address), old(vm.pmm.failAllocations), old(vm.pmm.view), vm.pmm.threads)
      ensures vm.pmm.failAllocations <= old(vm.pmm.failAllocations)
      ensures Others(vm.pmm.view) == old(Others(vm.pmm.view)) && Roots(vm.tree) == old(Roots(vm.tree))
    {
      hide AddressSpaces.Valid, SharedPages.Inv, Tight, Split, Sorted, Backed, SameFrames, Extends, Kept, Mem,
        MappedFresh, UserPages, Grown, In, Abstract, Avail, Others, Roots, NoRoom, Ways;
      ghost var t, v, s := vm.tree, vm.pmm.view, vm.Abs();
      var page := address - address % PAGE_SIZE;
      SplitMasked(r, address);
      res, f := MapNewPage(vm, r, page, areas[k].flags.write);
      if res != 0 {
        SameAbs(t, v, vm.pmm.view);
        return;
      }
      GrownFacts(t.ptes, vm.tree.ptes, s, vm.Abs(), r, areas, k, address, write, f, v[f].bytes);
      BackedStill(t.ptes, vm.tree.ptes, r, areas);
      ExtendsHome(t, vm.tree, Split(r, address));
      ExtendsRoots(t, vm.tree, Split(r, address));
    }

    // ---------------------------------------------------------- fork and exit

    /** process_fork up to the child's thread. `object` tells whether a process object
        could be had, `nodes` how many list nodes. A failure at any point leaves what
        every process sees as it was; a success gives the child a copy. */
    method ForkProcess(haveObject: bool, nodes: nat) returns (child: Process?)
      requires Valid()
      modifies vm`tables, vm`tree, vm.pmm`view, vm.pmm`failAllocations, vm.pmm.bits, vm.pmm.owners,
               vm.pmm.refcounts, vm.pmm.mem
      ensures Valid()
      ensures child == null ==> Mem(vm.Abs()) == old(Mem(vm.Abs()))
      ensures child == null <==>
        || !haveObject || nodes < |areas|
        || Uncloneable(old(vm.pmm.failAllocations), old(vm.pmm.view), vm.pmm.threads, old(vm.tree.ptes), r)
      ensures child != null ==> fresh(child) && child.vm == vm && child.r != r && Root(child.r) !in old(vm.tree.node)
      ensures child != null ==> child.Valid() && child.areas == areas && child.nextMmapBase == nextMmapBase
      ensures child != null ==> vm.Abs() == Fork(old(vm.Abs()), r, child.r) && child.r != BOOT_KERNEL_PML4
      ensures child != null ==> Mem(vm.Abs()) == CopySpace(old(Mem(vm.Abs())), r, child.r)
      ensures forall k :: Root(k) in old(vm.tree.node) ==> Root(k) in vm.tree.node
      ensures vm.pmm.failAllocations <= old(vm.pmm.failAllocations) && Others(vm.pmm.view) == old(Others(vm.pmm.view))
      ensures Roots(vm.tree) == if child == null then old(Roots(vm.tree)) else old(Roots(vm.tree)) + {child.r}
    {
      hide TreeInv, Linked, Pmm.PageMap.Valid, SharedPages.Inv, Tight, Sorted, Backed, SameFrames, Mem, Fork,
        ForkPtes, CopySpace, UserPages, Exit, SpaceGone, Settled, NoOrphans, Uncloneable, Others, Roots;
      ghost var t, v, s := vm.tree, vm.pmm.view, vm.Abs();
      ForkAllowed(vm);
      var c := vm.CloneUserAddressSpace(r);
      if c == 0 {
        SameAbs(t, v, vm.pmm.view);
        return null;
      }
      ForkFacts(t, s, vm.tree, vm.kernel, r, c, areas);
      NotBoot(vm.tree, vm.pmm.view, vm.kernel, vm.pmm.threads, vm.kernelTables, c);
      ForkAllowed(vm);
      ghost var t1 := vm.tree;
      RootsMore(t, t1, c);
      RootIn(t, c);
      if haveObject {
        child := new Process(vm, c);
        var copied := child.CopyAreas(areas, nodes);
        child.nextMmapBase := nextMmapBase;
        if copied { return; }
      }
      vm.DestroyUserAddressSpace(c);
      UnforkFacts(s, t1, vm.tree, vm.kernel, r, c, areas);
      RootsLess(t1, vm.tree, c);
      return null;
    }

    /** The loop of process_fork over the parent's list. */
    method CopyAreas(from: seq<Area>, nodes: nat) returns (ok: bool)
      requires Sorted(from) && areas == []
      modifies this`areas
      ensures ok <==> |from| <= nodes
      ensures ok ==> areas == from
    {
      for i := 0 to |from|
        invariant areas == from[..i] && i <= nodes
      {
        assert Sorted(areas);
        assert from[i].Well();
        assert !Overlaps(areas, from[i].start, from[i].end);
        var res, k := AddArea(from[i], i < nodes);
        if res != 0 { return false; }
        InsertLast(from, i, k);
      }
      assert from[..|from|] == from;
      return true;
    }

    /** release_process_address_space: the space and its areas go together. */
    method Release()
      requires Valid() && r != BOOT_KERNEL_PML4
      modifies this`areas, vm`tables, vm`tree, vm.pmm`view, vm.pmm.bits, vm.pmm.owners, vm.pmm.refcounts, vm.pmm.mem
      ensures vm.Valid() && areas == [] && SpaceGone(old(vm.tree), vm.tree, r)
      ensures SharedPages.Inv(vm.Abs()) && Mem(vm.Abs()) == DropSpace(old(Mem(vm.Abs())), r) && Tight(vm.tree)
      ensures Others(vm.pmm.view) == old(Others(vm.pmm.view)) && Roots(vm.tree) == old(Roots(vm.tree)) - {r}
    {
      hide AddressSpaces.Valid, SharedPages.Inv, Tight, Sorted, Backed, Mem, UserPages, Exit, SpaceGone, Settled,
        NoOrphans, DropSpace, TreeInv, Others, Roots;
      ghost var s, t := vm.Abs(), vm.tree;
      ForkAllowed(vm);
      TreeOf(vm);
      vm.DestroyUserAddressSpace(r);
      TreeOf(vm);
      ExitRefines(s, r);
      TightGone(t, vm.tree, vm.kernel, r);
      RootsLess(t, vm.tree, r);
      areas := [];
    }
  }

  lemma MappedFreshFacts(s: State, s': State, q: Va, f: nat, bytes: seq<Byte>, rw: bool)
    requires SharedPages.Inv(s) && MappedFresh(s, s', q, f, bytes, rw)
    ensures SharedPages.Inv(s') && s'.pages == s.pages[f := UserPage(1, bytes)]
  {
    MapFreshInv(s, q, f, bytes, rw);
  }

  lemma UnmapKeepsInv(s: State, q: Va)
    requires SharedPages.Inv(s) && q in s.ptes
    ensures s.ptes[q].frame in s.pages && s.pages[s.ptes[q].frame].refs > 0 && SharedPages.Inv(Unmap(s, q))
  {
    UnmapInv(s, q);
  }

  lemma SameAbs(t: Tree, v: Frames, w: Frames)
    requires SameFrames(w, v)
    ensures Abstract(t, w) == Abstract(t, v)
  {
    forall x | 0 <= x < |v| ensures Pmm.UserAt(w, x) <==> Pmm.UserAt(v, x) { assert Alike(w[x], v[x]); }
    forall x | 0 <= x < |v| && Pmm.UserAt(v, x) ensures w[x].bytes == v[x].bytes && w[x].refs == v[x].refs {
      assert Alike(w[x], v[x]);
    }
  }

  /** The new area is fully mapped and the others still are. */
  lemma BackedMore(t: Tree, v: Frames, g: Tree, w: Frames, r: nat, areas: seq<Area>, k: nat, x: Area)
    requires Backed(t.ptes, r, areas) && k <= |areas|
    requires Growing(t, v, g, w, r, x.start, x.end, x.flags.write)
    ensures Backed(g.ptes, r, InsertAt(areas, k, x))
  {
    var ys := InsertAt(areas, k, x);
    forall i, q | 0 <= i < |ys| && Fixed(ys[i]) && InRun(q, r, ys[i].start, ys[i].end) ensures q in g.ptes {
      if i < k { assert ys[i] == areas[i]; } else if i > k { assert ys[i] == areas[i - 1]; }
    }
  }

  /** The pages of the run [lo, hi) have gone, from the tables and from what the
      processes see; every other page is as before. */
  ghost predicate Dropping(t0: Tree, m0: Memory, t: Tree, m: Memory, r: nat, lo: nat, hi: nat) {
    && (forall q :: q in t.ptes <==> q in t0.ptes && !InRun(q, r, lo, hi))
    && (forall q :: q in t.ptes ==> t.ptes[q] == t0.ptes[q])
    && (forall q :: q in m <==> q in m0 && !InRun(q, r, lo, hi))
    && (forall q :: q in m ==> m[q] == m0[q])
  }

  lemma DroppingNone(t: Tree, m: Memory, r: nat, lo: nat)
    ensures Dropping(t, m, t, m, r, lo, lo)
  {
  }

  lemma DroppingHead(t0: Tree, m0: Memory, t: Tree, m: Memory, r: nat, lo: nat, page: nat)
    requires Dropping(t0, m0, t, m, r, lo, page) && Split(r, page) in t0.ptes
    requires lo <= page < USER_TOP && page % PAGE_SIZE == 0
    ensures Split(r, page) in t.ptes
  {
    hide Split, Rebuild;
    RunStep(Split(r, page), r, lo, page);
  }

  lemma DroppingStep(t0: Tree, m0: Memory, t: Tree, m: Memory, g: Tree, n: Memory, r: nat, lo: nat, page: nat)
    requires Dropping(t0, m0, t, m, r, lo, page)
    requires lo <= page < USER_TOP && page % PAGE_SIZE == 0
    requires g.ptes == t.ptes - {Split(r, page)} && n == m - {Split(r, page)}
    ensures Dropping(t0, m0, g, n, r, lo, page + PAGE_SIZE)
  {
    hide Split, Rebuild, InRun;
    forall q { RunStep(q, r, lo, page); }
  }

  lemma RootStays(t: Tree, g: Tree, q: Va, r: nat)
    requires Shrinks(t, g, q) && Root(r) in t.node
    ensures Root(r) in g.node
  {
    NotRoot(q);
  }

  lemma AreaBounds(areas: seq<Area>, i: nat)
    requires Sorted(areas) && i < |areas|
    ensures areas[i].end <= USER_TOP && areas[i].end % PAGE_SIZE == 0
  {
  }

  lemma BackedPage(ptes: map<Va, Pte>, r: nat, areas: seq<Area>, i: nat, page: nat)
    requires Backed(ptes, r, areas) && i < |areas| && Fixed(areas[i])
    requires areas[i].start <= page < areas[i].end && page % PAGE_SIZE == 0 && page < USER_TOP
    ensures Split(r, page) in ptes
  {
    hide Split, Rebuild;
    RebuildSplit(r, page);
    SplitInRange(r, page);
    SplitSpace(r, page);
    assert InRun(Split(r, page), r, areas[i].start, areas[i].end);
  }

  lemma BackedCut(ptes: map<Va, Pte>, ptes': map<Va, Pte>, r: nat, areas: seq<Area>, k: nat, start: nat, end: nat,
                  t: Tree, m: Memory, g: Tree, n: Memory)
    requires Backed(ptes, r, areas) && Sorted(areas) && k < |areas|
    requires areas[k].start <= start < end <= areas[k].end
    requires ptes == t.ptes && ptes' == g.ptes && Dropping(t, m, g, n, r, start, end)
    ensures Backed(ptes', r, Cut(areas, k, start, end))
  {
    hide Rebuild, Sorted;
    var ys := Cut(areas, k, start, end);
    forall i, q | 0 <= i < |ys| && Fixed(ys[i]) && InRun(q, r, ys[i].start, ys[i].end) ensures q in ptes' {
      var j := CutOrigin(areas, k, start, end, i);
      assert InRun(q, r, areas[j].start, areas[j].end);
    }
  }

  /** Each piece after a cut comes from one area and avoids the cut. */
  lemma CutOrigin(areas: seq<Area>, k: nat, start: nat, end: nat, i: nat) returns (j: nat)
    requires Sorted(areas) && k < |areas| && areas[k].start <= start < end <= areas[k].end
    requires i < |Cut(areas, k, start, end)|
    ensures var y := Cut(areas, k, start, end)[i];
      && j < |areas| && y.flags == areas[j].flags && areas[j].start <= y.start && y.end <= areas[j].end
      && (y.end <= start || end <= y.start)
  {
    var ys := Cut(areas, k, start, end);
    var l := if areas[k].start < start then 1 else 0;
    var m := l + if end < areas[k].end then 1 else 0;
    if i < k { j := i; assert ys[i] == areas[i]; }
    else if i >= k + m { j := i + 1 - m; assert ys[i] == areas[j]; }
    else { j := k; }
  }

  predicate StackFault(areas: seq<Area>, k: nat, address: nat, write: bool) {
    && k < |areas| && In(areas, address - address % PAGE_SIZE, k)
    && areas[k].flags.growsDown && (write ==> areas[k].flags.write)
  }

  /** The page of the fault, in a stack area that allows it, was absent and is now a
      private fresh page; no process sees anything else change. */
  ghost predicate Grown(ptes: map<Va, Pte>, ptes': map<Va, Pte>, s: State, s': State, r: nat, areas: seq<Area>,
                        address: nat, write: bool, f: nat) {
    && 0 < address < USER_TOP
    && (exists k: nat :: StackFault(areas, k, address, write) &&
         ptes' == ptes[Split(r, address) := Pte(f, areas[k].flags.write, false)])
    && Split(r, address) !in ptes && f !in s.pages
    && Mem(s').Keys == Mem(s).Keys + {Split(r, address)}
    && forall q :: q in Mem(s) ==> Mem(s')[q] == Mem(s)[q]
  }

  lemma ExtendsRoots(t: Tree, g: Tree, q: Va)
    requires Extends(t, g, q)
    ensures forall k :: Root(k) in t.node ==> Root(k) in g.node
  {
  }

  /** Some stack area allows the access. */
  ghost predicate StackAccess(areas: seq<Area>, address: nat, write: bool) {
    exists k: nat :: StackFault(areas, k, address, write)
  }

  /** The area found is the only one there is for the address. */
  lemma NoAccess(areas: seq<Area>, k: nat, address: nat, write: bool)
    requires Sorted(areas) && k <= |areas|
    requires k < |areas| ==> In(areas, address - address % PAGE_SIZE, k)
    requires k == |areas| ==> !Covered(areas, address - address % PAGE_SIZE)
    ensures StackAccess(areas, address, write) ==>
      k < |areas| && areas[k].flags.growsDown && (write ==> areas[k].flags.write)
  {
    if StackAccess(areas, address, write) {
      var j: nat :| StackFault(areas, j, address, write);
      if k < |areas| { OneArea(areas, address - address % PAGE_SIZE, j, k); }
    }
  }

  lemma OneArea(areas: seq<Area>, address: nat, j: nat, k: nat)
    requires Sorted(areas) && j < |areas| && k < |areas| && In(areas, address, j) && In(areas, address, k)
    ensures j == k
  {
  }

  lemma AccessOf(areas: seq<Area>, k: nat, address: nat, write: bool)
    requires StackFault(areas, k, address, write)
    ensures StackAccess(areas, address, write)
  {
  }

  lemma GrowsHere(areas: seq<Area>, k: nat, address: nat, write: bool)
    requires k < |areas| && In(areas, address - address % PAGE_SIZE, k)
    requires areas[k].flags.growsDown && (write ==> areas[k].flags.write)
    ensures StackFault(areas, k, address, write)
  {
  }

  lemma GrownFacts(ptes: map<Va, Pte>, ptes': map<Va, Pte>, s: State, s': State, r: nat, areas: seq<Area>, k: nat,
                   address: nat, write: bool, f: nat, bytes: seq<Byte>)
    requires 0 < address < USER_TOP && StackFault(areas, k, address, write)
    requires Split(r, address) !in ptes && ptes' == ptes[Split(r, address) := Pte(f, areas[k].flags.write, false)]
    requires SharedPages.Inv(s) && MappedFresh(s, s', Split(r, address), f, bytes, areas[k].flags.write)
    ensures SharedPages.Inv(s') && Grown(ptes, ptes', s, s', r, areas, address, write, f)
    ensures ptes.Keys <= ptes'.Keys
  {
    hide SharedPages.Inv, Mem, Split, In;
    MapFreshRefines(s, Split(r, address), f, bytes, areas[k].flags.write);
    MemKey(s, Split(r, address));
  }

  lemma BackedNone(ptes: map<Va, Pte>, r: nat)
    ensures Backed(ptes, r, [])
  {
  }

  lemma MemKey(s: State, q: Va)
    requires q !in s.ptes
    ensures q !in Mem(s)
  {
  }

  lemma BackedStill(ptes: map<Va, Pte>, ptes': map<Va, Pte>, r: nat, areas: seq<Area>)
    requires Backed(ptes, r, areas) && ptes.Keys <= ptes'.Keys
    ensures Backed(ptes', r, areas)
  {
    forall i, q | 0 <= i < |areas| && Fixed(areas[i]) && InRun(q, r, areas[i].start, areas[i].end) ensures q in ptes' {
      assert q in ptes.Keys;
    }
  }

  lemma InsertLast(from: seq<Area>, i: nat, k: nat)
    requires Sorted(from) && i < |from| && k <= i && (k < i ==> from[k].start >= from[i].start)
    ensures k == i && InsertAt(from[..i], k, from[i]) == from[..i + 1]
  {
    assert from[k].Well();
  }

  lemma TreeOf(vm: AddressSpaces)
    requires vm.Valid()
    ensures TreeInv(vm.tree, vm.kernel)
  {
  }

  /** The quiescent invariant leaves no user page unmapped. */
  lemma ForkAllowed(vm: AddressSpaces)
    requires vm.Valid() && SharedPages.Inv(vm.Abs())
    ensures NoOrphans(vm.pmm.view)
  {
    hide TreeInv, Linked, Pmm.PageMap.Valid;
    forall f: nat | Pmm.UserAt(vm.pmm.view, f) ensures vm.pmm.view[f].refs > 0 {
      UserPageIn(vm.pmm.view, f);
    }
  }

  lemma NotBoot(t: Tree, v: Frames, kernel: Table, threads: set<nat>, kt: set<nat>, c: nat)
    requires TreeInv(t, kernel) && Linked(t, v, threads, kt) && Root(c) in t.node
    ensures c != BOOT_KERNEL_PML4 && c != 0
  {
    RootFrame(t, kernel, c);
    PlacedFacts(t, kernel, Root(c));
    assert TablePage(v, threads, c);
  }

  lemma ForkFacts(t: Tree, s: State, g: Tree, kernel: Table, a: nat, c: nat, areas: seq<Area>)
    requires SharedPages.Inv(s) && s.ptes == t.ptes && a != c && TreeInv(t, kernel) && c !in t.home
    requires Backed(t.ptes, a, areas) && g.ptes == ForkPtes(t.ptes, a, c)
    ensures SharedPages.Inv(Fork(s, a, c)) && Mem(Fork(s, a, c)) == CopySpace(Mem(s), a, c)
    ensures Backed(g.ptes, a, areas) && Backed(g.ptes, c, areas)
    ensures Root(c) !in t.node && (forall q :: q in s.ptes ==> q.r != c)
  {
    hide TreeInv, SharedPages.Inv, Mem, CopySpace, Fork, ForkPtes, Rebuild;
    NoSpace(t, kernel, c);
    ForkRefines(s, a, c);
    forall i, q | 0 <= i < |areas| && Fixed(areas[i]) && InRun(q, a, areas[i].start, areas[i].end)
      ensures q in g.ptes
    {
      ForkKeys(t.ptes, a, c, q);
    }
    forall i, q | 0 <= i < |areas| && Fixed(areas[i]) && InRun(q, c, areas[i].start, areas[i].end)
      ensures q in g.ptes
    {
      ForkKeys(t.ptes, a, c, q);
      RebuildSame(q, a);
      assert InRun(q.(r := a), a, areas[i].start, areas[i].end);
    }
    assert Root(c).Space() == c;
  }

  lemma CopyThenDrop(m: Memory, a: nat, c: nat)
    requires a != c && forall q :: q in m ==> q.r != c
    ensures DropSpace(CopySpace(m, a, c), c) == m
  {
    hide CopySpace;
    forall q ensures q in DropSpace(CopySpace(m, a, c), c) <==> q in m { CopyKeys(m, a, c, q); }
    forall q | q in m ensures DropSpace(CopySpace(m, a, c), c)[q] == m[q] { CopyKeys(m, a, c, q); }
  }

  /** Destroying one space leaves no empty table in another. */
  lemma TightGone(t: Tree, g: Tree, kernel: Table, r: nat)
    requires TreeInv(t, kernel) && TreeInv(g, kernel) && Tight(t) && SpaceGone(t, g, r)
    ensures Tight(g)
  {
    hide TreeInv, NonEmpty;
    forall x | x in g.node && x.Child? ensures NonEmpty(g, x) {
      SomethingBelow(t, kernel, x);
      if y :| y in t.node && y.Child? && y.up == x {
        assert y.Space() == x.Space();
        PlacedOf(g, kernel);
        TableAbove(g, y);
      } else {
        assert forall i :: Child(x, i) !in t.node by {
          forall i ensures Child(x, i) !in t.node { assert Child(x, i).up == x; }
        }
        var q :| q in t.ptes && q.Pt() == x;
        AboveSpace(q, 1);
        LeafAbovePresent(g, kernel, q);
      }
    }
  }

  lemma LeafAbovePresent(g: Tree, kernel: Table, q: Va)
    requires TreeInv(g, kernel) && q in g.ptes
    ensures NonEmpty(g, q.Pt())
  {
    LeafAbove(g, q);
  }

  /** A fork undone after the clone: the parent's pages stay sealed, but nobody sees it. */
  lemma UnforkFacts(s: State, t1: Tree, g: Tree, kernel: Table, a: nat, c: nat, areas: seq<Area>)
    requires SharedPages.Inv(s) && a != c && SharedPages.Inv(Fork(s, a, c))
    requires Mem(Fork(s, a, c)) == CopySpace(Mem(s), a, c) && forall q :: q in s.ptes ==> q.r != c
    requires TreeInv(t1, kernel) && TreeInv(g, kernel) && Tight(t1) && SpaceGone(t1, g, c)
    requires Backed(t1.ptes, a, areas) && Root(a) in t1.node
    ensures SharedPages.Inv(Exit(Fork(s, a, c), c)) && Mem(Exit(Fork(s, a, c), c)) == Mem(s)
    ensures Tight(g) && Root(a) in g.node && Backed(g.ptes, a, areas)
    ensures forall k :: Root(k) in t1.node && k != c ==> Root(k) in g.node
  {
    hide TreeInv, SharedPages.Inv, Tight, Mem, Exit, Fork, CopySpace, DropSpace, Rebuild;
    ExitRefines(Fork(s, a, c), c);
    assert forall q :: q in Mem(s) ==> q.r != c by { MemKeys(s); }
    CopyThenDrop(Mem(s), a, c);
    TightGone(t1, g, kernel, c);
    assert Root(a).Space() == a;
    forall k | Root(k) in t1.node && k != c ensures Root(k) in g.node { assert Root(k).Space() == k; }
  }

  lemma MemKeys(s: State)
    ensures forall q :: q in Mem(s) ==> q in s.ptes
  {
  }

  /** In an unfinished run, the first page is mapped. */
  lemma RunHead(t0: Tree, v0: Frames, t: Tree, v: Frames, r: nat, lo: nat, hi: nat, rw: bool)
    requires Growing(t0, v0, t, v, r, lo, hi, rw)
    requires lo < hi <= USER_TOP && lo % PAGE_SIZE == 0 && hi % PAGE_SIZE == 0
    ensures Split(r, lo) in t.ptes
  {
    hide Split, Rebuild;
    RunTail(Split(r, lo), r, lo, hi);
  }

  lemma GrowingRoot(t0: Tree, v0: Frames, t: Tree, v: Frames, r: nat, lo: nat, hi: nat, rw: bool)
    requires Growing(t0, v0, t, v, r, lo, hi, rw) && Root(r) in t0.node
    ensures Root(r) in t.node
  {
  }

  predicate Blocked(areas: seq<Area>, start: nat, length: nat) { Overlaps(areas, start, start + length) }
  predicate Fits(start: nat, length: nat) { start + length <= USER_TOP }

  predicate BadRequest(hint: nat, length: nat, prot: Prot, flagsOk: bool) {
    length == 0 || !flagsOk || prot.other || hint % PAGE_SIZE != 0 || length > UINT64_MAX - (PAGE_SIZE - 1)
  }

  /** The hint is taken or too high, or without one every candidate that fits is taken. */
  ghost predicate NoPlace(areas: seq<Area>, base: nat, hint: nat, size: nat) {
    if hint != 0 then hint + size > USER_TOP || Overlaps(areas, hint, hint + size)
    else base == 0 || forall j: nat :: Fits(Candidate(base, j, size), size) ==>
      Blocked(areas, Candidate(base, j, size), size)
  }

  lemma Nowhere(areas: seq<Area>, base: nat, hint: nat, size: nat)
    requires hint != 0 ==> !(hint + size <= USER_TOP && !Overlaps(areas, hint, hint + size))
    requires hint == 0 && base != 0 ==>
      forall j: nat :: Fits(Candidate(base, j, size), size) ==> Blocked(areas, Candidate(base, j, size), size)
    ensures NoPlace(areas, base, hint, size)
  {
  }

  /** Where mmap goes: the hint, or the first candidate that is free. */
  ghost predicate PlaceIs(areas: seq<Area>, base: nat, hint: nat, size: nat, start: nat) {
    && start + size <= USER_TOP && !Overlaps(areas, start, start + size)
    && if hint != 0 then start == hint else base != 0 && exists k: nat :: FirstFree(areas, base, size, start, k)
  }

  ghost predicate FirstFree(areas: seq<Area>, base: nat, size: nat, start: nat, k: nat) {
    start == Candidate(base, k, size) && forall j: nat :: j < k ==> Blocked(areas, Candidate(base, j, size), size)
  }

  /** The pages of the place found cannot be had. */
  ghost predicate Unbacked(t: Tree, r: nat, areas: seq<Area>, base: nat, hint: nat, size: nat, failing: nat, v: Frames,
                           threads: set<nat>) {
    exists start: nat :: PlaceIs(areas, base, hint, size, start) &&
      Unpayable(t, r, start, size / PAGE_SIZE, failing, v, threads)
  }

  lemma PlaceFound(areas: seq<Area>, base: nat, hint: nat, size: nat, start: nat, k: nat)
    requires start + size <= USER_TOP && !Overlaps(areas, start, start + size) && (hint == 0 ==> base != 0)
    requires hint != 0 ==> start == hint
    requires hint == 0 ==> FirstFree(areas, base, size, start, k)
    ensures PlaceIs(areas, base, hint, size, start) && !NoPlace(areas, base, hint, size)
  {
    hide Overlaps, Candidate;
    if hint == 0 {
      assert Fits(Candidate(base, k, size), size) && !Blocked(areas, Candidate(base, k, size), size);
    }
  }

  lemma OnePlace(areas: seq<Area>, base: nat, hint: nat, size: nat, start: nat, other: nat)
    requires PlaceIs(areas, base, hint, size, start) && PlaceIs(areas, base, hint, size, other)
    ensures start == other
  {
    hide Overlaps, Candidate;
    if hint == 0 {
      var k: nat :| FirstFree(areas, base, size, start, k);
      var j: nat :| FirstFree(areas, base, size, other, j);
      assert !Blocked(areas, Candidate(base, k, size), size) && !Blocked(areas, Candidate(base, j, size), size);
    }
  }

  lemma BackedIff(t: Tree, r: nat, areas: seq<Area>, base: nat, hint: nat, size: nat, start: nat, failing: nat,
                  v: Frames,
                  threads: set<nat>)
    requires PlaceIs(areas, base, hint, size, start)
    ensures Unbacked(t, r, areas, base, hint, size, failing, v, threads) <==>
      Unpayable(t, r, start, size / PAGE_SIZE, failing, v, threads)
  {
    hide PlaceIs, Unpayable;
    if Unbacked(t, r, areas, base, hint, size, failing, v, threads) {
      var other: nat :| PlaceIs(areas, base, hint, size, other) &&
          Unpayable(t, r, other, size / PAGE_SIZE, failing, v, threads);
      OnePlace(areas, base, hint, size, start, other);
    }
  }

  /** The k-th address mmap tries on its own. */
  function Candidate(base: nat, k: nat, length: nat): nat { base + k * length }

  lemma CandidateFacts(base: nat, k: nat, length: nat)
    ensures Candidate(base, 0, length) == base
    ensures Candidate(base, k + 1, length) == Candidate(base, k, length) + length
  {
  }

  lemma {:induction false} CandidateMono(base: nat, j: nat, k: nat, length: nat)
    requires j <= k
    ensures Candidate(base, j, length) <= Candidate(base, k, length)
    decreases k
  {
    hide Candidate;
    if j < k {
      CandidateMono(base, j, k - 1, length);
      CandidateFacts(base, k - 1, length);
    }
  }
}
