/** Whole runs of the memory system: any processes, any sequence of fork, exit, mmap, munmap,
    stack faults, stores and writes by the kernel into user memory, on the real tables and refcounts,
    against private memories that are copied at fork. */
module System {
  import opened Layout
  import opened SharedPages
  import opened PageTree
  import opened Linkage
  import opened VirtualMemory
  import opened Hardware
  import opened UserCopy
  import opened AreaList
  import Pmm
  import P = Process

  datatype Call =
    | Fork(a: nat, haveObject: bool, nodes: nat)
    | Exit(a: nat)
    | Mmap(a: nat, hint: nat, length: nat, prot: P.Prot, flagsOk: bool, node: bool)
    | Munmap(a: nat, address: nat, length: nat, node: bool)
    | Fault(a: nat, address: nat, write: bool)
    | Write(a: nat, dst: nat, data: seq<Byte>)
    | Store(a: nat, address: nat, byte: Byte)
    | Load(a: nat, address: nat)

  datatype Outcome = Refused | Done | Forked(c: nat) | Placed(at: nat) | Got(byte: Byte)

  /** Pages [lo, hi) of space a are new, with the given right; the rest is as before. */
  ghost predicate RunAdded(m: Memory, m': Memory, a: nat, lo: nat, hi: nat, writable: bool) {
    && (forall q :: q in m' <==> q in m || P.InRun(q, a, lo, hi))
    && (forall q :: q in m ==> !P.InRun(q, a, lo, hi) && m'[q] == m[q])
    && (forall q :: P.InRun(q, a, lo, hi) && q in m' ==> m'[q].writable == writable)
  }

  ghost predicate RunGone(m: Memory, m': Memory, a: nat, lo: nat, hi: nat) {
    && (forall q :: q in m' <==> q in m && !P.InRun(q, a, lo, hi))
    && (forall q :: q in m' ==> m'[q] == m[q])
  }

  ghost predicate PageAdded(m: Memory, m': Memory, q: Va, writable: bool) {
    && q !in m && m'.Keys == m.Keys + {q} && (forall x :: x in m ==> m'[x] == m[x])
    && q in m' && m'[q].writable == writable
  }

  /** The page of a stack access is new, with the right of its area k. */
  ghost predicate StackPage(m: Memory, m': Memory, a: nat, areas: seq<Area>, k: nat, address: nat, write: bool) {
    address < USER_TOP && P.StackFault(areas, k, address, write) &&
    PageAdded(m, m', Split(a, address), areas[k].flags.write)
  }

  /** A byte stored by process a: into a page it may write, or into a stack page that the
      store itself brings about. */
  ghost predicate Stored(m: Memory, m': Memory, a: nat, areas: seq<Area>, address: nat, byte: Byte) {
    && address < USER_TOP
    && if Split(a, address) in m then m[Split(a, address)].writable && m' == Written(m, a, address, [byte])
       else exists m1: Memory, k: nat ::
         StackPage(m, m1, a, areas, k, address, true) && m' == Written(m1, a, address, [byte])
  }

  /** A byte loaded by process a: out of a page it has, or out of a stack page that the load
      itself brings about. */
  ghost predicate Loaded(m: Memory, m': Memory, a: nat, areas: seq<Area>, address: nat, byte: Byte) {
    && address < USER_TOP && SeenAt(m', Split(a, address), address % PAGE_SIZE, byte)
    && if Split(a, address) in m then m' == m
       else exists k: nat :: StackPage(m, m', a, areas, k, address, false)
  }

  /** What a call does to private memories: fork copies, a refused call does nothing, and
      every other call touches the caller's memory only. */
  ghost predicate PrivateStep(m: Memory, b: Books, call: Call, out: Outcome, m': Memory) {
    if out.Refused? then m' == m
    else call.a in b && match call
      case Fork(a, _, _) => out.Forked? && out.c != a && (forall q :: q in m ==> q.r != out.c) &&
      m' == CopySpace(m, a, out.c)
      case Exit(a) => m' == DropSpace(m, a)
      case Mmap(a, _, n, prot, _, _) => out.Placed? && RunAdded(m, m', a, out.at, out.at + P.RoundUp(n), prot.write)
      case Munmap(a, address, n, _) => RunGone(m, m', a, address, address + P.RoundUp(n))
      case Fault(a, address, write) => exists k: nat :: StackPage(m, m', a, b[a].areas, k, address, write)
      case Write(a, dst, data) => SeenWritable(m, a, dst, |data|) && m' == Written(m, a, dst, data)
      case Store(a, address, byte) => Stored(m, m', a, b[a].areas, address, byte)
      case Load(a, address) => out.Got? && Loaded(m, m', a, b[a].areas, address, out.byte)
  }

  /** Every byte of the range lies in a page of the space that may be written. */
  ghost predicate SeenWritable(m: Memory, a: nat, dst: nat, length: nat) {
    length == 0 ||
    (dst != 0 && dst + length <= USER_TOP &&
     forall x: nat :: dst <= x < dst + length ==> Split(a, x) in m && m[Split(a, x)].writable)
  }

  lemma RangeSeen(s: State, a: nat, dst: nat, length: nat)
    requires Inv(s) && WritableRange(s.ptes, a, dst, length)
    ensures SeenWritable(Mem(s), a, dst, length)
  {
    hide Inv, Mem, Split;
    forall x: nat | dst <= x < dst + length ensures Split(a, x) in Mem(s) && Mem(s)[Split(a, x)].writable {
      MayWriteSeen(s, Split(a, x));
    }
  }

  // --------------------------------------------------- area lists and refusals

  /** What a process keeps besides its memory: its areas and where mmap looks next. */
  datatype Book = Book(areas: seq<Area>, base: nat)

  type Books = map<nat, Book>

  ghost predicate Listed(xs: seq<Area>, k: nat, x: Area, ys: seq<Area>) {
    k <= |xs| && !Overlaps(xs, x.start, x.end) && ys == InsertAt(xs, k, x)
  }

  ghost predicate CutOut(xs: seq<Area>, k: nat, address: nat, size: nat, node: bool, ys: seq<Area>) {
    P.Inside(xs, k, address, size, node) && ys == Cut(xs, k, address, address + size)
  }

  /** What a call does to the books: only those of the caller change, and of a new child. */
  ghost predicate BookStep(b: Books, call: Call, out: Outcome, b': Books) {
    if out.Refused? then b' == b
    else call.a in b && match call
      case Fork(a, _, _) => out.Forked? && out.c !in b && b' == b[out.c := b[a]]
      case Exit(a) => b' == b - {a}
      case Mmap(a, hint, n, prot, _, _) =>
        && out.Placed? && a in b' && (hint != 0 ==> out.at == hint)
        && b' == b[a := Book(b'[a].areas, if hint == 0 then out.at + P.RoundUp(n) + PAGE_SIZE else b[a].base)]
        && exists k: nat, x: Area ::
             P.Grants(x, out.at, P.RoundUp(n), prot) && Listed(b[a].areas, k, x, b'[a].areas)
      case Munmap(a, address, n, node) =>
        && a in b' && b' == b[a := Book(b'[a].areas, b[a].base)]
        && exists k: nat :: CutOut(b[a].areas, k, address, P.RoundUp(n), node, b'[a].areas)
      case _ => b' == b
  }

  /** What allocations depend on. */
  datatype Supply = Supply(tree: Tree, failures: nat, frames: Frames, threads: set<nat>)

  ghost function SupplyOf(vm: AddressSpaces): Supply
    reads vm, vm.pmm
  {
    Supply(vm.tree, vm.pmm.failAllocations, vm.pmm.view, vm.pmm.threads)
  }

  /** The tables and the allocator agree, no table is empty and no user page is unmapped. */
  ghost predicate Supplied(s: Supply, kernel: Table, kernelTables: set<nat>) {
    TreeInv(s.tree, kernel) && Tight(s.tree) && Linked(s.tree, s.frames, s.threads, kernelTables) && NoOrphans(s.frames)
  }

  /** What a call does to the supply beside the pages and tables of the spaces: nothing, but
      that injected failures are used up and that spaces come and go with their processes. */
  ghost predicate SupplyStep(s: Supply, call: Call, out: Outcome, s': Supply) {
    && s'.threads == s.threads && s'.failures <= s.failures && Others(s'.frames) == Others(s.frames)
    && Roots(s'.tree) == match out
         case Forked(c) => Roots(s.tree) + {c}
         case Done => if call.Exit? then Roots(s.tree) - {call.a} else Roots(s.tree)
         case _ => Roots(s.tree)
  }

  /** The free pages follow from the tables, the PTEs and what the spaces leave alone. */
  lemma FreeFollows(s: Supply, kernel: Table, kernelTables: set<nat>)
    requires Supplied(s, kernel, kernelTables)
    ensures Avail(s.frames, s.threads) == set f: nat |
      && f < Others(s.frames).size && f !in s.threads && f !in Others(s.frames).reserved
      && f !in Others(s.frames).foreign
      && f !in s.tree.home && f !in kernelTables && Refs(s.tree.ptes, f) == {}
  {
    hide Linked, TreeInv, Tight;
    forall f: nat | f < |s.frames|
      ensures Pmm.Available(s.frames, s.threads, f) <==>
        && f !in s.threads && f !in Others(s.frames).reserved && f !in Others(s.frames).foreign
        && f !in s.tree.home && f !in kernelTables && Refs(s.tree.ptes, f) == {}
    {
      FreePages(s.tree, s.frames, s.threads, kernelTables, f);
    }
  }

  /** The reasons to refuse a call: no such process, a request out of order, list nodes that
      cannot be had, or pages that are short. */
  ghost predicate Refusable(call: Call, b: Books, s: Supply) {
    call.a !in b || match call
      case Fork(a, haveObject, nodes) =>
        !haveObject || nodes < |b[a].areas| || Uncloneable(s.failures, s.frames, s.threads, s.tree.ptes, a)
      case Exit(_) => false
      case Mmap(a, hint, n, prot, flagsOk, node) =>
        || !node || P.BadRequest(hint, n, prot, flagsOk) || P.NoPlace(b[a].areas, b[a].base, hint, P.RoundUp(n))
        || P.Unbacked(s.tree, a, b[a].areas, b[a].base, hint, P.RoundUp(n), s.failures, s.frames, s.threads)
      case Munmap(a, address, n, node) => !P.Removable(b[a].areas, address, n, node)
      case Fault(a, address, write) => address >= USER_TOP || Ungrowable(s, a, b[a].areas, address, write)
      case Write(a, dst, data) =>
        || !WritableRange(s.tree.ptes, a, dst, |data|)
        || (|data| > 0 && Unaffordable(s.tree.ptes, a, dst, |data|, s.failures, |Avail(s.frames, s.threads)|))
      case Store(a, address, _) =>
        || address >= USER_TOP
        || if Split(a, address) in s.tree.ptes then Unstorable(s, Split(a, address))
           else Ungrowable(s, a, b[a].areas, address, true)
      case Load(a, address) =>
        address >= USER_TOP || (Split(a, address) !in s.tree.ptes && Ungrowable(s, a, b[a].areas, address, false))
  }

  /** No page of a stack, there already, or it cannot be had with its tables. */
  ghost predicate Ungrowable(s: Supply, a: nat, areas: seq<Area>, address: nat, write: bool)
    requires address < USER_TOP
  {
    || address == 0 || !P.StackAccess(areas, address, write) || Split(a, address) in s.tree.ptes
    || P.NoRoom(s.tree, Split(a, address), s.failures, s.frames, s.threads)
  }

  /** The page may not be written, or is shared and a copy cannot be had. */
  ghost predicate Unstorable(s: Supply, q: Va)
    requires q in s.tree.ptes
  {
    || !MayWrite(s.tree.ptes, q)
    || (!s.tree.ptes[q].rw && IsShared(s.tree.ptes, q) && NoPage(s.failures, s.frames, s.threads))
  }

  type Processes = map<nat, P.Process>

  ghost function BooksOf(procs: Processes): Books
    reads procs.Values
  {
    map r | r in procs :: Book(procs[r].areas, procs[r].nextMmapBase)
  }

  lemma BooksChanged(procs: Processes, b: Books, a: nat)
    requires a in procs && b.Keys == procs.Keys
    requires forall r :: r in procs && r != a ==> b[r] == Book(procs[r].areas, procs[r].nextMmapBase)
    ensures BooksOf(procs) == b[a := Book(procs[a].areas, procs[a].nextMmapBase)]
  {
  }

  /** Every process is what its PML4 frame says, and in order. */
  ghost predicate AllWell(vm: AddressSpaces, procs: Processes)
    reads vm, vm.pmm, vm.pmm.bits, vm.pmm.reservedBits, vm.pmm.owners, vm.pmm.refcounts, vm.pmm.mem, procs.Values
  {
    && vm.Valid() && Tight(vm.tree) && Inv(vm.Abs())
    && forall r :: r in procs ==> WellAt(vm, procs[r], r)
  }

  ghost predicate WellAt(vm: AddressSpaces, p: P.Process, r: nat)
    reads vm, p
  {
    && p.vm == vm && p.r == r && r != 0 && r != BOOT_KERNEL_PML4 && Root(r) in vm.tree.node
    && Sorted(p.areas) && P.Backed(vm.tree.ptes, r, p.areas) && p.nextMmapBase % PAGE_SIZE == 0
  }

  lemma OtherStill(t: Tree, g: Tree, a: nat, r: nat, areas: seq<Area>)
    requires Spared(t, g, a) && r != a && Root(r) in t.node && P.Backed(t.ptes, r, areas)
    ensures Root(r) in g.node && P.Backed(g.ptes, r, areas)
  {
    forall i, q | 0 <= i < |areas| && P.Fixed(areas[i]) && P.InRun(q, r, areas[i].start, areas[i].end)
      ensures q in g.ptes
    {
    }
  }

  /** The lists the processes had, each backed by its space in t. */
  ghost predicate Housed(t: Tree, lists: map<nat, seq<Area>>) {
    forall r :: r in lists ==> HousedAt(t, r, lists[r])
  }

  ghost predicate HousedAt(t: Tree, r: nat, areas: seq<Area>) {
    r != 0 && r != BOOT_KERNEL_PML4 && Root(r) in t.node && Sorted(areas) && P.Backed(t.ptes, r, areas)
  }

  ghost function Lists(procs: Processes): map<nat, seq<Area>>
    reads procs.Values
  {
    map r | r in procs :: procs[r].areas
  }

  lemma HousedOf(vm: AddressSpaces, procs: Processes)
    requires AllWell(vm, procs)
    ensures Housed(vm.tree, Lists(procs))
    ensures forall r :: r in procs ==> procs[r].vm == vm && procs[r].r == r && procs[r].nextMmapBase % PAGE_SIZE == 0
  {
    hide AddressSpaces.Valid, Inv, Tight, Sorted, P.Backed;
    forall r | r in procs ensures HousedAt(vm.tree, r, procs[r].areas) && procs[r].vm == vm && procs[r].r == r &&
      procs[r].nextMmapBase % PAGE_SIZE == 0
    {
      assert WellAt(vm, procs[r], r);
    }
  }

  /** After a call by process a: it is well again, and so are all others. */
  lemma WellAgain(vm: AddressSpaces, procs: Processes, a: nat, t: Tree, lists: map<nat, seq<Area>>)
    requires a in procs && procs[a].Valid() && procs[a].vm == vm && procs[a].r == a && Housed(t, lists)
    requires Spared(t, vm.tree, a)
    requires lists.Keys == procs.Keys && forall r :: r in procs && r != a ==> procs[r].areas == lists[r]
    requires forall r :: r in procs && r != a ==>
      procs[r].vm == vm && procs[r].r == r && procs[r].nextMmapBase % PAGE_SIZE == 0
    ensures AllWell(vm, procs)
  {
    hide AddressSpaces.Valid, Inv, Tight, Sorted, P.Backed, Spared;
    forall r | r in procs ensures WellAt(vm, procs[r], r) {
      assert HousedAt(t, r, lists[r]);
      if r != a { OtherStill(t, vm.tree, a, r, procs[r].areas); }
    }
  }

  // ------------------------------------------------------------------ single calls

  lemma SparedBy(t: Tree, g: Tree, a: nat)
    requires forall k :: Root(k) in t.node ==> Root(k) in g.node
    requires forall q :: q in t.ptes && q.r != a ==> q in g.ptes
    ensures Spared(t, g, a)
  {
  }

  lemma GrowingMemory(vm: AddressSpaces, t: Tree, v: Frames, s: State, r: nat, lo: nat, hi: nat, rw: bool)
    requires vm.Valid() && Inv(s) && s == Abstract(t, v) && Inv(vm.Abs())
    requires P.Growing(t, v, vm.tree, vm.pmm.view, r, lo, hi, rw)
    ensures RunAdded(Mem(s), Mem(vm.Abs()), r, lo, hi, rw) && Spared(t, vm.tree, r)
  {
    hide AddressSpaces.Valid, Inv, Mem, Abstract, P.Growing;
    GrowingSeen(t, v, s, vm.tree, vm.pmm.view, vm.Abs(), r, lo, hi, rw);
  }

  lemma GrowingSeen(t: Tree, v: Frames, s: State, g: Tree, w: Frames, s': State, r: nat, lo: nat, hi: nat, rw: bool)
    requires Inv(s) && s == Abstract(t, v) && Inv(s') && s' == Abstract(g, w) && P.Growing(t, v, g, w, r, lo, hi, rw)
    ensures RunAdded(Mem(s), Mem(s'), r, lo, hi, rw) && Spared(t, g, r)
  {
    hide Inv, Mem, P.InRun, UserPages, P.Kept;
    forall q ensures (q in Mem(s) <==> q in t.ptes) && (q in Mem(s') <==> q in g.ptes) {
      Seen(s, q);
      Seen(s', q);
    }
    forall q | q in Mem(s) ensures Mem(s')[q] == Mem(s)[q] { SeenSame(t, v, g, w, r, lo, hi, rw, q); }
    forall q | q in Mem(s') ensures Mem(s')[q].writable == (g.ptes[q].rw || g.ptes[q].cow) { SeenRight(s', q); }
    SparedBy(t, g, r);
  }

  lemma SeenRight(s: State, q: Va)
    requires q in Mem(s)
    ensures q in s.ptes && Mem(s)[q].writable == (s.ptes[q].rw || s.ptes[q].cow)
  {
  }

  lemma Seen(s: State, q: Va)
    requires Inv(s)
    ensures q in Mem(s) <==> q in s.ptes
  {
  }

  lemma SeenSame(t: Tree, v: Frames, g: Tree, w: Frames, r: nat, lo: nat, hi: nat, rw: bool, q: Va)
    requires P.Growing(t, v, g, w, r, lo, hi, rw) && q in Mem(Abstract(t, v)) && q in Mem(Abstract(g, w))
    ensures Mem(Abstract(g, w))[q] == Mem(Abstract(t, v))[q]
  {
    var f := t.ptes[q].frame;
    assert Pmm.UserAt(v, f);
    assert P.KeptAt(v[f], w[f]);
  }

  method DoMmap(vm: AddressSpaces, procs: Processes, call: Call) returns (out: Outcome)
    requires AllWell(vm, procs) && call.Mmap? && call.a in procs
    modifies procs.Values, vm`tables, vm`tree, vm.pmm`view, vm.pmm`failAllocations, vm.pmm.bits, vm.pmm.owners,
             vm.pmm.refcounts, vm.pmm.mem
    ensures AllWell(vm, procs) && PrivateStep(old(Mem(vm.Abs())), old(BooksOf(procs)), call, out, Mem(vm.Abs()))
    ensures BookStep(old(BooksOf(procs)), call, out, BooksOf(procs))
    ensures out.Refused? <==> Refusable(call, old(BooksOf(procs)), old(SupplyOf(vm)))
    ensures SupplyStep(old(SupplyOf(vm)), call, out, SupplyOf(vm))
  {
    hide Housed, AddressSpaces.Valid, Inv, Tight, Sorted, P.Backed, P.Growing, P.RoundUp, SameFrames, Mem, AllWell,
      Abstract, RunAdded, Overlaps, Spared, BookStep, Refusable, P.BadRequest, P.NoPlace, P.Unbacked, InsertAt,
      Others, Roots, P.Grants, Linked, UserPages, Split, SupplyStep, PrivateStep;
    OneOf(vm, procs, call.a);
    HousedOf(vm, procs);
    ghost var lists, books, supply := Lists(procs), BooksOf(procs), SupplyOf(vm);
    var p := procs[call.a];
    ghost var t, v, s := vm.tree, vm.pmm.view, vm.Abs();
    var res, at; ghost var k;
    res, at, k := p.Mmap(call.hint, call.length, call.prot, call.flagsOk, call.node);
    if res != 0 {
      SparedRefl(t, call.a);
      P.SameAbs(t, v, vm.pmm.view);
      out := Refused;
    } else {
      GrowingMemory(vm, t, v, s, call.a, at, at + P.RoundUp(call.length), call.prot.write);
      out := Outcome.Placed(at);
    }
    WellAgain(vm, procs, call.a, t, lists);
    BooksChanged(procs, books, call.a);
    if res == 0 {
      BookedMmap(books, call, at, k, p.areas, p.nextMmapBase);
    } else {
      assert BooksOf(procs) == books;
      BookedSame(books, call, out);
    }
    WhyMmap(call, books, supply, res != 0);
    SeenMmap(Mem(s), books, call, out, Mem(vm.Abs()));
    SupplyKept(supply, call, out, SupplyOf(vm));
  }

  lemma SeenMmap(m: Memory, b: Books, call: Call, out: Outcome, m': Memory)
    requires call.Mmap? && call.a in b
    requires if out.Refused? then m' == m
      else out.Placed? && RunAdded(m, m', call.a, out.at, out.at + P.RoundUp(call.length), call.prot.write)
    ensures PrivateStep(m, b, call, out, m')
  {
    hide RunAdded, P.RoundUp;
  }

  /** A call that neither adds a space nor takes one away. */
  lemma SupplyKept(s: Supply, call: Call, out: Outcome, s': Supply)
    requires !call.Exit? && !out.Forked? && s'.threads == s.threads && s'.failures <= s.failures
    requires Others(s'.frames) == Others(s.frames) && Roots(s'.tree) == Roots(s.tree)
    ensures SupplyStep(s, call, out, s')
  {
    hide Others, Roots;
  }

  lemma BookedSame(b: Books, call: Call, out: Outcome)
    requires out.Refused? || ((call.Fault? || call.Write? || call.Store? || call.Load?) && call.a in b)
    ensures BookStep(b, call, out, b)
  {
  }

  lemma BookedFork(b: Books, call: Call, c: nat)
    requires call.Fork? && call.a in b && c !in b
    ensures BookStep(b, call, Forked(c), b[c := b[call.a]])
  {
  }

  lemma WhyFault(call: Call, b: Books, s: Supply, refused: bool)
    requires call.Fault? && call.a in b
    requires refused <==>
      || call.address == 0 || call.address >= USER_TOP || !P.StackAccess(b[call.a].areas, call.address, call.write)
      || Split(call.a, call.address) in s.tree.ptes
      || P.NoRoom(s.tree, Split(call.a, call.address), s.failures, s.frames, s.threads)
    ensures refused <==> Refusable(call, b, s)
  {
    hide P.StackAccess, Split, P.NoRoom;
  }

  lemma WhyFork(call: Call, b: Books, s: Supply, refused: bool)
    requires call.Fork? && call.a in b
    requires refused <==>
      || !call.haveObject || call.nodes < |b[call.a].areas|
      || Uncloneable(s.failures, s.frames, s.threads, s.tree.ptes, call.a)
    ensures refused <==> Refusable(call, b, s)
  {
    hide Uncloneable;
  }

  lemma WhyMmap(call: Call, b: Books, s: Supply, refused: bool)
    requires call.Mmap? && call.a in b
    requires refused <==>
      || !call.node || P.BadRequest(call.hint, call.length, call.prot, call.flagsOk)
      || P.NoPlace(b[call.a].areas, b[call.a].base, call.hint, P.RoundUp(call.length))
      || P.Unbacked(s.tree, call.a, b[call.a].areas, b[call.a].base, call.hint, P.RoundUp(call.length), s.failures,
                    s.frames, s.threads)
    ensures refused <==> Refusable(call, b, s)
  {
    hide P.BadRequest, P.NoPlace, P.Unbacked, P.RoundUp;
  }

  lemma WhyMunmap(call: Call, b: Books, s: Supply, refused: bool)
    requires call.Munmap? && call.a in b
    requires (refused <==> !P.Removable(b[call.a].areas, call.address, call.length, call.node))
    ensures refused <==> Refusable(call, b, s)
  {
    hide P.Removable;
  }

  lemma WhyWrite(call: Call, b: Books, s: Supply, refused: bool)
    requires call.Write? && call.a in b
    requires refused <==>
      || !WritableRange(s.tree.ptes, call.a, call.dst, |call.data|)
      || (|call.data| > 0 &&
          Unaffordable(s.tree.ptes, call.a, call.dst, |call.data|, s.failures, |Avail(s.frames, s.threads)|))
    ensures refused <==> Refusable(call, b, s)
  {
    hide WritableRange, Avail, Unaffordable;
  }

  lemma BookedMmap(b: Books, call: Call, at: nat, k: nat, areas: seq<Area>, base: nat)
    requires call.Mmap? && call.a in b && k <= |b[call.a].areas| && (call.hint != 0 ==> at == call.hint)
    requires !Overlaps(b[call.a].areas, at, at + P.RoundUp(call.length))
    requires k < |areas| && P.Grants(areas[k], at, P.RoundUp(call.length), call.prot)
    requires areas == InsertAt(b[call.a].areas, k, areas[k])
    requires base == if call.hint == 0 then at + P.RoundUp(call.length) + PAGE_SIZE else b[call.a].base
    ensures BookStep(b, call, Outcome.Placed(at), b[call.a := Book(areas, base)])
  {
    hide P.RoundUp, Overlaps;
    assert Listed(b[call.a].areas, k, areas[k], areas);
  }

  lemma BookedMunmap(b: Books, call: Call, k: nat, areas: seq<Area>)
    requires call.Munmap? && call.a in b
    requires P.Inside(b[call.a].areas, k, call.address, P.RoundUp(call.length), call.node)
    requires areas == Cut(b[call.a].areas, k, call.address, call.address + P.RoundUp(call.length))
    ensures BookStep(b, call, Done, b[call.a := Book(areas, b[call.a].base)])
  {
    hide P.RoundUp, Cut, P.Inside;
    assert CutOut(b[call.a].areas, k, call.address, P.RoundUp(call.length), call.node, areas);
  }

  method DoMunmap(vm: AddressSpaces, procs: Processes, call: Call) returns (out: Outcome)
    requires AllWell(vm, procs) && call.Munmap? && call.a in procs
    modifies procs.Values, vm`tables, vm`tree, vm.pmm`view, vm.pmm.bits, vm.pmm.owners, vm.pmm.refcounts, vm.pmm.mem
    ensures AllWell(vm, procs) && PrivateStep(old(Mem(vm.Abs())), old(BooksOf(procs)), call, out, Mem(vm.Abs()))
    ensures BookStep(old(BooksOf(procs)), call, out, BooksOf(procs))
    ensures out.Refused? <==> Refusable(call, old(BooksOf(procs)), old(SupplyOf(vm)))
    ensures SupplyStep(old(SupplyOf(vm)), call, out, SupplyOf(vm))
  {
    hide Housed, AddressSpaces.Valid, Inv, Tight, Sorted, P.Backed, P.Dropping, P.RoundUp, Mem, AllWell, Abstract,
      RunGone, Spared, Cut, BookStep, Refusable, P.Removable, P.Inside, Others, Roots, Linked, UserPages,
      SupplyStep;
    OneOf(vm, procs, call.a);
    HousedOf(vm, procs);
    ghost var lists, books, supply := Lists(procs), BooksOf(procs), SupplyOf(vm);
    var p := procs[call.a];
    ghost var t, s := vm.tree, vm.Abs();
    var res; ghost var k;
    res, k := p.Munmap(call.address, call.length, call.node);
    if res != 0 {
      SparedRefl(t, call.a);
      out := Refused;
    } else {
      DroppingMemory(t, Mem(s), vm.tree, Mem(vm.Abs()), call.a, call.address, call.address + P.RoundUp(call.length));
      out := Done;
    }
    WellAgain(vm, procs, call.a, t, lists);
    BooksChanged(procs, books, call.a);
    if res == 0 {
      BookedMunmap(books, call, k, p.areas);
    } else {
      assert BooksOf(procs) == books;
      BookedSame(books, call, out);
    }
    WhyMunmap(call, books, supply, res != 0);
    SupplyKept(supply, call, out, SupplyOf(vm));
  }

  lemma DroppingMemory(t: Tree, m: Memory, g: Tree, m': Memory, r: nat, lo: nat, hi: nat)
    requires P.Dropping(t, m, g, m', r, lo, hi) && forall k :: Root(k) in t.node ==> Root(k) in g.node
    ensures RunGone(m, m', r, lo, hi) && Spared(t, g, r)
  {
  }

  method DoFault(vm: AddressSpaces, procs: Processes, call: Call) returns (out: Outcome)
    requires AllWell(vm, procs) && call.Fault? && call.a in procs
    modifies procs.Values, vm`tables, vm`tree, vm.pmm`view, vm.pmm`failAllocations, vm.pmm.bits, vm.pmm.owners,
             vm.pmm.refcounts, vm.pmm.mem
    ensures AllWell(vm, procs) && PrivateStep(old(Mem(vm.Abs())), old(BooksOf(procs)), call, out, Mem(vm.Abs()))
    ensures BookStep(old(BooksOf(procs)), call, out, BooksOf(procs))
    ensures out.Refused? <==> Refusable(call, old(BooksOf(procs)), old(SupplyOf(vm)))
    ensures SupplyStep(old(SupplyOf(vm)), call, out, SupplyOf(vm))
  {
    hide Housed, AddressSpaces.Valid, Inv, Tight, Sorted, P.Backed, P.Grown, SameFrames, Mem, AllWell, UserPages,
      PageAdded, Spared, Split, BookStep, Refusable, P.StackAccess, P.NoRoom, Others, Roots;
    OneOf(vm, procs, call.a);
    HousedOf(vm, procs);
    ghost var lists, books, supply := Lists(procs), BooksOf(procs), SupplyOf(vm);
    var p := procs[call.a];
    ghost var t, v, s := vm.tree, vm.pmm.view, vm.Abs();
    var res; ghost var f;
    res, f := p.HandlePageFault(call.address, call.write);
    if res != 0 {
      SparedRefl(t, call.a);
      P.SameAbs(t, v, vm.pmm.view);
      out := Refused;
    } else {
      ghost var k := GrownMemory(t, vm.tree, s, vm.Abs(), call.a, p.areas, call.address, call.write, f);
      out := Done;
    }
    WellAgain(vm, procs, call.a, t, lists);
    BooksChanged(procs, books, call.a);
    assert BooksOf(procs) == books;
    BookedSame(books, call, out);
    WhyFault(call, books, supply, res != 0);
  }

  lemma GrownMemory(t: Tree, g: Tree, s: State, s': State, r: nat, areas: seq<Area>, address: nat, write: bool, f: nat)
    returns (k: nat)
    requires P.Grown(t.ptes, g.ptes, s, s', r, areas, address, write, f)
    requires forall k :: Root(k) in t.node ==> Root(k) in g.node
    requires s.ptes == t.ptes && s'.ptes == g.ptes
    ensures address < USER_TOP && StackPage(Mem(s), Mem(s'), r, areas, k, address, write) && Spared(t, g, r)
    ensures Split(r, address) in g.ptes && g.ptes[Split(r, address)].rw == areas[k].flags.write
  {
    hide Split, Mem;
    P.MemKey(s, Split(r, address));
    k :| P.StackFault(areas, k, address, write) &&
    g.ptes == t.ptes[Split(r, address) := Pte(f, areas[k].flags.write, false)];
    SeenRight(s', Split(r, address));
  }

  lemma StackIn(areas: seq<Area>, k: nat, address: nat, write: bool)
    requires P.StackFault(areas, k, address, write)
    ensures k < |areas| && (write ==> areas[k].flags.write)
  {
  }

  /** A store that the hardware or the page fault handler (kernel/idt.c) lets through. A
      refused one ends the process; its exit is a call of its own. */
  method DoStore(vm: AddressSpaces, procs: Processes, call: Call) returns (out: Outcome)
    requires AllWell(vm, procs) && call.Store? && call.a in procs
    modifies procs.Values, vm`tables, vm`tree, vm.pmm`view, vm.pmm`failAllocations, vm.pmm.bits, vm.pmm.owners,
             vm.pmm.refcounts, vm.pmm.mem
    ensures AllWell(vm, procs) && PrivateStep(old(Mem(vm.Abs())), old(BooksOf(procs)), call, out, Mem(vm.Abs()))
    ensures BookStep(old(BooksOf(procs)), call, out, BooksOf(procs))
    ensures out.Refused? <==> Refusable(call, old(BooksOf(procs)), old(SupplyOf(vm)))
    ensures SupplyStep(old(SupplyOf(vm)), call, out, SupplyOf(vm))
  {
    hide AddressSpaces.Valid, Inv, Tight, Sorted, P.Backed, Mem, AllWell, UserPages, Spared, Split, Stored, BookStep,
      Refusable, Unstorable, Ungrowable, Others, Roots, Translate;
    OneOf(vm, procs, call.a);
    ghost var books := BooksOf(procs);
    if call.address >= USER_TOP {
      BookedSame(books, call, Refused);
      StoreHigh(call, books, SupplyOf(vm));
      return Refused;
    }
    UserAccess(vm, call.a, call.address);
    Seen(vm.Abs(), Split(call.a, call.address));
    if Translate(vm.tables, call.a, call.address, true) == Access.Fault(false) {
      out := StoreGrowing(vm, procs, call);
    } else {
      out := StoreThere(vm, procs, call);
    }
  }

  /** A load that the hardware or the page fault handler lets through. */
  method DoLoad(vm: AddressSpaces, procs: Processes, call: Call) returns (out: Outcome)
    requires AllWell(vm, procs) && call.Load? && call.a in procs
    modifies procs.Values, vm`tables, vm`tree, vm.pmm`view, vm.pmm`failAllocations, vm.pmm.bits, vm.pmm.owners,
             vm.pmm.refcounts, vm.pmm.mem
    ensures AllWell(vm, procs) && PrivateStep(old(Mem(vm.Abs())), old(BooksOf(procs)), call, out, Mem(vm.Abs()))
    ensures BookStep(old(BooksOf(procs)), call, out, BooksOf(procs))
    ensures out.Refused? <==> Refusable(call, old(BooksOf(procs)), old(SupplyOf(vm)))
    ensures SupplyStep(old(SupplyOf(vm)), call, out, SupplyOf(vm))
  {
    hide Housed, AddressSpaces.Valid, Inv, Tight, Sorted, P.Backed, Mem, AllWell, UserPages, Spared, Split, BookStep,
      Refusable, Loaded, PrivateStep, Others, Roots, SupplyStep, Ungrowable;
    OneOf(vm, procs, call.a);
    HousedOf(vm, procs);
    ghost var lists, books, supply := Lists(procs), BooksOf(procs), SupplyOf(vm);
    ghost var t, m := vm.tree, Mem(vm.Abs());
    out := Refused;
    if call.address < USER_TOP {
      var res, byte := LoadOrGrow(vm, procs[call.a], call.address);
      if res == 0 { out := Got(byte); }
    } else {
      SparedRefl(t, call.a);
    }
    LoadStep(m, books, call, out, Mem(vm.Abs()));
    WellAgain(vm, procs, call.a, t, lists);
    BooksChanged(procs, books, call.a);
    assert BooksOf(procs) == books;
    BookedSame(books, call, out);
    WhyLoad(call, books, supply, out.Refused?);
    SupplyKept(supply, call, out, SupplyOf(vm));
  }

  lemma LoadStep(m: Memory, b: Books, call: Call, out: Outcome, m': Memory)
    requires call.Load? && call.a in b
    requires
      if out.Refused? then m' == m
      else out.Got? && Loaded(m, m', call.a, b[call.a].areas, call.address, out.byte)
    ensures PrivateStep(m, b, call, out, m')
  {
    hide Loaded;
  }

  lemma WhyLoad(call: Call, b: Books, s: Supply, refused: bool)
    requires call.Load? && call.a in b
    requires refused <==>
      || call.address >= USER_TOP
      || (Split(call.a, call.address) !in s.tree.ptes && Ungrowable(s, call.a, b[call.a].areas, call.address, false))
    ensures refused <==> Refusable(call, b, s)
  {
    hide Ungrowable, Split;
  }

  /** The load, with the stack page it may bring about. */
  method LoadOrGrow(vm: AddressSpaces, p: P.Process, address: nat) returns (res: int, byte: Byte)
    requires p.Valid() && p.vm == vm && address < USER_TOP
    modifies vm`tables, vm`tree, vm.pmm`view, vm.pmm`failAllocations, vm.pmm.bits, vm.pmm.owners, vm.pmm.refcounts,
             vm.pmm.mem
    ensures p.Valid() && Spared(old(vm.tree), vm.tree, p.r)
    ensures if res == 0 then Loaded(old(Mem(vm.Abs())), Mem(vm.Abs()), p.r, p.areas, address, byte)
            else Mem(vm.Abs()) == old(Mem(vm.Abs()))
    ensures res != 0 <==>
      Split(p.r, address) !in old(vm.tree.ptes) && Ungrowable(old(SupplyOf(vm)), p.r, p.areas, address, false)
    ensures vm.pmm.failAllocations <= old(vm.pmm.failAllocations)
    ensures Others(vm.pmm.view) == old(Others(vm.pmm.view)) && Roots(vm.tree) == old(Roots(vm.tree))
  {
    hide AddressSpaces.Valid, Inv, Tight, Sorted, P.Backed, P.Grown, SameFrames, Mem, UserPages, Spared, Split,
      P.StackAccess, P.NoRoom, StackPage, P.StackFault, Others, Roots, SeenAt;
    ghost var t, v, s := vm.tree, vm.pmm.view, vm.Abs();
    Seen(s, Split(p.r, address));
    SparedRefl(t, p.r);
    var access;
    access, byte := LoadByte(vm, p.r, address);
    if access.Hit? { return 0, byte; }
    ghost var f;
    res, f := p.HandlePageFault(address, false);
    if res != 0 {
      P.SameAbs(t, v, vm.pmm.view);
      return;
    }
    ghost var k := GrownMemory(t, vm.tree, s, vm.Abs(), p.r, p.areas, address, false, f);
    Seen(vm.Abs(), Split(p.r, address));
    access, byte := LoadByte(vm, p.r, address);
  }

  lemma StoreHigh(call: Call, b: Books, s: Supply)
    requires call.Store? && call.address >= USER_TOP
    ensures Refusable(call, b, s)
  {
  }

  lemma WhyStore(call: Call, b: Books, s: Supply, refused: bool)
    requires call.Store? && call.a in b && call.address < USER_TOP
    requires refused <==>
      if Split(call.a, call.address) in s.tree.ptes then Unstorable(s, Split(call.a, call.address))
      else Ungrowable(s, call.a, b[call.a].areas, call.address, true)
    ensures refused <==> Refusable(call, b, s)
  {
    hide Unstorable, Ungrowable, Split;
  }

  method StoreThere(vm: AddressSpaces, procs: Processes, call: Call) returns (out: Outcome)
    requires AllWell(vm, procs) && call.Store? && call.a in procs
    requires call.address < USER_TOP && Split(call.a, call.address) in vm.tree.ptes
    modifies procs.Values, vm`tables, vm`tree, vm.pmm`view, vm.pmm`failAllocations, vm.pmm.bits, vm.pmm.owners,
             vm.pmm.refcounts, vm.pmm.mem
    ensures AllWell(vm, procs) && PrivateStep(old(Mem(vm.Abs())), old(BooksOf(procs)), call, out, Mem(vm.Abs()))
    ensures BookStep(old(BooksOf(procs)), call, out, BooksOf(procs))
    ensures out.Refused? <==> Refusable(call, old(BooksOf(procs)), old(SupplyOf(vm)))
    ensures SupplyStep(old(SupplyOf(vm)), call, out, SupplyOf(vm))
  {
    hide Housed, AddressSpaces.Valid, Inv, Tight, Sorted, P.Backed, Mem, AllWell, UserPages, Spared, Written, Split,
      MayWrite, BookStep, Refusable, IsShared, NoPage, StackPage, Others, Roots;
    OneOf(vm, procs, call.a);
    HousedOf(vm, procs);
    ghost var lists, books, supply := Lists(procs), BooksOf(procs), SupplyOf(vm);
    ghost var t, s := vm.tree, vm.Abs();
    MayWriteSeen(s, Split(call.a, call.address));
    Seen(s, Split(call.a, call.address));
    var res := StoreByte(vm, call.a, call.address, call.byte);
    WrittenKeys(Mem(s), call.a, call.address, [call.byte]);
    SameKeys(t, s, vm.tree, vm.Abs(), procs[call.a].areas, call.a);
    out := if res == 0 then Done else Refused;
    WellAgain(vm, procs, call.a, t, lists);
    BooksChanged(procs, books, call.a);
    assert BooksOf(procs) == books;
    BookedSame(books, call, out);
    RootsSame(t, vm.tree);
    WhyStore(call, books, supply, res != 0);
  }

  method StoreGrowing(vm: AddressSpaces, procs: Processes, call: Call) returns (out: Outcome)
    requires AllWell(vm, procs) && call.Store? && call.a in procs
    requires call.address < USER_TOP && Split(call.a, call.address) !in vm.tree.ptes
    modifies procs.Values, vm`tables, vm`tree, vm.pmm`view, vm.pmm`failAllocations, vm.pmm.bits, vm.pmm.owners,
             vm.pmm.refcounts, vm.pmm.mem
    ensures AllWell(vm, procs) && PrivateStep(old(Mem(vm.Abs())), old(BooksOf(procs)), call, out, Mem(vm.Abs()))
    ensures BookStep(old(BooksOf(procs)), call, out, BooksOf(procs))
    ensures out.Refused? <==> Refusable(call, old(BooksOf(procs)), old(SupplyOf(vm)))
    ensures SupplyStep(old(SupplyOf(vm)), call, out, SupplyOf(vm))
  {
    hide Housed, AddressSpaces.Valid, Inv, Tight, Sorted, P.Backed, P.Grown, SameFrames, Mem, AllWell, UserPages,
      Spared, Split, Written, BookStep, Refusable, P.StackAccess, P.NoRoom, StackPage, P.StackFault, MayWrite, Stored,
      PrivateStep, Others, Roots, SupplyStep, Ungrowable;
    OneOf(vm, procs, call.a);
    HousedOf(vm, procs);
    ghost var lists, books, supply := Lists(procs), BooksOf(procs), SupplyOf(vm);
    ghost var t, m := vm.tree, Mem(vm.Abs());
    var res := GrowAndStore(vm, procs[call.a], call.address, call.byte);
    if res != 0 {
      out := Refused;
      RefusedMemory(m, books, call);
    } else {
      out := Done;
      StoredStep(m, books, call, Mem(vm.Abs()));
    }
    WellAgain(vm, procs, call.a, t, lists);
    BooksChanged(procs, books, call.a);
    assert BooksOf(procs) == books;
    BookedSame(books, call, out);
    WhyStore(call, books, supply, res != 0);
    SupplyKept(supply, call, out, SupplyOf(vm));
  }

  lemma RefusedMemory(m: Memory, b: Books, call: Call)
    ensures PrivateStep(m, b, call, Refused, m)
  {
  }

  lemma StoredStep(m: Memory, b: Books, call: Call, m': Memory)
    requires call.Store? && call.a in b && Stored(m, m', call.a, b[call.a].areas, call.address, call.byte)
    ensures PrivateStep(m, b, call, Done, m')
  {
    hide Stored;
  }

  lemma StoredNew(m: Memory, m1: Memory, m': Memory, a: nat, areas: seq<Area>, address: nat, byte: Byte, k: nat)
    requires address < USER_TOP && Split(a, address) !in m
    requires StackPage(m, m1, a, areas, k, address, true) && m' == Written(m1, a, address, [byte])
    ensures Stored(m, m', a, areas, address, byte)
  {
    hide StackPage, Written, Split;
  }

  /** The fault brings the stack page about, and the store is repeated. */
  method GrowAndStore(vm: AddressSpaces, p: P.Process, address: nat, byte: Byte) returns (res: int)
    requires p.Valid() && p.vm == vm && address < USER_TOP && Split(p.r, address) !in vm.tree.ptes
    modifies vm`tables, vm`tree, vm.pmm`view, vm.pmm`failAllocations, vm.pmm.bits, vm.pmm.owners, vm.pmm.refcounts,
             vm.pmm.mem
    ensures p.Valid() && Spared(old(vm.tree), vm.tree, p.r)
    ensures if res == 0 then Stored(old(Mem(vm.Abs())), Mem(vm.Abs()), p.r, p.areas, address, byte)
            else Mem(vm.Abs()) == old(Mem(vm.Abs()))
    ensures res != 0 <==> Ungrowable(old(SupplyOf(vm)), p.r, p.areas, address, true)
    ensures vm.pmm.failAllocations <= old(vm.pmm.failAllocations)
    ensures Others(vm.pmm.view) == old(Others(vm.pmm.view)) && Roots(vm.tree) == old(Roots(vm.tree))
  {
    hide AddressSpaces.Valid, Inv, Tight, Sorted, P.Backed, P.Grown, SameFrames, Mem, UserPages, Spared, Split,
      Written, P.StackAccess, P.NoRoom, StackPage, P.StackFault, MayWrite, Stored, Others, Roots;
    ghost var t, v, s := vm.tree, vm.pmm.view, vm.Abs();
    Seen(s, Split(p.r, address));
    ghost var f;
    res, f := p.HandlePageFault(address, true);
    if res != 0 {
      SparedRefl(t, p.r);
      P.SameAbs(t, v, vm.pmm.view);
      return;
    }
    ghost var k := GrownMemory(t, vm.tree, s, vm.Abs(), p.r, p.areas, address, true, f);
    ghost var m1 := Mem(vm.Abs());
    StackGrown(Mem(s), m1, p.r, p.areas, k, address);
    CopyChunks(vm, p.r, address, [byte]);
    StoredNew(Mem(s), m1, Mem(vm.Abs()), p.r, p.areas, address, byte, k);
  }

  lemma StackGrown(m: Memory, m': Memory, a: nat, areas: seq<Area>, k: nat, address: nat)
    requires StackPage(m, m', a, areas, k, address, true)
    ensures k < |areas| && areas[k].flags.write
  {
    hide PageAdded, Split;
    StackIn(areas, k, address, true);
  }

  method DoWrite(vm: AddressSpaces, procs: Processes, call: Call) returns (out: Outcome)
    requires AllWell(vm, procs) && call.Write? && call.a in procs
    modifies procs.Values, vm`tables, vm`tree, vm.pmm`view, vm.pmm`failAllocations, vm.pmm.bits, vm.pmm.owners,
             vm.pmm.refcounts, vm.pmm.mem
    ensures AllWell(vm, procs) && PrivateStep(old(Mem(vm.Abs())), old(BooksOf(procs)), call, out, Mem(vm.Abs()))
    ensures BookStep(old(BooksOf(procs)), call, out, BooksOf(procs))
    ensures out.Refused? <==> Refusable(call, old(BooksOf(procs)), old(SupplyOf(vm)))
    ensures SupplyStep(old(SupplyOf(vm)), call, out, SupplyOf(vm))
  {
    hide Housed, AddressSpaces.Valid, Inv, Tight, Sorted, P.Backed, Mem, AllWell, UserPages, Spared, Written,
      WritableRange, IsCow, BookStep, Refusable, Avail, Unaffordable, SeenWritable, Others, Roots;
    OneOf(vm, procs, call.a);
    HousedOf(vm, procs);
    ghost var lists, books, supply := Lists(procs), BooksOf(procs), SupplyOf(vm);
    ghost var t, s := vm.tree, vm.Abs();
    var res := CopyToUser(vm, call.a, call.dst, call.data);
    WrittenKeys(Mem(s), call.a, call.dst, call.data);
    SameKeys(t, s, vm.tree, vm.Abs(), procs[call.a].areas, call.a);
    out := if res == 0 then Done else Refused;
    WellAgain(vm, procs, call.a, t, lists);
    BooksChanged(procs, books, call.a);
    assert BooksOf(procs) == books;
    BookedSame(books, call, out);
    RootsSame(t, vm.tree);
    if res == 0 { RangeSeen(s, call.a, call.dst, |call.data|); }
    WhyWrite(call, books, supply, res != 0);
  }

  /** What is mapped can be told from what is seen. */
  lemma SameKeys(t: Tree, s: State, g: Tree, s': State, areas: seq<Area>, a: nat)
    requires Inv(s) && Inv(s') && s.ptes == t.ptes && s'.ptes == g.ptes && Mem(s').Keys == Mem(s).Keys
    requires g.node == t.node
    requires P.Backed(t.ptes, a, areas)
    ensures Spared(t, g, a) && P.Backed(g.ptes, a, areas)
  {
    hide Inv, Mem, P.Backed;
    forall q ensures q in t.ptes <==> q in g.ptes {
      Seen(s, q);
      Seen(s', q);
      assert q in Mem(s).Keys <==> q in Mem(s').Keys;
    }
    P.BackedStill(t.ptes, g.ptes, a, areas);
  }

  lemma OneOf(vm: AddressSpaces, procs: Processes, r: nat)
    requires AllWell(vm, procs) && r in procs
    ensures vm.Valid() && Tight(vm.tree) && Inv(vm.Abs()) && procs[r].Valid() && WellAt(vm, procs[r], r)
    ensures forall x :: x in procs && x != r ==> procs[x] != procs[r]
  {
    hide AddressSpaces.Valid, Inv, Tight, Sorted, P.Backed;
    assert WellAt(vm, procs[r], r);
    forall x | x in procs && x != r ensures procs[x] != procs[r] { assert WellAt(vm, procs[x], x); }
  }

  /** The fork itself; the child is not listed among the processes yet. */
  method ForkOne(vm: AddressSpaces, procs: Processes, call: Call) returns (child: P.Process?)
    requires AllWell(vm, procs) && call.Fork? && call.a in procs
    modifies procs.Values, vm`tables, vm`tree, vm.pmm`view, vm.pmm`failAllocations, vm.pmm.bits, vm.pmm.owners,
             vm.pmm.refcounts, vm.pmm.mem
    ensures AllWell(vm, procs) && BooksOf(procs) == old(BooksOf(procs))
    ensures child == null ==> Mem(vm.Abs()) == old(Mem(vm.Abs()))
    ensures child == null <==> Refusable(call, old(BooksOf(procs)), old(SupplyOf(vm)))
    ensures SupplyStep(old(SupplyOf(vm)), call, if child == null then Refused else Forked(child.r), SupplyOf(vm))
    ensures child != null ==> fresh(child) && child.vm == vm && child.Valid() && child.r != BOOT_KERNEL_PML4
    ensures child != null ==> child.areas == procs[call.a].areas && child.nextMmapBase == procs[call.a].nextMmapBase
    ensures child != null ==> child.r !in procs && Mem(vm.Abs()) == CopySpace(old(Mem(vm.Abs())), call.a, child.r)
    ensures child != null ==> forall q :: q in old(Mem(vm.Abs())) ==> q.r != child.r
  {
    hide Housed, AddressSpaces.Valid, Inv, Tight, Sorted, P.Backed, Mem, AllWell, UserPages, Spared, CopySpace,
      SharedPages.Fork, BookStep, Refusable, Uncloneable, Others, Roots;
    OneOf(vm, procs, call.a);
    HousedOf(vm, procs);
    ghost var lists, books, supply := Lists(procs), BooksOf(procs), SupplyOf(vm);
    ghost var t, s := vm.tree, vm.Abs();
    SpacesHaveRoots(vm);
    child := procs[call.a].ForkProcess(call.haveObject, call.nodes);
    ForkSpares(t, s, vm.tree, vm.Abs(), call.a, child != null, if child != null then child.r else 0);
    WellAgain(vm, procs, call.a, t, lists);
    BooksChanged(procs, books, call.a);
    assert BooksOf(procs) == books;
    WhyFork(call, books, supply, child == null);
    if child != null { NewSpace(t, s, lists, child.r); }
  }

  method DoFork(vm: AddressSpaces, procs: Processes, call: Call) returns (procs': Processes, out: Outcome)
    requires AllWell(vm, procs) && call.Fork? && call.a in procs
    modifies procs.Values, vm`tables, vm`tree, vm.pmm`view, vm.pmm`failAllocations, vm.pmm.bits, vm.pmm.owners,
             vm.pmm.refcounts, vm.pmm.mem
    ensures AllWell(vm, procs') && PrivateStep(old(Mem(vm.Abs())), old(BooksOf(procs)), call, out, Mem(vm.Abs()))
    ensures BookStep(old(BooksOf(procs)), call, out, BooksOf(procs'))
    ensures out.Refused? <==> Refusable(call, old(BooksOf(procs)), old(SupplyOf(vm)))
    ensures SupplyStep(old(SupplyOf(vm)), call, out, SupplyOf(vm))
    ensures forall r :: r in procs' ==> fresh(procs'[r]) || procs'[r] in procs.Values
  {
    hide Housed, AddressSpaces.Valid, Inv, Tight, Sorted, P.Backed, Mem, AllWell, UserPages, CopySpace, BookStep,
      Refusable, SupplyStep;
    ghost var books := BooksOf(procs);
    var child := ForkOne(vm, procs, call);
    procs' := procs;
    if child == null {
      BookedSame(books, call, Refused);
      return procs', Refused;
    }
    procs' := procs[child.r := child];
    out := Forked(child.r);
    BookedFork(books, call, child.r);
    assert BooksOf(procs') == books[child.r := books[call.a]];
    ChildJoins(vm, procs, child);
  }

  lemma SpacesHaveRoots(vm: AddressSpaces)
    requires vm.Valid()
    ensures forall q :: q in vm.tree.ptes ==> Root(q.r) in vm.tree.node
  {
    hide Linked, Pmm.PageMap.Valid, TreeInv;
    forall q | q in vm.tree.ptes ensures Root(q.r) in vm.tree.node { PathPresent(vm.tree, vm.kernel, q, 4); }
  }

  lemma ForkSpares(t: Tree, s: State, g: Tree, s': State, a: nat, ok: bool, c: nat)
    requires Inv(s) && Inv(s') && s.ptes == t.ptes && s'.ptes == g.ptes
    requires forall k :: Root(k) in t.node ==> Root(k) in g.node
    requires Mem(s') == if ok then CopySpace(Mem(s), a, c) else Mem(s)
    ensures Spared(t, g, a)
  {
    hide Inv, Mem;
    forall q | q in t.ptes ensures q in g.ptes {
      Seen(s, q);
      Seen(s', q);
    }
  }

  lemma NewSpace(t: Tree, s: State, lists: map<nat, seq<Area>>, c: nat)
    requires Inv(s) && s.ptes == t.ptes && Root(c) !in t.node && Housed(t, lists)
    requires forall q :: q in t.ptes ==> Root(q.r) in t.node
    ensures c !in lists && forall q :: q in Mem(s) ==> q.r != c
  {
    hide Inv, Mem, Sorted, P.Backed;
    assert c in lists ==> HousedAt(t, c, lists[c]);
    forall q | q in Mem(s) ensures q.r != c { Seen(s, q); }
  }

  lemma ChildJoins(vm: AddressSpaces, procs: Processes, child: P.Process)
    requires AllWell(vm, procs) && child.Valid() && child.vm == vm && child.r != BOOT_KERNEL_PML4
    ensures AllWell(vm, procs[child.r := child])
  {
    hide AddressSpaces.Valid, Inv, Tight, Sorted, P.Backed;
    var all := procs[child.r := child];
    forall r | r in all ensures WellAt(vm, all[r], r) {
      if r != child.r { assert WellAt(vm, procs[r], r); }
    }
  }

  method DoExit(vm: AddressSpaces, procs: Processes, call: Call) returns (procs': Processes)
    requires AllWell(vm, procs) && call.Exit? && call.a in procs
    modifies procs.Values, vm`tables, vm`tree, vm.pmm`view, vm.pmm.bits, vm.pmm.owners, vm.pmm.refcounts, vm.pmm.mem
    ensures AllWell(vm, procs') && PrivateStep(old(Mem(vm.Abs())), old(BooksOf(procs)), call, Done, Mem(vm.Abs()))
    ensures BookStep(old(BooksOf(procs)), call, Done, BooksOf(procs'))
    ensures !Refusable(call, old(BooksOf(procs)), old(SupplyOf(vm)))
    ensures SupplyStep(old(SupplyOf(vm)), call, Done, SupplyOf(vm))
    ensures procs' == procs - {call.a}
  {
    hide Housed, AddressSpaces.Valid, Inv, Tight, Sorted, P.Backed, Mem, AllWell, UserPages, Spared, DropSpace,
      SpaceGone, Others, Roots;
    OneOf(vm, procs, call.a);
    HousedOf(vm, procs);
    ghost var lists := Lists(procs);
    ghost var t := vm.tree;
    procs[call.a].Release();
    SparedGone(t, vm.tree, call.a);
    procs' := procs - {call.a};
    OthersWell(vm, procs', call.a, t, lists);
  }

  lemma OthersWell(vm: AddressSpaces, procs: Processes, a: nat, t: Tree, lists: map<nat, seq<Area>>)
    requires vm.Valid() && Tight(vm.tree) && Inv(vm.Abs()) && a !in procs && Housed(t, lists) && Spared(t, vm.tree, a)
    requires procs.Keys <= lists.Keys && forall r :: r in procs ==> procs[r].areas == lists[r]
    requires forall r :: r in procs ==> procs[r].vm == vm && procs[r].r == r && procs[r].nextMmapBase % PAGE_SIZE == 0
    ensures AllWell(vm, procs)
  {
    hide AddressSpaces.Valid, Inv, Tight, Sorted, P.Backed, Spared;
    forall r | r in procs ensures WellAt(vm, procs[r], r) {
      assert r in lists.Keys;
      assert HousedAt(t, r, lists[r]);
      OtherStill(t, vm.tree, a, r, procs[r].areas);
    }
  }

  // -------------------------------------------------------------------- whole runs

  /** One call, by whatever process; a caller that does not exist is refused. */
  method Step(vm: AddressSpaces, procs: Processes, call: Call) returns (procs': Processes, out: Outcome)
    requires AllWell(vm, procs)
    modifies procs.Values, vm`tables, vm`tree, vm.pmm`view, vm.pmm`failAllocations, vm.pmm.bits, vm.pmm.owners,
             vm.pmm.refcounts, vm.pmm.mem
    ensures AllWell(vm, procs') && PrivateStep(old(Mem(vm.Abs())), old(BooksOf(procs)), call, out, Mem(vm.Abs()))
    ensures BookStep(old(BooksOf(procs)), call, out, BooksOf(procs'))
    ensures out.Refused? <==> Refusable(call, old(BooksOf(procs)), old(SupplyOf(vm)))
    ensures SupplyStep(old(SupplyOf(vm)), call, out, SupplyOf(vm))
    ensures forall r :: r in procs' ==> fresh(procs'[r]) || procs'[r] in procs.Values
  {
    hide AllWell, PrivateStep, Mem, AddressSpaces.Abs, BookStep, Refusable, SupplyOf, SupplyStep;
    procs' := procs;
    if call.a !in procs {
      RefusedStep(Mem(vm.Abs()), call, BooksOf(procs), SupplyOf(vm));
      return procs', Refused;
    }
    match call
    case Fork(_, _, _) => procs', out := DoFork(vm, procs, call);
    case Exit(_) =>
      procs' := DoExit(vm, procs, call);
      out := Done;
    case Mmap(_, _, _, _, _, _) => out := DoMmap(vm, procs, call);
    case Munmap(_, _, _, _) => out := DoMunmap(vm, procs, call);
    case Fault(_, _, _) => out := DoFault(vm, procs, call);
    case Write(_, _, _) => out := DoWrite(vm, procs, call);
    case Store(_, _, _) => out := DoStore(vm, procs, call);
    case Load(_, _) => out := DoLoad(vm, procs, call);
  }

  lemma RefusedStep(m: Memory, call: Call, b: Books, s: Supply)
    requires call.a !in b
    ensures PrivateStep(m, b, call, Refused, m) && BookStep(b, call, Refused, b) && Refusable(call, b, s)
    ensures SupplyStep(s, call, Refused, s)
  {
  }

  lemma FirstBook(init: P.Process)
    ensures BooksOf(map[init.r := init]) == map[init.r := Book(init.areas, init.nextMmapBase)]
  {
  }

  /** Every process's areas are in order. */
  ghost predicate InOrder(b: Books) {
    forall r :: r in b ==> Sorted(b[r].areas) && b[r].base % PAGE_SIZE == 0
  }

  lemma BooksInOrder(vm: AddressSpaces, procs: Processes)
    requires AllWell(vm, procs)
    ensures InOrder(BooksOf(procs))
  {
    hide AddressSpaces.Valid, Inv, Tight, Sorted, P.Backed;
    forall r | r in procs ensures Sorted(procs[r].areas) && procs[r].nextMmapBase % PAGE_SIZE == 0 {
      assert WellAt(vm, procs[r], r);
    }
  }

  /** What mmap gave can be given back: in a run, a munmap of any page-aligned part of it right
      after is not refused, given a list node for a cut out of the middle; and when it is the
      whole, memory and areas are what they were before the mmap. */
  lemma MmapThenMunmap(m: Memory, b: Books, map1: Call, at: nat, m1: Memory, b1: Books, s: Supply, unmap: Call,
                       out: Outcome, m2: Memory, b2: Books)
    requires map1.Mmap? && PrivateStep(m, b, map1, Outcome.Placed(at), m1) && BookStep(b, map1, Outcome.Placed(at), b1)
    requires InOrder(b1) && unmap.Munmap? && unmap.a == map1.a && unmap.length > 0 && unmap.address % PAGE_SIZE == 0
    requires at <= unmap.address && unmap.address + P.RoundUp(unmap.length) <= at + P.RoundUp(map1.length)
    requires unmap.node || unmap.address == at ||
             unmap.address + P.RoundUp(unmap.length) == at + P.RoundUp(map1.length)
    requires PrivateStep(m1, b1, unmap, out, m2) && BookStep(b1, unmap, out, b2)
    requires out.Refused? <==> Refusable(unmap, b1, s)
    ensures !out.Refused?
    ensures unmap.address == at && P.RoundUp(unmap.length) == P.RoundUp(map1.length) ==>
      m2 == m && map1.a in b && map1.a in b2 && b2[map1.a].areas == b[map1.a].areas
  {
    hide P.RoundUp, Sorted, P.InRun, PrivateStep, BookStep, Refusable, InOrder, RunAdded, RunGone, Cut, InsertAt;
    var a, size, cut := map1.a, P.RoundUp(map1.length), P.RoundUp(unmap.length);
    P.RoundUpFacts(unmap.length);
    var k, x := MmapBook(b, map1, at, b1);
    InOrderAt(b1, a);
    AreaWell(b1[a].areas, k);
    assert P.Inside(b1[a].areas, k, unmap.address, cut, unmap.node);
    assert P.Removable(b1[a].areas, unmap.address, unmap.length, unmap.node);
    WhyMunmap(unmap, b1, s, false);
    if unmap.address == at && cut == size {
      var j := MunmapBook(b1, unmap, out, b2);
      SameArea(b1[a].areas, unmap.address, j, k);
      CutInserted(b[a].areas, k, x);
      MmapMemory(m, b, map1, at, m1);
      MunmapMemory(m1, b1, unmap, out, m2);
      Restored(m, m1, m2, a, at, at + size, map1.prot.write);
    }
  }

  lemma MmapBook(b: Books, call: Call, at: nat, b': Books) returns (k: nat, x: Area)
    requires call.Mmap? && BookStep(b, call, Outcome.Placed(at), b')
    ensures call.a in b && call.a in b' && k <= |b[call.a].areas| && P.Grants(x, at, P.RoundUp(call.length), call.prot)
    ensures b'[call.a].areas == InsertAt(b[call.a].areas, k, x) && k < |b'[call.a].areas| && b'[call.a].areas[k] == x
  {
    hide P.RoundUp, P.Grants, Overlaps;
    var k0: nat, x0: Area :| P.Grants(x0, at, P.RoundUp(call.length), call.prot) &&
      Listed(b[call.a].areas, k0, x0, b'[call.a].areas);
    k, x := k0, x0;
  }

  lemma MunmapBook(b: Books, call: Call, out: Outcome, b': Books) returns (k: nat)
    requires call.Munmap? && !out.Refused? && BookStep(b, call, out, b')
    ensures call.a in b && call.a in b'
    ensures CutOut(b[call.a].areas, k, call.address, P.RoundUp(call.length), call.node, b'[call.a].areas)
  {
    hide P.RoundUp, CutOut;
    var k0: nat :| CutOut(b[call.a].areas, k0, call.address, P.RoundUp(call.length), call.node, b'[call.a].areas);
    k := k0;
  }

  lemma MmapMemory(m: Memory, b: Books, call: Call, at: nat, m': Memory)
    requires call.Mmap? && PrivateStep(m, b, call, Outcome.Placed(at), m')
    ensures RunAdded(m, m', call.a, at, at + P.RoundUp(call.length), call.prot.write)
  {
    hide RunAdded, P.RoundUp;
  }

  lemma MunmapMemory(m: Memory, b: Books, call: Call, out: Outcome, m': Memory)
    requires call.Munmap? && !out.Refused? && PrivateStep(m, b, call, out, m')
    ensures RunGone(m, m', call.a, call.address, call.address + P.RoundUp(call.length))
  {
    hide RunGone, P.RoundUp;
  }

  lemma InOrderAt(b: Books, r: nat)
    requires InOrder(b) && r in b
    ensures Sorted(b[r].areas)
  {
  }

  lemma AreaWell(xs: seq<Area>, k: nat)
    requires Sorted(xs) && k < |xs|
    ensures xs[k].Well()
  {
  }

  lemma SameArea(xs: seq<Area>, address: nat, j: nat, k: nat)
    requires Sorted(xs) && j < |xs| && k < |xs| && In(xs, address, j) && In(xs, address, k)
    ensures j == k
  {
  }

  lemma Restored(m: Memory, m1: Memory, m2: Memory, a: nat, lo: nat, hi: nat, writable: bool)
    requires RunAdded(m, m1, a, lo, hi, writable) && RunGone(m1, m2, a, lo, hi)
    ensures m2 == m
  {
    hide P.InRun;
  }

  /** The pages of the supply hold the memories. */
  ghost predicate SupplyAt(s: Supply, m: Memory) { m == Mem(Abstract(s.tree, s.frames)) }

  lemma SupplyNow(vm: AddressSpaces, procs: Processes)
    requires AllWell(vm, procs)
    ensures SupplyAt(SupplyOf(vm), Mem(vm.Abs())) && Supplied(SupplyOf(vm), vm.kernel, vm.kernelTables)
  {
    hide Mem, Abstract, Inv, TreeInv, Linked, Tight, NoOrphans, Pmm.PageMap.Valid;
    P.ForkAllowed(vm);
  }

  /** Every run of the machine is, memory by memory and outcome by outcome, a run of private
      memories: sharing, copying on write and reference counting are never seen. */
  method Run(vm: AddressSpaces, init: P.Process, calls: seq<Call>)
    returns (procs: Processes, outs: seq<Outcome>, ghost ms: seq<Memory>, ghost bs: seq<Books>, ghost ss: seq<Supply>)
    requires AllWell(vm, map[init.r := init])
    modifies init, vm`tables, vm`tree, vm.pmm`view, vm.pmm`failAllocations, vm.pmm.bits, vm.pmm.owners,
             vm.pmm.refcounts, vm.pmm.mem
    ensures AllWell(vm, procs) && |outs| == |calls| && |ms| == |calls| + 1
    ensures ms[0] == old(Mem(vm.Abs())) && ms[|calls|] == Mem(vm.Abs())
    ensures |bs| == |calls| + 1 && bs[0] == map[init.r := Book(old(init.areas), old(init.nextMmapBase))]
    ensures bs[|calls|] == BooksOf(procs)
    ensures forall i :: 0 <= i < |calls| ==> PrivateStep(ms[i], bs[i], calls[i], outs[i], ms[i + 1])
    ensures forall i :: 0 <= i < |calls| ==> BookStep(bs[i], calls[i], outs[i], bs[i + 1])
    ensures |ss| == |calls| + 1 && ss[0] == old(SupplyOf(vm)) && ss[|calls|] == SupplyOf(vm)
    ensures forall i :: 0 <= i <= |calls| ==> SupplyAt(ss[i], ms[i]) && Supplied(ss[i], vm.kernel, vm.kernelTables)
    ensures forall i :: 0 <= i < |calls| ==> SupplyStep(ss[i], calls[i], outs[i], ss[i + 1])
    ensures forall i :: 0 <= i < |calls| ==> (outs[i].Refused? <==> Refusable(calls[i], bs[i], ss[i]))
    ensures forall i :: 0 <= i <= |calls| ==> InOrder(bs[i])
  {
    hide AllWell, PrivateStep, Mem, AddressSpaces.Abs, BookStep, Refusable, SupplyOf, BooksOf, SupplyAt, Supplied,
      SupplyStep, InOrder;
    procs, outs, ms := map[init.r := init], [], [Mem(vm.Abs())];
    bs, ss := [BooksOf(procs)], [SupplyOf(vm)];
    FirstBook(init);
    SupplyNow(vm, procs);
    BooksInOrder(vm, procs);
    for i := 0 to |calls|
      invariant AllWell(vm, procs) && |outs| == i && |ms| == i + 1 && ms[0] == old(Mem(vm.Abs()))
      invariant ms[i] == Mem(vm.Abs())
      invariant |bs| == i + 1 && bs[0] == map[init.r := Book(old(init.areas), old(init.nextMmapBase))]
      invariant bs[i] == BooksOf(procs)
      invariant |ss| == i + 1 && ss[0] == old(SupplyOf(vm)) && ss[i] == SupplyOf(vm)
      invariant forall j :: 0 <= j < i ==> PrivateStep(ms[j], bs[j], calls[j], outs[j], ms[j + 1])
      invariant forall j :: 0 <= j < i ==> BookStep(bs[j], calls[j], outs[j], bs[j + 1])
      invariant forall j :: 0 <= j <= i ==> SupplyAt(ss[j], ms[j]) && Supplied(ss[j], vm.kernel, vm.kernelTables)
      invariant forall j :: 0 <= j < i ==> SupplyStep(ss[j], calls[j], outs[j], ss[j + 1])
      invariant forall j :: 0 <= j < i ==> (outs[j].Refused? <==> Refusable(calls[j], bs[j], ss[j]))
      invariant forall j :: 0 <= j <= i ==> InOrder(bs[j])
      invariant forall r :: r in procs ==> fresh(procs[r]) || procs[r] == init
    {
      var out;
      procs, out := Step(vm, procs, calls[i]);
      outs, ms := outs + [out], ms + [Mem(vm.Abs())];
      bs, ss := bs + [BooksOf(procs)], ss + [SupplyOf(vm)];
      SupplyNow(vm, procs);
      BooksInOrder(vm, procs);
    }
  }

  // ------------------------------------------------------------------- the start

  lemma NothingLinked(v: Frames, threads: set<nat>)
    requires |v| > 0 && v[0].reserved && Pmm.Clean(v) && (BOOT_KERNEL_PML4 < |v| ==> v[BOOT_KERNEL_PML4].reserved)
    requires forall p :: 0 <= p < |v| ==> v[p].owner in {Pmm.Free, Pmm.Reserved}
    ensures Linked(Tree(map[], map[], map[], map[]), v, threads, {})
  {
  }

  lemma {:induction false} FirstSpace(v: Frames, threads: set<nat>, kernel: Table, c: nat)
    requires Pmm.RunAt(v, threads, c, 1) && (BOOT_KERNEL_PML4 < |v| ==> v[BOOT_KERNEL_PML4].reserved)
    requires forall p :: 0 <= p < |v| ==> v[p].owner in {Pmm.Free, Pmm.Reserved}
    ensures var t, w := AddRoot(Tree(map[], map[], map[], map[]), c, kernel), Pmm.Taken(v, c, 1, Pmm.PageTable);
      && c != BOOT_KERNEL_PML4 && Tight(t) && Inv(Abstract(t, w)) && Roots(t) == {c} && Root(c) in t.node
      && forall q :: q !in Mem(Abstract(t, w))
  {
    var t, w := AddRoot(Tree(map[], map[], map[], map[]), c, kernel), Pmm.Taken(v, c, 1, Pmm.PageTable);
    assert Pmm.Available(v, threads, c);
    assert forall f :: f !in UserPages(w);
    forall k ensures k in Roots(t) <==> k == c { RootIn(t, k); }
  }

  /** From the memory map of the machine to the first process: runs start here. It fails if
      and only if the map cannot be booted or leaves no page for a PML4. */
  method Start(pmm: Pmm.PageMap, records: seq<Pmm.Ards>, kernel: Table) returns (vm: AddressSpaces?, init: P.Process?)
    requires pmm.Valid() && pmm.threads == {} && |pmm.view| == Pmm.PageCount(Pmm.TopOf(records))
    requires forall p :: 0 <= p < |pmm.view| ==> Pmm.ReservedFrame(pmm.view[p])
    modifies pmm, pmm.bits, pmm.reservedBits, pmm.owners, pmm.refcounts
    ensures (vm != null <==> init != null) && |pmm.view| == |old(pmm.view)|
    ensures init != null <==>
      Pmm.Bootable(Pmm.TopOf(records)) && exists p: nat :: p < |pmm.view| && Pmm.Allocatable(records, |pmm.view|, p)
    ensures init != null ==>
      fresh(vm) && fresh(init) && vm.pmm == pmm && vm.kernel == kernel && AllWell(vm, map[init.r := init])
    ensures init != null ==> (forall q :: q !in Mem(vm.Abs())) && init.areas == [] && Roots(vm.tree) == {init.r}
  {
    hide AddressSpaces.Valid, Linked, TreeInv, Tight, Inv, Mem, Abstract, Pmm.PageMap.Valid, Avail, Pmm.RunAt,
      Pmm.Taken, AddRoot, Sorted, P.Backed, Roots, Pmm.Clean, Pmm.Allocatable, Pmm.ArraysWithheld, Pmm.Bootable,
      Pmm.TopOf;
    vm, init := null, null;
    var r := pmm.Boot(records);
    if r != 0 { return; }
    ghost var v := pmm.view;
    NothingLinked(v, pmm.threads);
    SomeFree(records, v);
    vm := new AddressSpaces(pmm, kernel, {});
    var c := vm.CreatePageDir();
    if c == 0 { return null, null; }
    FirstSpace(v, pmm.threads, kernel, c);
    init := new P.Process(vm, c);
  }

  lemma SomeFree(records: seq<Pmm.Ards>, v: Frames)
    requires forall p :: 0 <= p < |v| ==> (!v[p].used && !v[p].reserved <==> Pmm.Allocatable(records, |v|, p))
    ensures Avail(v, {}) == {} <==> forall p: nat :: p < |v| ==> !Pmm.Allocatable(records, |v|, p)
  {
    hide Pmm.Allocatable;
    forall p: nat | p < |v| ensures p in Avail(v, {}) <==> Pmm.Allocatable(records, |v|, p) { }
  }
}
