/** copy_to_user (kernel/memory.c): a kernel buffer written into user memory across
    pages, some of them still shared copy-on-write. */
module UserCopy {
  import opened Layout
  import opened SharedPages
  import opened PageTree
  import opened Linkage
  import opened VirtualMemory
  import opened Hardware
  import Pmm

  /** A page the process may write: RW, or COW and so writable after a fault. */
  predicate MayWrite(ptes: map<Va, Pte>, q: Va) {
    q in ptes && (ptes[q].rw || ptes[q].cow)
  }

  /** Every byte of the range is a user byte the process may write. */
  ghost predicate WritableRange(ptes: map<Va, Pte>, r: nat, vaddr: nat, length: nat) {
    length == 0 ||
    (vaddr != 0 && vaddr + length <= USER_TOP &&
     forall a: nat :: vaddr <= a < vaddr + length ==> MayWrite(ptes, Split(r, a)))
  }

  // ------------------------------------------------- the effect, byte by byte

  /** The page at byte address `base` after `data` was put at `dst`. */
  function WrittenBytes(bytes: seq<Byte>, base: nat, dst: nat, data: seq<Byte>): seq<Byte> {
    seq(|bytes|, off requires 0 <= off < |bytes| =>
      if dst <= base + off < dst + |data| then data[base + off - dst] else bytes[off])
  }

  /** Memory after `data` was put at address `dst` of space `r`: those bytes, no other
      byte, and no other space. */
  function Written(m: Memory, r: nat, dst: nat, data: seq<Byte>): Memory {
    map q | q in m :: if q.r == r then View(WrittenBytes(m[q].bytes, Rebuild(q), dst, data), m[q].writable)
                      else m[q]
  }

  function Splice(bytes: seq<Byte>, off: nat, d: seq<Byte>): seq<Byte>
    requires off + |d| <= |bytes|
  {
    bytes[..off] + d + bytes[off + |d|..]
  }

  lemma WrittenNothing(m: Memory, r: nat, dst: nat)
    ensures Written(m, r, dst, []) == m
  {
    forall q | q in m ensures WrittenBytes(m[q].bytes, Rebuild(q), dst, []) == m[q].bytes { }
  }

  /** The bytes of one chunk all lie in the page of its first byte, and in no other. */
  lemma ChunkInPage(r: nat, addr: nat, q: Va)
    requires addr < USER_TOP && q.r == r && q.InRange()
    ensures Rebuild(Split(r, addr)) == addr - addr % PAGE_SIZE
    ensures q != Split(r, addr) ==>
      Rebuild(q) + PAGE_SIZE <= addr - addr % PAGE_SIZE || addr - addr % PAGE_SIZE + PAGE_SIZE <= Rebuild(q)
  {
    hide Rebuild, Split;
    SplitMasked(r, addr);
    RebuildSplit(r, addr - addr % PAGE_SIZE);
    SplitRebuild(q);
    AlignedApart(Rebuild(q), addr - addr % PAGE_SIZE);
  }

  lemma AlignedApart(x: nat, y: nat)
    requires x % PAGE_SIZE == 0 && y % PAGE_SIZE == 0
    ensures x == y || x + PAGE_SIZE <= y || y + PAGE_SIZE <= x
  {
  }

  lemma ChunkWritten(bytes: seq<Byte>, base: nat, dst: nat, data: seq<Byte>, done: nat, chunk: nat)
    requires |bytes| == PAGE_SIZE && done + chunk <= |data|
    requires base <= dst + done && dst + done + chunk <= base + PAGE_SIZE
    ensures WrittenBytes(bytes, base, dst, data[..done + chunk]) ==
            Splice(WrittenBytes(bytes, base, dst, data[..done]), dst + done - base, data[done..done + chunk])
  {
  }

  lemma ChunkElsewhere(bytes: seq<Byte>, base: nat, dst: nat, data: seq<Byte>, done: nat, chunk: nat)
    requires |bytes| == PAGE_SIZE && done + chunk <= |data|
    requires base + PAGE_SIZE <= dst + done || dst + done + chunk <= base
    ensures WrittenBytes(bytes, base, dst, data[..done + chunk]) == WrittenBytes(bytes, base, dst, data[..done])
  {
  }

  lemma WrittenMore(m: Memory, r: nat, dst: nat, data: seq<Byte>, done: nat, chunk: nat)
    requires forall q :: q in m ==> q.InRange() && |m[q].bytes| == PAGE_SIZE
    requires done + chunk <= |data| && dst + |data| <= USER_TOP && 0 < chunk
    requires (dst + done) % PAGE_SIZE + chunk <= PAGE_SIZE && Split(r, dst + done) in m
    ensures var q, m1 := Split(r, dst + done), Written(m, r, dst, data[..done]);
      Written(m, r, dst, data[..done + chunk]) ==
      m1[q := View(Splice(m1[q].bytes, (dst + done) % PAGE_SIZE, data[done..done + chunk]), m1[q].writable)]
  {
    var addr := dst + done;
    var q, m1, m2 := Split(r, addr), Written(m, r, dst, data[..done]), Written(m, r, dst, data[..done + chunk]);
    ChunkInPage(r, addr, q);
    ChunkWritten(m[q].bytes, Rebuild(q), dst, data, done, chunk);
    forall x | x in m && x != q ensures m2[x] == m1[x] {
      WrittenElsewhere(m, r, dst, data, done, chunk, x);
    }
  }

  lemma WrittenElsewhere(m: Memory, r: nat, dst: nat, data: seq<Byte>, done: nat, chunk: nat, x: Va)
    requires forall q :: q in m ==> q.InRange() && |m[q].bytes| == PAGE_SIZE
    requires done + chunk <= |data| && dst + |data| <= USER_TOP && 0 < chunk
    requires (dst + done) % PAGE_SIZE + chunk <= PAGE_SIZE && x in m && x != Split(r, dst + done)
    ensures Written(m, r, dst, data[..done + chunk])[x] == Written(m, r, dst, data[..done])[x]
  {
    hide Rebuild, Split;
    if x.r == r {
      var addr := dst + done;
      ChunkInPage(r, addr, x);
      ChunkElsewhere(m[x].bytes, Rebuild(x), dst, data, done, chunk);
    }
  }

  // -------------------------------------------------------- stores into a page

  function StoreBytes(s: State, q: Va, off: nat, d: seq<Byte>): State
    requires q in s.ptes && s.ptes[q].frame in s.pages && off + |d| <= |s.pages[s.ptes[q].frame].bytes|
  {
    var f := s.ptes[q].frame;
    s.(pages := s.pages[f := s.pages[f].(bytes := Splice(s.pages[f].bytes, off, d))])
  }

  /** A store through a writable PTE is seen by its own page only. */
  lemma StoreBytesRefines(s: State, q: Va, off: nat, d: seq<Byte>)
    requires Inv(s) && q in s.ptes && s.ptes[q].rw && off + |d| <= |s.pages[s.ptes[q].frame].bytes|
    ensures Inv(StoreBytes(s, q, off, d))
    ensures Mem(StoreBytes(s, q, off, d)) == Mem(s)[q := View(Splice(Mem(s)[q].bytes, off, d), true)]
  {
    hide Splice;
    forall x | x in s.ptes && s.ptes[x].frame == s.ptes[q].frame ensures x == q {
      OnlyRef(s, q, x);
    }
  }

  // ---------------------------------------------------------- range and pages

  /** All bytes of a page have the page's translation. */
  lemma SamePage(r: nat, a: nat, page: nat)
    requires page % PAGE_SIZE == 0 && page <= a < page + PAGE_SIZE
    ensures Split(r, a) == Split(r, page)
  {
    hide Split;
    SplitMasked(r, a);
    assert a - a % PAGE_SIZE == page;
  }

  lemma RangeStep(ptes: map<Va, Pte>, r: nat, vaddr: nat, page: nat)
    requires page % PAGE_SIZE == 0 && MayWrite(ptes, Split(r, page))
    requires forall a: nat :: vaddr <= a < page ==> MayWrite(ptes, Split(r, a))
    ensures forall a: nat :: vaddr <= a < page + PAGE_SIZE ==> MayWrite(ptes, Split(r, a))
  {
    hide Split, MayWrite;
    forall a: nat | vaddr <= a < page + PAGE_SIZE ensures MayWrite(ptes, Split(r, a)) {
      if a >= page { SamePage(r, a, page); }
    }
  }

  /** The pages of a range are those from one multiple of the page size to another. */
  lemma PageSpan(vaddr: nat, length: nat)
    requires length > 0
    ensures var page, last := vaddr - vaddr % PAGE_SIZE, vaddr + length - 1 - (vaddr + length - 1) % PAGE_SIZE;
      page % PAGE_SIZE == 0 && last % PAGE_SIZE == 0 && page <= last < vaddr + length <= last + PAGE_SIZE &&
      page <= vaddr < page + PAGE_SIZE
  {
  }

  lemma NextPage(page: nat, last: nat)
    requires page % PAGE_SIZE == 0 && last % PAGE_SIZE == 0 && page < last
    ensures (page + PAGE_SIZE) % PAGE_SIZE == 0 && page + PAGE_SIZE <= last
  {
  }

  /** user_range_is_writable. */
  method RangeIsWritable(vm: AddressSpaces, r: nat, vaddr: nat, length: nat) returns (ok: bool)
    requires vm.Valid() && r != 0 && Root(r) in vm.tree.node
    ensures ok <==> WritableRange(vm.tree.ptes, r, vaddr, length)
  {
    hide AddressSpaces.Valid, Split;
    if length == 0 { return true; }
    if vaddr == 0 || vaddr >= USER_TOP || length > USER_TOP - vaddr { return false; }
    var page, last := vaddr - vaddr % PAGE_SIZE, vaddr + length - 1 - (vaddr + length - 1) % PAGE_SIZE;
    PageSpan(vaddr, length);
    while true
      invariant page % PAGE_SIZE == 0 && page <= last && page + PAGE_SIZE > vaddr
      invariant forall a: nat :: vaddr <= a < page ==> MayWrite(vm.tree.ptes, Split(r, a))
      decreases last - page
    {
      var found, pt, e := vm.GetUserPte(r, page);
      if !found || !e.p || !e.us || !(e.rw || e.cow) {
        var a := if page < vaddr then vaddr else page;
        SamePage(r, a, page);
        assert !MayWrite(vm.tree.ptes, Split(r, a));
        return false;
      }
      RangeStep(vm.tree.ptes, r, vaddr, page);
      if page == last { return true; }
      NextPage(page, last);
      page := page + PAGE_SIZE;
    }
  }

  /** How many of the n pages from `page` on must be copied before they can be written: each
      that is shared, and a copy leaves the others with one sharer fewer. */
  ghost function CopiesDue(ptes: map<Va, Pte>, r: nat, page: nat, n: nat): nat
    decreases n
  {
    if n == 0 then 0
    else if Split(r, page) in ptes && ptes[Split(r, page)].cow && IsShared(ptes, Split(r, page)) then
      1 + CopiesDue(ptes - {Split(r, page)}, r, page + PAGE_SIZE, n - 1)
    else CopiesDue(ptes, r, page + PAGE_SIZE, n - 1)
  }

  /** The pages of the range in both maps are the same to a copy on write. */
  ghost predicate AlikeFrom(ptes: map<Va, Pte>, ptes': map<Va, Pte>, r: nat, from: nat, to: nat) {
    forall a: nat :: from <= a < to && a % PAGE_SIZE == 0 ==> AlikeAt(ptes, ptes', Split(r, a))
  }

  ghost predicate AlikeAt(ptes: map<Va, Pte>, ptes': map<Va, Pte>, q: Va) {
    && (q in ptes <==> q in ptes')
    && (q in ptes ==>
         && ptes'[q].frame == ptes[q].frame && ptes'[q].cow == ptes[q].cow
         && |Refs(ptes', ptes[q].frame)| == |Refs(ptes, ptes[q].frame)|)
  }

  lemma LessOne(ptes: map<Va, Pte>, q: Va, f: nat)
    requires q in ptes
    ensures |Refs(ptes - {q}, f)| == |Refs(ptes, f)| - if ptes[q].frame == f then 1 else 0
  {
    assert Refs(ptes - {q}, f) == Refs(ptes, f) - {q};
  }

  /** Pages of one space at different addresses are different pages. */
  lemma PagesApart(r: nat, a: nat, b: nat)
    requires a % PAGE_SIZE == 0 && b % PAGE_SIZE == 0 && a < b < USER_TOP
    ensures Split(r, a) != Split(r, b)
  {
    hide Split, Rebuild;
    RebuildSplit(r, a);
    RebuildSplit(r, b);
  }

  lemma AlikeLess(ptes: map<Va, Pte>, ptes': map<Va, Pte>, r: nat, page: nat, to: nat)
    requires page % PAGE_SIZE == 0 && page < to <= USER_TOP && AlikeFrom(ptes, ptes', r, page, to)
    requires Split(r, page) in ptes
    ensures AlikeFrom(ptes - {Split(r, page)}, ptes' - {Split(r, page)}, r, page + PAGE_SIZE, to)
  {
    hide Split, Refs;
    var q := Split(r, page);
    assert AlikeAt(ptes, ptes', q);
    forall a: nat | page + PAGE_SIZE <= a < to && a % PAGE_SIZE == 0
      ensures AlikeAt(ptes - {q}, ptes' - {q}, Split(r, a))
    {
      PagesApart(r, page, a);
      assert AlikeAt(ptes, ptes', Split(r, a));
      if Split(r, a) in ptes {
        LessOne(ptes, q, ptes[Split(r, a)].frame);
        LessOne(ptes', q, ptes[Split(r, a)].frame);
      }
    }
  }

  lemma {:induction false} CopiesAlike(ptes: map<Va, Pte>, ptes': map<Va, Pte>, r: nat, page: nat, n: nat)
    requires page % PAGE_SIZE == 0 && page + n * PAGE_SIZE <= USER_TOP
    requires AlikeFrom(ptes, ptes', r, page, page + n * PAGE_SIZE)
    ensures CopiesDue(ptes', r, page, n) == CopiesDue(ptes, r, page, n)
    decreases n
  {
    hide Split, Refs;
    if n > 0 {
      assert AlikeAt(ptes, ptes', Split(r, page));
      if Split(r, page) in ptes && ptes[Split(r, page)].cow && IsShared(ptes, Split(r, page)) {
        AlikeLess(ptes, ptes', r, page, page + n * PAGE_SIZE);
        CopiesAlike(ptes - {Split(r, page)}, ptes' - {Split(r, page)}, r, page + PAGE_SIZE, n - 1);
      } else {
        CopiesAlike(ptes, ptes', r, page + PAGE_SIZE, n - 1);
      }
    }
  }

  /** Making one page private pays for exactly that page. */
  lemma CopiesStep(s: State, s': State, r: nat, page: nat, n: nat, k: nat)
    requires Inv(s) && page % PAGE_SIZE == 0 && n > 0 && page + n * PAGE_SIZE <= USER_TOP && Split(r, page) in s.ptes
    requires if s.ptes[Split(r, page)].cow then Faulted(s, s', Split(r, page), k) else s'.ptes == s.ptes
    ensures CopiesDue(s.ptes, r, page, n) == CopiesDue(s'.ptes, r, page + PAGE_SIZE, n - 1) +
            if s.ptes[Split(r, page)].cow then Due(s.ptes, Split(r, page)) else 0
  {
    hide Split, Refs;
    var q := Split(r, page);
    if s.ptes[q].cow {
      var rest := if IsShared(s.ptes, q) then s.ptes - {q} else s.ptes;
      forall a: nat | page + PAGE_SIZE <= a < page + n * PAGE_SIZE && a % PAGE_SIZE == 0
        ensures AlikeAt(rest, s'.ptes, Split(r, a))
      {
        PagesApart(r, page, a);
        OtherAlike(s, s', q, Split(r, a), k);
      }
      CopiesAlike(rest, s'.ptes, r, page + PAGE_SIZE, n - 1);
    }
  }

  /** A fault at q is, for every other page, the loss of a sharer or nothing. */
  lemma OtherAlike(s: State, s': State, q: Va, x: Va, k: nat)
    requires Inv(s) && Faulted(s, s', q, k) && x != q
    ensures AlikeAt(if IsShared(s.ptes, q) then s.ptes - {q} else s.ptes, s'.ptes, x)
  {
    hide Inv;
    FaultAllowed(s, q);
    SharedIff(s, q);
    if x in s.ptes {
      var f := s.ptes[x].frame;
      FaultAllowed(s, x);
      assert Refs(s'.ptes, f) == if IsShared(s.ptes, q) then Refs(s.ptes - {q}, f) else Refs(s.ptes, f);
    }
  }

  lemma SharedIff(s: State, q: Va)
    requires Inv(s) && q in s.ptes && s.ptes[q].frame in s.pages
    ensures s.pages[s.ptes[q].frame].refs == |Refs(s.ptes, s.ptes[q].frame)|
  {
  }

  lemma FaultedFacts(s: State, s': State, q: Va, n: nat)
    requires Inv(s) && q in s.ptes && s.ptes[q].cow && Faulted(s, s', q, n)
    ensures Inv(s') && Mem(s') == Mem(s)
    ensures s'.ptes.Keys == s.ptes.Keys && s'.ptes[q].rw
    ensures forall x :: x in s.ptes && x != q ==> s'.ptes[x] == s.ptes[x]
  {
    hide Inv, Mem;
    FaultAllowed(s, q);
    CowFaultRefines(s, q, n);
  }

  lemma FaultAllowed(s: State, q: Va)
    requires Inv(s) && q in s.ptes
    ensures s.ptes[q].frame in s.pages
  {
  }

  lemma MayWriteSeen(s: State, q: Va)
    requires Inv(s)
    ensures MayWrite(s.ptes, q) <==> q in Mem(s) && Mem(s)[q].writable
  {
  }

  ghost predicate AllRw(ptes: map<Va, Pte>, r: nat, from: nat, to: nat) {
    forall a: nat :: from <= a < to ==> Split(r, a) in ptes && ptes[Split(r, a)].rw
  }

  lemma RwStep(ptes: map<Va, Pte>, ptes': map<Va, Pte>, r: nat, vaddr: nat, page: nat)
    requires page % PAGE_SIZE == 0 && AllRw(ptes, r, vaddr, page) && ptes.Keys == ptes'.Keys
    requires Split(r, page) in ptes' && ptes'[Split(r, page)].rw
    requires forall x :: x in ptes && x != Split(r, page) ==> ptes'[x] == ptes[x]
    ensures AllRw(ptes', r, vaddr, page + PAGE_SIZE)
  {
    hide Split;
    forall a: nat | vaddr <= a < page + PAGE_SIZE ensures Split(r, a) in ptes' && ptes'[Split(r, a)].rw {
      if a >= page { SamePage(r, a, page); } else { assert Split(r, a) in ptes.Keys; }
    }
  }

  /** The page at q is private now, and paid for. */
  ghost predicate CopyPaid(s: State, s': State, q: Va, had: nat, have: nat) {
    q in s.ptes && exists n: nat :: PaidWith(s, s', q, had, have, n)
  }

  ghost predicate PaidWith(s: State, s': State, q: Va, had: nat, have: nat, n: nat)
    requires q in s.ptes
  {
    if s.ptes[q].cow then Faulted(s, s', q, n) && have + Due(s.ptes, q) == had else s'.ptes == s.ptes && have == had
  }

  /** One turn of the privatising loop. */
  method PrivatisePage(vm: AddressSpaces, r: nat, page: nat) returns (res: int)
    requires vm.Valid() && r != 0 && Root(r) in vm.tree.node && Inv(vm.Abs())
    requires page % PAGE_SIZE == 0 && page < USER_TOP && MayWrite(vm.tree.ptes, Split(r, page))
    modifies vm`tables, vm`tree, vm.pmm`view, vm.pmm`failAllocations, vm.pmm.bits, vm.pmm.owners, vm.pmm.refcounts,
             vm.pmm.mem
    ensures vm.Valid() && Root(r) in vm.tree.node && Inv(vm.Abs()) && Mem(vm.Abs()) == old(Mem(vm.Abs()))
    ensures res == 0 || res == -1
    ensures res != 0 ==> vm.tree == old(vm.tree) && vm.pmm.view == old(vm.pmm.view)
    ensures res != 0 <==>
      IsCow(old(vm.tree), Split(r, page)) && IsShared(old(vm.tree.ptes), Split(r, page)) &&
      NoPage(old(vm.pmm.failAllocations), old(vm.pmm.view), vm.pmm.threads)
    ensures res == 0 ==> CopyPaid(old(vm.Abs()), vm.Abs(), Split(r, page), |Avail(old(vm.pmm.view), vm.pmm.threads)|,
                                  |Avail(vm.pmm.view, vm.pmm.threads)|)
    ensures res == 0 ==> vm.pmm.failAllocations == old(vm.pmm.failAllocations)
    ensures vm.pmm.failAllocations <= old(vm.pmm.failAllocations) && Others(vm.pmm.view) == old(Others(vm.pmm.view))
    ensures res == 0 ==> vm.tree.ptes.Keys == old(vm.tree.ptes.Keys) && Split(r, page) in vm.tree.ptes
    ensures res == 0 ==> vm.tree.ptes[Split(r, page)].rw
    ensures res == 0 ==> forall x :: x in old(vm.tree.ptes) && x != Split(r, page) ==>
      vm.tree.ptes[x] == old(vm.tree.ptes)[x]
    ensures vm.tree.node == old(vm.tree.node) && (old(Tight(vm.tree)) ==> Tight(vm.tree))
  {
    hide AddressSpaces.Valid, Split, Inv, Faulted, Mem, Avail, Tight, UserPages, Others, IsShared, NoPage, Due;
    var found, pt, e := vm.GetUserPte(r, page);
    res := 0;
    ghost var s, n := vm.Abs(), 0;
    if found && e.cow {
      res, n := vm.HandleCow(r, page);
      if res == 0 {
        FaultedFacts(s, vm.Abs(), Split(r, page), n);
      }
    }
    if res == 0 {
      assert PaidWith(s, vm.Abs(), Split(r, page), |Avail(old(vm.pmm.view), vm.pmm.threads)|,
                      |Avail(vm.pmm.view, vm.pmm.threads)|, n);
    }
  }

  /** The privatising loop: afterwards the whole range is writable in hardware, and
      nobody has seen anything. */
  method PrivatiseRange(vm: AddressSpaces, r: nat, dst: nat, length: nat) returns (res: int)
    requires vm.Valid() && r != 0 && Root(r) in vm.tree.node && Inv(vm.Abs())
    requires length > 0 && WritableRange(vm.tree.ptes, r, dst, length)
    modifies vm`tables, vm`tree, vm.pmm`view, vm.pmm`failAllocations, vm.pmm.bits, vm.pmm.owners, vm.pmm.refcounts,
             vm.pmm.mem
    ensures vm.Valid() && Root(r) in vm.tree.node && Inv(vm.Abs()) && Mem(vm.Abs()) == old(Mem(vm.Abs()))
    ensures res == 0 || res == -1
    ensures res == 0 ==> AllRw(vm.tree.ptes, r, dst, dst + length)
    ensures res != 0 <==> Unaffordable(old(vm.tree.ptes), r, dst, length, old(vm.pmm.failAllocations),
                                       |Avail(old(vm.pmm.view), vm.pmm.threads)|)
    ensures vm.pmm.failAllocations <= old(vm.pmm.failAllocations) && Others(vm.pmm.view) == old(Others(vm.pmm.view))
    ensures vm.tree.node == old(vm.tree.node) && (old(Tight(vm.tree)) ==> Tight(vm.tree))
  {
    hide AddressSpaces.Valid, Split, Inv, Mem, AllRw, UserPages, MayWrite, Tight, Avail, Others, Ahead, CopyPaid,
      IsShared, PagesUnder, Unaffordable;
    var page, last := dst - dst % PAGE_SIZE, dst + length - 1 - (dst + length - 1) % PAGE_SIZE;
    ghost var m, t := Mem(vm.Abs()), vm.tree;
    RwNone(t.ptes, r, dst, page);
    ghost var left := PagesUnder(dst, length);
    LastPage(dst, length);
    ghost var failing, avail := vm.pmm.failAllocations, |Avail(vm.pmm.view, vm.pmm.threads)|;
    AheadStart(t.ptes, r, dst, length, avail, failing);
    while true
      invariant 0 < left && page + (left - 1) * PAGE_SIZE == last && vm.pmm.failAllocations == failing
      invariant Ahead(t.ptes, r, dst, length, avail, vm.tree.ptes, page, left, |Avail(vm.pmm.view, vm.pmm.threads)|,
          failing)
      invariant page % PAGE_SIZE == 0 && page <= last && page + PAGE_SIZE > dst
      invariant vm.Valid() && Root(r) in vm.tree.node && Inv(vm.Abs()) && Mem(vm.Abs()) == m
      invariant AllRw(vm.tree.ptes, r, dst, page)
      invariant vm.tree.node == t.node && (Tight(t) ==> Tight(vm.tree))
      invariant Others(vm.pmm.view) == old(Others(vm.pmm.view))
      decreases last - page
    {
      ghost var s := vm.Abs();
      assert MayWrite(vm.tree.ptes, Split(r, page)) by {
        StillWritable(old(vm.Abs()), s, t.ptes, r, dst, length, page);
      }
      ghost var had := |Avail(vm.pmm.view, vm.pmm.threads)|;
      res := PrivatisePage(vm, r, page);
      if res != 0 {
        TooFew(t.ptes, r, dst, length, avail, s.ptes, page, left, had, failing);
        return;
      }
      RwStep(s.ptes, vm.tree.ptes, r, dst, page);
      AheadStep(t.ptes, dst, length, avail, s, vm.Abs(), r, page, left, had, |Avail(vm.pmm.view, vm.pmm.threads)|,
                failing);
      if page == last {
        AllPaid(t.ptes, r, dst, length, avail, vm.tree.ptes, page + PAGE_SIZE, |Avail(vm.pmm.view, vm.pmm.threads)|,
                failing);
        RwWeaken(vm.tree.ptes, r, dst, page + PAGE_SIZE, dst + length);
        return;
      }
      page, left := page + PAGE_SIZE, left - 1;
    }
  }

  /** Some page of the range must be copied, and an allocation is set to fail or the free pages
      are fewer than the copies. */
  ghost predicate Unaffordable(ptes: map<Va, Pte>, r: nat, dst: nat, length: nat, failing: nat, avail: nat)
    requires length > 0
  {
    var due := CopiesDue(ptes, r, dst - dst % PAGE_SIZE, PagesUnder(dst, length));
    due > 0 && (failing != 0 || avail < due)
  }

  /** With `left` pages ahead, what was due at first is what was paid plus what is due still. */
  ghost predicate Ahead(ptes0: map<Va, Pte>, r: nat, dst: nat, length: nat, avail0: nat, ptes: map<Va, Pte>, page: nat,
                        left: nat,
                        avail: nat, failing: nat)
    requires length > 0
  {
    && avail <= avail0 && (avail < avail0 ==> failing == 0)
    && CopiesDue(ptes0, r, dst - dst % PAGE_SIZE, PagesUnder(dst, length)) ==
        avail0 - avail + CopiesDue(ptes, r, page, left)
  }

  lemma AheadStep(ptes0: map<Va, Pte>, dst: nat, length: nat, avail0: nat, s: State, s': State, r: nat, page: nat,
                  left: nat,
                  had: nat, have: nat, failing: nat)
    requires length > 0 && Ahead(ptes0, r, dst, length, avail0, s.ptes, page, left, had, failing)
    requires Inv(s) && page % PAGE_SIZE == 0 && left > 0 && page + left * PAGE_SIZE <= USER_TOP
    requires CopyPaid(s, s', Split(r, page), had, have)
    requires !(Split(r, page) in s.ptes && s.ptes[Split(r, page)].cow && IsShared(s.ptes, Split(r, page)) &&
        (failing != 0 || had == 0))
    ensures Ahead(ptes0, r, dst, length, avail0, s'.ptes, page + PAGE_SIZE, left - 1, have, failing)
  {
    hide Split, Inv, Faulted, CopiesDue, PagesUnder, IsShared;
    var n: nat :| PaidWith(s, s', Split(r, page), had, have, n);
    CopiesStep(s, s', r, page, left, n);
  }

  lemma TooFew(ptes0: map<Va, Pte>, r: nat, dst: nat, length: nat, avail0: nat, ptes: map<Va, Pte>, page: nat,
               left: nat,
               avail: nat, failing: nat)
    requires length > 0 && left > 0 && Ahead(ptes0, r, dst, length, avail0, ptes, page, left, avail, failing)
    requires Split(r, page) in ptes && ptes[Split(r, page)].cow && IsShared(ptes, Split(r, page))
    requires (failing != 0 || avail == 0)
    ensures Unaffordable(ptes0, r, dst, length, failing, avail0)
  {
    hide Split, PagesUnder, IsShared;
  }

  lemma AheadStart(ptes: map<Va, Pte>, r: nat, dst: nat, length: nat, avail: nat, failing: nat)
    requires length > 0
    ensures Ahead(ptes, r, dst, length, avail, ptes, dst - dst % PAGE_SIZE, PagesUnder(dst, length), avail, failing)
  {
  }

  lemma AllPaid(ptes0: map<Va, Pte>, r: nat, dst: nat, length: nat, avail0: nat, ptes: map<Va, Pte>, page: nat,
                avail: nat,
                failing: nat)
    requires length > 0 && Ahead(ptes0, r, dst, length, avail0, ptes, page, 0, avail, failing)
    ensures !Unaffordable(ptes0, r, dst, length, failing, avail0)
  {
  }

  lemma LastPage(dst: nat, length: nat)
    requires length > 0
    ensures dst - dst % PAGE_SIZE + (PagesUnder(dst, length) - 1) * PAGE_SIZE ==
        dst + length - 1 - (dst + length - 1) % PAGE_SIZE
  {
  }

  /** How many pages the range touches. */
  function PagesUnder(dst: nat, length: nat): nat
    requires length > 0
  {
    (dst + length - 1) / PAGE_SIZE - dst / PAGE_SIZE + 1
  }

  lemma RwNone(ptes: map<Va, Pte>, r: nat, from: nat, to: nat)
    requires to <= from
    ensures AllRw(ptes, r, from, to)
  {
  }

  lemma RwWeaken(ptes: map<Va, Pte>, r: nat, from: nat, to: nat, to': nat)
    requires AllRw(ptes, r, from, to) && to' <= to
    ensures AllRw(ptes, r, from, to')
  {
  }

  /** What may be written does not change while memory looks the same. */
  lemma StillWritable(s0: State, s: State, ptes: map<Va, Pte>, r: nat, dst: nat, length: nat, page: nat)
    requires Inv(s0) && Inv(s) && Mem(s) == Mem(s0) && ptes == s0.ptes
    requires length > 0 && WritableRange(ptes, r, dst, length)
    requires page % PAGE_SIZE == 0 && page + PAGE_SIZE > dst && page < dst + length
    ensures MayWrite(s.ptes, Split(r, page))
  {
    hide Split, Inv, Mem, MayWrite;
    var a := if page < dst then dst else page;
    SamePage(r, a, page);
    MayWriteSeen(s0, Split(r, page));
    MayWriteSeen(s, Split(r, page));
  }

  // ---------------------------------------------------------------- the copy

  lemma FillPages(v: Frames, f: nat, bytes: Page)
    requires Pmm.UserAt(v, f)
    ensures UserPages(v[f := v[f].(bytes := bytes)]) == UserPages(v)[f := UserPage(v[f].refs, bytes)]
  {
    var w := v[f := v[f].(bytes := bytes)];
    forall x | 0 <= x < |v| ensures Pmm.UserAt(w, x) <==> Pmm.UserAt(v, x) { }
  }

  /** One memcpy of the copy loop: a chunk stored through a writable PTE. */
  method StoreChunk(vm: AddressSpaces, r: nat, addr: nat, d: seq<Byte>)
    requires vm.Valid() && r != 0 && Root(r) in vm.tree.node && Inv(vm.Abs())
    requires addr < USER_TOP && Split(r, addr) in vm.tree.ptes && vm.tree.ptes[Split(r, addr)].rw
    requires addr % PAGE_SIZE + |d| <= PAGE_SIZE
    modifies vm.pmm`view, vm.pmm.mem
    ensures vm.Valid() && Inv(vm.Abs())
    ensures Split(r, addr) in old(Mem(vm.Abs())) && |old(Mem(vm.Abs()))[Split(r, addr)].bytes| == PAGE_SIZE
    ensures var q, m := Split(r, addr), old(Mem(vm.Abs()));
      Mem(vm.Abs()) == m[q := View(Splice(m[q].bytes, addr % PAGE_SIZE, d), m[q].writable)]
    ensures Others(vm.pmm.view) == old(Others(vm.pmm.view))
  {
    hide TreeInv, Linked, Pmm.PageMap.Valid, Split, Inv, Mem, UserPages, Splice, StoreBytes, Abstract, Others;
    SplitMasked(r, addr);
    var found, pt, e := vm.GetUserPte(r, addr - addr % PAGE_SIZE);
    ghost var q, s, v := Split(r, addr), vm.Abs(), vm.pmm.view;
    PteFacts(vm.tree, v, vm.pmm.threads, vm.kernelTables, q);
    var bytes := vm.pmm.Load(e.frame);
    StoreFacts(vm.tree, v, s, q, addr % PAGE_SIZE, d);
    FillKeeps(vm.tree, v, vm.pmm.threads, vm.kernelTables, e.frame, Splice(bytes, addr % PAGE_SIZE, d));
    vm.pmm.Fill(e.frame, Splice(bytes, addr % PAGE_SIZE, d));
    OthersFilled(v, e.frame, Splice(bytes, addr % PAGE_SIZE, d));
  }

  lemma OthersFilled(v: Frames, f: nat, bytes: Page)
    requires Pmm.UserAt(v, f)
    ensures Others(v[f := v[f].(bytes := bytes)]) == Others(v)
  {
    OthersStay(v, v[f := v[f].(bytes := bytes)]);
  }

  lemma StoreFacts(t: Tree, v: Frames, s: State, q: Va, off: nat, d: seq<Byte>)
    requires s == Abstract(t, v) && Inv(s) && q in t.ptes && t.ptes[q].rw && off + |d| <= PAGE_SIZE
    requires Pmm.UserAt(v, t.ptes[q].frame)
    ensures var f := t.ptes[q].frame;
      && q in Mem(s) && Mem(s)[q].writable && |Mem(s)[q].bytes| == PAGE_SIZE
      && |Splice(v[f].bytes, off, d)| == PAGE_SIZE
      && var s' := Abstract(t, v[f := v[f].(bytes := Splice(v[f].bytes, off, d))]);
      && Inv(s') && Mem(s') == Mem(s)[q := View(Splice(Mem(s)[q].bytes, off, d), Mem(s)[q].writable)]
  {
    hide Inv, UserPages, Splice;
    var f := t.ptes[q].frame;
    UserPageIn(v, f);
    assert |Splice(v[f].bytes, off, d)| == PAGE_SIZE by { SpliceLength(v[f].bytes, off, d); }
    FillPages(v, f, Splice(v[f].bytes, off, d));
    StoreBytesRefines(s, q, off, d);
  }

  lemma SpliceLength(bytes: seq<Byte>, off: nat, d: seq<Byte>)
    requires off + |d| <= |bytes|
    ensures |Splice(bytes, off, d)| == |bytes|
  {
  }

  lemma MemShape(t: Tree, v: Frames, kernel: Table)
    requires TreeInv(t, kernel)
    ensures forall q :: q in Mem(Abstract(t, v)) ==> q.InRange() && |Mem(Abstract(t, v))[q].bytes| == PAGE_SIZE
  {
    AllInRange(t, kernel);
  }

  /** The memcpy loop of copy_to_user. */
  method CopyChunks(vm: AddressSpaces, r: nat, dst: nat, data: seq<Byte>)
    requires vm.Valid() && r != 0 && Root(r) in vm.tree.node && Inv(vm.Abs())
    requires dst + |data| <= USER_TOP && AllRw(vm.tree.ptes, r, dst, dst + |data|)
    modifies vm.pmm`view, vm.pmm.mem
    ensures vm.Valid() && Inv(vm.Abs())
    ensures Mem(vm.Abs()) == Written(old(Mem(vm.Abs())), r, dst, data)
    ensures Others(vm.pmm.view) == old(Others(vm.pmm.view))
  {
    hide AddressSpaces.Valid, Split, Inv, Mem, Abstract, Written, Splice, Others;
    ghost var m := Mem(vm.Abs());
    WrittenNothing(m, r, dst);
    MemFacts(vm);
    var done := 0;
    assert data[..done] == [];
    while done < |data|
      invariant 0 <= done <= |data| && vm.Valid() && Inv(vm.Abs())
      invariant Mem(vm.Abs()) == Written(m, r, dst, data[..done]) && Others(vm.pmm.view) == old(Others(vm.pmm.view))
    {
      var chunk := PAGE_SIZE - (dst + done) % PAGE_SIZE;
      if chunk > |data| - done { chunk := |data| - done; }
      assert Split(r, dst + done) in vm.tree.ptes && vm.tree.ptes[Split(r, dst + done)].rw;
      StoreChunk(vm, r, dst + done, data[done..done + chunk]);
      WrittenKeys(m, r, dst, data[..done]);
      WrittenMore(m, r, dst, data, done, chunk);
      done := done + chunk;
    }
    assert data[..done] == data;
  }

  lemma WrittenKeys(m: Memory, r: nat, dst: nat, data: seq<Byte>)
    ensures Written(m, r, dst, data).Keys == m.Keys
  {
  }

  lemma MemFacts(vm: AddressSpaces)
    requires vm.Valid()
    ensures forall q :: q in Mem(vm.Abs()) ==> q.InRange() && |Mem(vm.Abs())[q].bytes| == PAGE_SIZE
  {
    hide TreeInv, Linked, Pmm.PageMap.Valid, Mem, UserPages;
    MemShape(vm.tree, vm.pmm.view, vm.kernel);
  }

  /** copy_to_user is all or nothing: it writes exactly the destination bytes and no
      other space sees anything, or no user-visible byte has changed. */
  method CopyToUser(vm: AddressSpaces, r: nat, dst: nat, data: seq<Byte>) returns (res: int)
    requires vm.Valid() && r != 0 && Root(r) in vm.tree.node && Inv(vm.Abs())
    modifies vm`tables, vm`tree, vm.pmm`view, vm.pmm`failAllocations, vm.pmm.bits, vm.pmm.owners, vm.pmm.refcounts,
             vm.pmm.mem
    ensures vm.Valid() && Inv(vm.Abs())
    ensures res == 0 || res == -1
    ensures Mem(vm.Abs()) == if res == 0 then Written(old(Mem(vm.Abs())), r, dst, data) else old(Mem(vm.Abs()))
    ensures res == 0 ==> WritableRange(old(vm.tree.ptes), r, dst, |data|)
    ensures res == -1 <==>
      || !WritableRange(old(vm.tree.ptes), r, dst, |data|)
      || (|data| > 0 && Unaffordable(old(vm.tree.ptes), r, dst, |data|, old(vm.pmm.failAllocations),
                                     |Avail(old(vm.pmm.view), vm.pmm.threads)|))
    ensures vm.tree.node == old(vm.tree.node) && (old(Tight(vm.tree)) ==> Tight(vm.tree))
    ensures vm.pmm.failAllocations <= old(vm.pmm.failAllocations) && Others(vm.pmm.view) == old(Others(vm.pmm.view))
  {
    hide AddressSpaces.Valid, Split, Inv, Mem, Abstract, Written, AllRw, MayWrite, Tight, Avail, Unaffordable, Others;
    if |data| == 0 {
      WrittenNothing(Mem(vm.Abs()), r, dst);
      return 0;
    }
    var ok := RangeIsWritable(vm, r, dst, |data|);
    if !ok { return -1; }
    res := PrivatiseRange(vm, r, dst, |data|);
    if res != 0 { return -1; }
    CopyChunks(vm, r, dst, data);
    return 0;
  }

  /** A store of one byte by the process itself to a page it has: where the hardware refuses
      it, the page fault handler makes a copy-on-write page private and the store is repeated. */
  method StoreByte(vm: AddressSpaces, r: nat, addr: nat, x: Byte) returns (res: int)
    requires vm.Valid() && r != 0 && Root(r) in vm.tree.node && Inv(vm.Abs())
    requires addr < USER_TOP && Split(r, addr) in vm.tree.ptes
    modifies vm`tables, vm`tree, vm.pmm`view, vm.pmm`failAllocations, vm.pmm.bits, vm.pmm.owners, vm.pmm.refcounts,
             vm.pmm.mem
    ensures vm.Valid() && Inv(vm.Abs())
    ensures res == 0 || res == -1
    ensures Mem(vm.Abs()) == if res == 0 then Written(old(Mem(vm.Abs())), r, addr, [x]) else old(Mem(vm.Abs()))
    ensures res == 0 ==> MayWrite(old(vm.tree.ptes), Split(r, addr))
    ensures res == -1 <==>
      || !MayWrite(old(vm.tree.ptes), Split(r, addr))
      || (!old(vm.tree.ptes)[Split(r, addr)].rw && IsShared(old(vm.tree.ptes), Split(r, addr)) &&
          NoPage(old(vm.pmm.failAllocations), old(vm.pmm.view), vm.pmm.threads))
    ensures vm.tree.node == old(vm.tree.node) && (old(Tight(vm.tree)) ==> Tight(vm.tree))
    ensures vm.pmm.failAllocations <= old(vm.pmm.failAllocations) && Others(vm.pmm.view) == old(Others(vm.pmm.view))
  {
    hide AddressSpaces.Valid, Split, Inv, Mem, Faulted, Written, UserPages, Tight, Avail, Others, IsShared, NoPage,
      Translate;
    UserAccess(vm, r, addr);
    var access := Translate(vm.tables, r, addr, true);
    if access.Fault? {
      ghost var s := vm.Abs();
      ghost var n;
      res, n := vm.HandleCow(r, addr);
      if res != 0 { return -1; }
      FaultedFacts(s, vm.Abs(), Split(r, addr), n);
    }
    CopyChunks(vm, r, addr, [x]);
    return 0;
  }

  /** A load of one byte by the process itself, through the processor's translation. */
  method LoadByte(vm: AddressSpaces, r: nat, addr: nat) returns (access: Access, x: Byte)
    requires vm.Valid() && r != 0 && Root(r) in vm.tree.node && Inv(vm.Abs()) && addr < USER_TOP
    ensures access.Hit? <==> Split(r, addr) in Mem(vm.Abs())
    ensures access.Hit? ==> SeenAt(Mem(vm.Abs()), Split(r, addr), addr % PAGE_SIZE, x)
    ensures !access.Hit? ==> access == Fault(false)
  {
    hide TreeInv, Linked, Pmm.PageMap.Valid, Split, Inv, Mem, Translate, Abstract;
    x := 0;
    UserAccess(vm, r, addr);
    access := Translate(vm.tables, r, addr, false);
    if access.Hit? {
      var bytes := vm.pmm.Load(access.frame);
      x := bytes[addr % PAGE_SIZE];
    }
  }

  /** Byte `off` of page q reads as x. */
  predicate SeenAt(m: Memory, q: Va, off: nat, x: Byte) {
    q in m && off < |m[q].bytes| && m[q].bytes[off] == x
  }
}
