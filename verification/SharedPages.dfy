/** Copy-on-write address spaces over shared, reference-counted pages, and the
    proof that nobody can tell them from private memories copied at fork. */
module SharedPages {
  import opened Layout

  /** A present user PTE: PTE_P and PTE_US are set in every one of them. */
  datatype Pte = Pte(frame: nat, rw: bool, cow: bool)

  /** A PAGE_OWNER_USER page: its mapping refcount and its bytes. */
  datatype UserPage = UserPage(refs: nat, bytes: seq<Byte>)

  /** All present user PTEs of all live address spaces, and all user pages. */
  datatype State = State(ptes: map<Va, Pte>, pages: map<nat, UserPage>)

  function Refs(ptes: map<Va, Pte>, f: nat): set<Va> {
    set q | q in ptes && ptes[q].frame == f
  }

  /** Every PTE names a user page and every refcount is the number of PTEs. */
  predicate Counted(s: State) {
    && (forall q :: q in s.ptes ==> s.ptes[q].frame in s.pages)
    && (forall f :: f in s.pages ==> s.pages[f].refs == |Refs(s.ptes, f)|)
  }

  /** The quiescent invariant: no page without a mapping, and a writable PTE is
      the only PTE of its page. */
  predicate Inv(s: State) {
    && Counted(s)
    && (forall f :: f in s.pages ==> s.pages[f].refs > 0)
    && (forall q :: q in s.ptes ==> !(s.ptes[q].rw && s.ptes[q].cow))
    && (forall q :: q in s.ptes && s.ptes[q].rw ==> s.pages[s.ptes[q].frame].refs == 1)
  }

  // ---------------------------------------------------------------- counting

  lemma AddRef(ptes: map<Va, Pte>, q: Va, e: Pte, f: nat)
    requires q !in ptes
    ensures |Refs(ptes[q := e], f)| == |Refs(ptes, f)| + (if e.frame == f then 1 else 0)
  {
    if e.frame == f {
      assert Refs(ptes[q := e], f) == Refs(ptes, f) + {q};
    } else {
      assert Refs(ptes[q := e], f) == Refs(ptes, f);
    }
  }

  lemma DropRef(ptes: map<Va, Pte>, q: Va, f: nat)
    requires q in ptes
    ensures |Refs(ptes - {q}, f)| == |Refs(ptes, f)| - (if ptes[q].frame == f then 1 else 0)
  {
    var rest := ptes - {q};
    assert rest[q := ptes[q]] == ptes;
    AddRef(rest, q, ptes[q], f);
  }

  /** Rewriting the flags of a PTE moves no reference. */
  lemma SameRefs(ptes: map<Va, Pte>, ptes': map<Va, Pte>, f: nat)
    requires ptes.Keys == ptes'.Keys
    requires forall q :: q in ptes ==> ptes'[q].frame == ptes[q].frame
    ensures Refs(ptes', f) == Refs(ptes, f)
  {
  }

  lemma OnlyRef(s: State, q: Va, q': Va)
    requires Inv(s) && q in s.ptes && q' in s.ptes
    requires s.pages[s.ptes[q].frame].refs == 1
    requires s.ptes[q'].frame == s.ptes[q].frame
    ensures q' == q
  {
    var rs := Refs(s.ptes, s.ptes[q].frame);
    assert |rs - {q}| == 0;
    assert q' !in rs - {q};
  }

  // ------------------------------------------------------- the shared machine

  /** alloc_page + map_page of a page that held `bytes`. */
  function MapFresh(s: State, q: Va, f: nat, bytes: seq<Byte>, rw: bool): State {
    State(s.ptes[q := Pte(f, rw, false)], s.pages[f := UserPage(1, bytes)])
  }

  /** pmm_release_user_mapping: the page goes with its last reference. */
  function Release(pages: map<nat, UserPage>, f: nat): map<nat, UserPage>
    requires f in pages && pages[f].refs > 0
  {
    if pages[f].refs == 1 then pages - {f}
    else pages[f := pages[f].(refs := pages[f].refs - 1)]
  }

  /** unmap_user_page. */
  function Unmap(s: State, q: Va): State
    requires q in s.ptes && s.ptes[q].frame in s.pages && s.pages[s.ptes[q].frame].refs > 0
  {
    State(s.ptes - {q}, Release(s.pages, s.ptes[q].frame))
  }

  /** handle_cow_page_fault when it succeeds; `f` is the page it allocates if the
      old one is still shared. */
  function CowFault(s: State, q: Va, f: nat): State
    requires q in s.ptes && s.ptes[q].frame in s.pages && s.pages[s.ptes[q].frame].refs > 0
  {
    var was := s.ptes[q].frame;
    if s.pages[was].refs == 1 then s.(ptes := s.ptes[q := Pte(was, true, false)])
    else State(s.ptes[q := Pte(f, true, false)],
               Release(s.pages, was)[f := UserPage(1, s.pages[was].bytes)])
  }

  /** One byte stored through a PTE whose hardware RW bit is set. */
  function Store(s: State, q: Va, off: nat, b: Byte): State
    requires q in s.ptes && s.ptes[q].frame in s.pages
    requires off < |s.pages[s.ptes[q].frame].bytes|
  {
    var f := s.ptes[q].frame;
    s.(pages := s.pages[f := s.pages[f].(bytes := s.pages[f].bytes[off := b])])
  }

  function Seal(e: Pte): Pte {
    if e.rw then Pte(e.frame, false, true) else e
  }

  /** The pages of space `p` renamed into space `c`. */
  function Copies(keys: set<Va>, p: nat, c: nat): set<Va> {
    set x | x in keys && x.r == p :: x.(r := c)
  }

  /** clone_user_address_space when it succeeds: both sides get the sealed PTE. */
  function ForkPtes(ptes: map<Va, Pte>, p: nat, c: nat): map<Va, Pte> {
    (map q | q in ptes :: if q.r == p then Seal(ptes[q]) else ptes[q])
    + (map q | q in Copies(ptes.Keys, p, c) :: Seal(ptes[q.(r := p)]))
  }

  function Fork(s: State, p: nat, c: nat): State {
    var ptes := ForkPtes(s.ptes, p, c);
    State(ptes, map f | f in s.pages :: s.pages[f].(refs := |Refs(ptes, f)|))
  }

  /** destroy_user_address_space. */
  function Exit(s: State, r: nat): State {
    var ptes := map q | q in s.ptes && q.r != r :: s.ptes[q];
    State(ptes, map f | f in s.pages && Refs(ptes, f) != {} :: s.pages[f].(refs := |Refs(ptes, f)|))
  }

  // ------------------------------------------------------ the private machine

  /** What a process sees of one page: its bytes and whether it may write. */
  datatype View = View(bytes: seq<Byte>, writable: bool)

  type Memory = map<Va, View>

  function Mem(s: State): Memory {
    map q | q in s.ptes && s.ptes[q].frame in s.pages ::
      View(s.pages[s.ptes[q].frame].bytes, s.ptes[q].rw || s.ptes[q].cow)
  }

  /** Fork by eager copy. */
  function CopySpace(m: Memory, p: nat, c: nat): Memory {
    m + (map q | q in Copies(m.Keys, p, c) :: m[q.(r := p)])
  }

  function DropSpace(m: Memory, r: nat): Memory {
    map q | q in m && q.r != r :: m[q]
  }

  // -------------------------------------------------------------- single steps

  lemma MapFreshInv(s: State, q: Va, f: nat, bytes: seq<Byte>, rw: bool)
    requires Inv(s) && q !in s.ptes && f !in s.pages
    ensures Inv(MapFresh(s, q, f, bytes, rw))
  {
    var t := MapFresh(s, q, f, bytes, rw);
    assert Refs(s.ptes, f) == {};
    forall g | g in t.pages ensures t.pages[g].refs == |Refs(t.ptes, g)| {
      AddRef(s.ptes, q, Pte(f, rw, false), g);
    }
  }

  lemma MapFreshRefines(s: State, q: Va, f: nat, bytes: seq<Byte>, rw: bool)
    requires Inv(s) && q !in s.ptes && f !in s.pages
    ensures Inv(MapFresh(s, q, f, bytes, rw))
    ensures Mem(MapFresh(s, q, f, bytes, rw)) == Mem(s)[q := View(bytes, rw)]
  {
    MapFreshInv(s, q, f, bytes, rw);
  }

  lemma StillShared(s: State, q: Va, x: Va)
    requires Inv(s) && q in s.ptes && x in s.ptes && x != q && s.ptes[x].frame == s.ptes[q].frame
    ensures s.pages[s.ptes[q].frame].refs > 1
  {
    if s.pages[s.ptes[q].frame].refs == 1 { OnlyRef(s, q, x); }
  }

  lemma UnmapInv(s: State, q: Va)
    requires Inv(s) && q in s.ptes
    ensures Inv(Unmap(s, q))
  {
    var t := Unmap(s, q);
    forall g | g in t.pages ensures t.pages[g].refs == |Refs(t.ptes, g)| { DropRef(s.ptes, q, g); }
    forall x | x in t.ptes ensures t.ptes[x].frame in t.pages {
      if s.ptes[x].frame == s.ptes[q].frame { StillShared(s, q, x); }
    }
  }

  lemma UnmapRefines(s: State, q: Va)
    requires Inv(s) && q in s.ptes
    ensures Inv(Unmap(s, q))
    ensures Mem(Unmap(s, q)) == Mem(s) - {q}
  {
    hide Refs;
    UnmapInv(s, q);
  }

  /** Mapping a fresh page and taking it away again leaves nothing behind. */
  lemma MapThenUnmap(s: State, q: Va, f: nat, bytes: seq<Byte>, rw: bool)
    requires q !in s.ptes && f !in s.pages
    ensures Unmap(MapFresh(s, q, f, bytes, rw), q) == s
  {
    assert s.ptes[q := Pte(f, rw, false)] - {q} == s.ptes;
    assert s.pages[f := UserPage(1, bytes)] - {f} == s.pages;
  }

  lemma CowFaultInv(s: State, q: Va, f: nat)
    requires Inv(s) && q in s.ptes && s.ptes[q].cow
    requires s.pages[s.ptes[q].frame].refs > 1 ==> f !in s.pages
    ensures Inv(CowFault(s, q, f))
  {
    var t := CowFault(s, q, f);
    if s.pages[s.ptes[q].frame].refs == 1 {
      forall g | g in t.pages { SameRefs(s.ptes, t.ptes, g); }
    } else {
      assert Refs(s.ptes, f) == {};
      var rest := s.ptes - {q};
      assert t.ptes == rest[q := Pte(f, true, false)];
      forall g | g in t.pages ensures t.pages[g].refs == |Refs(t.ptes, g)| {
        DropRef(s.ptes, q, g);
        AddRef(rest, q, Pte(f, true, false), g);
      }
    }
  }

  lemma CowFaultRefines(s: State, q: Va, f: nat)
    requires Inv(s) && q in s.ptes && s.ptes[q].cow
    requires s.pages[s.ptes[q].frame].refs > 1 ==> f !in s.pages
    ensures Inv(CowFault(s, q, f))
    ensures Mem(CowFault(s, q, f)) == Mem(s)
    ensures CowFault(s, q, f).ptes[q].rw
  {
    CowFaultInv(s, q, f);
    CowFaultMem(s, CowFault(s, q, f), q, f);
  }

  lemma CowFaultMem(s: State, t: State, q: Va, f: nat)
    requires Closed(s) && Closed(t) && q in s.ptes && s.ptes[q].cow
    requires s.pages[s.ptes[q].frame].refs > 0
    requires s.pages[s.ptes[q].frame].refs > 1 ==> f !in s.pages
    requires t == CowFault(s, q, f)
    ensures Mem(t) == Mem(s)
  {
    if s.pages[s.ptes[q].frame].refs == 1 {
      SameView(s, t);
    } else {
      CowFaultView(s, t, q);
    }
  }

  lemma CowFaultView(s: State, t: State, q: Va)
    requires Closed(s) && Closed(t) && q in s.ptes && s.ptes[q].cow
    requires t.ptes.Keys == s.ptes.Keys && t.ptes[q].rw
    requires forall x :: x in s.ptes && x != q ==> t.ptes[x] == s.ptes[x] && s.ptes[x].frame in t.pages
    requires t.pages[t.ptes[q].frame].bytes == s.pages[s.ptes[q].frame].bytes
    requires forall g :: g in s.pages && g in t.pages ==> t.pages[g].bytes == s.pages[g].bytes
    ensures Mem(t) == Mem(s)
  {
    SameView(s, t);
  }

  lemma StoreRefines(s: State, q: Va, off: nat, b: Byte)
    requires Inv(s) && q in s.ptes && s.ptes[q].rw
    requires off < |s.pages[s.ptes[q].frame].bytes|
    ensures Inv(Store(s, q, off, b))
    ensures Mem(Store(s, q, off, b)) ==
            Mem(s)[q := View(Mem(s)[q].bytes[off := b], true)]
  {
    forall x | x in s.ptes && s.ptes[x].frame == s.ptes[q].frame ensures x == q {
      OnlyRef(s, q, x);
    }
  }

  /** Every page of `p` is copied: the keys of a fork. */
  lemma ForkKeys(ptes: map<Va, Pte>, p: nat, c: nat, q: Va)
    requires p != c && (forall x :: x in ptes ==> x.r != c)
    ensures q in ForkPtes(ptes, p, c) <==> q in ptes || (q.r == c && q.(r := p) in ptes)
    ensures q in ptes ==> ForkPtes(ptes, p, c)[q] == if q.r == p then Seal(ptes[q]) else ptes[q]
    ensures q.r == c && q.(r := p) in ptes ==> ForkPtes(ptes, p, c)[q] == Seal(ptes[q.(r := p)])
  {
    if q.r == c && q.(r := p) in ptes {
      var x := q.(r := p);
      assert x in ptes.Keys && x.r == p && x.(r := c) == q;
    }
  }

  lemma ForkRefines(s: State, p: nat, c: nat)
    requires Inv(s) && p != c && (forall x :: x in s.ptes ==> x.r != c)
    ensures Inv(Fork(s, p, c))
    ensures Mem(Fork(s, p, c)) == CopySpace(Mem(s), p, c)
  {
    ForkInv(s, p, c);
    ForkMem(s, Fork(s, p, c), p, c);
  }

  lemma ForkInv(s: State, p: nat, c: nat)
    requires Inv(s) && p != c && (forall x :: x in s.ptes ==> x.r != c)
    ensures Inv(Fork(s, p, c))
  {
    var t := Fork(s, p, c);
    forall f | f in s.pages ensures Refs(s.ptes, f) <= Refs(t.ptes, f) {
      forall q | q in Refs(s.ptes, f) ensures q in Refs(t.ptes, f) { ForkKeys(s.ptes, p, c, q); }
    }
    forall f | f in t.pages ensures t.pages[f].refs > 0 {
      assert Refs(s.ptes, f) != {};
      assert Refs(t.ptes, f) != {};
    }
    forall q | q in t.ptes
      ensures t.ptes[q].frame in t.pages && !(t.ptes[q].rw && t.ptes[q].cow)
      ensures t.ptes[q].rw ==> t.pages[t.ptes[q].frame].refs == 1
    {
      ForkKeys(s.ptes, p, c, q);
      if t.ptes[q].rw { ForkUnshared(s, p, c, q); }
    }
  }

  /** A page that stays writable belongs to neither side of the fork. */
  lemma ForkUnshared(s: State, p: nat, c: nat, q: Va)
    requires Inv(s) && p != c && (forall x :: x in s.ptes ==> x.r != c)
    requires q in ForkPtes(s.ptes, p, c) && ForkPtes(s.ptes, p, c)[q].rw
    ensures |Refs(ForkPtes(s.ptes, p, c), ForkPtes(s.ptes, p, c)[q].frame)| == 1
  {
    var ptes := ForkPtes(s.ptes, p, c);
    ForkKeys(s.ptes, p, c, q);
    assert q in s.ptes && q.r != p;
    forall x | x in Refs(ptes, ptes[q].frame) ensures x == q {
      ForkKeys(s.ptes, p, c, x);
      var y := if x in s.ptes then x else x.(r := p);
      OnlyRef(s, q, y);
    }
    assert Refs(ptes, ptes[q].frame) == {q};
  }

  lemma CopyKeys(m: Memory, p: nat, c: nat, q: Va)
    requires p != c && (forall x :: x in m ==> x.r != c)
    ensures q in CopySpace(m, p, c) <==> q in m || (q.r == c && q.(r := p) in m)
    ensures q in m ==> CopySpace(m, p, c)[q] == m[q]
    ensures q.r == c && q.(r := p) in m ==> CopySpace(m, p, c)[q] == m[q.(r := p)]
  {
    if q.r == c && q.(r := p) in m {
      var x := q.(r := p);
      assert x in m.Keys && x.r == p && x.(r := c) == q;
    }
  }

  predicate Closed(s: State) {
    forall q :: q in s.ptes ==> s.ptes[q].frame in s.pages
  }

  lemma ForkMemAt(s: State, t: State, n: Memory, p: nat, c: nat, q: Va)
    requires Closed(s) && Closed(t)
    requires forall f :: f in s.pages ==> f in t.pages && t.pages[f].bytes == s.pages[f].bytes
    requires q in t.ptes <==> q in s.ptes || (q.r == c && q.(r := p) in s.ptes)
    requires q in n <==> q in s.ptes || (q.r == c && q.(r := p) in s.ptes)
    requires q in s.ptes ==> t.ptes[q] == (if q.r == p then Seal(s.ptes[q]) else s.ptes[q]) && n[q] == Mem(s)[q]
    requires q.r == c && q.(r := p) in s.ptes ==>
      t.ptes[q] == Seal(s.ptes[q.(r := p)]) && n[q] == Mem(s)[q.(r := p)]
    ensures (q in Mem(t) <==> q in n) && (q in n ==> Mem(t)[q] == n[q])
  {
  }

  lemma ForkMemPoint(s: State, t: State, p: nat, c: nat, q: Va)
    requires Closed(s) && Closed(t) && p != c && (forall x :: x in s.ptes ==> x.r != c)
    requires t.ptes == ForkPtes(s.ptes, p, c)
    requires forall f :: f in s.pages ==> f in t.pages && t.pages[f].bytes == s.pages[f].bytes
    ensures q in Mem(t) <==> q in CopySpace(Mem(s), p, c)
    ensures q in Mem(t) ==> Mem(t)[q] == CopySpace(Mem(s), p, c)[q]
  {
    ForkKeys(s.ptes, p, c, q);
    CopyKeys(Mem(s), p, c, q);
    ForkMemAt(s, t, CopySpace(Mem(s), p, c), p, c, q);
  }

  lemma ForkMem(s: State, t: State, p: nat, c: nat)
    requires Closed(s) && Closed(t) && p != c && (forall x :: x in s.ptes ==> x.r != c)
    requires t.ptes == ForkPtes(s.ptes, p, c)
    requires forall f :: f in s.pages ==> f in t.pages && t.pages[f].bytes == s.pages[f].bytes
    ensures Mem(t) == CopySpace(Mem(s), p, c)
  {
    forall q { ForkMemPoint(s, t, p, c, q); }
  }

  /** Same pages reachable with the same bytes and rights: same memory. */
  lemma SameView(s: State, t: State)
    requires Closed(s) && Closed(t) && s.ptes.Keys == t.ptes.Keys
    requires forall q :: q in s.ptes ==>
      && t.pages[t.ptes[q].frame].bytes == s.pages[s.ptes[q].frame].bytes
      && (t.ptes[q].rw || t.ptes[q].cow) == (s.ptes[q].rw || s.ptes[q].cow)
    ensures Mem(t) == Mem(s)
  {
  }

  lemma ExitRefines(s: State, r: nat)
    requires Inv(s)
    ensures Inv(Exit(s, r))
    ensures Mem(Exit(s, r)) == DropSpace(Mem(s), r)
  {
    var t := Exit(s, r);
    forall q | q in t.ptes ensures t.ptes[q].frame in t.pages {
      assert q in Refs(t.ptes, t.ptes[q].frame);
    }
    forall q | q in t.ptes && t.ptes[q].rw ensures t.pages[t.ptes[q].frame].refs == 1 {
      forall x | x in Refs(t.ptes, t.ptes[q].frame) ensures x == q { OnlyRef(s, q, x); }
      assert Refs(t.ptes, t.ptes[q].frame) == {q};
    }
  }

  // ---------------------------------------------------------------- whole runs

  /** What can happen to the address spaces. `f` is always the page the kernel
      would allocate; the private machine never looks at it. */
  datatype Step =
    | MapPage(q: Va, f: nat, bytes: seq<Byte>, rw: bool)  // mmap, stack growth, loading
    | UnmapPage(q: Va)                                    // munmap, thread exit
    | Privatise(q: Va, f: nat)                            // a write fault taken ahead of the write
    | Write(q: Va, off: nat, b: Byte, f: nat)             // a user store, with its fault if it takes one
    | Clone(p: nat, c: nat)
    | Destroy(r: nat)

  predicate Enabled(s: State, step: Step)
    requires Inv(s)
  {
    match step
    case MapPage(q, f, _, _) => q !in s.ptes && f !in s.pages
    case UnmapPage(q) => q in s.ptes
    case Privatise(q, f) => q in s.ptes && s.ptes[q].cow && FreshIfShared(s, q, f)
    case Write(q, off, _, f) =>
      && q in s.ptes
      && (s.ptes[q].rw || (s.ptes[q].cow && FreshIfShared(s, q, f)))
      && off < |s.pages[s.ptes[q].frame].bytes|
    case Clone(p, c) => p != c && forall x :: x in s.ptes ==> x.r != c
    case Destroy(_) => true
  }

  predicate FreshIfShared(s: State, q: Va, f: nat)
    requires Inv(s) && q in s.ptes
  {
    s.pages[s.ptes[q].frame].refs > 1 ==> f !in s.pages
  }

  /** The kernel's move. */
  function Shared(s: State, step: Step): State
    requires Inv(s) && Enabled(s, step)
  {
    match step
    case MapPage(q, f, bytes, rw) => MapFresh(s, q, f, bytes, rw)
    case UnmapPage(q) => Unmap(s, q)
    case Privatise(q, f) => CowFault(s, q, f)
    case Write(q, off, b, f) =>
      if s.ptes[q].rw then Store(s, q, off, b)
      else
        CowFaultRefines(s, q, f);
        CowFaultKeepsBytes(s, q, f);
        Store(CowFault(s, q, f), q, off, b)
    case Clone(p, c) => Fork(s, p, c)
    case Destroy(r) => Exit(s, r)
  }

  lemma CowFaultKeepsBytes(s: State, q: Va, f: nat)
    requires Inv(s) && q in s.ptes && s.ptes[q].cow && FreshIfShared(s, q, f)
    ensures var t := CowFault(s, q, f);
      t.ptes[q].frame in t.pages && t.pages[t.ptes[q].frame].bytes == s.pages[s.ptes[q].frame].bytes
  {
  }

  /** The same move on private memories: fork copies, a write touches one page of
      one space, a fault changes nothing. */
  function Private(m: Memory, step: Step): Memory {
    match step
    case MapPage(q, _, bytes, rw) => m[q := View(bytes, rw)]
    case UnmapPage(q) => m - {q}
    case Privatise(_, _) => m
    case Write(q, off, b, _) =>
      if q in m && off < |m[q].bytes| then m[q := View(m[q].bytes[off := b], m[q].writable)] else m
    case Clone(p, c) => CopySpace(m, p, c)
    case Destroy(r) => DropSpace(m, r)
  }

  lemma StepRefines(s: State, step: Step)
    requires Inv(s) && Enabled(s, step)
    ensures Inv(Shared(s, step))
    ensures Mem(Shared(s, step)) == Private(Mem(s), step)
  {
    match step
    case MapPage(q, f, bytes, rw) => MapFreshRefines(s, q, f, bytes, rw);
    case UnmapPage(q) => UnmapRefines(s, q);
    case Privatise(q, f) => CowFaultRefines(s, q, f);
    case Write(q, off, b, f) =>
      if s.ptes[q].rw {
        StoreRefines(s, q, off, b);
      } else {
        CowFaultRefines(s, q, f);
        CowFaultKeepsBytes(s, q, f);
        StoreRefines(CowFault(s, q, f), q, off, b);
      }
    case Clone(p, c) => ForkRefines(s, p, c);
    case Destroy(r) => ExitRefines(s, r);
  }

  /** A run, newest step last. */
  datatype Run = Start(s: State) | Then(before: Run, step: Step)

  ghost predicate Legal(run: Run) {
    match run
    case Start(s) => Inv(s)
    case Then(before, step) => Legal(before) && Inv(End(before)) && Enabled(End(before), step)
  }

  ghost function End(run: Run): State {
    match run
    case Start(s) => s
    case Then(before, step) =>
      if Inv(End(before)) && Enabled(End(before), step) then Shared(End(before), step) else End(before)
  }

  ghost function PrivateEnd(run: Run): Memory
    requires Legal(run)
  {
    match run
    case Start(s) => Mem(s)
    case Then(before, step) => Private(PrivateEnd(before), step)
  }

  /** Over every run, sharing is invisible: the reference counts and the
      write-exclusivity invariant hold, and what every process sees is what it
      would see with private memories copied at fork. */
  lemma {:induction false} SharingIsInvisible(run: Run)
    requires Legal(run)
    ensures Inv(End(run))
    ensures Mem(End(run)) == PrivateEnd(run)
  {
    match run
    case Start(s) =>
    case Then(before, step) =>
      SharingIsInvisible(before);
      StepRefines(End(before), step);
  }
}
