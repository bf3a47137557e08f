/** The processor's translation of a user-mode access through the tables in memory (sections 4.5
    and 4.6 of the Intel SDM, volume 3A), and that the tables the kernel builds make it do what
    the flat map says. */
module Hardware {
  import opened Layout
  import opened SharedPages
  import opened PageTree
  import opened Linkage
  import opened VirtualMemory
  import Pmm

  /** Where an access lands, or the page fault it raises; `protection` is bit 0 of the error
      code. `Wild` is a walk through a page that is no table, or into a large page. */
  datatype Access = Hit(frame: nat) | Fault(protection: bool) | Wild

  /** The nine bits of the address that index the table of the given level. */
  function Index(vaddr: nat, level: nat): (i: nat)
    requires 1 <= level <= 4
    ensures i < ENTRIES
  {
    var number := vaddr / 4096;
    (if level == 1 then number
     else if level == 2 then number / 512
     else if level == 3 then number / 512 / 512
     else number / 512 / 512 / 512) % 512
  }

  /** A user access goes through when every level grants it. */
  predicate Granted(es: seq<Entry>, write: bool) {
    forall k :: 0 <= k < |es| ==> es[k].us && (write ==> es[k].rw)
  }

  /** The walk from CR3 over PML4, PDPT, PD and PT. */
  function Translate(tables: map<nat, Table>, cr3: nat, vaddr: nat, write: bool): Access {
    if cr3 !in tables then Wild
    else
      var e4 := tables[cr3][Index(vaddr, 4)];
      if !e4.p then Fault(false) else if e4.frame !in tables then Wild
      else
        var e3 := tables[e4.frame][Index(vaddr, 3)];
        if !e3.p then Fault(false) else if e3.ps || e3.frame !in tables then Wild
        else
          var e2 := tables[e3.frame][Index(vaddr, 2)];
          if !e2.p then Fault(false) else if e2.ps || e2.frame !in tables then Wild
          else
            var e1 := tables[e2.frame][Index(vaddr, 1)];
            if !e1.p then Fault(false)
            else if Granted([e4, e3, e2, e1], write) then Hit(e1.frame) else Fault(true)
  }

  lemma GrantedIs(e4: Entry, e3: Entry, e2: Entry, e1: Entry, write: bool)
    ensures Granted([e4, e3, e2, e1], write) <==>
      && e4.us && e3.us && e2.us && e1.us
      && (write ==> e4.rw && e3.rw && e2.rw && e1.rw)
  {
    var es := [e4, e3, e2, e1];
    assert es[0] == e4 && es[1] == e3 && es[2] == e2 && es[3] == e1;
  }

  lemma IndexIs(r: nat, vaddr: nat)
    ensures var q := Split(r, vaddr);
      Index(vaddr, 4) == q.a && Index(vaddr, 3) == q.b && Index(vaddr, 2) == q.c && Index(vaddr, 1) == q.d
  {
    var n := vaddr / 0x1000;
    assert vaddr / 0x20_0000 == n / 512;
    assert vaddr / 0x4000_0000 == n / 512 / 512;
    assert vaddr / 0x80_0000_0000 == n / 512 / 512 / 512;
  }

  /** An entry above the pages: absent exactly if the table below is, and else it grants all. */
  lemma OpenSlot(t: Tree, kernel: Table, q: Va, level: nat)
    requires TreeInv(t, kernel) && q.InRange() && 2 <= level <= 4 && q.Above(level) in t.node
    ensures t.node[q.Above(level)] in t.tables && q.At(level) < ENTRIES
    ensures var e := t.tables[t.node[q.Above(level)]][q.At(level)];
      && (e.p <==> q.Above(level - 1) in t.node)
      && (e.p ==> e.rw && e.us && !e.ps && e.frame == t.node[q.Above(level - 1)] && e.frame in t.tables)
  {
    StepDown(q, level);
    var p := q.Above(level);
    assert t.tables[t.node[p]][q.At(level)] ==
      if Child(p, q.At(level)) in t.node then TableEntry(t.node[Child(p, q.At(level))]) else NONE;
  }

  lemma LastSlot(t: Tree, kernel: Table, q: Va)
    requires TreeInv(t, kernel) && q.InRange() && q.Above(1) in t.node
    ensures t.node[q.Above(1)] in t.tables
    ensures var e := t.tables[t.node[q.Above(1)]][q.d];
      && (e.p <==> q in t.ptes)
      && (e.p ==> e.us && e.rw == t.ptes[q].rw && e.frame == t.ptes[q].frame)
  {
    AboveOne(q);
    LeafOf(t, kernel, q);
  }

  /** What the processor does with a user address is what the flat map says: it faults as not
      present if and only if the page is unmapped, a write to a page that is mapped without
      RW faults as a protection violation, and every other access lands in the page's frame. */
  lemma TranslateIs(t: Tree, kernel: Table, r: nat, vaddr: nat, write: bool)
    requires TreeInv(t, kernel) && Root(r) in t.node && vaddr < USER_TOP
    ensures var q := Split(r, vaddr);
      Translate(t.tables, r, vaddr, write) ==
        if q !in t.ptes then Fault(false)
        else if write && !t.ptes[q].rw then Fault(true)
        else Hit(t.ptes[q].frame)
  {
    hide TreeInv, Split, Va.Above, Va.At, Index, Va.Pt, Granted;
    var q := Split(r, vaddr);
    SplitInRange(r, vaddr);
    IndexIs(r, vaddr);
    RootOfPath(t, kernel, q, r, vaddr);
    if q in t.ptes { WholePath(t, kernel, q); }
    OpenSlot(t, kernel, q, 4);
    if q.Above(3) in t.node {
      OpenSlot(t, kernel, q, 3);
      if q.Above(2) in t.node {
        OpenSlot(t, kernel, q, 2);
        if q.Above(1) in t.node {
          LastSlot(t, kernel, q);
          GrantedIs(t.tables[r][q.a], t.tables[t.node[q.Above(3)]][q.b], t.tables[t.node[q.Above(2)]][q.c],
                    t.tables[t.node[q.Above(1)]][q.d], write);
        }
      }
    }
  }

  lemma WholePath(t: Tree, kernel: Table, q: Va)
    requires TreeInv(t, kernel) && q in t.ptes
    ensures q.Above(4) in t.node && q.Above(3) in t.node && q.Above(2) in t.node && q.Above(1) in t.node
  {
    hide TreeInv;
    PathPresent(t, kernel, q, 4);
    PathPresent(t, kernel, q, 3);
    PathPresent(t, kernel, q, 2);
    PathPresent(t, kernel, q, 1);
  }

  lemma RootOfPath(t: Tree, kernel: Table, q: Va, r: nat, vaddr: nat)
    requires TreeInv(t, kernel) && Root(r) in t.node && q == Split(r, vaddr)
    ensures q.Above(4) in t.node && t.node[q.Above(4)] == r
    ensures q.At(4) == q.a && q.At(3) == q.b && q.At(2) == q.c && q.At(1) == q.d
  {
  }

  /** Under the kernel's invariant a user read of an address succeeds if and only if its page is
      in the process's memory, and reads that memory's byte; a user write goes through without
      a fault if and only if the page's PTE is writable; both land in the page's frame. */
  lemma UserAccess(vm: AddressSpaces, r: nat, vaddr: nat)
    requires vm.Valid() && Inv(vm.Abs()) && Root(r) in vm.tree.node && vaddr < USER_TOP
    ensures var q, x, y, m :=
        Split(r, vaddr), Translate(vm.tables, r, vaddr, false), Translate(vm.tables, r, vaddr, true), Mem(vm.Abs());
      && (x.Hit? <==> q in m) && !x.Wild? && !y.Wild?
      && (x.Hit? ==>
            && q in vm.tree.ptes && x.frame == vm.tree.ptes[q].frame < |vm.pmm.view|
            && vm.pmm.view[x.frame].bytes == m[q].bytes)
      && (y.Hit? <==> q in vm.tree.ptes && vm.tree.ptes[q].rw) && (y.Hit? ==> y == x && m[q].writable)
      && (x.Fault? ==> x == Fault(false)) && (y == Fault(false) <==> q !in vm.tree.ptes)
  {
    hide TreeInv, Linked, Pmm.PageMap.Valid, Split, Inv, Translate;
    TranslateIs(vm.tree, vm.kernel, r, vaddr, false);
    TranslateIs(vm.tree, vm.kernel, r, vaddr, true);
    var q := Split(r, vaddr);
    if q in vm.tree.ptes {
      PteFacts(vm.tree, vm.pmm.view, vm.pmm.threads, vm.kernelTables, q);
      UserPageIn(vm.pmm.view, vm.tree.ptes[q].frame);
    }
  }
}
