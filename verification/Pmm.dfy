/** The physical page allocator (kernel/memory.c): packed bitmaps, owners,
    mapping refcounts, and the E820 passes that decide what may be allocated. */
module Pmm {
  import opened Layout
  import opened Bits

  const UINT32_MAX := 0xFFFF_FFFF

  type Count = n: nat | n <= UINT32_MAX
  const UINT64_MAX := 0xFFFF_FFFF_FFFF_FFFF
  const DIRECT_MAP_MAX_PHYS := 0x8000_0000_0000
  const MEMORY_BITMAP_PADDR := 0x20_0000
  const BOOT_RESERVED_END := 0x20_0000

  datatype Owner =
    | Free | Generic | PageTable | Kernel | Heap | User | Thread | Process | Tty | Test | Reserved

  datatype Expected = Any | Is(owner: Owner)

  /** What the four metadata arrays and the direct map say of one page. */
  datatype Frame = Frame(used: bool, reserved: bool, owner: Owner, refs: nat, bytes: Page)

  /** An E820 record (ACPI specification, section 15.1). */
  datatype Ards = Ards(base: nat, length: nat, kind: nat) {
    predicate Wraps() { length > UINT64_MAX - base }
    predicate Usable() { kind == 1 && !Wraps() }
    predicate Contains(p: nat) { base <= p * PAGE_SIZE && (p + 1) * PAGE_SIZE <= base + length }
  }

  predicate Touches(start: nat, end: nat, p: nat) {
    start < end && start < (p + 1) * PAGE_SIZE && p * PAGE_SIZE < end
  }

  predicate Available(v: seq<Frame>, threads: set<nat>, i: nat)
    requires i < |v|
  {
    !v[i].used && !v[i].reserved && i !in threads
  }

  /** `n` available pages starting at `s`. */
  predicate RunAt(v: seq<Frame>, threads: set<nat>, s: nat, n: nat) {
    s + n <= |v| && forall i :: s <= i < s + n ==> Available(v, threads, i)
  }

  function Taken(v: seq<Frame>, s: nat, n: nat, owner: Owner): seq<Frame> {
    seq(|v|, i requires 0 <= i < |v| =>
      if s <= i < s + n then v[i].(used := true, owner := owner, refs := 0) else v[i])
  }

  predicate Freeable(v: seq<Frame>, threads: set<nat>, i: nat, expected: Expected)
    requires i < |v|
  {
    && i !in threads && v[i].used && !v[i].reserved && v[i].refs == 0
    && (expected.Is? ==> v[i].owner == expected.owner)
  }

  /** A page as the allocator hands it back: zeroed and unowned. */
  function Blank(f: Frame): Frame {
    Frame(false, f.reserved, Free, 0, ZeroPage())
  }

  function Freed(v: seq<Frame>, s: nat, n: nat): seq<Frame> {
    seq(|v|, i requires 0 <= i < |v| =>
      if s <= i < s + n then Blank(v[i]) else v[i])
  }

  /** Unowned pages carry no owner and no references. */
  predicate Clean(v: seq<Frame>) {
    forall i :: 0 <= i < |v| && !v[i].used && !v[i].reserved ==> v[i].owner == Free && v[i].refs == 0
  }

  /** A mapped user page: what acquire and release look for. */
  predicate UserAt(v: seq<Frame>, p: nat) {
    p < |v| && v[p].used && v[p].owner == User
  }

  function Acquired(v: seq<Frame>, p: nat): seq<Frame>
    requires p < |v|
  {
    v[p := v[p].(refs := v[p].refs + 1)]
  }

  function Released(v: seq<Frame>, p: nat): seq<Frame>
    requires p < |v| && v[p].refs > 0
  {
    v[p := if v[p].refs == 1 then Blank(v[p])
           else v[p].(refs := v[p].refs - 1)]
  }

  // ------------------------------------------------------------ boot passes

  function TopOf(records: seq<Ards>): nat {
    if records == [] then 0
    else
      var e, m := records[|records| - 1], TopOf(records[..|records| - 1]);
      if e.Usable() && e.base + e.length > m then e.base + e.length else m
  }

  /** The record is of type 1 and ends at `end`, below 2^64. */
  ghost predicate EndsAt(e: Ards, end: nat) {
    e.kind == 1 && e.base + e.length == end <= UINT64_MAX
  }

  /** No usable record ends above `top`, and `top` is such an end, or 0 without any. */
  ghost predicate HighestEnd(records: seq<Ards>, top: nat) {
    && (forall i, end: nat :: 0 <= i < |records| && EndsAt(records[i], end) ==> end <= top)
    && (top == 0 || exists i :: 0 <= i < |records| && EndsAt(records[i], top))
  }

  lemma {:induction false} TopIsHighest(records: seq<Ards>)
    ensures HighestEnd(records, TopOf(records))
  {
    if records != [] {
      var n := |records| - 1;
      TopIsHighest(records[..n]);
      assert forall i :: 0 <= i < n ==> records[..n][i] == records[i];
    }
  }

  lemma OneHighest(records: seq<Ards>, a: nat, b: nat)
    requires HighestEnd(records, a) && HighestEnd(records, b)
    ensures a == b
  {
  }

  /** The highest end of a usable record. */
  method FindTop(records: seq<Ards>) returns (top: nat)
    ensures HighestEnd(records, top) && top == TopOf(records)
  {
    top := 0;
    for i := 0 to |records|
      invariant HighestEnd(records[..i], top)
    {
      var e := records[i];
      assert records[..i + 1] == records[..i] + [e];
      if e.Usable() && e.base + e.length > top {
        top := e.base + e.length;
        assert records[..i + 1][i] == e;
      } else if top != 0 {
        ghost var j :| 0 <= j < i && EndsAt(records[..i][j], top);
        assert records[..i + 1][j] == records[..i][j];
      }
    }
    assert records[..|records|] == records;
    TopIsHighest(records);
    OneHighest(records, top, TopOf(records));
  }

  /** Pages up to the highest end, rounded up; none when the size is refused. */
  function PageCount(top: nat): nat {
    if top > DIRECT_MAP_MAX_PHYS then 0 else (top + PAGE_SIZE - 1) / PAGE_SIZE
  }

  function MetadataBytes(pages: nat): nat {
    2 * ((pages + 7) / 8) + pages + pages * 4
  }

  predicate Bootable(top: nat) {
    && top != 0 && top <= DIRECT_MAP_MAX_PHYS
    && MEMORY_BITMAP_PADDR + MetadataBytes(PageCount(top)) <= PageCount(top) * PAGE_SIZE
  }

  predicate InUsable(records: seq<Ards>, p: nat) {
    exists i :: 0 <= i < |records| && records[i].Usable() && records[i].Contains(p)
  }

  predicate TouchedByOther(records: seq<Ards>, p: nat) {
    exists i :: 0 <= i < |records| && records[i].kind != 1 && !records[i].Wraps() &&
      Touches(records[i].base, records[i].base + records[i].length, p)
  }

  predicate Allocatable(records: seq<Ards>, pages: nat, p: nat) {
    && InUsable(records, p)
    && !TouchedByOther(records, p)
    && !Touches(0, BOOT_RESERVED_END, p)
    && !Touches(MEMORY_BITMAP_PADDR, MEMORY_BITMAP_PADDR + MetadataBytes(pages), p)
  }

  ghost predicate InPage(a: nat, p: nat) { p * PAGE_SIZE <= a < (p + 1) * PAGE_SIZE }

  ghost predicate InRange(a: nat, start: nat, end: nat) { start <= a < end }

  /** What allocatable means byte by byte: all bytes of the page lie in one usable record, and
      none in a record of another kind, in the boot area or in the metadata. */
  lemma AllocatableBytes(records: seq<Ards>, pages: nat, p: nat)
    ensures Allocatable(records, pages, p) <==>
      && (exists i :: 0 <= i < |records| && records[i].kind == 1 && !records[i].Wraps() &&
            forall a: nat :: InPage(a, p) ==> InRange(a, records[i].base, records[i].base + records[i].length))
      && (forall i, a: nat :: 0 <= i < |records| && records[i].kind != 1 && !records[i].Wraps() && InPage(a, p) ==>
            !InRange(a, records[i].base, records[i].base + records[i].length))
      && (forall a: nat :: InPage(a, p) ==>
            a >= BOOT_RESERVED_END && !InRange(a, MEMORY_BITMAP_PADDR, MEMORY_BITMAP_PADDR + MetadataBytes(pages)))
  {
    forall i | 0 <= i < |records|
      ensures records[i].Contains(p) <==>
        forall a: nat :: InPage(a, p) ==> InRange(a, records[i].base, records[i].base + records[i].length)
    {
      ContainsBytes(records[i], p);
    }
    forall start: nat, end: nat
      ensures Touches(start, end, p) <==> exists a: nat :: InPage(a, p) && InRange(a, start, end)
    {
      TouchesBytes(start, end, p);
    }
    assert Touches(0, BOOT_RESERVED_END, p) <==> exists a: nat :: InPage(a, p) && InRange(a, 0, BOOT_RESERVED_END);
  }

  lemma ContainsBytes(e: Ards, p: nat)
    ensures e.Contains(p) <==> forall a: nat :: InPage(a, p) ==> InRange(a, e.base, e.base + e.length)
  {
    assert InPage(p * PAGE_SIZE, p) && InPage((p + 1) * PAGE_SIZE - 1, p);
  }

  lemma TouchesBytes(start: nat, end: nat, p: nat)
    ensures Touches(start, end, p) <==> exists a: nat :: InPage(a, p) && InRange(a, start, end)
  {
    if Touches(start, end, p) {
      var a := if start < p * PAGE_SIZE then p * PAGE_SIZE else start;
      assert InPage(a, p) && InRange(a, start, end);
    }
  }

  /** The byte at physical address a is in a page that is never allocated. */
  ghost predicate Withheld(v: seq<Frame>, a: nat) {
    a / PAGE_SIZE < |v| && v[a / PAGE_SIZE].reserved
  }

  /** The allocator's own arrays, one behind the other: two bitmaps, a byte per page for the
      owners, four bytes per page for the refcounts. None of their bytes can be allocated. */
  ghost predicate ArraysWithheld(v: seq<Frame>) {
    var bitmap := (|v| + 7) / 8;
    forall i: nat :: i < |v| ==>
      && Withheld(v, 0x20_0000 + i / 8) && Withheld(v, 0x20_0000 + bitmap + i / 8)
      && Withheld(v, 0x20_0000 + 2 * bitmap + i)
      && Withheld(v, 0x20_0000 + 2 * bitmap + |v| + 4 * i) && Withheld(v, 0x20_0000 + 2 * bitmap + |v| + 4 * i + 3)
  }

  lemma ArraysIn(v: seq<Frame>)
    requires 0x20_0000 + 2 * ((|v| + 7) / 8) + 5 * |v| <= |v| * PAGE_SIZE
    requires forall p ::
      0 <= p < |v| && Touches(0x20_0000, 0x20_0000 + 2 * ((|v| + 7) / 8) + 5 * |v|, p) ==> v[p].reserved
    ensures ArraysWithheld(v)
  {
    var bitmap := (|v| + 7) / 8;
    forall a: nat | 0x20_0000 <= a < 0x20_0000 + 2 * bitmap + 5 * |v| ensures Withheld(v, a) {
      assert Touches(0x20_0000, 0x20_0000 + 2 * bitmap + 5 * |v|, a / PAGE_SIZE);
    }
  }

  predicate OpenFrame(f: Frame) { !f.used && !f.reserved && f.owner == Free && f.refs == 0 }
  predicate ReservedFrame(f: Frame) { !f.used && f.reserved && f.owner == Reserved && f.refs == 0 }
  function Closed(f: Frame): Frame { f.(used := true, owner := Reserved, reserved := true) }

  lemma MaskNonzero(k: nat)
    requires k < 8
    ensures !Bits.Test(0, k) && Bits.Test(0xFF, k)
  {
  }

  class PageMap {
    const bits: array<bv8>
    const reservedBits: array<bv8>
    const owners: array<Owner>
    const refcounts: array<Count>
    const mem: array<Page>
    var ready: bool
    var failAllocations: nat       // test hook: that many allocations fail
    var threads: set<nat>          // object and stack pages of the threads in the ring
    ghost var view: seq<Frame>

    ghost predicate Shape()
      reads this
    {
      && |view| == owners.Length == refcounts.Length == mem.Length
      && bits.Length == reservedBits.Length == (|view| + 7) / 8
      && bits != reservedBits && owners as object != refcounts && owners as object != mem
      && refcounts as object != mem && bits as object != owners && bits as object != refcounts
      && bits as object != mem && reservedBits as object != owners
      && reservedBits as object != refcounts && reservedBits as object != mem
    }

    ghost predicate Valid()
      reads this, bits, reservedBits, owners, refcounts, mem
    {
      && Shape()
      && (forall i :: 0 <= i < |view| ==>
            view[i] == Frame(Bits.Test(bits[i / 8], i % 8), Bits.Test(reservedBits[i / 8], i % 8),
                             owners[i], refcounts[i], mem[i]))
    }

    // -------------------------------------------------------- E820 and boot

    /** The metadata as init_phy_mem_map lays it out before the E820 passes. */
    constructor (ram: array<Page>)
      ensures Valid() && failAllocations == 0 && threads == {} && !ready
      ensures fresh(bits) && fresh(reservedBits) && fresh(owners) && fresh(refcounts) && mem == ram
      ensures |view| == ram.Length
      ensures forall p :: 0 <= p < |view| ==> ReservedFrame(view[p])
    {
      var n := ram.Length;
      bits := new bv8[(n + 7) / 8](_ => 0);
      reservedBits := new bv8[(n + 7) / 8](_ => 0xFF);
      owners := new Owner[n](_ => Reserved);
      refcounts := new Count[n](_ => 0);
      mem := ram;
      failAllocations, threads, ready := 0, {}, false;
      view := seq(n, i requires 0 <= i < n reads ram => Frame(false, true, Reserved, 0, ram[i]));
      new;
      forall i | 0 <= i < n
        ensures view[i] == Frame(Bits.Test(bits[i / 8], i % 8), Bits.Test(reservedBits[i / 8], i % 8),
                                 owners[i], refcounts[i], mem[i])
      {
        assert bits[i / 8] == 0 && reservedBits[i / 8] == 0xFF;
        MaskNonzero(i % 8);
      }
    }

    /** init_phy_mem_map up to the direct map. After the passes a page can be
        allocated exactly when it lies wholly in one usable record and touches no
        other record, boot area or metadata. */
    method Boot(records: seq<Ards>) returns (r: int)
      requires Valid() && |view| == PageCount(TopOf(records))
      requires forall p :: 0 <= p < |view| ==> ReservedFrame(view[p])
      modifies this, bits, reservedBits, owners
      ensures Valid() && |view| == |old(view)| && failAllocations == 0 && threads == old(threads)
      ensures r == (if Bootable(TopOf(records)) then 0 else -1) && (ready <==> r == 0)
      ensures ready ==> forall p :: 0 <= p < |view| ==>
        (!view[p].used && !view[p].reserved <==> Allocatable(records, |view|, p))
      ensures ready ==> |view| > 0 && Clean(view)
      ensures ready ==> forall p :: 0 <= p < |view| && p * PAGE_SIZE < BOOT_RESERVED_END ==> view[p].reserved
      ensures ready ==> forall p :: 0 <= p < |view| ==> view[p].owner in {Free, Reserved}
      ensures ready ==> ArraysWithheld(view)
    {
      hide Allocatable, Clean, ArraysWithheld, ReservedFrame, TopOf;
      failAllocations, ready := 0, false;
      var top := FindTop(records);
      if !Bootable(top) { return -1; }
      RunPasses(records);
      ArraysIn(view);
      ready := true;
      return 0;
    }

    method RunPasses(records: seq<Ards>)
      requires Valid() && MEMORY_BITMAP_PADDR < |view| * PAGE_SIZE
      requires forall p :: 0 <= p < |view| ==> ReservedFrame(view[p])
      modifies this`view, bits, reservedBits, owners
      ensures Valid() && |view| == |old(view)|
      ensures forall p :: 0 <= p < |view| ==>
        (!view[p].used && !view[p].reserved <==> Allocatable(records, |view|, p))
      ensures |view| > 0 && Clean(view)
      ensures forall p :: 0 <= p < |view| && p * PAGE_SIZE < BOOT_RESERVED_END ==> view[p].reserved
      ensures forall p :: 0 <= p < |view| ==> view[p].owner in {Free, Reserved}
      ensures forall p ::
        0 <= p < |view| && Touches(MEMORY_BITMAP_PADDR, MEMORY_BITMAP_PADDR + MetadataBytes(|view|), p) ==>
          view[p].reserved
    {
      FreeUsable(records);
      ReserveOthers(records);
      ReserveRange(0, BOOT_RESERVED_END);
      ReserveRange(MEMORY_BITMAP_PADDR, MEMORY_BITMAP_PADDR + MetadataBytes(owners.Length));
    }

    /** First pass: open the pages that lie wholly inside a usable record. */
    method FreeUsable(records: seq<Ards>)
      requires Valid()
      requires forall p :: 0 <= p < |view| ==> ReservedFrame(view[p])
      modifies this`view, reservedBits, owners
      ensures Valid() && |view| == |old(view)|
      ensures forall p :: 0 <= p < |view| ==>
        if InUsable(records, p) then OpenFrame(view[p]) else ReservedFrame(view[p])
    {
      for i := 0 to |records|
        invariant Valid() && |view| == |old(view)|
        invariant forall p :: 0 <= p < |view| ==>
          if InUsable(records[..i], p) then OpenFrame(view[p]) else ReservedFrame(view[p])
      {
        var e := records[i];
        assert records[..i + 1] == records[..i] + [e];
        if e.Usable() {
          FreeRecord((e.base + 4095) / 4096, (e.base + e.length) / 4096);
          assert forall p :: 0 <= p < |view| ==>
            ((e.base + 4095) / 4096 <= p < (e.base + e.length) / 4096 <==> e.Contains(p));
        }
      }
      assert records[..|records|] == records;
    }

    method FreeRecord(first: nat, last: nat)
      requires Valid()
      requires forall p :: 0 <= p < |view| ==> OpenFrame(view[p]) || ReservedFrame(view[p])
      modifies this`view, reservedBits, owners
      ensures Valid() && |view| == |old(view)|
      ensures forall p :: 0 <= p < |view| ==>
        if first <= p < last then OpenFrame(view[p]) else view[p] == old(view)[p]
    {
      var page := first;
      while page < last
        invariant Valid() && |view| == |old(view)| && first <= page
        invariant forall p :: 0 <= p < |view| ==>
          if first <= p < page && p < last then OpenFrame(view[p]) else view[p] == old(view)[p]
      {
        if page < owners.Length {
          SetReserved(page, false);
          SetOwner(page, Free);
        }
        page := page + 1;
      }
    }

    /** Second pass: close again whatever another record touches. */
    method ReserveOthers(records: seq<Ards>)
      requires Valid()
      modifies this`view, bits, reservedBits, owners
      ensures Valid() && |view| == |old(view)|
      ensures forall p :: 0 <= p < |view| ==>
        view[p] == if TouchedByOther(records, p) then Closed(old(view)[p]) else old(view)[p]
    {
      for i := 0 to |records|
        invariant Valid() && |view| == |old(view)|
        invariant forall p :: 0 <= p < |view| ==>
          view[p] == if TouchedByOther(records[..i], p) then Closed(old(view)[p]) else old(view)[p]
      {
        var e := records[i];
        assert records[..i + 1] == records[..i] + [e];
        if e.kind != 1 && !e.Wraps() {
          ReserveRange(e.base, e.base + e.length);
        }
      }
      assert records[..|records|] == records;
    }

    /** reserve_physical_range: every page the byte range touches. */
    method ReserveRange(start: nat, end: nat)
      requires Valid()
      modifies this`view, bits, reservedBits, owners
      ensures Valid() && |view| == |old(view)|
      ensures forall p :: 0 <= p < |view| ==>
        view[p] == if Touches(start, end, p) then Closed(old(view)[p]) else old(view)[p]
    {
      var managed := owners.Length * PAGE_SIZE;
      if start >= end || start >= managed { return; }
      var stop := if end > managed then managed else end;
      var first, last := start / PAGE_SIZE, (stop + PAGE_SIZE - 1) / PAGE_SIZE;
      for page := first to last
        invariant Valid() && |view| == |old(view)|
        invariant forall p :: 0 <= p < |view| ==>
          view[p] == if first <= p < page then Closed(old(view)[p]) else old(view)[p]
      {
        SetUsed(page, true);
        SetOwner(page, Reserved);
        SetReserved(page, true);
      }
    }

    /** set_bit on the allocation bitmap. */
    method SetUsed(page: nat, value: bool)
      requires Valid() && page < |view|
      modifies this`view, bits
      ensures Valid() && view == old(view)[page := old(view)[page].(used := value)]
    {
      bits[page / 8] := Bits.Put(bits[page / 8], page % 8, value);
      view := view[page := view[page].(used := value)];
      forall j | 0 <= j < 8 { Bits.PutTest(old(bits[page / 8]), page % 8, value, j); }
    }

    method SetReserved(page: nat, value: bool)
      requires Valid() && page < |view|
      modifies this`view, reservedBits
      ensures Valid() && view == old(view)[page := old(view)[page].(reserved := value)]
    {
      reservedBits[page / 8] := Bits.Put(reservedBits[page / 8], page % 8, value);
      view := view[page := view[page].(reserved := value)];
      forall j | 0 <= j < 8 { Bits.PutTest(old(reservedBits[page / 8]), page % 8, value, j); }
    }

    method SetOwner(page: nat, owner: Owner)
      requires Valid() && page < |view|
      modifies this`view, owners
      ensures Valid() && view == old(view)[page := old(view)[page].(owner := owner)]
    {
      owners[page] := owner;
      view := view[page := view[page].(owner := owner)];
    }

    method SetRefs(page: nat, refs: Count)
      requires Valid() && page < |view|
      modifies this`view, refcounts
      ensures Valid() && view == old(view)[page := old(view)[page].(refs := refs)]
    {
      refcounts[page] := refs;
      view := view[page := view[page].(refs := refs)];
    }

    /** Any read through the direct map. */
    method Load(page: nat) returns (bytes: Page)
      requires Valid() && page < |view|
      ensures bytes == view[page].bytes
    {
      bytes := mem[page];
    }

    /** Any write through the direct map. */
    method Fill(page: nat, bytes: Page)
      requires Valid() && page < |view|
      modifies this`view, mem
      ensures Valid() && view == old(view)[page := old(view)[page].(bytes := bytes)]
    {
      mem[page] := bytes;
      view := view[page := view[page].(bytes := bytes)];
    }

    // ------------------------------------------------------------ allocation

    method TakeRun(start: nat, count: nat, owner: Owner)
      requires Valid() && start + count <= |view|
      modifies this`view, bits, owners, refcounts
      ensures Valid() && view == Taken(old(view), start, count, owner)
    {
      for j := 0 to count
        invariant Valid() && view == Taken(old(view), start, j, owner)
      {
        SetUsed(start + j, true);
        SetOwner(start + j, owner);
        SetRefs(start + j, 0);
      }
    }

    /** alloc_pages_owned_locked: the lowest run of `count` available pages, or -1.
        The caller turns the page number into an address. */
    method FindRun(count: nat) returns (start: int)
      requires Valid() && count > 0
      ensures start < 0 ==> forall s: nat :: !RunAt(view, threads, s, count)
      ensures start >= 0 ==> RunAt(view, threads, start, count)
      ensures start >= 0 ==> forall s: nat :: s < start ==> !RunAt(view, threads, s, count)
    {
      var run := 0;
      start := 0;
      for i := 0 to owners.Length
        invariant 0 <= run < count && run <= i && (run > 0 ==> start == i - run)
        invariant forall k :: i - run <= k < i ==> Available(view, threads, k)
        invariant i - run > 0 ==> !Available(view, threads, i - run - 1)
        invariant forall s: nat :: s + count <= i ==> !RunAt(view, threads, s, count)
      {
        if !Bits.Test(bits[i / 8], i % 8) && !Bits.Test(reservedBits[i / 8], i % 8) && i !in threads {
          if run == 0 { start := i; }
          run := run + 1;
          if run == count { return; }
        } else {
          run := 0;
        }
        forall s: nat | s + count == i + 1 ensures !RunAt(view, threads, s, count) {
          assert !Available(view, threads, i - run);
        }
      }
      start := -1;
    }

    /** alloc_pages_owned: address of the lowest fitting run, now owned by `owner`,
        or 0. It fails exactly when the request is refused, a failure was injected,
        or no run exists. */
    method AllocPages(count: nat, owner: Owner) returns (paddr: nat)
      requires Valid() && (|view| > 0 ==> view[0].reserved)
      modifies this`view, this`failAllocations, bits, owners, refcounts
      ensures Valid() && paddr % PAGE_SIZE == 0 && failAllocations <= old(failAllocations)
      ensures paddr == 0 ==> view == old(view)
      ensures paddr == 0 <==> !ready || count == 0 || owner in {Free, Reserved} || old(failAllocations) != 0 ||
                              forall s: nat :: !RunAt(old(view), threads, s, count)
      ensures paddr != 0 ==> RunAt(old(view), threads, paddr / PAGE_SIZE, count)
      ensures paddr != 0 ==> forall s: nat :: s < paddr / PAGE_SIZE ==> !RunAt(old(view), threads, s, count)
      ensures paddr != 0 ==> view == Taken(old(view), paddr / PAGE_SIZE, count, owner)
    {
      if !ready || count == 0 || owner == Free || owner == Reserved { return 0; }
      if failAllocations != 0 {
        failAllocations := failAllocations - 1;
        return 0;
      }
      var start := FindRun(count);
      if start < 0 { return 0; }
      assert Available(view, threads, start);
      TakeRun(start, count, owner);
      assert RunAt(old(view), threads, start, count);
      paddr := start * PAGE_SIZE;
    }

    // --------------------------------------------------------------- release

    method FreeRun(start: nat, count: nat)
      requires Valid() && start + count <= |view|
      modifies this`view, mem, bits, owners, refcounts
      ensures Valid() && view == Freed(old(view), start, count)
    {
      for j := 0 to count
        invariant Valid() && view == Freed(old(view), start, j)
      {
        Fill(start + j, ZeroPage());
        SetUsed(start + j, false);
        SetOwner(start + j, Free);
        SetRefs(start + j, 0);
      }
    }

    /** free_pages_owned: all pages of the range or none. */
    method FreePages(paddr: nat, count: nat, expected: Expected) returns (r: int)
      requires Valid()
      modifies this`view, mem, bits, owners, refcounts
      ensures Valid()
      ensures r == 0 || r == -1
      ensures r == 0 <==>
        && ready && paddr != 0 && count != 0 && paddr % PAGE_SIZE == 0
        && paddr / PAGE_SIZE + count <= |old(view)|
        && (forall i :: paddr / PAGE_SIZE <= i < paddr / PAGE_SIZE + count ==>
              Freeable(old(view), threads, i, expected))
      ensures view == if r == 0 then Freed(old(view), paddr / PAGE_SIZE, count) else old(view)
      ensures r == 0 ==> forall i, k :: paddr / PAGE_SIZE <= i < paddr / PAGE_SIZE + count && 0 <= k < PAGE_SIZE ==>
        !view[i].used && view[i].owner == Free && view[i].bytes[k] == 0
    {
      if !ready || paddr == 0 || count == 0 || paddr % PAGE_SIZE != 0 { return -1; }
      var start := paddr / PAGE_SIZE;
      if start >= owners.Length || count > owners.Length - start { return -1; }
      for i := 0 to count
        invariant forall k :: start <= k < start + i ==> Freeable(view, threads, k, expected)
      {
        var page := start + i;
        var free := page !in threads && Bits.Test(bits[page / 8], page % 8) &&
                    !Bits.Test(reservedBits[page / 8], page % 8) && refcounts[page] == 0 &&
                    (expected.Is? ==> owners[page] == expected.owner);
        if !free {
          assert !Freeable(view, threads, page, expected);
          return -1;
        }
      }
      FreeRun(start, count);
      return 0;
    }

    /** free_page_owned of a page that is known to be freeable. */
    method FreeFrame(page: nat, owner: Owner)
      requires Valid() && ready && 0 < page < |view| && Freeable(view, threads, page, Is(owner))
      modifies this`view, mem, bits, owners, refcounts
      ensures Valid() && view == Freed(old(view), page, 1)
    {
      hide Valid, Freeable, Freed;
      assert page * PAGE_SIZE / PAGE_SIZE == page && page * PAGE_SIZE % PAGE_SIZE == 0;
      assert forall i :: page <= i < page + 1 ==> Freeable(view, threads, i, Is(owner));
      var r := FreePages(page * PAGE_SIZE, 1, Is(owner));
      assert r == 0;
    }

    // ------------------------------------------------- user mapping refcounts

    /** pmm_page_refcount. */
    method Refcount(paddr: nat) returns (refs: nat)
      requires Valid()
      ensures refs == if ready && paddr % PAGE_SIZE == 0 && paddr / PAGE_SIZE < |view| && view[paddr / PAGE_SIZE].used
                      then view[paddr / PAGE_SIZE].refs else 0
    {
      if !ready || paddr % PAGE_SIZE != 0 { return 0; }
      var page := paddr / PAGE_SIZE;
      if page < owners.Length && Bits.Test(bits[page / 8], page % 8) { return refcounts[page]; }
      return 0;
    }

    /** pmm_acquire_user_mapping. */
    method Acquire(paddr: nat) returns (r: int)
      requires Valid()
      modifies this`view, refcounts
      ensures Valid()
      ensures r == 0 || r == -1
      ensures r == 0 <==>
        && ready && paddr != 0 && paddr % PAGE_SIZE == 0 && UserAt(old(view), paddr / PAGE_SIZE)
        && old(view)[paddr / PAGE_SIZE].refs != UINT32_MAX
      ensures view == if r == 0 then Acquired(old(view), paddr / PAGE_SIZE) else old(view)
    {
      if !ready || paddr == 0 || paddr % PAGE_SIZE != 0 { return -1; }
      var page := paddr / PAGE_SIZE;
      if page < owners.Length && Bits.Test(bits[page / 8], page % 8) && owners[page] == User &&
         refcounts[page] != UINT32_MAX {
        SetRefs(page, refcounts[page] + 1);
        return 0;
      }
      return -1;
    }

    /** pmm_release_user_mapping: the page is zeroed and freed with its last
        reference. */
    method Release(paddr: nat) returns (r: int)
      requires Valid()
      modifies this`view, mem, bits, owners, refcounts
      ensures Valid()
      ensures r == 0 || r == -1
      ensures r == 0 <==>
        && ready && paddr != 0 && paddr % PAGE_SIZE == 0 && UserAt(old(view), paddr / PAGE_SIZE)
        && old(view)[paddr / PAGE_SIZE].refs != 0
      ensures view == if r == 0 then Released(old(view), paddr / PAGE_SIZE) else old(view)
    {
      if !ready || paddr == 0 || paddr % PAGE_SIZE != 0 { return -1; }
      var page := paddr / PAGE_SIZE;
      if page < owners.Length && Bits.Test(bits[page / 8], page % 8) && owners[page] == User &&
         refcounts[page] != 0 {
        SetRefs(page, refcounts[page] - 1);
        if refcounts[page] == 0 {
          Fill(page, ZeroPage());
          SetUsed(page, false);
          SetOwner(page, Free);
        }
        return 0;
      }
      return -1;
    }
  }
}
