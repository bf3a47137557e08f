/** The kernel heap (kernel/kalloc.c): arenas of whole pages, each tiled by blocks that
    are split on allocation and merged on release. */
module Heap {
  import opened Layout
  import Pmm

  const ARENA_HEADER := 8 + 8 + 4 + 4 + 8 + 8 + 8 + 8   // struct HeapArena, field by field
  const BLOCK_HEADER := 8 + 8 + 1 + 7 + 8 + 8 + 8       // struct HeapBlock
  const ALIGNMENT := 8
  const PAGE_OFFSET := 0xFFFF_8000_0000_0000
  const SIZE_MAX := 0xFFFF_FFFF_FFFF_FFFF

  /** A block: physical address of its header, payload size, whether it is free. */
  datatype Block = Block(at: nat, size: nat, free: bool) {
    function End(): nat { at + BLOCK_HEADER + size }
    function Payload(): nat { PAGE_OFFSET + at + BLOCK_HEADER }
    predicate Well() { size >= ALIGNMENT && size % ALIGNMENT == 0 && at % ALIGNMENT == 0 }
  }

  datatype Arena = Arena(page: nat, pages: nat, live: nat, blocks: seq<Block>) {
    function Start(): nat { page * PAGE_SIZE + ARENA_HEADER }
    function Limit(): nat { (page + pages) * PAGE_SIZE }
    predicate Has(f: nat) { page <= f < page + pages }
  }

  // ------------------------------------------------------------- block lists

  ghost predicate Tiled(blocks: seq<Block>, lo: nat, hi: nat) {
    && |blocks| > 0 && blocks[0].at == lo && blocks[|blocks| - 1].End() == hi
    && forall i :: 0 <= i < |blocks| - 1 ==> blocks[i].End() == blocks[i + 1].at
  }

  ghost predicate Merged(blocks: seq<Block>) {
    forall i :: 0 <= i < |blocks| - 1 ==> !(blocks[i].free && blocks[i + 1].free)
  }

  ghost predicate AllWell(blocks: seq<Block>) {
    forall i :: 0 <= i < |blocks| ==> blocks[i].Well()
  }

  ghost predicate Sound(blocks: seq<Block>, lo: nat, hi: nat) {
    Tiled(blocks, lo, hi) && Merged(blocks) && AllWell(blocks)
  }

  /** The blocks handed out, as address and size. */
  ghost function Live(blocks: seq<Block>): set<Block> {
    set b | b in blocks && !b.free
  }

  lemma {:induction false} Ascending(blocks: seq<Block>, lo: nat, hi: nat, i: nat, j: nat)
    requires Tiled(blocks, lo, hi) && i < j < |blocks|
    ensures blocks[i].End() <= blocks[j].at
    decreases j
  {
    if i < j - 1 { Ascending(blocks, lo, hi, i, j - 1); }
  }

  lemma Bounds(blocks: seq<Block>, lo: nat, hi: nat, i: nat)
    requires Tiled(blocks, lo, hi) && i < |blocks|
    ensures lo <= blocks[i].at && blocks[i].End() <= hi
  {
    if i > 0 { Ascending(blocks, lo, hi, 0, i); }
    if i < |blocks| - 1 { Ascending(blocks, lo, hi, i, |blocks| - 1); }
  }

  /** Two blocks of one arena never overlap. */
  lemma Separate(blocks: seq<Block>, lo: nat, hi: nat, a: Block, b: Block)
    requires Tiled(blocks, lo, hi) && a in blocks && b in blocks && a != b
    ensures a.End() <= b.at || b.End() <= a.at
  {
    var i :| 0 <= i < |blocks| && blocks[i] == a;
    var j :| 0 <= j < |blocks| && blocks[j] == b;
    if i < j { Ascending(blocks, lo, hi, i, j); } else { Ascending(blocks, lo, hi, j, i); }
  }

  // --------------------------------------------------------- taking a block

  /** split_block followed by marking the block taken. */
  function Take(blocks: seq<Block>, i: nat, n: nat): seq<Block>
    requires i < |blocks|
  {
    var b := blocks[i];
    if b.size < n + BLOCK_HEADER + ALIGNMENT then blocks[i := b.(free := false)]
    else
      var rest := Block(b.at + BLOCK_HEADER + n, b.size - n - BLOCK_HEADER, true);
      blocks[..i] + [Block(b.at, n, false), rest] + blocks[i + 1..]
  }

  lemma TakeSound(blocks: seq<Block>, lo: nat, hi: nat, i: nat, n: nat)
    requires Sound(blocks, lo, hi) && i < |blocks| && blocks[i].free && n <= blocks[i].size
    requires n >= ALIGNMENT && n % ALIGNMENT == 0
    ensures Sound(Take(blocks, i, n), lo, hi)
    ensures n <= Take(blocks, i, n)[i].size < n + BLOCK_HEADER + ALIGNMENT
  {
    var ys := Take(blocks, i, n);
    if |ys| == |blocks| {
      TakenWhole(blocks, lo, hi, i);
    } else {
      forall j | 0 <= j < |ys| - 1 ensures ys[j].End() == ys[j + 1].at && !(ys[j].free && ys[j + 1].free) {
        if j < i {
          assert blocks[j].End() == blocks[j + 1].at;
        } else if j > i + 1 {
          assert ys[j] == blocks[j - 1] && ys[j + 1] == blocks[j];
          assert blocks[j - 1].End() == blocks[j - 1 + 1].at;
        } else if j == i + 1 {
          assert ys[j + 1] == blocks[i + 1];
        }
      }
      assert ys[|ys| - 1] == if i == |blocks| - 1 then ys[i + 1] else blocks[|blocks| - 1];
      forall j | 0 <= j < |ys| ensures ys[j].Well() {
        if j < i { assert ys[j] == blocks[j]; } else if j > i + 1 { assert ys[j] == blocks[j - 1]; }
      }
    }
  }

  lemma TakenWhole(blocks: seq<Block>, lo: nat, hi: nat, i: nat)
    requires Sound(blocks, lo, hi) && i < |blocks|
    ensures Sound(blocks[i := blocks[i].(free := false)], lo, hi)
  {
    var ys := blocks[i := blocks[i].(free := false)];
    forall j | 0 <= j < |ys| - 1 ensures ys[j].End() == ys[j + 1].at && !(ys[j].free && ys[j + 1].free) {
      assert blocks[j].End() == blocks[j + 1].at;
    }
  }

  lemma TakeLive(blocks: seq<Block>, i: nat, n: nat)
    requires i < |blocks| && blocks[i].free
    ensures |Take(blocks, i, n)| > i && Live(Take(blocks, i, n)) == Live(blocks) + {Take(blocks, i, n)[i]}
    ensures Take(blocks, i, n)[i].at == blocks[i].at && !Take(blocks, i, n)[i].free
  {
    var ys := Take(blocks, i, n);
    forall b | b in Live(blocks) ensures b in ys {
      var j :| 0 <= j < |blocks| && blocks[j] == b;
      if |ys| == |blocks| || j < i { assert ys[j] == b; } else { assert ys[j + 1] == b; }
    }
    forall b | b in Live(ys) && b != ys[i] ensures b in blocks {
      var j :| 0 <= j < |ys| && ys[j] == b;
      if |ys| == |blocks| || j < i { assert blocks[j] == b; } else { assert blocks[j - 1] == b; }
    }
  }

  // ------------------------------------------------------- releasing a block

  /** merge_with_next. */
  function Merge(blocks: seq<Block>, i: nat): seq<Block>
    requires i < |blocks|
  {
    if i + 1 == |blocks| || !blocks[i + 1].free || blocks[i].End() != blocks[i + 1].at then blocks
    else blocks[..i] + [blocks[i].(size := blocks[i].size + BLOCK_HEADER + blocks[i + 1].size)] + blocks[i + 2..]
  }

  /** The list part of kfree: free, merge forward, then into a free predecessor. */
  function Give(blocks: seq<Block>, i: nat): seq<Block>
    requires i < |blocks|
  {
    var freed := Merge(blocks[i := blocks[i].(free := true)], i);
    if i > 0 && freed[i - 1].free then Merge(freed, i - 1) else freed
  }

  /** Apart from the pair at i, nothing free is next to anything free. */
  ghost predicate MergedBut(blocks: seq<Block>, i: int) {
    forall j :: 0 <= j < |blocks| - 1 && j != i ==> !(blocks[j].free && blocks[j + 1].free)
  }

  lemma MergeTiled(blocks: seq<Block>, lo: nat, hi: nat, i: nat)
    requires Tiled(blocks, lo, hi) && AllWell(blocks) && i < |blocks|
    ensures Tiled(Merge(blocks, i), lo, hi) && AllWell(Merge(blocks, i)) && |Merge(blocks, i)| > i
    ensures Merge(blocks, i)[i].free == blocks[i].free && forall j :: 0 <= j < i ==> Merge(blocks, i)[j] == blocks[j]
  {
    hide AllWell;
    MergeWell(blocks, i);
    var ys := Merge(blocks, i);
    if ys != blocks {
      forall j | 0 <= j < |ys| - 1 ensures ys[j].End() == ys[j + 1].at {
        if j < i {
          assert blocks[j].End() == blocks[j + 1].at;
        } else {
          assert blocks[j + 1].End() == blocks[j + 1 + 1].at && ys[j + 1] == blocks[j + 2];
          if j > i { assert ys[j] == blocks[j + 1]; }
        }
      }
      assert ys[|ys| - 1] == if |ys| - 1 == i then ys[i] else blocks[|blocks| - 1];
    }
  }

  lemma MergeWell(blocks: seq<Block>, i: nat)
    requires AllWell(blocks) && i < |blocks|
    ensures AllWell(Merge(blocks, i))
  {
    var ys := Merge(blocks, i);
    if ys != blocks {
      assert blocks[i].Well() && blocks[i + 1].Well();
      forall j | 0 <= j < |ys| ensures ys[j].Well() {
        if j < i { assert ys[j] == blocks[j]; } else if j > i { assert ys[j] == blocks[j + 1]; }
      }
    }
  }

  /** Merging at i removes the pair at i; what follows the pair was not free. */
  lemma MergeMerged(blocks: seq<Block>, lo: nat, hi: nat, i: nat, k: int)
    requires Tiled(blocks, lo, hi) && i < |blocks| && blocks[i].free && k < i
    requires forall j :: 0 <= j < |blocks| - 1 && j != i && j != k ==> !(blocks[j].free && blocks[j + 1].free)
    ensures MergedBut(Merge(blocks, i), k)
  {
    var ys := Merge(blocks, i);
    if i + 1 < |blocks| { assert blocks[i].End() == blocks[i + 1].at; }
    forall j | 0 <= j < |ys| - 1 && j != k ensures !(ys[j].free && ys[j + 1].free) {
      if ys != blocks {
        if j < i {
          assert ys[j] == blocks[j] && ys[j + 1].free == blocks[j + 1].free;
        } else {
          assert ys[j + 1] == blocks[j + 2];
          if j > i { assert ys[j] == blocks[j + 1]; }
        }
      }
    }
  }

  /** Marking a block free may leave it beside free neighbours, and nothing else. */
  lemma Unmerged(blocks: seq<Block>, lo: nat, hi: nat, i: nat)
    requires Sound(blocks, lo, hi) && i < |blocks|
    ensures var b0 := blocks[i := blocks[i].(free := true)];
      && Tiled(b0, lo, hi) && AllWell(b0)
      && forall j :: 0 <= j < |b0| - 1 && j != i && j != i - 1 ==> !(b0[j].free && b0[j + 1].free)
  {
    var b0 := blocks[i := blocks[i].(free := true)];
    forall j | 0 <= j < |b0| - 1 ensures b0[j].End() == b0[j + 1].at { assert blocks[j].End() == blocks[j + 1].at; }
  }

  lemma MergedAt(blocks: seq<Block>, k: int)
    requires MergedBut(blocks, k) && (0 <= k < |blocks| - 1 ==> !(blocks[k].free && blocks[k + 1].free))
    ensures Merged(blocks)
  {
  }

  lemma GiveSound(blocks: seq<Block>, lo: nat, hi: nat, i: nat)
    requires Sound(blocks, lo, hi) && i < |blocks|
    ensures Sound(Give(blocks, i), lo, hi)
  {
    hide Merge, Tiled, AllWell, Merged, MergedBut;
    var b0 := blocks[i := blocks[i].(free := true)];
    Unmerged(blocks, lo, hi, i);
    var b1 := Merge(b0, i);
    MergeTiled(b0, lo, hi, i);
    MergeMerged(b0, lo, hi, i, i - 1);
    if i > 0 && b1[i - 1].free {
      var b2 := Merge(b1, i - 1);
      MergeTiled(b1, lo, hi, i - 1);
      PairsBut(b1, i - 1);
      MergeMerged(b1, lo, hi, i - 1, -1);
      MergedAt(b2, -1);
    } else {
      MergedAt(b1, i - 1);
    }
  }

  lemma PairsBut(blocks: seq<Block>, i: nat)
    requires MergedBut(blocks, i)
    ensures forall j :: 0 <= j < |blocks| - 1 && j != i && j != -1 ==> !(blocks[j].free && blocks[j + 1].free)
  {
  }

  lemma MergeLive(blocks: seq<Block>, i: nat)
    requires i < |blocks| && blocks[i].free
    ensures Live(Merge(blocks, i)) == Live(blocks)
  {
    var ys := Merge(blocks, i);
    if ys != blocks {
      forall b | b in Live(blocks) ensures b in ys {
        var j :| 0 <= j < |blocks| && blocks[j] == b;
        if j < i { assert ys[j] == b; } else { assert ys[j - 1] == b; }
      }
      forall b | b in Live(ys) ensures b in blocks {
        var j :| 0 <= j < |ys| && ys[j] == b;
        if j < i { assert blocks[j] == b; } else { assert blocks[j + 1] == b; }
      }
    }
  }

  lemma FreedLive(blocks: seq<Block>, lo: nat, hi: nat, i: nat)
    requires Tiled(blocks, lo, hi) && i < |blocks| && !blocks[i].free
    ensures Live(blocks[i := blocks[i].(free := true)]) == Live(blocks) - {blocks[i]}
  {
    hide Tiled;
    var b0 := blocks[i := blocks[i].(free := true)];
    forall b ensures b in Live(b0) <==> b in Live(blocks) && b != blocks[i] {
      if b in Live(b0) {
        var j :| 0 <= j < |b0| && b0[j] == b;
        assert blocks[j] == b;
        if j < i { Ascending(blocks, lo, hi, j, i); } else { Ascending(blocks, lo, hi, i, j); }
      }
      if b in Live(blocks) && b != blocks[i] {
        var j :| 0 <= j < |blocks| && blocks[j] == b;
        assert b0[j] == b;
      }
    }
  }

  lemma GiveLive(blocks: seq<Block>, lo: nat, hi: nat, i: nat)
    requires Sound(blocks, lo, hi) && i < |blocks| && !blocks[i].free
    ensures Live(Give(blocks, i)) == Live(blocks) - {blocks[i]}
  {
    hide Merge, Tiled, Merged, AllWell, Live;
    var b0 := blocks[i := blocks[i].(free := true)];
    FreedLive(blocks, lo, hi, i);
    Unmerged(blocks, lo, hi, i);
    MergeTiled(b0, lo, hi, i);
    MergeLive(b0, i);
    var b1 := Merge(b0, i);
    if i > 0 && b1[i - 1].free { MergeLive(b1, i - 1); }
  }

  // ----------------------------------------------------------------- counting

  ghost predicate ArenaOk(a: Arena) {
    && a.page > 0 && a.pages > 0 && Sound(a.blocks, a.Start(), a.Limit()) && a.live == |Live(a.blocks)|
  }

  /** With nothing live the arena is one free block. */
  lemma EmptyArena(a: Arena)
    requires ArenaOk(a) && a.live == 0
    ensures |a.blocks| == 1 && a.blocks[0].free && a.blocks[0].size == a.pages * PAGE_SIZE - ARENA_HEADER - BLOCK_HEADER
  {
    forall i | 0 <= i < |a.blocks| ensures a.blocks[i].free { FreeOrLive(a.blocks, i); }
    FirstPair(a.blocks);
  }

  lemma FreeOrLive(blocks: seq<Block>, i: nat)
    requires i < |blocks|
    ensures blocks[i].free || blocks[i] in Live(blocks)
  {
  }

  lemma FirstPair(blocks: seq<Block>)
    requires Merged(blocks)
    ensures |blocks| > 1 ==> !(blocks[0].free && blocks[1].free)
  {
    if |blocks| > 1 { assert !(blocks[0].free && blocks[0 + 1].free); }
  }

  // -------------------------------------------------------------- the arena list

  type Frames = seq<Pmm.Frame>

  ghost predicate HasPage(arenas: seq<Arena>, f: nat) {
    exists i :: 0 <= i < |arenas| && arenas[i].Has(f)
  }

  ghost predicate Disjoint(arenas: seq<Arena>) {
    forall i, j :: 0 <= i < j < |arenas| ==>
      arenas[i].page + arenas[i].pages <= arenas[j].page || arenas[j].page + arenas[j].pages <= arenas[i].page
  }

  /** The pages the allocator knows as heap pages are those of the arenas. */
  ghost predicate Owned(v: Frames, threads: set<nat>, arenas: seq<Arena>) {
    && (forall f: nat :: f < |v| && v[f].used && v[f].owner == Pmm.Heap ==> HasPage(arenas, f))
    && (forall i, f: nat :: 0 <= i < |arenas| && arenas[i].Has(f) ==> HeapPage(v, threads, f))
  }

  ghost predicate HeapPage(v: Frames, threads: set<nat>, f: nat) {
    f < |v| && Pmm.Freeable(v, threads, f, Pmm.Is(Pmm.Heap))
  }

  ghost function AllLive(arenas: seq<Arena>): set<Block> {
    set i, b | 0 <= i < |arenas| && b in arenas[i].blocks && !b.free :: b
  }

  /** Some free block is large enough. */
  ghost predicate Fits(arenas: seq<Arena>, n: nat) {
    exists i, j :: 0 <= i < |arenas| && 0 <= j < |arenas[i].blocks| && FitsAt(arenas, i, j, n)
  }

  predicate FitsAt(arenas: seq<Arena>, i: nat, j: nat, n: nat)
    requires i < |arenas| && j < |arenas[i].blocks|
  {
    arenas[i].blocks[j].free && arenas[i].blocks[j].size >= n
  }

  function Align(n: nat): nat { (n + ALIGNMENT - 1) / ALIGNMENT * ALIGNMENT }

  function PagesFor(n: nat): nat { (ARENA_HEADER + BLOCK_HEADER + n + PAGE_SIZE - 1) / PAGE_SIZE }

  ghost predicate ArenasOk(arenas: seq<Arena>) {
    forall i :: 0 <= i < |arenas| ==> ArenaOk(arenas[i])
  }

  /** No two blocks handed out overlap, headers included, in one arena or in two. */
  lemma LiveDisjoint(arenas: seq<Arena>, a: Block, b: Block)
    requires ArenasOk(arenas) && Disjoint(arenas) && a in AllLive(arenas) && b in AllLive(arenas) && a != b
    ensures a.End() <= b.at || b.End() <= a.at
  {
    var i :| 0 <= i < |arenas| && a in arenas[i].blocks;
    var j :| 0 <= j < |arenas| && b in arenas[j].blocks;
    InArena(arenas[i], a);
    InArena(arenas[j], b);
    if i == j { Separate(arenas[i].blocks, arenas[i].Start(), arenas[i].Limit(), a, b); }
  }

  lemma InArena(a: Arena, b: Block)
    requires ArenaOk(a) && b in a.blocks
    ensures a.page * PAGE_SIZE + ARENA_HEADER <= b.at && b.End() <= (a.page + a.pages) * PAGE_SIZE && b.Well()
  {
    var i :| 0 <= i < |a.blocks| && a.blocks[i] == b;
    Bounds(a.blocks, a.Start(), a.Limit(), i);
  }

  // --------------------------------------------------------- what the pointers give

  /** The physical bytes [p, p + n) and [q, q + m) do not meet. */
  predicate Clear(p: int, n: nat, q: int, m: nat) {
    p + n <= q || q + m <= p
  }

  /** The bytes a caller may use through the pointer of a block, as physical bytes. */
  function From(b: Block): int { b.Payload() - PAGE_OFFSET }

  /** The bytes behind a pointer handed out lie in pages of the heap, in none of its block and
      arena headers, and in no other block handed out. */
  lemma PointersApart(v: Frames, threads: set<nat>, arenas: seq<Arena>, b: Block)
    requires ArenasOk(arenas) && Disjoint(arenas) && Owned(v, threads, arenas) && b in AllLive(arenas)
    ensures forall x :: x in AllLive(arenas) && x != b ==> Clear(From(b), b.size, From(x), x.size)
    ensures forall i, x :: 0 <= i < |arenas| && x in arenas[i].blocks ==>
      Clear(From(b), b.size, x.at, BLOCK_HEADER)
    ensures forall i :: 0 <= i < |arenas| ==> Clear(From(b), b.size, arenas[i].page * PAGE_SIZE, ARENA_HEADER)
    ensures forall k: nat :: From(b) <= k < From(b) + b.size ==> HeapPage(v, threads, k / PAGE_SIZE)
  {
    hide ArenaOk;
    var i :| 0 <= i < |arenas| && b in arenas[i].blocks;
    InArena(arenas[i], b);
    forall x | x in AllLive(arenas) && x != b ensures Clear(From(b), b.size, From(x), x.size) {
      LiveDisjoint(arenas, b, x);
    }
    forall j, x | 0 <= j < |arenas| && x in arenas[j].blocks ensures Clear(From(b), b.size, x.at, BLOCK_HEADER) {
      BlocksApart(arenas, i, b, j, x);
    }
    forall j | 0 <= j < |arenas| ensures Clear(From(b), b.size, arenas[j].page * PAGE_SIZE, ARENA_HEADER) {
      HeadersApart(arenas, i, b, j);
    }
    forall k: nat | From(b) <= k < From(b) + b.size ensures HeapPage(v, threads, k / PAGE_SIZE) {
      assert arenas[i].Has(k / PAGE_SIZE);
    }
  }

  lemma BlocksApart(arenas: seq<Arena>, i: nat, b: Block, j: nat, x: Block)
    requires ArenasOk(arenas) && Disjoint(arenas) && i < |arenas| && j < |arenas|
    requires b in arenas[i].blocks && x in arenas[j].blocks
    ensures Clear(From(b), b.size, x.at, BLOCK_HEADER)
  {
    InArena(arenas[i], b);
    InArena(arenas[j], x);
    if i == j && b != x { Separate(arenas[i].blocks, arenas[i].Start(), arenas[i].Limit(), b, x); }
  }

  lemma HeadersApart(arenas: seq<Arena>, i: nat, b: Block, j: nat)
    requires ArenasOk(arenas) && Disjoint(arenas) && i < |arenas| && j < |arenas| && b in arenas[i].blocks
    ensures Clear(From(b), b.size, arenas[j].page * PAGE_SIZE, ARENA_HEADER)
  {
    InArena(arenas[i], b);
  }

  /** The pages of a new arena are as few as hold its headers and the block. */
  lemma PagesLeast(n: nat, k: nat)
    ensures PagesFor(n) <= k <==> ARENA_HEADER + BLOCK_HEADER + n <= k * PAGE_SIZE
  {
  }

  /** Only one block of the heap has a given payload address. */
  lemma OnePayload(arenas: seq<Arena>, i: nat, a: Block, j: nat, b: Block)
    requires ArenasOk(arenas) && Disjoint(arenas) && i < |arenas| && j < |arenas|
    requires a in arenas[i].blocks && b in arenas[j].blocks && a.at == b.at
    ensures i == j && a == b
  {
    InArena(arenas[i], a);
    InArena(arenas[j], b);
    if i == j && a != b { Separate(arenas[i].blocks, arenas[i].Start(), arenas[i].Limit(), a, b); }
  }

  class KernelHeap {
    const pmm: Pmm.PageMap
    var arenas: seq<Arena>      // newest first

    ghost predicate Valid()
      reads this, pmm, pmm.bits, pmm.reservedBits, pmm.owners, pmm.refcounts, pmm.mem
    {
      && pmm.Valid() && pmm.ready && (|pmm.view| > 0 ==> pmm.view[0].reserved)
      && ArenasOk(arenas) && Disjoint(arenas) && Owned(pmm.view, pmm.threads, arenas)
      && (forall i :: 0 <= i < |arenas| ==> arenas[i].live > 0)
    }

    /** kmalloc_init. */
    constructor (pmm: Pmm.PageMap)
      requires pmm.Valid() && pmm.ready && (|pmm.view| > 0 ==> pmm.view[0].reserved)
      requires forall f :: 0 <= f < |pmm.view| ==> !(pmm.view[f].used && pmm.view[f].owner == Pmm.Heap)
      ensures Valid() && this.pmm == pmm && arenas == []
    {
      this.pmm := pmm;
      arenas := [];
    }

    /** The first free block that is large enough, in list order. */
    method FindFit(n: nat) returns (ok: bool, i: nat, j: nat)
      ensures ok <==> Fits(arenas, n)
      ensures ok ==> i < |arenas| && j < |arenas[i].blocks| && FitsAt(arenas, i, j, n)
      ensures ok ==> NoneBefore(arenas, i, j, n)
    {
      i, j := 0, 0;
      while i < |arenas|
        invariant i <= |arenas|
        invariant forall x, y :: 0 <= x < i && 0 <= y < |arenas[x].blocks| ==> !FitsAt(arenas, x, y, n)
      {
        j := 0;
        while j < |arenas[i].blocks|
          invariant j <= |arenas[i].blocks|
          invariant forall y :: 0 <= y < j ==> !FitsAt(arenas, i, y, n)
        {
          if FitsAt(arenas, i, j, n) { return true, i, j; }
          j := j + 1;
        }
        i := i + 1;
      }
      return false, 0, 0;
    }

    /** create_arena: whole pages for a block of n bytes, at the head of the list. */
    method CreateArena(n: nat) returns (ok: bool)
      requires pmm.Valid() && pmm.ready && (|pmm.view| > 0 ==> pmm.view[0].reserved)
      requires ArenasOk(arenas) && Disjoint(arenas) && Owned(pmm.view, pmm.threads, arenas) && n >= ALIGNMENT
      modifies this`arenas, pmm`view, pmm`failAllocations, pmm.bits, pmm.owners, pmm.refcounts
      ensures pmm.Valid() && pmm.ready && (|pmm.view| > 0 ==> pmm.view[0].reserved)
      ensures ArenasOk(arenas) && Disjoint(arenas) && Owned(pmm.view, pmm.threads, arenas)
      ensures ok <==> CanCreate(old(pmm.view), pmm.threads, old(pmm.failAllocations), n)
      ensures !ok ==> arenas == old(arenas) && pmm.view == old(pmm.view)
      ensures ok ==> |arenas| == |old(arenas)| + 1 && arenas[1..] == old(arenas)
      ensures ok ==> arenas[0].live == 0 && |arenas[0].blocks| == 1
      ensures ok ==> FitsAt(arenas, 0, 0, n) && arenas[0].pages == PagesFor(Align(n))
      ensures ok ==> pmm.view == Pmm.Taken(old(pmm.view), arenas[0].page, arenas[0].pages, Pmm.Heap)
    {
      hide Pmm.PageMap.Valid, Pmm.Taken, Pmm.RunAt, Owned, Disjoint, ArenaOk;
      AlignFacts(n);
      if n > SIZE_MAX - (ALIGNMENT - 1) { return false; }
      var size := Align(n);
      if size > SIZE_MAX - (ARENA_HEADER + BLOCK_HEADER) { return false; }
      var total := ARENA_HEADER + BLOCK_HEADER + size;
      if total > SIZE_MAX - (PAGE_SIZE - 1) { return false; }
      var count := (total + PAGE_SIZE - 1) / PAGE_SIZE;
      if count == 0 || count > 0xFFFF_FFFF { return false; }
      ghost var v := pmm.view;
      var paddr := pmm.AllocPages(count, Pmm.Heap);
      if paddr == 0 { return false; }
      var block := Block(paddr + ARENA_HEADER, count * PAGE_SIZE - ARENA_HEADER - BLOCK_HEADER, true);
      var a := Arena(paddr / PAGE_SIZE, count, 0, [block]);
      NewArena(v, pmm.threads, arenas, a);
      TakenReserved(v, a.page, a.pages);
      arenas := [a] + arenas;
      return true;
    }

    /** The found block is split and handed out. */
    method UseBlock(i: nat, j: nat, n: nat) returns (ptr: nat, ghost b: Block)
      requires i < |arenas| && j < |arenas[i].blocks| && FitsAt(arenas, i, j, n) && n >= ALIGNMENT && n % ALIGNMENT == 0
      requires ArenasOk(arenas) && Disjoint(arenas) && Owned(pmm.view, pmm.threads, arenas)
      modifies this`arenas
      ensures ArenasOk(arenas) && Disjoint(arenas) && Owned(pmm.view, pmm.threads, arenas)
      ensures |arenas| == |old(arenas)| && forall x :: 0 <= x < |arenas| ==>
        arenas[x].live == old(arenas)[x].live + if x == i then 1 else 0
      ensures forall x :: 0 <= x < |arenas| ==>
        arenas[x].page == old(arenas)[x].page && arenas[x].pages == old(arenas)[x].pages
      ensures Handed(AllLive(old(arenas)), AllLive(arenas), b, n) && ptr == b.Payload()
      ensures b.at == old(arenas)[i].blocks[j].at
    {
      hide ArenaOk, Disjoint, Owned, Handed;
      var a := arenas[i];
      var blocks := Take(a.blocks, j, n);
      UsedBlock(arenas, i, j, n);
      SameRuns(pmm.view, pmm.threads, arenas, i, Arena(a.page, a.pages, a.live + 1, blocks));
      arenas := arenas[i := Arena(a.page, a.pages, a.live + 1, blocks)];
      b := blocks[j];
      ptr := PAGE_OFFSET + a.blocks[j].at + BLOCK_HEADER;
    }

    /** kmalloc. The outer loop runs at most twice: a new arena always fits. */
    method Kmalloc(size: nat) returns (ptr: nat, ghost b: Block)
      requires Valid() && size <= SIZE_MAX
      modifies this`arenas, pmm`view, pmm`failAllocations, pmm.bits, pmm.owners, pmm.refcounts
      ensures Valid()
      ensures ptr == 0 <==> Refused(size, old(arenas), old(pmm.view), pmm.threads, old(pmm.failAllocations))
      ensures ptr == 0 ==> arenas == old(arenas) && pmm.view == old(pmm.view)
      ensures ptr != 0 ==>
        ptr == b.Payload() && ptr % ALIGNMENT == 0 && Handed(AllLive(old(arenas)), AllLive(arenas), b, size)
      ensures ptr != 0 ==>
        && b.at + BLOCK_HEADER <= ptr - PAGE_OFFSET && ptr - PAGE_OFFSET + size <= b.at + BLOCK_HEADER + b.size
      ensures ptr != 0 ==> |arenas| == |old(arenas)| + if Fits(old(arenas), Align(size)) then 0 else 1
      ensures ptr != 0 && Fits(old(arenas), Align(size)) ==>
        pmm.view == old(pmm.view) && FirstFit(old(arenas), Align(size), b.at)
      ensures ptr != 0 && !Fits(old(arenas), Align(size)) ==>
                arenas[0].pages == PagesFor(Align(size)) &&
                pmm.view == Pmm.Taken(old(pmm.view), arenas[0].page, arenas[0].pages, Pmm.Heap)
    {
      hide Pmm.PageMap.Valid, Pmm.Taken, Owned, Disjoint, ArenaOk, Fits, CanCreate, Handed, NoneBefore;
      b := Block(0, 0, true);
      AlignFacts(size);
      AlignTwice(size);
      if size == 0 || size > SIZE_MAX - (ALIGNMENT - 1) { return 0, b; }
      var n := Align(size);
      var created := false;
      while true
        invariant pmm.Valid() && pmm.ready && (|pmm.view| > 0 ==> pmm.view[0].reserved)
        invariant ArenasOk(arenas) && Disjoint(arenas) && Owned(pmm.view, pmm.threads, arenas)
        invariant !created ==>
          arenas == old(arenas) && pmm.view == old(pmm.view) && pmm.failAllocations == old(pmm.failAllocations)
        invariant created ==> |arenas| == |old(arenas)| + 1 && arenas[1..] == old(arenas) && |arenas[0].blocks| == 1
        invariant created ==> arenas[0].live == 0 && FitsAt(arenas, 0, 0, n) && !Fits(old(arenas), n)
        invariant created ==> CanCreate(old(pmm.view), pmm.threads, old(pmm.failAllocations), n)
        invariant created ==>
                    arenas[0].pages == PagesFor(n) &&
                    pmm.view == Pmm.Taken(old(pmm.view), arenas[0].page, arenas[0].pages, Pmm.Heap)
        decreases if created then 0 else 1
      {
        var ok, i, j := FindFit(n);
        if created { Fresh(arenas, n); }
        if ok {
          if created { OnlyFresh(old(arenas), arenas, n, i, j); }
          else { assert FirstFit(arenas, n, arenas[i].blocks[j].at); }
          ptr, b := UseBlock(i, j, n);
          HandedOut(AllLive(old(arenas)), AllLive(arenas), b, n, size, arenas);
          return;
        }
        ok := CreateArena(n);
        if !ok { return 0, b; }
        NewNothing(old(arenas), arenas);
        created := true;
      }
    }

    /** find_block: where the payload starts, if it does anywhere. */
    method FindBlock(ptr: nat) returns (ok: bool, i: nat, j: nat)
      ensures ok ==> i < |arenas| && j < |arenas[i].blocks| && arenas[i].blocks[j].Payload() == ptr
      ensures !ok ==> forall x, b :: 0 <= x < |arenas| && b in arenas[x].blocks ==> b.Payload() != ptr
    {
      i, j := 0, 0;
      while i < |arenas|
        invariant i <= |arenas|
        invariant forall x, b :: 0 <= x < i && b in arenas[x].blocks ==> b.Payload() != ptr
      {
        j := 0;
        while j < |arenas[i].blocks|
          invariant j <= |arenas[i].blocks|
          invariant forall y :: 0 <= y < j ==> arenas[i].blocks[y].Payload() != ptr
        {
          if arenas[i].blocks[j].Payload() == ptr { return true, i, j; }
          j := j + 1;
        }
        i := i + 1;
      }
      return false, 0, 0;
    }

    /** kfree. A pointer is accepted exactly when it starts a payload handed out and not
        yet returned; the last block of an arena takes its pages along. */
    method Kfree(ptr: nat) returns (r: int, ghost b: Block)
      requires Valid()
      modifies this`arenas, pmm`view, pmm.mem, pmm.bits, pmm.owners, pmm.refcounts
      ensures Valid()
      ensures r == 0 || r == -1
      ensures r == 0 <==> ptr == 0 || exists x :: x in AllLive(old(arenas)) && x.Payload() == ptr
      ensures r == -1 || ptr == 0 ==> arenas == old(arenas) && pmm.view == old(pmm.view)
      ensures r == 0 && ptr != 0 ==>
        b in AllLive(old(arenas)) && b.Payload() == ptr && AllLive(arenas) == AllLive(old(arenas)) - {b}
      ensures r == 0 && ptr != 0 ==> PagesReturned(old(pmm.view), pmm.view, old(arenas), b)
      ensures |pmm.view| == |old(pmm.view)|
    {
      hide Pmm.PageMap.Valid, Owned, Disjoint, ArenaOk, Pmm.Freeable, Pmm.Freed, AllLive, Give;
      b := Block(0, 0, true);
      if ptr == 0 { return 0, b; }
      var ok, i, j := FindBlock(ptr);
      if !ok {
        NotLive(arenas, ptr);
        return -1, b;
      }
      LiveHere(arenas, i, j);
      if arenas[i].blocks[j].free { return -1, b; }
      b := arenas[i].blocks[j];
      var a := arenas[i];
      GiveBack(arenas, i, j);
      assert a.live > 0;    // so the exit for a count of zero is never taken
      a := Arena(a.page, a.pages, a.live - 1, Give(a.blocks, j));
      SameRuns(pmm.view, pmm.threads, arenas, i, a);
      arenas := arenas[i := a];
      if a.live == 0 { ReclaimArena(i); }
      assert ArenaPages(old(pmm.view), pmm.view, old(arenas)[i]);
      r := 0;
    }

    /** reclaim_empty_arena; giving the pages back cannot fail. */
    method ReclaimArena(i: nat)
      requires pmm.Valid() && pmm.ready && (|pmm.view| > 0 ==> pmm.view[0].reserved)
      requires ArenasOk(arenas) && Disjoint(arenas) && Owned(pmm.view, pmm.threads, arenas)
      requires i < |arenas| && arenas[i].live == 0
      modifies this`arenas, pmm`view, pmm.mem, pmm.bits, pmm.owners, pmm.refcounts
      ensures pmm.Valid() && pmm.ready && (|pmm.view| > 0 ==> pmm.view[0].reserved)
      ensures arenas == old(arenas)[..i] + old(arenas)[i + 1..]
      ensures ArenasOk(arenas) && Disjoint(arenas) && Owned(pmm.view, pmm.threads, arenas)
      ensures AllLive(arenas) == AllLive(old(arenas))
      ensures pmm.view == Pmm.Freed(old(pmm.view), old(arenas)[i].page, old(arenas)[i].pages)
      ensures |pmm.view| == |old(pmm.view)|
    {
      hide Pmm.PageMap.Valid, Owned, Disjoint, ArenaOk, Pmm.Freeable, Pmm.Freed, AllLive;
      var a := arenas[i];
      Reclaimable(pmm.view, pmm.threads, arenas, i);
      arenas := arenas[..i] + arenas[i + 1..];
      var r := pmm.FreePages(a.page * PAGE_SIZE, a.pages, Pmm.Is(Pmm.Heap));
      assert r == 0;        // so the arena is never linked again
    }
  }

  /** Whether pages for a new arena can be had. */
  ghost predicate CanCreate(v: Frames, threads: set<nat>, failures: nat, n: nat) {
    && Align(n) + ARENA_HEADER + BLOCK_HEADER + PAGE_SIZE - 1 <= SIZE_MAX && PagesFor(Align(n)) <= 0xFFFF_FFFF
    && failures == 0 && exists s: nat :: Pmm.RunAt(v, threads, s, PagesFor(Align(n)))
  }

  /** Exactly when kmalloc returns NULL. */
  ghost predicate Refused(size: nat, arenas: seq<Arena>, v: Frames, threads: set<nat>, failures: nat) {
    || size == 0 || size > SIZE_MAX - (ALIGNMENT - 1)
    || (!Fits(arenas, Align(size)) && !CanCreate(v, threads, failures, Align(size)))
  }

  lemma AlignFacts(n: nat)
    ensures n <= Align(n) < n + ALIGNMENT && Align(n) % ALIGNMENT == 0
  {
  }

  lemma AlignTwice(n: nat)
    ensures Align(Align(n)) == Align(n)
  {
  }

  lemma NewArena(v: Frames, threads: set<nat>, arenas: seq<Arena>, a: Arena)
    requires ArenasOk(arenas) && Disjoint(arenas) && Owned(v, threads, arenas) && Pmm.RunAt(v, threads, a.page, a.pages)
    requires a.page > 0 && a.pages > 0 && a.live == 0
    requires a.blocks == [Block(a.Start(), a.pages * PAGE_SIZE - ARENA_HEADER - BLOCK_HEADER, true)]
    ensures ArenasOk([a] + arenas) && Disjoint([a] + arenas)
    ensures Owned(Pmm.Taken(v, a.page, a.pages, Pmm.Heap), threads, [a] + arenas)
  {
    hide Owned, ArenaOk, Pmm.RunAt, Pmm.Taken;
    var all := [a] + arenas;
    OneFreeBlock(a);
    forall j | 0 <= j < |arenas| ensures arenas[j].pages > 0 { SomePages(arenas, j); }
    forall j | 0 <= j < |arenas|
      ensures a.page + a.pages <= arenas[j].page || arenas[j].page + arenas[j].pages <= a.page
    {
      Apart(v, threads, arenas, a, j);
    }
    forall i, j | 0 <= i < j < |all|
      ensures all[i].page + all[i].pages <= all[j].page || all[j].page + all[j].pages <= all[i].page
    {
      assert all[j] == arenas[j - 1];
      if i > 0 { assert all[i] == arenas[i - 1]; }
    }
    OwnedMore(v, threads, arenas, a);
  }

  lemma OneFreeBlock(a: Arena)
    requires a.page > 0 && a.pages > 0 && a.live == 0
    requires a.blocks == [Block(a.Start(), a.pages * PAGE_SIZE - ARENA_HEADER - BLOCK_HEADER, true)]
    ensures ArenaOk(a)
  {
    assert Live(a.blocks) == {};
  }

  lemma SomePages(arenas: seq<Arena>, j: nat)
    requires ArenasOk(arenas) && j < |arenas|
    ensures arenas[j].pages > 0 && ArenaOk(arenas[j])
  {
  }

  lemma Apart(v: Frames, threads: set<nat>, arenas: seq<Arena>, a: Arena, j: nat)
    requires Owned(v, threads, arenas) && Pmm.RunAt(v, threads, a.page, a.pages) && j < |arenas|
    requires a.pages > 0 && arenas[j].pages > 0
    ensures a.page + a.pages <= arenas[j].page || arenas[j].page + arenas[j].pages <= a.page
  {
    var f := if a.page < arenas[j].page then arenas[j].page else a.page;
    assert a.Has(f) ==> Pmm.Available(v, threads, f);
    assert arenas[j].Has(f) ==> HeapPage(v, threads, f);
  }

  lemma OwnedMore(v: Frames, threads: set<nat>, arenas: seq<Arena>, a: Arena)
    requires Owned(v, threads, arenas) && Pmm.RunAt(v, threads, a.page, a.pages)
    ensures Owned(Pmm.Taken(v, a.page, a.pages, Pmm.Heap), threads, [a] + arenas)
  {
    var w, all := Pmm.Taken(v, a.page, a.pages, Pmm.Heap), [a] + arenas;
    forall f: nat | f < |w| && w[f].used && w[f].owner == Pmm.Heap ensures HasPage(all, f) {
      if a.Has(f) {
        assert all[0].Has(f);
      } else {
        var i :| 0 <= i < |arenas| && arenas[i].Has(f);
        assert all[i + 1].Has(f);
      }
    }
    forall i, f: nat | 0 <= i < |all| && all[i].Has(f) ensures HeapPage(w, threads, f) {
      if i == 0 {
        assert Pmm.Available(v, threads, f);
      } else {
        assert arenas[i - 1].Has(f) && HeapPage(v, threads, f);
      }
    }
  }

  lemma TakenReserved(v: Frames, s: nat, n: nat)
    ensures |Pmm.Taken(v, s, n, Pmm.Heap)| == |v|
    ensures forall f :: 0 <= f < |v| ==> Pmm.Taken(v, s, n, Pmm.Heap)[f].reserved == v[f].reserved
  {
  }

  // -------------------------------------------------------------- facts used above

  /** b is new among the blocks handed out; it has at least n bytes, and not so many more
      that a block could have been split off. */
  ghost predicate Handed(before: set<Block>, after: set<Block>, b: Block, n: nat) {
    b !in before && after == before + {b} && n <= b.size < Align(n) + BLOCK_HEADER + ALIGNMENT && !b.free
  }

  /** The first free block in list order that fits starts at `at`. */
  ghost predicate FirstFit(arenas: seq<Arena>, n: nat, at: nat) {
    exists i: nat, j: nat :: i < |arenas| && j < |arenas[i].blocks| && FitsAt(arenas, i, j, n) &&
      NoneBefore(arenas, i, j, n) && arenas[i].blocks[j].at == at
  }

  ghost predicate NoneBefore(arenas: seq<Arena>, i: nat, j: nat, n: nat) {
    forall x, y :: 0 <= x < |arenas| && 0 <= y < |arenas[x].blocks| && (x < i || (x == i && y < j)) ==>
      !FitsAt(arenas, x, y, n)
  }

  /** What a return of b did to the pages: those of its arena went if it was the last block. */
  ghost predicate PagesReturned(v: Frames, w: Frames, arenas: seq<Arena>, b: Block) {
    exists i :: 0 <= i < |arenas| && b in arenas[i].blocks && ArenaPages(v, w, arenas[i])
  }

  ghost predicate ArenaPages(v: Frames, w: Frames, a: Arena) {
    w == if a.live == 1 then Pmm.Freed(v, a.page, a.pages) else v
  }

  lemma UsedBlock(arenas: seq<Arena>, i: nat, j: nat, n: nat)
    requires ArenasOk(arenas) && i < |arenas| && j < |arenas[i].blocks| && FitsAt(arenas, i, j, n)
    requires n >= ALIGNMENT && n % ALIGNMENT == 0
    ensures var a := arenas[i]; var blocks := Take(a.blocks, j, n);
      && ArenaOk(Arena(a.page, a.pages, a.live + 1, blocks)) && j < |blocks| && blocks[j].at == a.blocks[j].at
      && (Disjoint(arenas) ==>
            Handed(AllLive(arenas), AllLive(arenas[i := Arena(a.page, a.pages, a.live + 1, blocks)]), blocks[j], n))
  {
    hide Take, Tiled, Merged, AllWell, AllLive, Disjoint, Live;
    var a := arenas[i];
    var blocks := Take(a.blocks, j, n);
    assert ArenaOk(a);
    TakeSound(a.blocks, a.Start(), a.Limit(), j, n);
    TakeLive(a.blocks, j, n);
    NotYetLive(a.blocks, a.Start(), a.Limit(), j, blocks[j]);
    if Disjoint(arenas) {
      SameStart(arenas, i, j, blocks[j]);
      LiveOne(arenas, i, Arena(a.page, a.pages, a.live + 1, blocks), blocks[j]);
    }
  }

  lemma NotYetLive(blocks: seq<Block>, lo: nat, hi: nat, j: nat, b: Block)
    requires Tiled(blocks, lo, hi) && j < |blocks| && blocks[j].free && b.at == blocks[j].at && !b.free
    ensures b !in Live(blocks)
  {
    if b in blocks { SameAt(blocks, lo, hi, j, b); }
  }

  lemma SameAt(blocks: seq<Block>, lo: nat, hi: nat, j: nat, b: Block)
    requires Tiled(blocks, lo, hi) && j < |blocks| && b in blocks && b.at == blocks[j].at
    ensures b == blocks[j]
  {
    if b != blocks[j] { Separate(blocks, lo, hi, b, blocks[j]); }
  }

  lemma SameStart(arenas: seq<Arena>, i: nat, j: nat, b: Block)
    requires ArenasOk(arenas) && Disjoint(arenas) && i < |arenas| && j < |arenas[i].blocks|
    requires b.at == arenas[i].blocks[j].at
    ensures b in AllLive(arenas) ==> b == arenas[i].blocks[j]
  {
    hide ArenaOk, Disjoint;
    if x :| 0 <= x < |arenas| && b in arenas[x].blocks {
      OnePayload(arenas, x, b, i, arenas[i].blocks[j]);
    }
  }

  lemma LiveOne(arenas: seq<Arena>, i: nat, a: Arena, b: Block)
    requires i < |arenas| && Live(a.blocks) == Live(arenas[i].blocks) + {b}
    ensures AllLive(arenas[i := a]) == AllLive(arenas) + {b}
  {
    var all := arenas[i := a];
    forall x ensures x in AllLive(all) <==> x in AllLive(arenas) + {b} {
      InAll(all, x);
      InAll(arenas, x);
      if x in AllLive(all) {
        var k :| 0 <= k < |all| && x in Live(all[k].blocks);
        if k != i { assert x in Live(arenas[k].blocks); }
      }
      if x in AllLive(arenas) {
        var k :| 0 <= k < |arenas| && x in Live(arenas[k].blocks);
        assert x in Live(all[k].blocks);
      }
      if x == b { assert x in Live(all[i].blocks); }
    }
  }

  lemma InAll(arenas: seq<Arena>, x: Block)
    ensures x in AllLive(arenas) <==> exists k :: 0 <= k < |arenas| && x in Live(arenas[k].blocks)
  {
    if x in AllLive(arenas) {
      var k :| 0 <= k < |arenas| && x in arenas[k].blocks && !x.free;
      assert x in Live(arenas[k].blocks);
    }
  }

  lemma SameRuns(v: Frames, threads: set<nat>, arenas: seq<Arena>, i: nat, a: Arena)
    requires ArenasOk(arenas) && Disjoint(arenas) && Owned(v, threads, arenas) && i < |arenas| && ArenaOk(a)
    requires a.page == arenas[i].page && a.pages == arenas[i].pages
    ensures ArenasOk(arenas[i := a]) && Disjoint(arenas[i := a]) && Owned(v, threads, arenas[i := a])
  {
    var all := arenas[i := a];
    forall f: nat | HasPage(arenas, f) ensures HasPage(all, f) {
      var k :| 0 <= k < |arenas| && arenas[k].Has(f);
      assert all[k].Has(f);
    }
    forall k, f: nat | 0 <= k < |all| && all[k].Has(f) ensures HeapPage(v, threads, f) { assert arenas[k].Has(f); }
  }

  lemma Fresh(arenas: seq<Arena>, n: nat)
    requires |arenas| > 0 && |arenas[0].blocks| == 1 && FitsAt(arenas, 0, 0, n)
    ensures Fits(arenas, n)
  {
  }

  lemma OnlyFresh(before: seq<Arena>, arenas: seq<Arena>, n: nat, i: nat, j: nat)
    requires |arenas| == |before| + 1 && arenas[1..] == before && !Fits(before, n) && |arenas[0].blocks| == 1
    requires i < |arenas| && j < |arenas[i].blocks| && FitsAt(arenas, i, j, n) && arenas[0].live == 0
    requires ArenaOk(arenas[0])
    ensures i == 0 && AllLive(arenas) == AllLive(before)
  {
    if i > 0 { FitsOlder(before, arenas, n, i, j); }
    NewNothing(before, arenas);
  }

  lemma FitsOlder(before: seq<Arena>, arenas: seq<Arena>, n: nat, i: nat, j: nat)
    requires |arenas| == |before| + 1 && arenas[1..] == before
    requires 0 < i < |arenas| && j < |arenas[i].blocks| && FitsAt(arenas, i, j, n)
    ensures Fits(before, n)
  {
    assert arenas[i] == before[i - 1];
    assert FitsAt(before, i - 1, j, n);
  }

  lemma NewNothing(before: seq<Arena>, arenas: seq<Arena>)
    requires |arenas| == |before| + 1 && arenas[1..] == before && arenas[0].live == 0 && ArenaOk(arenas[0])
    ensures AllLive(arenas) == AllLive(before)
  {
    forall x ensures x in AllLive(arenas) <==> x in AllLive(before) {
      InAll(arenas, x);
      InAll(before, x);
      if x in AllLive(arenas) {
        var k :| 0 <= k < |arenas| && x in Live(arenas[k].blocks);
        assert k > 0 && x in Live(before[k - 1].blocks);
      }
      if x in AllLive(before) {
        var k :| 0 <= k < |before| && x in Live(before[k].blocks);
        assert x in Live(arenas[k + 1].blocks);
      }
    }
  }

  lemma HandedOut(before: set<Block>, after: set<Block>, b: Block, n: nat, size: nat, arenas: seq<Arena>)
    requires Handed(before, after, b, n) && size <= n == Align(size) && Align(n) == n && ArenasOk(arenas)
    requires after == AllLive(arenas)
    ensures Handed(before, after, b, size) && b.Payload() % ALIGNMENT == 0 && b.Payload() != 0 && size <= b.size
  {
    hide Align, ArenaOk;
    assert b in AllLive(arenas);
    var k :| 0 <= k < |arenas| && b in arenas[k].blocks;
    InArena(arenas[k], b);
  }

  lemma NotLive(arenas: seq<Arena>, ptr: nat)
    requires forall x, b :: 0 <= x < |arenas| && b in arenas[x].blocks ==> b.Payload() != ptr
    ensures forall b :: b in AllLive(arenas) ==> b.Payload() != ptr
  {
  }

  /** The block found decides whether its address starts a live payload. */
  lemma LiveHere(arenas: seq<Arena>, i: nat, j: nat)
    requires ArenasOk(arenas) && Disjoint(arenas) && i < |arenas| && j < |arenas[i].blocks|
    ensures var b := arenas[i].blocks[j];
      !b.free <==> exists x :: x in AllLive(arenas) && x.Payload() == b.Payload()
  {
    var b := arenas[i].blocks[j];
    if x :| x in AllLive(arenas) && x.Payload() == b.Payload() {
      var k :| 0 <= k < |arenas| && x in arenas[k].blocks && !x.free;
      OnePayload(arenas, k, x, i, b);
    }
    if !b.free { assert b in AllLive(arenas); }
  }

  lemma GiveBack(arenas: seq<Arena>, i: nat, j: nat)
    requires ArenasOk(arenas) && Disjoint(arenas) && i < |arenas| && j < |arenas[i].blocks| && !arenas[i].blocks[j].free
    ensures var a := arenas[i];
      && a.live > 0 && ArenaOk(Arena(a.page, a.pages, a.live - 1, Give(a.blocks, j))) && a.blocks[j] in AllLive(arenas)
      && AllLive(arenas[i := Arena(a.page, a.pages, a.live - 1, Give(a.blocks, j))]) == AllLive(arenas) - {a.blocks[j]}
  {
    var a := arenas[i];
    var b := a.blocks[j];
    GiveSound(a.blocks, a.Start(), a.Limit(), j);
    GiveLive(a.blocks, a.Start(), a.Limit(), j);
    assert b in Live(a.blocks);
    var all := arenas[i := Arena(a.page, a.pages, a.live - 1, Give(a.blocks, j))];
    forall x ensures x in AllLive(all) <==> x in AllLive(arenas) && x != b {
      InAll(all, x);
      InAll(arenas, x);
      if x in AllLive(all) {
        var k :| 0 <= k < |all| && x in Live(all[k].blocks);
        assert x in Live(arenas[k].blocks);
        if x == b { OnePayload(arenas, k, x, i, b); }
      }
      if x in AllLive(arenas) && x != b {
        var k :| 0 <= k < |arenas| && x in Live(arenas[k].blocks);
        assert x in Live(all[k].blocks);
      }
    }
  }

  lemma Reclaimable(v: Frames, threads: set<nat>, arenas: seq<Arena>, i: nat)
    requires ArenasOk(arenas) && Disjoint(arenas) && Owned(v, threads, arenas) && i < |arenas| && arenas[i].live == 0
    requires |v| > 0 ==> v[0].reserved
    ensures var a, rest := arenas[i], arenas[..i] + arenas[i + 1..];
      && a.page > 0 && a.pages > 0 && a.page + a.pages <= |v|
      && (forall f :: a.page <= f < a.page + a.pages ==> Pmm.Freeable(v, threads, f, Pmm.Is(Pmm.Heap)))
      && ArenasOk(rest) && Disjoint(rest) && AllLive(rest) == AllLive(arenas)
      && Owned(Pmm.Freed(v, a.page, a.pages), threads, rest) && |Pmm.Freed(v, a.page, a.pages)| == |v|
      && (|v| > 0 ==> Pmm.Freed(v, a.page, a.pages)[0].reserved)
  {
    hide Pmm.Freeable;
    var a, rest := arenas[i], arenas[..i] + arenas[i + 1..];
    assert arenas[i].Has(a.page + a.pages - 1);
    assert HeapPage(v, threads, a.page + a.pages - 1);
    forall f: nat | a.page <= f < a.page + a.pages ensures f < |v| && Pmm.Freeable(v, threads, f, Pmm.Is(Pmm.Heap)) {
      assert arenas[i].Has(f);
      assert HeapPage(v, threads, f);
    }
    forall x, y | 0 <= x < y < |rest|
      ensures rest[x].page + rest[x].pages <= rest[y].page || rest[y].page + rest[y].pages <= rest[x].page
    {
      assert rest[x] == arenas[if x < i then x else x + 1] && rest[y] == arenas[if y < i then y else y + 1];
    }
    RestLive(arenas, i);
    RestOwned(v, threads, arenas, i);
  }

  lemma RestLive(arenas: seq<Arena>, i: nat)
    requires i < |arenas| && ArenaOk(arenas[i]) && arenas[i].live == 0
    ensures AllLive(arenas[..i] + arenas[i + 1..]) == AllLive(arenas)
  {
    var rest := arenas[..i] + arenas[i + 1..];
    forall x ensures x in AllLive(rest) <==> x in AllLive(arenas) {
      InAll(rest, x);
      InAll(arenas, x);
      if x in AllLive(rest) {
        var k :| 0 <= k < |rest| && x in Live(rest[k].blocks);
        assert x in Live(arenas[if k < i then k else k + 1].blocks);
      }
      if x in AllLive(arenas) {
        var k :| 0 <= k < |arenas| && x in Live(arenas[k].blocks);
        assert k != i && x in Live(rest[if k < i then k else k - 1].blocks);
      }
    }
  }

  /** Freeing the run of one arena leaves the pages of the others alone. */
  lemma FreedElsewhere(v: Frames, threads: set<nat>, a: Arena, f: nat)
    ensures HeapPage(v, threads, f) && !a.Has(f) ==> HeapPage(Pmm.Freed(v, a.page, a.pages), threads, f)
    ensures var w := Pmm.Freed(v, a.page, a.pages);
      f < |w| && w[f].used && w[f].owner == Pmm.Heap ==> f < |v| && v[f].used && v[f].owner == Pmm.Heap && !a.Has(f)
  {
  }

  lemma RestOwned(v: Frames, threads: set<nat>, arenas: seq<Arena>, i: nat)
    requires Disjoint(arenas) && Owned(v, threads, arenas) && i < |arenas|
    ensures Owned(Pmm.Freed(v, arenas[i].page, arenas[i].pages), threads, arenas[..i] + arenas[i + 1..])
  {
    hide Pmm.Freed, HeapPage;
    var a, rest := arenas[i], arenas[..i] + arenas[i + 1..];
    var w := Pmm.Freed(v, a.page, a.pages);
    forall f: nat | f < |w| && w[f].used && w[f].owner == Pmm.Heap ensures HasPage(rest, f) {
      FreedElsewhere(v, threads, a, f);
      var k :| 0 <= k < |arenas| && arenas[k].Has(f);
      assert rest[if k < i then k else k - 1].Has(f);
    }
    forall k, f: nat | 0 <= k < |rest| && rest[k].Has(f) ensures HeapPage(w, threads, f) {
      FreedElsewhere(v, threads, a, f);
      assert arenas[if k < i then k else k + 1].Has(f);
    }
  }

  /** When everything handed out has been returned, no page is owned by the heap. */
  lemma NothingLeft(v: Frames, threads: set<nat>, arenas: seq<Arena>)
    requires ArenasOk(arenas) && Owned(v, threads, arenas) && (forall i :: 0 <= i < |arenas| ==> arenas[i].live > 0)
    requires AllLive(arenas) == {}
    ensures arenas == [] && forall f :: 0 <= f < |v| ==> !(v[f].used && v[f].owner == Pmm.Heap)
  {
    if |arenas| > 0 { SomeLive(arenas); }
  }

  lemma SomeLive(arenas: seq<Arena>)
    requires |arenas| > 0 && ArenaOk(arenas[0]) && arenas[0].live > 0
    ensures AllLive(arenas) != {}
  {
    var b :| b in Live(arenas[0].blocks);
    assert b in AllLive(arenas);
  }
}
