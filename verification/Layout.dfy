/** Positions in the four-level page tables and the split of a virtual address
    into them (kernel/memory.h, after section 4.5 of the Intel SDM, volume 3A). */
module Layout {

  type Byte = x: int | 0 <= x < 256

  const PAGE_SIZE := 4096
  type Page = s: seq<Byte> | |s| == PAGE_SIZE witness seq(PAGE_SIZE, _ => 0)
  function ZeroPage(): Page { seq(PAGE_SIZE, _ => 0) }
  const ENTRIES := 512
  const BOOT_KERNEL_PML4 := 0x70       // frame of the loader's PML4
  const USER_ENTRIES := 256            // PML4 slots of the user half
  const USER_TOP := 0x8000_0000_0000   // first address above the user half

  /** A virtual page: the address space, named by its PML4 frame, and the page's
      four table indices. */
  datatype Va = Va(r: nat, a: nat, b: nat, c: nat, d: nat) {
    predicate InRange() {
      a < USER_ENTRIES && b < ENTRIES && c < ENTRIES && d < ENTRIES
    }

    /** The PT whose slot `d` maps this page. */
    function Pt(): Pos { Child(Child(Child(Root(r), a), b), c) }

    /** The table of the given level on the way to this page. */
    function Above(level: nat): Pos
      requires 1 <= level <= 4
    {
      if level == 4 then Root(r)
      else if level == 3 then Child(Root(r), a)
      else if level == 2 then Child(Child(Root(r), a), b)
      else Pt()
    }

    /** The slot taken in the table of the given level. */
    function At(level: nat): nat
      requires 1 <= level <= 4
    {
      if level == 4 then a else if level == 3 then b else if level == 2 then c else d
    }
  }

  /** A table: a PML4, or the table a slot of another one leads to. */
  datatype Pos = Root(r: nat) | Child(up: Pos, idx: nat) {
    /** 4 for a PML4 down to 1 for a PT. */
    function Level(): int {
      if Root? then 4 else up.Level() - 1
    }

    function Space(): nat {
      if Root? then r else up.Space()
    }

    /** Number of slots that belong to the user half. */
    function Fan(): nat {
      if Root? then USER_ENTRIES else ENTRIES
    }

    predicate InRange() {
      Root? || (up.InRange() && up.Level() >= 2 && idx < up.Fan())
    }
  }

  /** The page that slot `i` of the PT at `p` maps. */
  function PageAt(p: Pos, i: nat): Va
    requires p.InRange() && p.Level() == 1
  {
    LevelOnePath(p);
    Va(p.up.up.up.r, p.up.up.idx, p.up.idx, p.idx, i)
  }

  lemma LevelOnePath(p: Pos)
    requires p.InRange() && p.Level() == 1
    ensures p.Child? && p.up.Child? && p.up.up.Child? && p.up.up.up.Root?
  {
    LevelBound(p.up.up.up);
  }

  lemma LevelBound(p: Pos)
    ensures p.Level() <= 4 && (p.Level() == 4 <==> p.Root?)
    ensures p.InRange() ==> 1 <= p.Level()
  {
  }

  /** PML4_INDEX, PDPT_INDEX, PD_INDEX and PT_INDEX of a user address. */
  function Split(r: nat, vaddr: nat): Va {
    Va(r, vaddr / 0x80_0000_0000 % 512, vaddr / 0x4000_0000 % 512,
       vaddr / 0x20_0000 % 512, vaddr / 0x1000 % 512)
  }

  /** The address rebuilt from the four indices while cloning. */
  function Rebuild(q: Va): nat {
    q.a * 0x80_0000_0000 + q.b * 0x4000_0000 + q.c * 0x20_0000 + q.d * 0x1000
  }

  lemma SplitInRange(r: nat, vaddr: nat)
    requires vaddr < USER_TOP
    ensures Split(r, vaddr).InRange()
  {
  }

  /** The indices do not look at the offset in the page. */
  lemma SplitMasked(r: nat, vaddr: nat)
    ensures Split(r, vaddr - vaddr % PAGE_SIZE) == Split(r, vaddr)
  {
    var p := vaddr / 0x1000;
    assert vaddr - vaddr % PAGE_SIZE == p * 0x1000;
    PageNumber(p);
    assert vaddr / 0x20_0000 == p / 512;
    assert vaddr / 0x4000_0000 == p / 512 / 512;
    assert vaddr / 0x80_0000_0000 == p / 512 / 512 / 512;
  }

  lemma LowDigit(x: nat, d: nat)
    requires d < 512
    ensures (x * 512 + d) / 512 == x && (x * 512 + d) % 512 == d
  {
  }

  /** The byte shifts in terms of the page number. */
  lemma PageNumber(p: nat)
    ensures p * 0x1000 / 0x1000 == p
    ensures p * 0x1000 / 0x20_0000 == p / 512
    ensures p * 0x1000 / 0x4000_0000 == p / 512 / 512
    ensures p * 0x1000 / 0x80_0000_0000 == p / 512 / 512 / 512
  {
  }

  /** Splitting and rebuilding are inverse, on page-aligned user addresses and on
      user-half index quadruples. */
  lemma RebuildSplit(r: nat, vaddr: nat)
    requires vaddr < USER_TOP && vaddr % PAGE_SIZE == 0
    ensures Rebuild(Split(r, vaddr)) == vaddr
  {
    PageNumber(vaddr / 0x1000);
  }

  lemma SplitRebuild(q: Va)
    requires q.InRange()
    ensures Split(q.r, Rebuild(q)) == q
    ensures Rebuild(q) < USER_TOP && Rebuild(q) % PAGE_SIZE == 0
  {
    var x := q.a * 512 + q.b;
    var y := x * 512 + q.c;
    var z := y * 512 + q.d;
    assert Rebuild(q) == z * 0x1000;
    PageNumber(z);
    LowDigit(y, q.d);
    LowDigit(x, q.c);
    LowDigit(q.a, q.b);
  }

  /** Distinct page-aligned addresses of one space reach distinct PT slots. */
  lemma SplitInjective(r: nat, x: nat, y: nat)
    requires x < USER_TOP && x % PAGE_SIZE == 0
    requires y < USER_TOP && y % PAGE_SIZE == 0
    requires Split(r, x) == Split(r, y)
    ensures x == y
  {
    RebuildSplit(r, x);
    RebuildSplit(r, y);
  }
}
