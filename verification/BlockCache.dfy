/** The write-back block cache of MyFS (kernel/fs.c): sixteen lines over a disk, a
    least-recently-used victim, and pointers into lines that callers keep for a while. */
module BlockCache {
  import opened Layout

  type Block = seq<Byte>

  const LINES := 16
  const AGE_MAX := 0xFFFF_FFFF   // UINT32_MAX

  /** What a line is about, apart from the bytes it holds. */
  datatype Line = Line(valid: bool, block: nat, age: nat)

  datatype Cache = Cache(lines: seq<Line>, clock: nat)

  ghost predicate Good(c: Cache) {
    && |c.lines| == LINES && c.clock <= AGE_MAX
    && (forall i :: 0 <= i < LINES ==> c.lines[i].age <= AGE_MAX && (!c.lines[i].valid ==> c.lines[i].age == 0))
    &&
    (forall i, j :: 0 <= i < j < LINES && c.lines[i].valid && c.lines[j].valid ==> c.lines[i].block != c.lines[j].block)
  }

  predicate HitAt(c: Cache, b: nat, i: int) {
    0 <= i < |c.lines| && c.lines[i].valid && c.lines[i].block == b
  }

  ghost predicate Cached(c: Cache, b: nat) {
    exists i :: HitAt(c, b, i)
  }

  /** Among the lines that may go: the last unused one, else the first of the oldest. */
  ghost predicate Chosen(c: Cache, i: nat) {
    && i < |c.lines|
    && (!c.lines[i].valid ==> forall j :: i < j < |c.lines| ==> c.lines[j].valid)
    && (c.lines[i].valid ==> forall j :: 0 <= j < i ==> c.lines[i].age < c.lines[j].age)
  }

  /** Line i is the one to reuse: an unused one if there is any, else the oldest, but
      never one whose age has reached the largest value. */
  ghost predicate IsVictim(c: Cache, i: int) {
    && 0 <= i < |c.lines|
    && (c.lines[i].valid ==> c.lines[i].age < AGE_MAX && forall j :: 0 <= j < |c.lines| ==>
          c.lines[j].valid && c.lines[i].age <= c.lines[j].age)
  }

  ghost predicate Exhausted(c: Cache) {
    forall i :: 0 <= i < |c.lines| ==> c.lines[i].valid && c.lines[i].age == AGE_MAX
  }

  /** One lookup of block b that ends in line i; the age counter wraps at 2^32. */
  ghost predicate Step(c: Cache, b: nat, c': Cache, i: int) {
    && |c'.lines| == |c.lines|
    && (HitAt(c, b, i) || (!Cached(c, b) && IsVictim(c, i)))
    && c'.clock == (c.clock + 1) % (AGE_MAX + 1)
    && c'.lines == c.lines[i := Line(true, b, c'.clock)]
  }

  lemma StepGood(c: Cache, b: nat, c': Cache, i: int)
    requires Good(c) && Step(c, b, c', i)
    ensures Good(c') && HitAt(c', b, i)
  {
    forall j | 0 <= j < LINES && j != i && c.lines[j].valid ensures c.lines[j].block != b {
      assert c.lines[j].block == b ==> HitAt(c, b, j);
    }
  }

  // ------------------------------------------------------------ exact survival

  /** A run of lookups: states, the blocks looked up, the line each one ended in. */
  ghost predicate Run(cs: seq<Cache>, bs: seq<nat>, at: seq<int>) {
    && |cs| == |bs| + 1 && |at| == |bs| && Good(cs[0])
    && forall k :: 0 <= k < |bs| ==> Step(cs[k], bs[k], cs[k + 1], at[k])
  }

  ghost function Distinct(bs: seq<nat>): set<nat> {
    set x | x in bs
  }

  ghost function Range(lo: int, n: nat): (r: set<int>)
    ensures forall x :: x in r <==> lo <= x < lo + n
    ensures |r| == n
  {
    if n == 0 then {} else Range(lo, n - 1) + {lo + n - 1}
  }

  /** While b keeps its line s, last used at age a: `w` gives the line of every block
      looked up since, and only those lines have been used since. */
  ghost predicate Kept(c: Cache, w: map<nat, int>, b: nat, s: int, a: nat) {
    && Good(c) && 0 <= s < LINES && c.lines[s] == Line(true, b, a)
    && Dated(c, s, a)
    && (forall x :: x in w ==> w[x] != s && HitAt(c, x, w[x]) && c.lines[w[x]].age > a)
    && (forall i :: 0 <= i < LINES && c.lines[i].valid && c.lines[i].age > a ==> c.lines[i].block in w)
  }

  ghost predicate Dated(c: Cache, s: int, a: nat) {
    && a <= c.clock && |c.lines| == LINES
    && (forall i :: 0 <= i < LINES ==> c.lines[i].age <= c.clock)
    && (forall i :: 0 <= i < LINES && i != s && c.lines[i].valid ==> c.lines[i].age != a)
  }

  ghost function Image(w: map<nat, int>): set<int> {
    set x | x in w :: w[x]
  }

  lemma {:induction false} ImageCard(w: map<nat, int>)
    requires forall x, y :: x in w && y in w && x != y ==> w[x] != w[y]
    ensures |Image(w)| == |w|
    decreases |w|
  {
    if |w| > 0 {
      var x :| x in w;
      var v := w - {x};
      ImageCard(v);
      assert w == v[x := w[x]];
      assert Image(w) == Image(v) + {w[x]};
    }
  }

  lemma SubsetCard(a: set<int>, b: set<int>)
    requires a <= b
    ensures |a| <= |b| && (|a| == |b| ==> a == b)
  {
    assert b == a + (b - a);
  }

  lemma KeptBound(c: Cache, w: map<nat, int>, b: nat, s: int, a: nat)
    requires Kept(c, w, b, s, a)
    ensures |w| <= LINES - 1 && |w| == |Image(w)|
    ensures Image(w) <= Range(0, LINES) - {s}
  {
    hide Range, Dated;
    LinesDiffer(c, w);
    ImageCard(w);
    SubsetCard(Image(w), Range(0, LINES) - {s});
  }

  lemma LinesDiffer(c: Cache, w: map<nat, int>)
    requires forall x :: x in w ==> HitAt(c, x, w[x])
    ensures forall x, y :: x in w && y in w && x != y ==> w[x] != w[y]
  {
  }

  lemma OneLine(c: Cache, x: nat, i: int, j: int)
    requires Good(c) && HitAt(c, x, i) && HitAt(c, x, j)
    ensures i == j
  {
  }

  lemma DatedStep(c: Cache, x: nat, c': Cache, i: int, s: int, a: nat)
    requires Dated(c, s, a) && Step(c, x, c', i) && c.clock < AGE_MAX && i != s
    ensures Dated(c', s, a)
  {
  }

  /** A lookup that leaves b's line alone adds its block to those used since. */
  lemma KeptStep(c: Cache, w: map<nat, int>, b: nat, s: int, a: nat, x: nat, c': Cache, i: int)
    requires Kept(c, w, b, s, a) && x != b && Step(c, x, c', i) && c.clock < AGE_MAX && i != s
    ensures Kept(c', w[x := i], b, s, a)
  {
    StepGood(c, x, c', i);
    DatedStep(c, x, c', i, s, a);
    var w' := w[x := i];
    forall y | y in w' ensures w'[y] != s && HitAt(c', y, w'[y]) && c'.lines[w'[y]].age > a {
      if y != x {
        assert HitAt(c, y, w[y]) && c.lines[w[y]].age > a;
        LineTaken(c, w, b, s, a, x, i, y);
      }
    }
    forall j | 0 <= j < LINES && c'.lines[j].valid && c'.lines[j].age > a ensures c'.lines[j].block in w' {
      assert j != i ==> c'.lines[j] == c.lines[j];
    }
  }

  /** The line reused for x is not the line of a block used since b. */
  lemma LineTaken(c: Cache, w: map<nat, int>, b: nat, s: int, a: nat, x: nat, i: int, y: nat)
    requires Kept(c, w, b, s, a) && y in w && y != x
    requires HitAt(c, x, i) || IsVictim(c, i)
    ensures w[y] != i
  {
    assert HitAt(c, y, w[y]) && c.lines[w[y]].age > a;
  }

  /** b can only be the victim when all fifteen other lines are newer. */
  lemma Evicted(c: Cache, w: map<nat, int>, b: nat, s: int, a: nat, x: nat, c': Cache)
    requires Kept(c, w, b, s, a) && x != b && Step(c, x, c', s)
    ensures x !in w && |w| == LINES - 1 && !Cached(c', b)
  {
    hide Range, Image;
    assert IsVictim(c, s) && !Cached(c, x);
    SeenIsCached(c, w, b, s, a, x);
    KeptBound(c, w, b, s, a);
    forall i | 0 <= i < LINES && i != s ensures i in Image(w) { NewerLine(c, w, b, s, a, i); }
    assert Image(w) == Range(0, LINES) - {s};
    forall j ensures !HitAt(c', b, j) { assert HitAt(c', b, j) ==> HitAt(c, b, j) && j != s; }
  }

  lemma SeenIsCached(c: Cache, w: map<nat, int>, b: nat, s: int, a: nat, x: nat)
    requires Kept(c, w, b, s, a)
    ensures x in w ==> Cached(c, x)
  {
  }

  lemma NewerLine(c: Cache, w: map<nat, int>, b: nat, s: int, a: nat, i: int)
    requires Kept(c, w, b, s, a) && IsVictim(c, s) && 0 <= i < LINES && i != s
    ensures i in Image(w)
  {
    assert c.lines[i].valid && c.lines[i].age > a;
    var y := c.lines[i].block;
    OneLine(c, y, i, w[y]);
  }

  lemma StaysOut(c: Cache, b: nat, x: nat, c': Cache, i: int)
    requires !Cached(c, b) && x != b && Step(c, x, c', i)
    ensures !Cached(c', b)
  {
    forall j ensures !HitAt(c', b, j) { assert HitAt(c', b, j) && j != i ==> HitAt(c, b, j); }
  }

  /** b's line is the newest of all. */
  ghost predicate Newest(c: Cache, b: nat, s: int) {
    && Good(c) && HitAt(c, b, s) && c.lines[s].age == c.clock
    && forall i :: 0 <= i < LINES && i != s ==> c.lines[i].age < c.clock
  }

  lemma {:induction false} KeptRun(cs: seq<Cache>, bs: seq<nat>, at: seq<int>, b: nat, s: int, n: nat)
    returns (w: map<nat, int>)
    requires Run(cs, bs, at) && n <= |bs| && b !in bs && Newest(cs[0], b, s) && cs[0].clock + |bs| <= AGE_MAX
    ensures cs[n].clock == cs[0].clock + n
    ensures |Distinct(bs[..n])| <= LINES - 1 ==> w.Keys == Distinct(bs[..n]) && Kept(cs[n], w, b, s, cs[0].clock)
    ensures |Distinct(bs[..n])| > LINES - 1 ==> !Cached(cs[n], b)
  {
    hide Kept, Cached, Good, IsVictim, HitAt;
    if n == 0 {
      w := map[];
      assert Distinct(bs[..0]) == {};
      KeptStart(cs[0], b, s);
    } else {
      w := KeptRun(cs, bs, at, b, s, n - 1);
      assert Step(cs[n - 1], bs[n - 1], cs[n], at[n - 1]);
      SeenOneMore(bs, n);
      w := KeptOneMore(cs[n - 1], w, Distinct(bs[..n - 1]), b, s, cs[0].clock, bs[n - 1], cs[n], at[n - 1]);
    }
  }

  lemma SeenOneMore(bs: seq<nat>, n: nat)
    requires 0 < n <= |bs|
    ensures Distinct(bs[..n]) == Distinct(bs[..n - 1]) + {bs[n - 1]}
  {
    assert bs[..n] == bs[..n - 1] + [bs[n - 1]];
  }

  lemma KeptOneMore(c: Cache, w: map<nat, int>, seen: set<nat>, b: nat, s: int, a: nat, x: nat, c': Cache, i: int)
    returns (w': map<nat, int>)
    requires Step(c, x, c', i) && c.clock < AGE_MAX && x != b
    requires |seen| <= LINES - 1 ==> w.Keys == seen && Kept(c, w, b, s, a)
    requires |seen| > LINES - 1 ==> !Cached(c, b)
    ensures c'.clock == c.clock + 1
    ensures |seen + {x}| <= LINES - 1 ==> w'.Keys == seen + {x} && Kept(c', w', b, s, a)
    ensures |seen + {x}| > LINES - 1 ==> !Cached(c', b)
  {
    hide Kept, Cached, IsVictim, HitAt;
    assert x in seen || |seen + {x}| == |seen| + 1;
    w' := w[x := i];
    if |seen| > LINES - 1 {
      assert x in seen ==> seen + {x} == seen;
      StaysOut(c, b, x, c', i);
    } else if i == s {
      Evicted(c, w, b, s, a, x, c');
    } else {
      KeptStep(c, w, b, s, a, x, c', i);
      KeptBound(c', w', b, s, a);
      assert w'.Keys == seen + {x};
    }
  }

  lemma KeptStart(c: Cache, b: nat, s: int)
    requires Newest(c, b, s)
    ensures Kept(c, map[], b, s, c.clock)
  {
  }

  lemma KeptHit(c: Cache, w: map<nat, int>, b: nat, s: int, a: nat)
    requires Kept(c, w, b, s, a)
    ensures HitAt(c, b, s) && Cached(c, b)
  {
    assert HitAt(c, b, s);
  }

  /** A block just looked up keeps its very line through any further lookups of other
      blocks exactly when those name at most fifteen different ones. */
  lemma SurvivesExactly(cs: seq<Cache>, bs: seq<nat>, at: seq<int>, b: nat, s: int)
    requires Run(cs, bs, at) && b !in bs && Newest(cs[0], b, s) && cs[0].clock + |bs| <= AGE_MAX
    ensures HitAt(cs[|bs|], b, s) <==> |Distinct(bs)| <= LINES - 1
    ensures Cached(cs[|bs|], b) <==> |Distinct(bs)| <= LINES - 1
  {
    hide Kept;
    var w := KeptRun(cs, bs, at, b, s, |bs|);
    assert bs[..|bs|] == bs;
    if |Distinct(bs)| <= LINES - 1 { KeptHit(cs[|bs|], w, b, s, cs[0].clock); }
  }

  // ------------------------------------------- pointers held across an allocation

  const CAPACITY := 8 * PAGE_SIZE   // bits in a bitmap block

  /** The lookups of alloc_data_block when the first free bit is `found`: the bitmap
      block of every bit tried, then the block itself. */
  ghost function AllocLookups(bmap: nat, first: nat, found: nat): seq<nat>
    requires first <= found
  {
    seq(found - first + 1, k requires 0 <= k <= found - first => bmap + (first + k) / CAPACITY) + [found]
  }

  /** Every bitmap block in between has a bit that was tried ... */
  lemma BlockTried(bmap: nat, first: nat, found: nat, x: nat)
    requires first <= found && bmap + first / CAPACITY <= x <= bmap + found / CAPACITY
    ensures x in AllocLookups(bmap, first, found)
  {
    var bit := if x - bmap == first / CAPACITY then first else (x - bmap) * CAPACITY;
    assert first <= bit <= found && bit / CAPACITY == x - bmap;
    assert AllocLookups(bmap, first, found)[bit - first] == x;
  }

  /** ... and nothing else is looked up. */
  lemma TriedBlock(bmap: nat, first: nat, found: nat, k: nat)
    requires first <= found && k <= found - first + 1
    ensures var x := AllocLookups(bmap, first, found)[k];
      x == found || bmap + first / CAPACITY <= x <= bmap + found / CAPACITY
  {
  }

  lemma AllocDistinct(bmap: nat, first: nat, found: nat)
    requires first <= found && bmap + found / CAPACITY < found
    ensures |Distinct(AllocLookups(bmap, first, found))| == found / CAPACITY - first / CAPACITY + 2
  {
    hide Range, AllocLookups;
    var blocks := Range(bmap + first / CAPACITY, found / CAPACITY - first / CAPACITY + 1);
    var ds := AllocLookups(bmap, first, found);
    forall x: nat ensures x in ds <==> x in blocks || x == found { LookedUp(bmap, first, found, x); }
    SameCard(blocks + {found}, Distinct(ds));
  }

  lemma LookedUp(bmap: nat, first: nat, found: nat, x: nat)
    requires first <= found
    ensures x in AllocLookups(bmap, first, found) <==>
      bmap + first / CAPACITY <= x <= bmap + found / CAPACITY || x == found
  {
    var ds := AllocLookups(bmap, first, found);
    if x in ds {
      var k :| 0 <= k < |ds| && ds[k] == x;
      TriedBlock(bmap, first, found, k);
    }
    if bmap + first / CAPACITY <= x <= bmap + found / CAPACITY { BlockTried(bmap, first, found, x); }
    assert ds[|ds| - 1] == found;
  }

  lemma {:induction false} SameCard(a: set<int>, b: set<nat>)
    requires (forall x :: x in a ==> x >= 0 && x in b) && (forall x :: x in b ==> x in a)
    ensures |a| == |b|
    decreases |b|
  {
    if b == {} {
      assert forall x :: x !in a;
    } else {
      var x :| x in b;
      SameCard(a - {x}, b - {x});
    }
  }

  /** inode_data_block keeps a pointer into an index block while it allocates. The
      pointer still names that block afterwards exactly when the bitmap scan stayed
      within fourteen bitmap blocks. */
  lemma PointerAcrossAlloc(cs: seq<Cache>, at: seq<int>, bmap: nat, first: nat, found: nat, b: nat, s: int)
    requires first <= found && bmap + found / CAPACITY < first && first <= b != found
    requires Run(cs, AllocLookups(bmap, first, found), at) && Newest(cs[0], b, s)
    requires cs[0].clock + |AllocLookups(bmap, first, found)| <= AGE_MAX
    ensures HitAt(cs[|cs| - 1], b, s) <==> found / CAPACITY - first / CAPACITY + 1 <= 14
  {
    var ds := AllocLookups(bmap, first, found);
    forall k | 0 <= k < |ds| ensures ds[k] != b { }
    AllocDistinct(bmap, first, found);
    SurvivesExactly(cs, ds, at, b, s);
  }

  // ------------------------------------------------------------------ the cache

  datatype Slot = Slot(line: Line, dirty: bool, data: Block)

  ghost function Lines(slots: seq<Slot>): seq<Line> {
    seq(|slots|, i requires 0 <= i < |slots| => slots[i].line)
  }

  ghost predicate Holding(slots: seq<Slot>, b: nat) {
    exists i :: 0 <= i < |slots| && slots[i].line.valid && slots[i].line.block == b
  }

  /** `view` is the block array the cache and the disk stand for: a cached block is in
      its line, any other on disk, and a clean line agrees with the disk. */
  ghost predicate Represents(slots: seq<Slot>, disk: seq<Block>, view: seq<Block>) {
    && |view| == |disk|
    && (forall i :: 0 <= i < |slots| && slots[i].line.valid ==>
          slots[i].line.block < |disk| && view[slots[i].line.block] == slots[i].data)
    && (forall i :: 0 <= i < |slots| && slots[i].line.valid && !slots[i].dirty ==>
          disk[slots[i].line.block] == slots[i].data)
    && (forall b :: 0 <= b < |disk| ==> view[b] == disk[b] || Holding(slots, b))
  }

  class Buffers {
    const disk: array<Block>    // one element per 4 KiB block
    const slots: array<Slot>
    var clock: nat
    ghost var view: seq<Block>

    ghost function State(): Cache
      reads this, slots
    {
      Cache(Lines(slots[..]), clock)
    }

    ghost predicate Valid()
      reads this, disk, slots
    {
      && slots.Length == LINES && Good(State())
      && Represents(slots[..], disk[..], view)
    }

    /** fs_init: an empty cache over the disk. */
    constructor (contents: seq<Block>)
      ensures Valid() && view == contents && fresh(disk) && fresh(slots)
      ensures clock == 0 && forall i :: 0 <= i < LINES ==> !slots[i].line.valid
    {
      disk := new Block[|contents|](i requires 0 <= i < |contents| => contents[i]);
      slots := new Slot[LINES](_ => Slot(Line(false, 0, 0), false, []));
      clock := 0;
      view := contents;
      new;
      assert disk[..] == contents;
    }

    method FlushEntry(i: nat)
      requires Valid() && i < LINES
      modifies disk, slots
      ensures Valid() && Lines(slots[..]) == old(Lines(slots[..]))
      ensures forall j :: 0 <= j < LINES ==>
        slots[j] == if j == i then old(slots[i]).(dirty := slots[i].dirty) else old(slots[j])
      ensures slots[i].line.valid ==> !slots[i].dirty
    {
      if !slots[i].line.valid || !slots[i].dirty { return; }
      ghost var before := slots[..];
      disk[slots[i].line.block] := slots[i].data;
      slots[i] := slots[i].(dirty := false);
      assert slots[..] == before[i := before[i].(dirty := false)];
      assert Lines(slots[..]) == Lines(before);
      Flushed(before, old(disk[..]), view, i, disk[..]);
    }

    /** cache_get: the line of the block, or -1. What the cache stands for is untouched,
        and a miss is refused only when every age has reached the end of the counter. */
    method Get(block: nat, write: bool) returns (i: int)
      requires Valid()
      modifies this`clock, disk, slots
      ensures Valid() && view == old(view)
      ensures i == -1 <==> block >= disk.Length || (!Cached(old(State()), block) && Exhausted(old(State())))
      ensures i == -1 ==> State() == old(State())
      ensures i != -1 ==> Step(old(State()), block, State(), i)
      ensures i != -1 && !Cached(old(State()), block) ==> Chosen(old(State()), i)
      ensures i != -1 ==> HitAt(State(), block, i) && slots[i].data == view[block] && (write ==> slots[i].dirty)
      ensures i != -1 ==> forall j :: 0 <= j < LINES && j != i ==> slots[j] == old(slots[j])
    {
      ghost var c := State();
      if block >= disk.Length { return -1; }
      var victim, oldest := -1, AGE_MAX;
      for k := 0 to LINES
        invariant State() == c && slots[..] == old(slots[..]) && disk[..] == old(disk[..]) && Valid()
        invariant forall j :: 0 <= j < k ==> !HitAt(c, block, j)
        invariant victim == -1 ==> oldest == AGE_MAX
        invariant victim == -1 ==> forall j :: 0 <= j < k ==> slots[j].line.valid && slots[j].line.age == AGE_MAX
        invariant victim != -1 ==> 0 <= victim < k && oldest == slots[victim].line.age
        invariant victim != -1 && slots[victim].line.valid ==> oldest < AGE_MAX
        invariant victim != -1 && !slots[victim].line.valid ==> oldest == 0
        invariant victim != -1 && slots[victim].line.valid ==>
          forall j :: 0 <= j < k ==> slots[j].line.valid && oldest <= slots[j].line.age
        invariant victim != -1 && !slots[victim].line.valid ==> forall j :: victim < j < k ==> slots[j].line.valid
        invariant victim != -1 && slots[victim].line.valid ==>
          forall j :: 0 <= j < victim ==> oldest < slots[j].line.age
      {
        assert c.lines[k] == slots[k].line;
        if slots[k].line.valid && slots[k].line.block == block {
          i := k;
          Touch(block, k, write);
          return;
        }
        if !slots[k].line.valid || slots[k].line.age < oldest {
          victim, oldest := k, slots[k].line.age;
        }
      }
      if victim == -1 { return -1; }
      assert IsVictim(c, victim) && Chosen(c, victim);
      FlushEntry(victim);
      i := victim;
      Fill(block, victim, write, c);
    }

    method Touch(block: nat, i: nat, write: bool)
      requires Valid() && HitAt(State(), block, i)
      modifies this`clock, slots
      ensures Valid() && Step(old(State()), block, State(), i)
      ensures HitAt(State(), block, i) && slots[i].data == view[block] && (write ==> slots[i].dirty)
      ensures forall j :: 0 <= j < LINES && j != i ==> slots[j] == old(slots[j])
    {
      ghost var c, before := State(), slots[..];
      clock := (clock + 1) % (AGE_MAX + 1);
      slots[i] := slots[i].(line := slots[i].line.(age := clock), dirty := slots[i].dirty || write);
      assert slots[..] == before[i := slots[i]];
      assert Lines(slots[..]) == c.lines[i := Line(true, block, clock)];
      StepGood(c, block, State(), i);
      Retouched(before, disk[..], view, i, slots[i]);
    }

    /** The part of cache_get after the victim has been written back. */
    method Fill(block: nat, i: nat, write: bool, ghost c: Cache)
      requires Valid() && State() == c && block < disk.Length && !Cached(c, block) && IsVictim(c, i)
      requires slots[i].line.valid ==> !slots[i].dirty
      modifies this`clock, slots
      ensures Valid() && Step(c, block, State(), i)
      ensures HitAt(State(), block, i) && slots[i].data == view[block] && (write ==> slots[i].dirty)
      ensures forall j :: 0 <= j < LINES && j != i ==> slots[j] == old(slots[j])
    {
      ghost var before := slots[..];
      clock := (clock + 1) % (AGE_MAX + 1);
      slots[i] := Slot(Line(true, block, clock), write, disk[block]);
      assert slots[..] == before[i := slots[i]];
      assert Lines(slots[..]) == c.lines[i := Line(true, block, clock)];
      StepGood(c, block, State(), i);
      assert forall j :: 0 <= j < LINES && before[j].line.valid ==> before[j].line.block != block by {
        forall j | 0 <= j < LINES ensures before[j].line.valid ==> before[j].line.block != block {
          assert c.lines[j] == before[j].line && !HitAt(c, block, j);
        }
      }
      Filled(before, disk[..], view, i, block, slots[i]);
    }

    /** A store through a pointer obtained from a lookup for writing. */
    method Store(i: nat, data: Block)
      requires Valid() && i < LINES && slots[i].line.valid && slots[i].dirty && slots[i].line.block < |view|
      modifies this`view, slots
      ensures Valid() && State() == old(State()) && view == old(view[slots[i].line.block := data])
      ensures forall j :: 0 <= j < LINES ==> slots[j] == if j == i then old(slots[i]).(data := data) else old(slots[j])
    {
      ghost var before := slots[..];
      view := view[slots[i].line.block := data];
      slots[i] := slots[i].(data := data);
      assert slots[..] == before[i := slots[i]];
      assert Lines(slots[..]) == Lines(before);
      Stored(before, disk[..], old(view), i, data);
    }

    /** cache_sync: afterwards the disk alone is the block array. */
    method Sync()
      requires Valid()
      modifies disk, slots
      ensures Valid() && disk[..] == view && State() == old(State())
    {
      for i := 0 to LINES
        invariant Valid() && State() == old(State())
        invariant forall j :: 0 <= j < i && slots[j].line.valid ==> !slots[j].dirty
      {
        FlushEntry(i);
      }
      Synced(slots[..], disk[..], view);
    }

    /** cache_drop after a sync: nothing is lost. */
    method Drop()
      requires Valid() && disk[..] == view
      modifies this`clock, slots
      ensures Valid() && forall b :: !Cached(State(), b)
    {
      for i := 0 to LINES
        invariant forall j :: 0 <= j < i ==> slots[j] == Slot(Line(false, 0, 0), false, [])
      {
        slots[i] := Slot(Line(false, 0, 0), false, []);
      }
      clock := 0;
    }
  }

  lemma Flushed(slots: seq<Slot>, disk: seq<Block>, view: seq<Block>, i: nat, disk': seq<Block>)
    requires Represents(slots, disk, view) && Good(Cache(Lines(slots), 0)) && i < |slots|
    requires slots[i].line.valid && disk' == disk[slots[i].line.block := slots[i].data]
    ensures Represents(slots[i := slots[i].(dirty := false)], disk', view)
  {
    var slots' := slots[i := slots[i].(dirty := false)];
    var l := Lines(slots);
    forall j | 0 <= j < |slots'| && slots'[j].line.valid && !slots'[j].dirty
      ensures disk'[slots'[j].line.block] == slots'[j].data
    {
      assert l[j] == slots[j].line && l[i] == slots[i].line;
    }
    forall b | 0 <= b < |disk'|
      ensures view[b] == disk'[b] || Holding(slots', b)
    {
      if view[b] != disk[b] {
        var j :| 0 <= j < |slots| && slots[j].line.valid && slots[j].line.block == b;
        assert slots'[j].line.valid && slots'[j].line.block == b;
      }
    }
  }

  lemma Retouched(slots: seq<Slot>, disk: seq<Block>, view: seq<Block>, i: nat, x: Slot)
    requires Represents(slots, disk, view) && i < |slots| && slots[i].line.valid && x.line.valid
    requires x.data == slots[i].data && x.line.block == slots[i].line.block && (slots[i].dirty ==> x.dirty)
    ensures Represents(slots[i := x], disk, view)
  {
    var slots' := slots[i := x];
    forall b | 0 <= b < |disk| ensures view[b] == disk[b] || Holding(slots', b) {
      if view[b] != disk[b] {
        var j :| 0 <= j < |slots| && slots[j].line.valid && slots[j].line.block == b;
        assert slots'[j].line.valid && slots'[j].line.block == b;
      }
    }
  }

  lemma Filled(slots: seq<Slot>, disk: seq<Block>, view: seq<Block>, i: nat, block: nat, x: Slot)
    requires Represents(slots, disk, view) && i < |slots| && block < |disk|
    requires slots[i].line.valid ==> !slots[i].dirty
    requires forall j :: 0 <= j < |slots| && slots[j].line.valid ==> slots[j].line.block != block
    requires x.line.valid && x.line.block == block && x.data == disk[block]
    ensures Represents(slots[i := x], disk, view)
  {
    var slots' := slots[i := x];
    assert slots'[i] == x;
    forall b | 0 <= b < |disk|
      ensures view[b] == disk[b] || Holding(slots', b)
    {
      if view[b] != disk[b] {
        var j :| 0 <= j < |slots| && slots[j].line.valid && slots[j].line.block == b;
        assert slots'[j].line.valid && slots'[j].line.block == b;
      }
    }
  }

  lemma Stored(slots: seq<Slot>, disk: seq<Block>, view: seq<Block>, i: nat, data: Block)
    requires Represents(slots, disk, view) && Good(Cache(Lines(slots), 0)) && i < |slots|
    requires slots[i].line.valid && slots[i].dirty
    ensures Represents(slots[i := slots[i].(data := data)], disk, view[slots[i].line.block := data])
  {
    var slots', view' := slots[i := slots[i].(data := data)], view[slots[i].line.block := data];
    var l := Lines(slots);
    assert l[i] == slots[i].line;
    forall j | 0 <= j < |slots'| && slots'[j].line.valid ensures view'[slots'[j].line.block] == slots'[j].data {
      assert l[j] == slots[j].line;
    }
    forall b | 0 <= b < |disk|
      ensures view'[b] == disk[b] || Holding(slots', b)
    {
      if b == slots[i].line.block {
        assert slots'[i].line.block == b;
      } else if view[b] != disk[b] {
        var j :| 0 <= j < |slots| && slots[j].line.valid && slots[j].line.block == b;
        assert slots'[j].line.valid && slots'[j].line.block == b;
      }
    }
  }

  lemma Synced(slots: seq<Slot>, disk: seq<Block>, view: seq<Block>)
    requires Represents(slots, disk, view)
    requires forall j :: 0 <= j < |slots| && slots[j].line.valid ==> !slots[j].dirty
    ensures disk == view
  {
    forall b | 0 <= b < |disk| ensures disk[b] == view[b] { }
  }
}
