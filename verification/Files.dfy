/** Files of MyFS (kernel/fs.c) over the logical block array: allocation, the walk from a
    file block to its disk block, reading, writing with rollback, truncation. */
module Files {
  import opened Layout
  import opened FileIndex
  import opened Allocation

  const FILE := 2
  const DIRECTORY := 1
  const MAX_SIZE := MAX_BLOCKS * PAGE_SIZE
  const ROOT := 1

  datatype Inode = Inode(size: nat, kind: nat, links: nat, slots: seq<nat>)

  function NoSlots(): seq<nat> { seq(SLOTS, _ => 0) }

  /** The pointers that count: those of allocated inodes. */
  ghost function Tops(inodes: seq<Inode>, live: seq<bool>): seq<seq<nat>> {
    seq(|inodes|, i requires 0 <= i < |inodes| => if i < |live| && live[i] then inodes[i].slots else NoSlots())
  }

  // ------------------------------------------------- blocks missing on the way

  /** How many blocks a walk along `path` from p would have to add. */
  ghost function Missing(node: map<Place, nat>, p: Place, path: seq<nat>): nat
    decreases |path|
  {
    if path == [] then 0
    else if Below(p, path[0]) in node then Missing(node, Below(p, path[0]), path[1..])
    else |path|
  }

  ghost function MissingFor(node: map<Place, nat>, i: nat, k: nat): nat
    requires k < MAX_BLOCKS
  {
    if Top(i, SlotOf(k)) in node then Missing(node, Top(i, SlotOf(k)), PathOf(k)) else |PathOf(k)| + 1
  }

  lemma MissingNew(d: Disk, q: Place, path: seq<nat>, node: map<Place, nat>, b: nat)
    requires Linked(d) && q !in d.node && node == d.node[q := b]
    ensures Missing(node, q, path) == |path|
  {
    NothingUnder(d, q);
    if path != [] { OneUp(Below(q, path[0]), 0); }
  }

  // ------------------------------------------------ the blocks a write needs

  /** The positions a walk along `path` from p passes, p included. */
  ghost function Trail(p: Place, path: seq<nat>): set<Place>
    decreases |path|
  {
    {p} + if path == [] then {} else Trail(Below(p, path[0]), path[1..])
  }

  ghost function TrailOf(i: nat, k: nat): set<Place>
    requires k < MAX_BLOCKS
  {
    Trail(Top(i, SlotOf(k)), PathOf(k))
  }

  /** All positions on the way to the blocks from lo up to hi. */
  ghost function Trails(i: nat, lo: nat, hi: nat): set<Place>
    requires hi <= MAX_BLOCKS
  {
    if hi <= lo then {} else Trails(i, lo, hi - 1) + TrailOf(i, hi - 1)
  }

  /** The blocks a write of this range would have to add: every index or data block on the
      way to some block of the range that is not there yet, each counted once. */
  ghost function Needed(node: map<Place, nat>, i: nat, lo: nat, hi: nat): nat
    requires hi <= MAX_BLOCKS
  {
    |Trails(i, lo, hi) - node.Keys|
  }

  lemma TrailHead(p: Place, path: seq<nat>)
    ensures p in Trail(p, path)
  {
  }

  lemma {:induction false} TrailLevels(p: Place, path: seq<nat>)
    ensures |Trail(p, path)| == |path| + 1 && forall q :: q in Trail(p, path) ==> q.Level() <= p.Level()
    decreases |path|
  {
    if path != [] {
      var c := Below(p, path[0]);
      OneUp(c, 0);
      TrailLevels(c, path[1..]);
    }
  }

  lemma {:induction false} TrailAbsent(d: Disk, p: Place, path: seq<nat>)
    requires Linked(d) && p !in d.node
    ensures Trail(p, path) - d.node.Keys == Trail(p, path)
    decreases |path|
  {
    hide Linked;
    if path != [] {
      NothingUnder(d, p);
      TrailAbsent(d, Below(p, path[0]), path[1..]);
    }
  }

  /** Missing counts the positions of the trail that are not there. */
  lemma {:induction false} MissingCount(d: Disk, p: Place, path: seq<nat>)
    requires Linked(d) && p in d.node
    ensures Missing(d.node, p, path) == |Trail(p, path) - d.node.Keys|
    decreases |path|
  {
    hide Linked;
    if path != [] {
      var c := Below(p, path[0]);
      assert Trail(p, path) - d.node.Keys == Trail(c, path[1..]) - d.node.Keys;
      if c in d.node {
        MissingCount(d, c, path[1..]);
      } else {
        TrailAbsent(d, c, path[1..]);
        TrailLevels(c, path[1..]);
      }
    } else {
      assert Trail(p, path) - d.node.Keys == {};
    }
  }

  lemma MissingForCount(d: Disk, first: nat, i: nat, k: nat)
    requires Inv(d, first) && k < MAX_BLOCKS
    ensures MissingFor(d.node, i, k) == |TrailOf(i, k) - d.node.Keys|
  {
    hide PathOf, SlotOf, Linked;
    var p := Top(i, SlotOf(k));
    if p in d.node {
      MissingCount(d, p, PathOf(k));
    } else {
      TrailAbsent(d, p, PathOf(k));
      TrailLevels(p, PathOf(k));
    }
  }

  /** One more block of the range: what it lacks is what the trails so far left out. */
  lemma NeededNext(node: map<Place, nat>, now: map<Place, nat>, i: nat, lo: nat, hi: nat, missing: nat)
    requires lo <= hi < MAX_BLOCKS && now.Keys == node.Keys + Trails(i, lo, hi)
    requires missing == |TrailOf(i, hi) - now.Keys|
    ensures Needed(node, i, lo, hi + 1) == Needed(node, i, lo, hi) + missing
  {
    hide TrailOf, Trails;
    TrailsNext(i, lo, hi);
    CountNew(Trails(i, lo, hi), TrailOf(i, hi), node.Keys);
  }

  lemma CountNew(x: set<Place>, y: set<Place>, there: set<Place>)
    ensures |x + y - there| == |x - there| + |y - (there + x)|
  {
    assert x + y - there == (x - there) + (y - (there + x));
  }

  lemma {:induction false} TrailsWithin(i: nat, lo: nat, hi: nat, end: nat)
    requires hi <= end <= MAX_BLOCKS
    ensures Trails(i, lo, hi) <= Trails(i, lo, end)
    decreases end - hi
  {
    hide TrailOf, Trails;
    if hi < end {
      TrailsWithin(i, lo, hi, end - 1);
      TrailsUp(i, lo, end - 1);
    }
  }

  lemma NeededMore(node: map<Place, nat>, i: nat, lo: nat, hi: nat, end: nat)
    requires hi <= end <= MAX_BLOCKS
    ensures Needed(node, i, lo, hi) <= Needed(node, i, lo, end)
  {
    hide TrailOf, Trails;
    TrailsWithin(i, lo, hi, end);
    SmallerSet(Trails(i, lo, hi) - node.Keys, Trails(i, lo, end) - node.Keys);
  }

  /** The block behind the last one a write of so many bytes touches. */
  function BlocksTo(offset: nat, length: nat): nat {
    if length == 0 then offset / PAGE_SIZE else (offset + length - 1) / PAGE_SIZE + 1
  }

  lemma BlocksToBound(offset: nat, length: nat)
    requires offset + length <= MAX_SIZE
    ensures BlocksTo(offset, length) <= MAX_BLOCKS && offset / PAGE_SIZE <= BlocksTo(offset, length)
    ensures BlocksTo(offset, 0) == offset / PAGE_SIZE && AtBoundary(offset, 0, length)
  {
  }

  lemma TooLong(d: Disk, first: nat, i: nat, offset: nat, length: nat)
    ensures Enough(d, first, i, offset, length) ==> offset + length <= MAX_SIZE
    ensures offset + length > MAX_SIZE ==> InReach(d, first, i, offset, length)
  {
  }

  /** A chunk stays in the block behind the ones done. */
  lemma NextBlock(offset: nat, n: nat, size: nat, length: nat)
    requires n < length && offset + length <= MAX_SIZE && AtBoundary(offset, n, length)
    requires size == if PAGE_SIZE - (offset + n) % PAGE_SIZE > length - n then length - n
                     else PAGE_SIZE - (offset + n) % PAGE_SIZE
    ensures (offset + n) / PAGE_SIZE == BlocksTo(offset, n) && BlocksTo(offset, n + size) == BlocksTo(offset, n) + 1
    ensures BlocksTo(offset, n + size) <= BlocksTo(offset, length) <= MAX_BLOCKS
    ensures AtBoundary(offset, n + size, length)
  {
  }

  lemma NoneNeeded(node: map<Place, nat>, i: nat, lo: nat)
    requires lo <= MAX_BLOCKS
    ensures Trails(i, lo, lo) == {} && Needed(node, i, lo, lo) == 0
  {
    assert Trails(i, lo, lo) - node.Keys == {};
  }

  lemma TrailsUp(i: nat, lo: nat, hi: nat)
    requires hi < MAX_BLOCKS
    ensures Trails(i, lo, hi) <= Trails(i, lo, hi + 1)
  {
    hide TrailOf;
  }

  lemma SmallerSet(a: set<Place>, b: set<Place>)
    requires a <= b
    ensures |a| <= |b|
  {
    assert b == a + (b - a);
  }

  lemma TrailsNext(i: nat, lo: nat, hi: nat)
    requires lo <= hi < MAX_BLOCKS
    ensures Trails(i, lo, hi + 1) == Trails(i, lo, hi) + TrailOf(i, hi)
  {
  }

  /** The blocks from lo up to hi are in place, paid for by free blocks. */
  ghost predicate Charged(d: Disk, first: nat, node: map<Place, nat>, used: seq<bool>, i: nat, lo: nat, hi: nat) {
    && lo <= hi <= MAX_BLOCKS && node.Keys == d.node.Keys + Trails(i, lo, hi)
    && |Free(used, first)| + Needed(d.node, i, lo, hi) == |Free(d.used, first)|
  }

  lemma ChargeNone(d: Disk, first: nat, i: nat, lo: nat)
    requires lo <= MAX_BLOCKS
    ensures Charged(d, first, d.node, d.used, i, lo, lo)
  {
    hide Free;
    NoneNeeded(d.node, i, lo);
  }

  lemma ChargeStep(d: Disk, first: nat, e: Disk, node: map<Place, nat>, used: seq<bool>, i: nat, lo: nat, hi: nat)
    requires Inv(e, first) && Charged(d, first, e.node, e.used, i, lo, hi) && hi < MAX_BLOCKS
    requires |Free(used, first)| == |Free(e.used, first)| - MissingFor(e.node, i, hi)
    requires node.Keys == e.node.Keys + TrailOf(i, hi)
    ensures Charged(d, first, node, used, i, lo, hi + 1)
  {
    hide Inv, Free, MissingFor, Trails, TrailOf, Needed;
    MissingForCount(e, first, i, hi);
    NeededNext(d.node, e.node, i, lo, hi, MissingFor(e.node, i, hi));
    TrailsNext(i, lo, hi);
  }

  lemma ChargeFails(d: Disk, first: nat, e: Disk, i: nat, offset: nat, length: nat, hi: nat)
    requires Inv(e, first) && Charged(d, first, e.node, e.used, i, offset / PAGE_SIZE, hi)
    requires hi < BlocksTo(offset, length)
    requires hi < MAX_BLOCKS ==> |Free(e.used, first)| < MissingFor(e.node, i, hi)
    ensures !Enough(d, first, i, offset, length)
  {
    hide Inv, Free, MissingFor, Trails, TrailOf, Needed, BlocksTo;
    if BlocksTo(offset, length) <= MAX_BLOCKS {
      MissingForCount(e, first, i, hi);
      NeededNext(d.node, e.node, i, offset / PAGE_SIZE, hi, MissingFor(e.node, i, hi));
      NeededMore(d.node, i, offset / PAGE_SIZE, hi + 1, BlocksTo(offset, length));
    }
  }

  lemma ChargeDone(d: Disk, first: nat, node: map<Place, nat>, used: seq<bool>, i: nat, offset: nat, length: nat)
    requires Charged(d, first, node, used, i, offset / PAGE_SIZE, BlocksTo(offset, length))
    requires offset + length <= MAX_SIZE
    ensures Enough(d, first, i, offset, length)
  {
    hide Free, Trails, Needed, BlocksTo;
  }

  /** Between two chunks of a write: at its start, its end, or on a block boundary. */
  predicate AtBoundary(offset: nat, n: nat, length: nat) {
    n == 0 || n == length || (offset + n) % PAGE_SIZE == 0
  }

  /** The disk has room for a write of this range. */
  ghost predicate Enough(d: Disk, first: nat, i: nat, offset: nat, length: nat) {
    && offset + length <= MAX_SIZE && BlocksTo(offset, length) <= MAX_BLOCKS
    && Needed(d.node, i, offset / PAGE_SIZE, BlocksTo(offset, length)) <= |Free(d.used, first)|
  }

  /** Positions are only added, only to inode i, and no data is touched. */
  ghost predicate Grew(d: Disk, g: Disk, i: nat) {
    && |g.pages| == |d.pages| && |g.used| == |d.used|
    && (forall p :: p in d.node ==> p in g.node && g.node[p] == d.node[p])
    && (forall p :: p in g.node && p !in d.node ==> p.Ino() == i)
    && SameData(d, g)
  }

  /** What was placed stays where it is. */
  ghost predicate Onto(before: map<Place, nat>, after: map<Place, nat>) {
    forall p :: p in before ==> p in after && after[p] == before[p]
  }

  /** From d to g exactly these positions were added, as far as they were missing, and the
      lowest free blocks were taken for them. */
  ghost predicate Took(d: Disk, g: Disk, first: nat, places: set<Place>) {
    && Onto(d.node, g.node) && g.node.Keys == d.node.Keys + places
    && Shifted(d.used, g.used, first, |places - d.node.Keys|)
  }

  /** At most these were. */
  ghost predicate TookSome(d: Disk, g: Disk, places: set<Place>) {
    Onto(d.node, g.node) && g.node.Keys <= d.node.Keys + places
  }

  lemma TookTrans(d: Disk, e: Disk, g: Disk, first: nat, a: set<Place>, b: set<Place>)
    requires Took(d, e, first, a) && Took(e, g, first, b)
    ensures Took(d, g, first, a + b)
  {
    hide Took, Shifted, Onto, Plus, Lacking;
    TookParts(d, e, first, a);
    TookParts(e, g, first, b);
    OntoTrans(d.node, e.node, g.node);
    MissingTwice(d.node.Keys, e.node.Keys, g.node.Keys, a, b);
    ShiftedTrans(d.used, e.used, g.used, first, Lacking(a, d.node.Keys), Lacking(b, e.node.Keys));
    TookWhole(d, g, first, a + b);
  }

  ghost predicate Plus(before: set<Place>, after: set<Place>, places: set<Place>) { after == before + places }

  ghost function Lacking(places: set<Place>, there: set<Place>): nat { |places - there| }

  lemma TookParts(d: Disk, g: Disk, first: nat, places: set<Place>)
    requires Took(d, g, first, places)
    ensures Onto(d.node, g.node) && Plus(d.node.Keys, g.node.Keys, places)
    ensures Shifted(d.used, g.used, first, Lacking(places, d.node.Keys))
  {
  }

  lemma TookWhole(d: Disk, g: Disk, first: nat, places: set<Place>)
    requires Onto(d.node, g.node) && Plus(d.node.Keys, g.node.Keys, places)
    requires Shifted(d.used, g.used, first, Lacking(places, d.node.Keys))
    ensures Took(d, g, first, places)
  {
    hide Onto, Shifted;
  }

  lemma MissingTwice(there: set<Place>, mid: set<Place>, end: set<Place>, a: set<Place>, b: set<Place>)
    requires Plus(there, mid, a) && Plus(mid, end, b)
    ensures Plus(there, end, a + b) && Lacking(a + b, there) == Lacking(a, there) + Lacking(b, mid)
  {
    assert end == there + (a + b);
    assert (a + b) - there == (a - there) + (b - mid);
  }

  lemma TookNone(d: Disk, g: Disk, first: nat)
    requires g.node == d.node && g.used == d.used
    ensures Took(d, g, first, {})
  {
    assert {} - d.node.Keys == {};
    ShiftedNone(d.used, first);
  }

  /** What a walk adds, as positions. */
  lemma WalkTook(d: Disk, g: Disk, first: nat, i: nat, k: nat)
    requires Inv(d, first) && Grew(d, g, i) && k < MAX_BLOCKS && g.node.Keys == d.node.Keys + TrailOf(i, k)
    requires Shifted(d.used, g.used, first, MissingFor(d.node, i, k))
    ensures Took(d, g, first, TrailOf(i, k))
  {
    hide Inv, TrailOf, Shifted, MissingFor, Grew, Onto;
    GrewOnto(d, g, i);
    MissingForCount(d, first, i, k);
  }

  /** The free blocks are those without a position. */
  lemma FreeCount(d: Disk, first: nat)
    requires Inv(d, first) && first <= |d.used|
    ensures |Free(d.used, first)| + |d.node| == |d.used| - first
  {
    hide Rooted, Linked;
    var all := BlockRange(first, |d.used| - first);
    assert all == Free(d.used, first) + d.home.Keys;
    assert Free(d.used, first) !! d.home.Keys;
    Counterparts(d.node, d.home);
  }

  ghost function BlockRange(first: int, n: nat): (r: set<int>)
    ensures (forall b :: b in r <==> first <= b < first + n) && |r| == n
  {
    if n == 0 then {} else BlockRange(first, n - 1) + {first + n - 1}
  }

  lemma {:induction false} Counterparts(node: map<Place, nat>, home: map<nat, Place>)
    requires forall p :: p in node ==> node[p] in home && home[node[p]] == p
    requires forall b :: b in home ==> home[b] in node && node[home[b]] == b
    ensures |node| == |home|
    decreases |node|
  {
    if |node| > 0 {
      var p :| p in node;
      Counterparts(node - {p}, home - {node[p]});
    }
  }

  lemma GrewOnto(d: Disk, g: Disk, i: nat)
    requires Grew(d, g, i)
    ensures Onto(d.node, g.node)
  {
  }

  lemma OntoTrans(a: map<Place, nat>, b: map<Place, nat>, c: map<Place, nat>)
    requires Onto(a, b) && Onto(b, c)
    ensures Onto(a, c)
  {
  }

  lemma GrewRefl(d: Disk, i: nat)
    ensures Grew(d, d, i)
  {
  }

  lemma GrewTrans(d: Disk, e: Disk, g: Disk, i: nat)
    requires Grew(d, e, i) && Grew(e, g, i)
    ensures Grew(d, g, i)
  {
    hide DataAt;
  }

  lemma EntryFacts(d: Disk, first: nat, p: Place, i: nat)
    requires Inv(d, first) && p in d.node && p.Level() >= 1 && i < FANOUT
    ensures first <= d.node[p] < |d.pages| == |d.used| <= 0x1_0000_0000
    ensures Word(d.pages[d.node[p]], i) != 0 <==> Below(p, i) in d.node
    ensures Below(p, i) in d.node ==> d.node[Below(p, i)] == Word(d.pages[d.node[p]], i)
  {
    hide Word;
    assert LinkedAt(d, p, i);
  }

  lemma BlockNumber(d: Disk, first: nat, p: Place)
    requires Inv(d, first)
    ensures p in d.node ==> 0 < first <= d.node[p] < |d.pages| && d.node[p] in d.home && d.home[d.node[p]] == p
  {
  }

  lemma TopFacts(d: Disk, first: nat, i: nat, s: nat)
    requires Inv(d, first) && i < |d.tops| && s < SLOTS
    ensures |d.tops[i]| == SLOTS && |d.pages| == |d.used| <= 0x1_0000_0000 && first > 0
    ensures d.tops[i][s] != 0 <==> Top(i, s) in d.node
    ensures Top(i, s) in d.node ==> d.node[Top(i, s)] == d.tops[i][s]
  {
    assert RootedAt(d, i, s);
  }

  lemma GrewEntry(d: Disk, first: nat, p: Place, i: nat, b: nat)
    requires Inv(d, first) && p in d.node && p.Level() >= 1 && i < FANOUT && Below(p, i) !in d.node
    requires first <= b < |d.used| && !d.used[b]
    ensures d.node[p] < |d.pages| == |d.used| <= 0x1_0000_0000
    ensures Inv(AttachEntry(d, p, i, b), first) && Grew(d, AttachEntry(d, p, i, b), p.Ino()) && b != d.node[p]
  {
    hide Inv, SameData, PutWord, ZeroPage;
    FreshBlock(d, first, b);
    EntryFacts(d, first, p, i);
    AttachEntryKeeps(d, first, p, i, b);
    AttachEntryData(d, first, p, i, b);
    OneUp(Below(p, i), 0);
  }

  lemma GrewTop(d: Disk, first: nat, i: nat, s: nat, b: nat)
    requires Inv(d, first) && i < |d.tops| && s < SLOTS && Top(i, s) !in d.node
    requires first <= b < |d.used| && !d.used[b]
    ensures |d.tops[i]| == SLOTS && |d.pages| == |d.used|
    ensures Inv(AttachTop(d, i, s, b), first) && Grew(d, AttachTop(d, i, s, b), i)
  {
    hide Inv, SameData, ZeroPage;
    TopFacts(d, first, i, s);
    AttachTopKeeps(d, first, i, s, b);
    AttachTopData(d, first, i, s, b);
  }

  // ---------------------------------------------------- how far the walk reaches

  /** The blocks the walk to block k adds, taken from rank o on: the one behind a slot of the
      inode must fit a C int, those behind index entries must also be found near enough. */
  ghost predicate WalkReach(used: seq<bool>, first: nat, node: map<Place, nat>, i: nat, k: nat, o: nat)
    requires k < MAX_BLOCKS
  {
    ReachFrom(used, first, Top(i, SlotOf(k)) in node, MissingFor(node, i, k), o)
  }

  ghost predicate ReachFrom(used: seq<bool>, first: nat, rooted: bool, m: nat, o: nat) {
    if rooted then Reach(used, first, o, o + m, EntryLimit(first))
    else Reach(used, first, o, o + 1, INT_LIMIT) && Reach(used, first, o + 1, o + m, EntryLimit(first))
  }

  /** The same for all blocks from lo up to hi, one after the other. */
  ghost predicate Reaches(d: Disk, first: nat, i: nat, lo: nat, hi: nat)
    requires hi <= MAX_BLOCKS
    decreases hi
  {
    hi <= lo || (Reaches(d, first, i, lo, hi - 1) && BlockReach(d, first, i, lo, hi - 1))
  }

  ghost predicate BlockReach(d: Disk, first: nat, i: nat, lo: nat, k: nat)
    requires k < MAX_BLOCKS
  {
    var o, m := Needed(d.node, i, lo, k), Needed(d.node, i, lo, k + 1);
    m >= o && ReachFrom(d.used, first, Top(i, SlotOf(k)) in d.node.Keys + Trails(i, lo, k), m - o, o)
  }

  /** A write of this range, if it is not too long, loses neither a block nor a pointer. */
  ghost predicate InReach(d: Disk, first: nat, i: nat, offset: nat, length: nat) {
    offset + length <= MAX_SIZE && BlocksTo(offset, length) <= MAX_BLOCKS ==>
      Reaches(d, first, i, offset / PAGE_SIZE, BlocksTo(offset, length))
  }

  /** What a write that lacks space gets done: up to the last block boundary it can pay for. */
  ghost predicate Affords(d: Disk, first: nat, i: nat, offset: nat, length: nat, done: nat) {
    && done < length && AtBoundary(offset, done, length)
    && Enough(d, first, i, offset, done) && !Enough(d, first, i, offset, NextStop(offset, done, length))
  }

  function NextStop(offset: nat, done: nat, length: nat): nat {
    Least(length, done + PAGE_SIZE - (offset + done) % PAGE_SIZE)
  }

  /** Between two chunks: the lowest free blocks have gone, and none out of reach. */
  ghost predicate Filled(d: Disk, first: nat, used: seq<bool>, i: nat, lo: nat, hi: nat) {
    hi <= MAX_BLOCKS && Reaches(d, first, i, lo, hi) && Shifted(d.used, used, first, Needed(d.node, i, lo, hi))
  }

  lemma FilledNone(d: Disk, first: nat, i: nat, lo: nat)
    requires lo <= MAX_BLOCKS
    ensures Filled(d, first, d.used, i, lo, lo)
  {
    hide Shifted;
    NoneNeeded(d.node, i, lo);
    ShiftedNone(d.used, first);
  }

  /** The walk to the next block reaches as far now as it was found to from the start. */
  lemma FilledReach(d: Disk, first: nat, e: Disk, i: nat, lo: nat, hi: nat)
    requires Inv(e, first) && Charged(d, first, e.node, e.used, i, lo, hi) && Filled(d, first, e.used, i, lo, hi)
    requires hi < MAX_BLOCKS
    ensures WalkReach(e.used, first, e.node, i, hi, 0) <==> BlockReach(d, first, i, lo, hi)
    ensures Needed(d.node, i, lo, hi + 1) == Needed(d.node, i, lo, hi) + MissingFor(e.node, i, hi)
  {
    hide Inv, Free, MissingFor, Trails, TrailOf, Needed, Shifted, Reaches, SlotOf, ReachFrom;
    MissingForCount(e, first, i, hi);
    NeededNext(d.node, e.node, i, lo, hi, MissingFor(e.node, i, hi));
    ShiftedFrom(d.used, e.used, first, Needed(d.node, i, lo, hi), Top(i, SlotOf(hi)) in e.node,
                MissingFor(e.node, i, hi));
  }

  lemma ShiftedFrom(a: seq<bool>, b: seq<bool>, first: nat, o: nat, rooted: bool, m: nat)
    requires Shifted(a, b, first, o)
    ensures ReachFrom(b, first, rooted, m, 0) <==> ReachFrom(a, first, rooted, m, o)
  {
    hide Reach, Shifted, EntryLimit;
    ShiftedReach(a, b, first, o, 0, m, EntryLimit(first));
    ShiftedReach(a, b, first, o, 0, 1, INT_LIMIT);
    ShiftedReach(a, b, first, o, 1, m, EntryLimit(first));
  }

  lemma FilledStep(d: Disk, first: nat, e: Disk, used: seq<bool>, i: nat, lo: nat, hi: nat)
    requires lo <= hi < MAX_BLOCKS && Filled(d, first, e.used, i, lo, hi) && BlockReach(d, first, i, lo, hi)
    requires Needed(d.node, i, lo, hi + 1) == Needed(d.node, i, lo, hi) + MissingFor(e.node, i, hi)
    requires Shifted(e.used, used, first, MissingFor(e.node, i, hi))
    ensures Filled(d, first, used, i, lo, hi + 1)
  {
    hide MissingFor, Needed, Shifted, BlockReach;
    ShiftedTrans(d.used, e.used, used, first, Needed(d.node, i, lo, hi), MissingFor(e.node, i, hi));
  }

  lemma FilledDone(d: Disk, first: nat, used: seq<bool>, i: nat, offset: nat, length: nat)
    requires Filled(d, first, used, i, offset / PAGE_SIZE, BlocksTo(offset, length))
    ensures InReach(d, first, i, offset, length)
  {
    hide Reaches, Shifted, Needed, BlocksTo;
  }

  lemma {:induction false} ReachesBefore(d: Disk, first: nat, i: nat, lo: nat, hi: nat, end: nat)
    requires hi <= end <= MAX_BLOCKS && Reaches(d, first, i, lo, end)
    ensures Reaches(d, first, i, lo, hi)
    decreases end - hi
  {
    hide BlockReach;
    if hi < end && lo < end { ReachesBefore(d, first, i, lo, hi, end - 1); }
  }

  lemma OutOfReach(d: Disk, first: nat, i: nat, offset: nat, length: nat, hi: nat)
    requires offset + length <= MAX_SIZE && offset / PAGE_SIZE <= hi < BlocksTo(offset, length) <= MAX_BLOCKS
    requires !BlockReach(d, first, i, offset / PAGE_SIZE, hi)
    ensures !InReach(d, first, i, offset, length)
  {
    hide BlocksTo, BlockReach;
    if InReach(d, first, i, offset, length) {
      ReachesBefore(d, first, i, offset / PAGE_SIZE, hi + 1, BlocksTo(offset, length));
    }
  }

  /** Once the free blocks are spent, nothing more is taken. */
  lemma {:induction false} ReachesRest(d: Disk, first: nat, i: nat, lo: nat, hi: nat, end: nat)
    requires lo <= hi <= end <= MAX_BLOCKS && Reaches(d, first, i, lo, hi)
    requires |Free(d.used, first)| <= Needed(d.node, i, lo, hi)
    ensures Reaches(d, first, i, lo, end)
    decreases end - hi
  {
    hide Free, Needed, Reach, SlotOf, EntryLimit, Trails;
    if hi < end {
      ReachesRest(d, first, i, lo, hi, end - 1);
      NeededMore(d.node, i, lo, hi, end - 1);
      NeededMore(d.node, i, lo, end - 1, end);
      var o, m := Needed(d.node, i, lo, end - 1), Needed(d.node, i, lo, end);
      ReachVoid(d.used, first, o, m, EntryLimit(first));
      ReachVoid(d.used, first, o, o + 1, INT_LIMIT);
      ReachVoid(d.used, first, o + 1, m, EntryLimit(first));
    }
  }

  /** The state of a write between two chunks, n bytes done. */
  ghost predicate Underway(d: Disk, first: nat, e: Disk, i: nat, offset: nat, length: nat, n: nat) {
    && AtBoundary(offset, n, length) && Charged(d, first, e.node, e.used, i, offset / PAGE_SIZE, BlocksTo(offset, n))
    && Filled(d, first, e.used, i, offset / PAGE_SIZE, BlocksTo(offset, n)) && Onto(d.node, e.node)
  }

  lemma UnderwayStart(d: Disk, first: nat, i: nat, offset: nat, length: nat)
    requires offset + length <= MAX_SIZE
    ensures Underway(d, first, d, i, offset, length, 0)
  {
    hide BlocksTo, Charged, Filled, AtBoundary;
    BlocksToBound(offset, length);
    ChargeNone(d, first, i, offset / PAGE_SIZE);
    FilledNone(d, first, i, offset / PAGE_SIZE);
  }

  lemma WritingFacts(d: Disk, first: nat, e: Disk, i: nat, offset: nat, data: seq<Byte>, n: nat, size: nat)
    requires Writing(d, first, e, i, offset, data, n) && n < |data| && offset + |data| <= MAX_SIZE
    requires size == ChunkSize(offset + n, |data| - n)
    ensures Inv(e, first) && Underway(d, first, e, i, offset, |data|, n) && ChunkAt(offset, n, |data|, size)
    ensures BlockOf(offset + n) < MAX_BLOCKS && |e.pages| == |d.pages|
  {
    hide Inv, Underway, Wrote, ChunkSize, BlockOf, WalkReach, BlockReach, BlocksTo;
    RoundStart(d, first, e, i, offset, |data|, n, size);
  }

  lemma WritingEnds(d: Disk, first: nat, e: Disk, g: Disk, i: nat, offset: nat, data: seq<Byte>, n: nat, size: nat)
    requires Writing(d, first, e, i, offset, data, n) && ChunkAt(offset, n, |data|, size)
    requires Wrote(e, g, i, offset + n, [])
    requires BlockOf(offset + n) < MAX_BLOCKS && WalkReach(e.used, first, e.node, i, BlockOf(offset + n), 0)
    requires |Free(e.used, first)| < MissingFor(e.node, i, BlockOf(offset + n))
    requires Onto(e.node, g.node) && g.node.Keys <= e.node.Keys + TrailOf(i, BlockOf(offset + n))
    ensures Wrote(d, g, i, offset, data[..n]) && Affords(d, first, i, offset, |data|, n)
    ensures !Enough(d, first, i, offset, |data|) && InReach(d, first, i, offset, |data|)
    ensures Strained(d, g, i, offset, n)
  {
    hide Inv, Underway, Wrote, ChunkSize, BlockOf, WalkReach, Enough, InReach, Affords, Free, MissingFor, Onto,
      TrailOf, Strained;
    WroteNoMore(d, e, g, i, offset, data, n);
    Unaffordable(d, first, e, i, offset, |data|, n, size);
    NowStrained(d, first, e, g, i, offset, |data|, n, size);
  }

  /** Where a write has run out of blocks after n bytes: all positions for those are there,
      and besides at most some on the way to the next block. */
  ghost predicate Strained(d: Disk, g: Disk, i: nat, offset: nat, n: nat) {
    var lo, hi := offset / PAGE_SIZE, BlocksTo(offset, n);
    && hi < MAX_BLOCKS && Onto(d.node, g.node) && Trails(i, lo, hi) <= g.node.Keys
    && g.node.Keys <= d.node.Keys + Trails(i, lo, hi + 1)
  }

  lemma NowStrained(d: Disk, first: nat, e: Disk, g: Disk, i: nat, offset: nat, length: nat, n: nat, size: nat)
    requires Underway(d, first, e, i, offset, length, n) && ChunkAt(offset, n, length, size) && Inv(e, first)
    requires BlockOf(offset + n) < MAX_BLOCKS
    requires Onto(e.node, g.node) && g.node.Keys <= e.node.Keys + TrailOf(i, BlockOf(offset + n))
    ensures Strained(d, g, i, offset, n)
  {
    hide Inv, Filled, Free, TrailOf, Trails, BlocksTo, Needed, AtBoundary;
    RoundStart(d, first, e, i, offset, length, n, size);
    OntoTrans(d.node, e.node, g.node);
    TrailsNext(i, offset / PAGE_SIZE, BlocksTo(offset, n));
  }

  lemma WritingNext(d: Disk, first: nat, e: Disk, g: Disk, i: nat, offset: nat, data: seq<Byte>, n: nat, size: nat)
    requires Writing(d, first, e, i, offset, data, n) && ChunkAt(offset, n, |data|, size)
    requires Inv(g, first) && |g.pages| == |e.pages| && n + size <= |data|
    requires Wrote(e, g, i, offset + n, data[n..n + size])
    requires BlockOf(offset + n) < MAX_BLOCKS && WalkReach(e.used, first, e.node, i, BlockOf(offset + n), 0)
    requires |Free(g.used, first)| == |Free(e.used, first)| - MissingFor(e.node, i, BlockOf(offset + n))
    requires Shifted(e.used, g.used, first, MissingFor(e.node, i, BlockOf(offset + n)))
    requires g.node.Keys == e.node.Keys + TrailOf(i, BlockOf(offset + n)) && Onto(e.node, g.node)
    ensures Writing(d, first, g, i, offset, data, n + size)
  {
    hide Inv, Underway, Wrote, ChunkSize, BlockOf, WalkReach, Free, MissingFor, Shifted, TrailOf, Onto;
    WroteMore(d, e, g, i, offset, data, n, size);
    RoundNext(d, first, e, g, i, offset, |data|, n, size);
  }

  /** The same with the bytes: the first n are in their blocks, and no other byte changed. */
  ghost predicate Writing(d: Disk, first: nat, e: Disk, i: nat, offset: nat, data: seq<Byte>, n: nat) {
    && n <= |data| && Inv(e, first) && |e.pages| == |d.pages|
    && Underway(d, first, e, i, offset, |data|, n) && Wrote(d, e, i, offset, data[..n])
  }

  function BlockOf(at: nat): nat { at / PAGE_SIZE }

  predicate InBlock(at: nat, length: nat) { at % PAGE_SIZE + length <= PAGE_SIZE }

  /** How much of the rest goes into the block at hand. */
  function ChunkSize(at: nat, left: nat): (r: nat)
    requires left > 0
    ensures 0 < r <= left && InBlock(at, r)
  {
    var size := PAGE_SIZE - at % PAGE_SIZE;
    if size > left then left else size
  }

  predicate ChunkAt(offset: nat, n: nat, length: nat, size: nat) {
    n < length && offset + length <= MAX_SIZE && size == ChunkSize(offset + n, length - n)
  }

  /** Whether the next chunk is in reach now is what BlockReach says from the start. */
  lemma RoundStart(d: Disk, first: nat, e: Disk, i: nat, offset: nat, length: nat, n: nat, size: nat)
    requires Underway(d, first, e, i, offset, length, n) && ChunkAt(offset, n, length, size) && Inv(e, first)
    ensures BlockOf(offset + n) == BlocksTo(offset, n) < BlocksTo(offset, length) <= MAX_BLOCKS
    ensures WalkReach(e.used, first, e.node, i, BlockOf(offset + n), 0) <==>
              BlockReach(d, first, i, offset / PAGE_SIZE, BlockOf(offset + n))
  {
    hide BlocksTo, Charged, Filled, AtBoundary, WalkReach, BlockReach, Inv, MissingFor, Needed;
    NextBlock(offset, n, size, length);
    FilledReach(d, first, e, i, offset / PAGE_SIZE, BlocksTo(offset, n));
  }

  lemma RoundLost(d: Disk, first: nat, e: Disk, i: nat, offset: nat, length: nat, n: nat, size: nat)
    requires Underway(d, first, e, i, offset, length, n) && ChunkAt(offset, n, length, size) && Inv(e, first)
    requires BlockOf(offset + n) < MAX_BLOCKS && !WalkReach(e.used, first, e.node, i, BlockOf(offset + n), 0)
    ensures !InReach(d, first, i, offset, length)
  {
    hide BlocksTo, Filled, AtBoundary, WalkReach, BlockReach, Inv, InReach, Trails, Needed, Free;
    RoundStart(d, first, e, i, offset, length, n, size);
    OutOfReach(d, first, i, offset, length, BlocksTo(offset, n));
  }

  lemma RoundNext(d: Disk, first: nat, e: Disk, g: Disk, i: nat, offset: nat, length: nat, n: nat, size: nat)
    requires Underway(d, first, e, i, offset, length, n) && ChunkAt(offset, n, length, size) && Inv(e, first)
    requires BlockOf(offset + n) < MAX_BLOCKS && WalkReach(e.used, first, e.node, i, BlockOf(offset + n), 0)
    requires |Free(g.used, first)| == |Free(e.used, first)| - MissingFor(e.node, i, BlockOf(offset + n))
    requires Shifted(e.used, g.used, first, MissingFor(e.node, i, BlockOf(offset + n)))
    requires g.node.Keys == e.node.Keys + TrailOf(i, BlockOf(offset + n)) && Onto(e.node, g.node)
    ensures Underway(d, first, g, i, offset, length, n + size)
  {
    hide BlocksTo, Charged, Filled, AtBoundary, WalkReach, BlockReach, Inv, MissingFor, Needed, Free, Shifted,
      TrailOf, Onto;
    OntoTrans(d.node, e.node, g.node);
    RoundStart(d, first, e, i, offset, length, n, size);
    NextBlock(offset, n, size, length);
    ChargedBound(d, first, e.node, e.used, i, offset / PAGE_SIZE, BlocksTo(offset, n));
    FilledReach(d, first, e, i, offset / PAGE_SIZE, BlocksTo(offset, n));
    FilledStep(d, first, e, g.used, i, offset / PAGE_SIZE, BlocksTo(offset, n));
    ChargeStep(d, first, e, g.node, g.used, i, offset / PAGE_SIZE, BlocksTo(offset, n));
  }

  lemma ChargedBound(d: Disk, first: nat, node: map<Place, nat>, used: seq<bool>, i: nat, lo: nat, hi: nat)
    requires Charged(d, first, node, used, i, lo, hi)
    ensures lo <= hi <= MAX_BLOCKS
  {
  }

  lemma UnderwayDone(d: Disk, first: nat, e: Disk, i: nat, offset: nat, length: nat)
    requires Underway(d, first, e, i, offset, length, length) && offset + length <= MAX_SIZE
    ensures Enough(d, first, i, offset, length) && InReach(d, first, i, offset, length)
    ensures BlocksTo(offset, length) <= MAX_BLOCKS
    ensures Took(d, e, first, Trails(i, offset / PAGE_SIZE, BlocksTo(offset, length)))
  {
    hide BlocksTo, AtBoundary, Enough, InReach, Trails, Shifted, Reaches, Onto, Free;
    ChargeDone(d, first, e.node, e.used, i, offset, length);
    FilledDone(d, first, e.used, i, offset, length);
  }

  /** A chunk for which the blocks do not suffice: how far the write got, and that nothing
      was out of reach. */
  lemma Unaffordable(d: Disk, first: nat, e: Disk, i: nat, offset: nat, length: nat, n: nat, size: nat)
    requires Underway(d, first, e, i, offset, length, n) && ChunkAt(offset, n, length, size) && Inv(e, first)
    requires BlockOf(offset + n) < MAX_BLOCKS && WalkReach(e.used, first, e.node, i, BlockOf(offset + n), 0)
    requires |Free(e.used, first)| < MissingFor(e.node, i, BlockOf(offset + n))
    ensures Affords(d, first, i, offset, length, n) && !Enough(d, first, i, offset, length)
    ensures InReach(d, first, i, offset, length)
  {
    hide Inv, Free, MissingFor, BlocksTo, Enough, Trails, Needed, Shifted, BlockReach, AtBoundary, WalkReach;
    var lo, hi := offset / PAGE_SIZE, BlocksTo(offset, n);
    RoundStart(d, first, e, i, offset, length, n, size);
    NextBlock(offset, n, size, length);
    ChargeDone(d, first, e.node, e.used, i, offset, n);
    ChargeFails(d, first, e, i, offset, n + size, hi);
    ChargeFails(d, first, e, i, offset, length, hi);
    assert NextStop(offset, n, length) == n + size;
    FilledReach(d, first, e, i, lo, hi);
    ReachesRest(d, first, i, lo, hi + 1, BlocksTo(offset, length));
  }

  lemma LimitFacts(used: seq<bool>, first: nat)
    ensures !Reach(used, first, 0, 1, INT_LIMIT) ==> !Reach(used, first, 0, 1, EntryLimit(first))
    ensures Free(used, first) == {} ==> Reach(used, first, 0, 1, EntryLimit(first))
  {
    hide Rank, Free;
    if Free(used, first) == {} { EmptyReach(used, first, 0, 1, EntryLimit(first)); }
  }

  lemma EmptyReach(used: seq<bool>, first: nat, lo: nat, hi: nat, limit: nat)
    requires Free(used, first) == {}
    ensures Reach(used, first, lo, hi, limit)
  {
  }

  lemma NearFacts(first: nat, b: nat)
    requires b < INT_LIMIT
    ensures b < EntryLimit(first) <==> b < NearLimit(first)
  {
  }

  class MyFs {
    const first: nat            // first data block
    var inodes: seq<Inode>
    var live: seq<bool>
    var open: seq<nat>          // open references per inode
    var pages: seq<Page>
    var used: seq<bool>
    var broken: bool            // a store went astray or a block was lost: no promise any more
    ghost var node: map<Place, nat>
    ghost var home: map<nat, Place>

    /** The block structure when the inodes' pointers are `tops`. */
    ghost function View(tops: seq<seq<nat>>): Disk
      reads this`node, this`home, this`pages, this`used
    {
      Disk(node, home, tops, pages, used)
    }

    predicate IsFile(i: nat)
      reads this`inodes, this`live
    {
      0 < i < |inodes| && i < |live| && live[i] && inodes[i].kind == FILE
    }

    ghost predicate Valid()
      reads this
    {
      && |live| == |inodes| && |open| == |inodes|
      && (forall i :: 0 <= i < |inodes| ==> |inodes[i].slots| == SLOTS)
      && (forall i :: 0 <= i < |inodes| && live[i] ==> inodes[i].size <= MAX_SIZE)
      && Inv(View(Tops(inodes, live)), first)
    }

    /** fs_init: the structures of a disk that passed the mount check, nothing open. */
    constructor (first: nat, inodes: seq<Inode>, live: seq<bool>, pages: seq<Page>, used: seq<bool>,
                 ghost node: map<Place, nat>, ghost home: map<nat, Place>)
      requires |live| == |inodes| && (forall i :: 0 <= i < |inodes| ==> |inodes[i].slots| == SLOTS)
      requires forall i :: 0 <= i < |inodes| && live[i] ==> inodes[i].size <= MAX_SIZE
      requires Inv(Disk(node, home, Tops(inodes, live), pages, used), first)
      ensures Valid() && this.first == first && this.inodes == inodes && this.live == live && this.pages == pages
      ensures this.used == used && this.node == node && this.home == home
      ensures forall i :: 0 <= i < |open| ==> open[i] == 0
      ensures !broken
    {
      this.first, this.inodes, this.live, this.pages, this.used := first, inodes, live, pages, used;
      this.node, this.home, broken := node, home, false;
      open := seq(|inodes|, _ => 0);
    }

    // ------------------------------------------------------------ allocation

    /** alloc_data_block: the lowest free block f, zeroed. Its number passes through a C int,
        so a block from 2^31 on is marked used but reported as a failure. */
    method AllocDataBlock() returns (b: int, ghost f: nat)
      requires |used| == |pages| <= 0x1_0000_0000 && !broken
      modifies this`used, this`pages, this`broken
      ensures broken <==> !Reach(old(used), first, 0, 1, INT_LIMIT)
      ensures b == -1 <==> broken || Free(old(used), first) == {}
      ensures Free(old(used), first) != {} ==> Lowest(old(used), first, f) && Shifted(old(used), used, first, 1)
      ensures Free(old(used), first) == {} ==> b == -1 && used == old(used) && pages == old(pages)
      ensures Free(old(used), first) != {} ==> first <= f < |old(used)| && !old(used)[f] && used == old(used)[f := true]
      ensures Free(old(used), first) != {} ==> forall c :: first <= c < f ==> old(used)[c]
      ensures Free(old(used), first) != {} && f < INT_LIMIT ==> b == f && pages == old(pages)[f := ZeroPage()]
      ensures Free(old(used), first) != {} && f >= INT_LIMIT ==> b == -1 && pages == old(pages)
    {
      hide Reach, Shifted;
      var bit := first;
      f := 0;
      while bit < |used|
        invariant first <= bit && used == old(used) && pages == old(pages) && !broken
        invariant forall c :: first <= c < bit && c < |used| ==> used[c]
      {
        if !used[bit] {
          assert bit in Free(used, first);
          ReachFirst(used, first, bit, INT_LIMIT);
          ShiftedOne(used, first, bit);
          used := used[bit := true];
          if Signed(bit) < 0 {
            broken := true;
            return -1, bit;
          }
          pages := pages[bit := ZeroPage()];
          return bit, bit;
        }
        bit := bit + 1;
      }
      assert Free(used, first) == {};
      ReachVoid(used, first, 0, 1, INT_LIMIT);
      return -1, 0;
    }

    /** bitmap_free on the data bitmap; only ever called on a block in use. */
    method FreeBlock(b: nat)
      requires b < |used| && used[b]
      modifies this`used
      ensures used == old(used)[b := false]
    {
      used := used[b := false];
    }

    // -------------------------------------------------------------- the walk

    /** One step of inode_data_block through entry i of the index block at p. The block is
        looked up before the allocation and stored into afterwards; if the search went past
        fourteen bitmap blocks, its cache line holds another block by then. */
    method Entry(ghost tops: seq<seq<nat>>, ghost p: Place, block: nat, i: nat, create: bool)
      returns (res: int, child: nat)
      requires Inv(View(tops), first) && p in node && node[p] == block && p.Level() >= 1 && i < FANOUT && !broken
      modifies this`pages, this`used, this`node, this`home, this`broken
      ensures broken <==> create && Below(p, i) !in old(node) && !Reach(old(used), first, 0, 1, EntryLimit(first))
      ensures !broken ==> Inv(View(tops), first) && Grew(old(View(tops)), View(tops), p.Ino())
      ensures !broken ==> (res == -1 <==> create && Below(p, i) !in old(node) && Free(old(used), first) == {})
      ensures res == -1 || res == 0
      ensures !broken && (!create || Below(p, i) in old(node) || res == -1) ==> View(tops) == old(View(tops))
      ensures !broken && res == 0 ==> child == if Below(p, i) in node then node[Below(p, i)] else 0
      ensures !broken && res == 0 && create ==> Below(p, i) in node
      ensures !broken ==> |used| == |old(used)|
      ensures !broken && res == 0 && create && Below(p, i) !in old(node) ==>
        node == old(node)[Below(p, i) := child] && |Free(used, first)| == |Free(old(used), first)| - 1
      ensures !broken && res == 0 && create && Below(p, i) !in old(node) ==> Shifted(old(used), used, first, 1)
      ensures !broken && res == 0 && create ==> node.Keys == old(node).Keys + {Below(p, i)}
    {
      hide Inv, Grew, Word, PutWord, ZeroPage, Free, Reach, Shifted, EntryLimit;
      ghost var d := View(tops);
      EntryFacts(d, first, p, i);
      GrewRefl(d, p.Ino());
      LimitFacts(d.used, first);
      child := Word(pages[block], i);
      if child == 0 && create {
        var b; ghost var f;
        b, f := AllocDataBlock();
        if b < 0 { return -1, 0; }
        ReachFirst(d.used, first, b, EntryLimit(first));
        if b >= NearLimit(first) {
          NearFacts(first, b);
          Stray();
          return 0, b;
        }
        NearFacts(first, b);
        GrewEntry(d, first, p, i, b);
        FreeTaken(d.used, first, b);
        pages := pages[block := PutWord(pages[block], i, b)];
        node, home := node[Below(p, i) := b], home[b := Below(p, i)];
        assert View(tops) == AttachEntry(d, p, i, b);
        child := b;
      }
      return 0, child;
    }

    /** A store through a pointer whose cache line has been reused: some block, which one is
        not said, gets other bytes. */
    method Stray()
      modifies this`pages, this`broken
      ensures broken
    {
      broken := true;
      var hit: nat, bytes: Page :| true;
      if hit < |pages| { pages := pages[hit := bytes]; }
    }

    /** The rest of the walk, entry by entry. It succeeds exactly when the missing blocks
        can all be had, and adds exactly those. */
    method Follow(ghost tops: seq<seq<nat>>, ghost p: Place, block: nat, path: seq<nat>, create: bool)
      returns (res: int, b: nat)
      requires Inv(View(tops), first) && p in node && node[p] == block && p.Level() == |path| && !broken
      requires forall j :: 0 <= j < |path| ==> path[j] < FANOUT
      modifies this`pages, this`used, this`node, this`home, this`broken
      ensures broken <==> create && !Reach(old(used), first, 0, Missing(old(node), p, path), EntryLimit(first))
      ensures !broken ==> Inv(View(tops), first) && Grew(old(View(tops)), View(tops), p.Ino())
      ensures res == -1 || res == 0
      ensures !broken ==> (res == 0 <==> !create || Missing(old(node), p, path) <= |Free(old(used), first)|)
      ensures !create ==> View(tops) == old(View(tops))
      ensures !broken && res == 0 ==> b == if Extend(p, path) in node then node[Extend(p, path)] else 0
      ensures !broken && res == 0 && create ==> Extend(p, path) in node
      ensures !broken && res == 0 && create ==>
        |Free(used, first)| == |Free(old(used), first)| - Missing(old(node), p, path)
      ensures !broken && res == 0 && create ==> Shifted(old(used), used, first, Missing(old(node), p, path))
      ensures !broken && res == 0 && create ==> node.Keys == old(node).Keys + Trail(p, path)
      ensures !broken && res == -1 ==> Free(used, first) == {}
      ensures !broken && create ==> node.Keys <= old(node).Keys + Trail(p, path)
      decreases |path|
    {
      hide Inv, Grew, Free, Reach, Shifted, EntryLimit;
      ghost var d := View(tops);
      ghost var m := Missing(node, p, path);
      ShiftedNone(used, first);
      if path == [] {
        GrewRefl(d, p.Ino());
        ReachVoid(used, first, 0, 0, EntryLimit(first));
        return 0, block;
      }
      var child;
      res, child := Entry(tops, p, block, path[0], create);
      ghost var q := Below(p, path[0]);
      OneUp(q, 0);
      if q !in d.node { ReachSplit(d.used, first, 0, 1, m, EntryLimit(first)); }
      if broken { return res, child; }
      if res != 0 {
        EmptyReach(d.used, first, 1, m, EntryLimit(first));
        return res, 0;
      }
      BlockNumber(View(tops), first, q);
      if child == 0 {
        Absent(View(tops), first, q, path[1..]);
        return 0, 0;
      }
      ghost var e := View(tops);
      if q !in d.node {
        MissingChild(d, first, q, path[1..], node, child);
        if create { ShiftedReach(d.used, e.used, first, 1, 0, m - 1, EntryLimit(first)); }
      }
      res, b := Follow(tops, q, child, path[1..], create);
      if !broken {
        GrewTrans(d, e, View(tops), p.Ino());
        if create && res == 0 && q !in d.node { ShiftedTrans(d.used, e.used, used, first, 1, m - 1); }
      }
    }

    /** inode_data_block on a copy of inode i. With `create` it succeeds exactly when the
        blocks missing on the way are not more than the free ones; a failure has used up
        the free blocks, all of them still reachable from the copy it returns. */
    method InodeDataBlock(ghost tops: seq<seq<nat>>, ghost i: nat, inode: Inode, k: nat, create: bool)
      returns (res: int, b: nat, now: Inode)
      requires i < |tops| && tops[i] == inode.slots && Inv(View(tops), first) && !broken
      modifies this`pages, this`used, this`node, this`home, this`broken
      ensures broken <==> create && k < MAX_BLOCKS && !WalkReach(old(used), first, old(node), i, k, 0)
      ensures !broken ==> Inv(View(tops[i := now.slots]), first) && Grew(old(View(tops)), View(tops[i := now.slots]), i)
      ensures !broken ==> SlotsGrew(inode, now, k)
      ensures res == -1 || res == 0
      ensures k >= MAX_BLOCKS ==> res == -1 && now == inode && View(tops) == old(View(tops))
      ensures k < MAX_BLOCKS && !broken ==>
        (res == 0 <==> !create || MissingFor(old(node), i, k) <= |Free(old(used), first)|)
      ensures !create ==> now == inode && View(tops) == old(View(tops))
      ensures !broken && res == 0 ==> b == if PosOf(i, k) in node then node[PosOf(i, k)] else 0
      ensures !broken && res == 0 && create ==> PosOf(i, k) in node
      ensures !broken && res == 0 && create ==>
        |Free(used, first)| == |Free(old(used), first)| - MissingFor(old(node), i, k)
      ensures !broken && res == 0 && create ==> Shifted(old(used), used, first, MissingFor(old(node), i, k))
      ensures !broken && res == 0 && create ==> node.Keys == old(node).Keys + TrailOf(i, k)
      ensures !broken && res == -1 && k < MAX_BLOCKS ==> Free(used, first) == {}
      ensures !broken && create && k < MAX_BLOCKS ==> node.Keys <= old(node).Keys + TrailOf(i, k)
      ensures !broken && k < MAX_BLOCKS && create ==>
        (now != inode <==> Top(i, SlotOf(k)) !in old(node) && Free(old(used), first) != {})
    {
      hide Inv, Grew, Free, ZeroPage, Extend, PathOf, SlotOf, Missing, Trail, Reach, Shifted, EntryLimit;
      ghost var d := View(tops);
      GrewRefl(d, i);
      now := inode;
      assert tops[i := now.slots] == tops;
      TopFacts(d, first, i, 0);
      if k >= MAX_BLOCKS { return -1, 0, now; }
      var slot, path := SlotOf(k), PathOf(k);
      PathFacts(k);
      TrailHead(Top(i, slot), path);
      TopFacts(d, first, i, slot);
      var top := inode.slots[slot];
      ghost var p := Top(i, slot);
      if top == 0 && create {
        var n; ghost var f;
        n, f := AllocDataBlock();
        if broken { return -1, 0, now; }
        if n < 0 {
          EmptyFree(d.used, first);
          EmptyReach(d.used, first, 1, |path| + 1, EntryLimit(first));
          return -1, 0, now;
        }
        GrewTop(d, first, i, slot, n);
        FreeTaken(d.used, first, n);
        now := inode.(slots := inode.slots[slot := n]);
        node, home := node[p := n], home[n := p];
        assert View(tops[i := now.slots]) == AttachTop(d, i, slot, n);
        MissingChild(d, first, p, path, node, n);
        ShiftedReach(d.used, used, first, 1, 0, |path|, EntryLimit(first));
        top := n;
      }
      if top == 0 {
        Absent(d, first, p, path);
        return 0, 0, now;
      }
      ghost var e := View(tops[i := now.slots]);
      res, b := Follow(tops[i := now.slots], p, top, path, create);
      if !broken {
        GrewTrans(d, e, View(tops[i := now.slots]), i);
        if create && res == 0 && p !in d.node { ShiftedTrans(d.used, e.used, used, first, 1, |path|); }
      }
    }

    // --------------------------------------------------------------- reading

    /** fs_read_inode: the bytes from `offset` on, as far as the file goes. */
    method ReadInode(i: nat, offset: nat, length: nat) returns (res: int, out: seq<Byte>)
      requires Valid() && offset < 0x1_0000_0000_0000_0000 && length < 0x1_0000_0000 && (0 < i < |inodes| ==> live[i])
      requires !broken
      modifies this`pages, this`used, this`node, this`home, this`broken
      ensures !broken && View(Tops(inodes, live)) == old(View(Tops(inodes, live))) && Valid()
      ensures !IsFile(i) ==> res == -1 && out == []
      ensures IsFile(i) ==> |out| == Least(length, if offset < inodes[i].size then inodes[i].size - offset else 0)
      ensures IsFile(i) ==> CountIs(res, |out|)
      ensures IsFile(i) ==> forall k :: 0 <= k < |out| ==> out[k] == Content(View(Tops(inodes, live)), i, offset + k)
    {
      hide Inv, Free, ZeroPage, Content;
      out := [];
      if i == 0 || i >= |inodes| || inodes[i].kind != FILE { return -1, out; }
      var inode := inodes[i];
      if offset >= inode.size || length == 0 { return 0, out; }
      var n := if inode.size - offset < length then inode.size - offset else length;
      ghost var tops := Tops(inodes, live);
      ghost var d := View(tops);
      while |out| < n
        invariant |out| <= n && View(tops) == d && !broken
        invariant forall k :: 0 <= k < |out| ==> out[k] == Content(d, i, offset + k)
        decreases n - |out|
      {
        var at := offset + |out|;
        var chunk := PAGE_SIZE - at % PAGE_SIZE;
        if chunk > n - |out| { chunk := n - |out|; }
        var b, now;
        res, b, now := InodeDataBlock(tops, i, inode, at / PAGE_SIZE, false);
        ReadChunk(d, first, i, at, chunk, b);
        var piece: seq<Byte> := if b == 0 then ZeroPage()[..chunk] else pages[b][at % PAGE_SIZE..][..chunk];
        assert forall k :: 0 <= k < chunk ==> piece[k] == Content(d, i, at + k) by {
          ReadPiece(d, i, at, chunk, b, piece);
        }
        out := out + piece;
      }
      return Signed(|out|), out;
    }

    // --------------------------------------------------------------- freeing

    /** free_single_index_block, free_double_index_tree and free_triple_index_tree: every
        block at or below p is released, each exactly once, and no other. */
    method FreeTree(ghost d: Disk, ghost p: Place, block: nat, level: nat)
      requires Inv(d, first) && Frozen(d) && p in d.node && d.node[p] == block && p.Level() == level
      requires InUse(used, home, p)
      modifies this`used
      ensures Frozen(d) && Cleared(old(used), used, home, p)
      decreases level
    {
      hide Inv, Word, Cleared, ClearedVia, InUse;
      ClearedNone(used, home, p);
      if level > 0 {
        for i := 0 to FANOUT
          invariant Frozen(d) && ClearedVia(old(used), used, home, p, i)
        {
          EntryFacts(d, first, p, i);
          var child := Word(pages[block], i);
          ghost var before := used;
          if child != 0 {
            OneUp(Below(p, i), 0);
            StillInUse(old(used), used, home, p, i);
            FreeTree(d, Below(p, i), child, level - 1);
          } else {
            NoneVia(d, first, p, i);
          }
          ClearedNext(d, old(used), before, used, p, i, child != 0);
        }
      } else {
        NoneViaLeaf(d, first, old(used), used, p);
      }
      OwnBlock(d, first, old(used), used, p);
      ghost var mid := used;
      FreeBlock(block);
      ClearedAll(d, first, old(used), mid, used, p);
    }

    /** Nothing but the bitmap differs from d. */
    ghost predicate Frozen(d: Disk)
      reads this`node, this`home, this`pages, this`used
    {
      d.node == node && d.home == home && d.pages == pages && |d.used| == |used|
    }

    /** The tree behind one slot, if any. */
    method FreeSlot(ghost d: Disk, ghost i: nat, s: nat, top: nat, ghost done: set<nat>)
      requires Inv(d, first) && Frozen(d) && i < |d.tops| && s < SLOTS && |d.tops[i]| == SLOTS && d.tops[i][s] == top
      requires ClearedSlots(d.used, used, home, i, done) && s !in done
      modifies this`used
      ensures Frozen(d) && ClearedSlots(d.used, used, home, i, done + {s})
    {
      hide Inv, Cleared, ClearedSlots, InUse;
      TopFacts(d, first, i, s);
      ghost var before := used;
      if top != 0 {
        SlotInUse(d, first, used, i, s, done);
        FreeTree(d, Top(i, s), top, if s < DIRECT then 0 else s - DIRECT + 1);
      }
      ClearedSlot(d, first, before, used, i, s, done, top != 0);
    }

    /** free_inode_blocks: everything inode i points to, directly or not. */
    method FreeInodeBlocks(ghost d: Disk, ghost i: nat, slots: seq<nat>)
      requires Inv(d, first) && Frozen(d) && d.used == used && i < |d.tops| && d.tops[i] == slots && |slots| == SLOTS
      modifies this`used
      ensures Frozen(d) && ClearedSlots(d.used, used, home, i, Upto(SLOTS))
    {
      hide Inv, ClearedSlots;
      NoneSlots(d.used, home, i);
      for s := 0 to DIRECT
        invariant Frozen(d) && ClearedSlots(d.used, used, home, i, Upto(s))
      {
        FreeSlot(d, i, s, slots[s], Upto(s));
        assert Upto(s) + {s} == Upto(s + 1);
      }
      FreeSlot(d, i, DIRECT, slots[DIRECT], Upto(DIRECT));
      assert Upto(DIRECT) + {DIRECT} == Upto(DIRECT + 1);
      FreeSlot(d, i, DIRECT + 1, slots[DIRECT + 1], Upto(DIRECT + 1));
      assert Upto(DIRECT + 1) + {DIRECT + 1} == Upto(DIRECT + 2);
      FreeSlot(d, i, DIRECT + 2, slots[DIRECT + 2], Upto(DIRECT + 2));
      assert Upto(DIRECT + 2) + {DIRECT + 2} == Upto(SLOTS);
    }

    // --------------------------------------------------------------- writing

    /** index_entry; a block past the disk reads as an empty entry. */
    method IndexEntry(block: nat, i: nat) returns (w: nat)
      requires i < FANOUT
      ensures w == if block < |pages| then Word(pages[block], i) else 0
    {
      if block >= |pages| { return 0; }
      return Word(pages[block], i);
    }

    /** rollback_single_added and its double and triple forms when both sides are the same
        block: whatever was added below it stays, since it is compared with itself. */
    method RollbackSame(before: nat, after: nat, level: nat)
      requires before == after
      decreases level
    {
      if before == 0 || level == 0 { return; }
      for i := 0 to FANOUT {
        var o := IndexEntry(before, i);
        var n := IndexEntry(after, i);
        RollbackSame(o, n, level - 1);
      }
    }

    /** One root of rollback_new_blocks: a tree added since is freed, an older one kept. */
    method RollbackAdded(ghost d: Disk, ghost i: nat, s: nat, before: nat, after: nat, ghost done: set<nat>)
      requires Inv(d, first) && Frozen(d) && i < |d.tops| && s < SLOTS && |d.tops[i]| == SLOTS && d.tops[i][s] == after
      requires before != 0 ==> after == before
      requires ClearedSlots(d.used, used, home, i, done) && s !in done
      modifies this`used
      ensures Frozen(d) && ClearedSlots(d.used, used, home, i, if before == 0 then done + {s} else done)
    {
      hide Inv, ClearedSlots;
      if before == 0 {
        FreeSlot(d, i, s, after, done);
      } else {
        RollbackSame(before, after, if s < DIRECT then 0 else s - DIRECT + 1);
      }
    }

    /** rollback_new_blocks: exactly the slots that were empty before are given up. */
    method RollbackNewBlocks(ghost d: Disk, ghost i: nat, before: seq<nat>, now: seq<nat>)
      requires Inv(d, first) && Frozen(d) && d.used == used && i < |d.tops| && d.tops[i] == now
      requires |now| == |before| == SLOTS
      requires forall s :: 0 <= s < SLOTS && before[s] != 0 ==> now[s] == before[s]
      modifies this`used
      ensures Frozen(d) && ClearedSlots(d.used, used, home, i, Emptied(before, SLOTS))
    {
      hide Inv, ClearedSlots;
      NoneSlots(d.used, home, i);
      assert Emptied(before, 0) == Upto(0);
      for s := 0 to DIRECT
        invariant Frozen(d) && ClearedSlots(d.used, used, home, i, Emptied(before, s))
      {
        RollbackAdded(d, i, s, before[s], now[s], Emptied(before, s));
      }
      RollbackAdded(d, i, DIRECT, before[DIRECT], now[DIRECT], Emptied(before, DIRECT));
      RollbackAdded(d, i, DIRECT + 1, before[DIRECT + 1], now[DIRECT + 1], Emptied(before, DIRECT + 1));
      RollbackAdded(d, i, DIRECT + 2, before[DIRECT + 2], now[DIRECT + 2], Emptied(before, DIRECT + 2));
    }

    /** One round of the loop of fs_write_inode: a chunk that stays within one block. */
    method WriteChunk(ghost tops: seq<seq<nat>>, ghost i: nat, inode: Inode, at: nat, chunk: seq<Byte>)
      returns (res: int, now: Inode)
      requires i < |tops| && tops[i] == inode.slots && Inv(View(tops), first) && !broken
      requires InBlock(at, |chunk|) && BlockOf(at) < MAX_BLOCKS
      modifies this`pages, this`used, this`node, this`home, this`broken
      ensures broken <==> !WalkReach(old(used), first, old(node), i, BlockOf(at), 0)
      ensures !broken ==> Inv(View(tops[i := now.slots]), first) && SlotsGrew(inode, now, BlockOf(at))
      ensures res == 0 || res == -1
      ensures !broken ==> (res == 0 <==> MissingFor(old(node), i, BlockOf(at)) <= |Free(old(used), first)|)
      ensures !broken ==> Wrote(old(View(tops)), View(tops[i := now.slots]), i, at, if res == 0 then chunk else [])
      ensures !broken ==> |pages| == |old(pages)| && |used| == |old(used)|
      ensures !broken && res == 0 ==>
        |Free(used, first)| == |Free(old(used), first)| - MissingFor(old(node), i, BlockOf(at))
      ensures !broken && res == 0 ==> Shifted(old(used), used, first, MissingFor(old(node), i, BlockOf(at)))
      ensures !broken && res == 0 ==> node.Keys == old(node).Keys + TrailOf(i, BlockOf(at))
      ensures !broken ==> Onto(old(node), node) && node.Keys <= old(node).Keys + TrailOf(i, BlockOf(at))
    {
      hide Inv, Grew, Free, MissingFor, Wrote, SlotsGrew, PosOf, TrailOf, WalkReach, Shifted, Onto;
      ghost var d := View(tops);
      var b;
      res, b, now := InodeDataBlock(tops, i, inode, BlockOf(at), true);
      if broken { return; }
      ghost var e := View(tops[i := now.slots]);
      WroteNothing(d, e, i, at);
      GrewOnto(d, e, i);
      if res != 0 { return; }
      BlockNumber(e, first, PosOf(i, BlockOf(at)));
      var o := at % PAGE_SIZE;
      var page := pages[b];
      pages := pages[b := page[..o] + chunk + page[o + |chunk|..]];
      ChunkWritten(d, e, first, i, at, chunk, b);
      assert View(tops[i := now.slots]) == SetData(e, b, Splice(e.pages[b], o, chunk));
    }

    /** One round of the loop of fs_write_inode, with what it means for the whole write. */
    method WriteRound(ghost tops: seq<seq<nat>>, ghost d: Disk, i: nat, before: Inode, inode: Inode,
                      offset: nat, data: seq<Byte>, n: nat) returns (r: int, now: Inode, size: nat)
      requires i < |tops| && tops[i] == inode.slots && n < |data| && offset + |data| <= MAX_SIZE && !broken
      requires Writing(d, first, View(tops), i, offset, data, n) && SlotsKept(before, inode)
      modifies this`pages, this`used, this`node, this`home, this`broken
      ensures r == 0 || r == -1
      ensures broken ==> !InReach(d, first, i, offset, |data|)
      ensures !broken ==> SlotsKept(before, now)
      ensures !broken && r == 0 ==> 0 < size && Writing(d, first, View(tops[i := now.slots]), i, offset, data, n + size)
      ensures !broken && r != 0 ==> Inv(View(tops[i := now.slots]), first) && |pages| == |d.pages|
      ensures !broken && r != 0 ==> Wrote(d, View(tops[i := now.slots]), i, offset, data[..n])
      ensures !broken && r != 0 ==> Affords(d, first, i, offset, |data|, n)
      ensures !broken && r != 0 ==> !Enough(d, first, i, offset, |data|) && InReach(d, first, i, offset, |data|)
      ensures !broken && r != 0 ==> Strained(d, View(tops[i := now.slots]), i, offset, n)
    {
      hide Inv, Wrote, SlotsGrew, Free, MissingFor, TrailOf, Enough, InReach, WalkReach, Shifted, Affords, Underway,
        SlotsKept, BlockOf, InBlock, ChunkSize, Writing, ChunkAt, Onto, Strained;
      var at := offset + n;
      size := ChunkSize(at, |data| - n);
      ghost var e := View(tops);
      WritingFacts(d, first, e, i, offset, data, n, size);
      ghost var part := data[..n];
      var chunk := data[n..n + size];
      r, now := WriteChunk(tops, i, inode, at, chunk);
      if broken {
        RoundLost(d, first, e, i, offset, |data|, n, size);
        return;
      }
      SlotsStep(before, inode, now, BlockOf(at));
      ghost var g := View(tops[i := now.slots]);
      if r != 0 {
        WritingEnds(d, first, e, g, i, offset, data, n, size);
        return;
      }
      WritingNext(d, first, e, g, i, offset, data, n, size);
    }

    /** fs_write_inode. A success writes exactly the range and sets the size; a failure
        restores the inode, and keeps only such bytes of the part done as fell into
        trees the file already had. */
    method WriteInode(i: nat, offset: nat, data: seq<Byte>) returns (ok: bool, res: int, ghost done: nat)
      requires Valid() && offset < 0x1_0000_0000_0000_0000 && |data| < 0x1_0000_0000 && (0 < i < |inodes| ==> live[i])
      requires !broken
      modifies this`inodes, this`pages, this`used, this`node, this`home, this`broken
      ensures broken <==> old(IsFile(i)) && !InReach(old(View(Tops(inodes, live))), first, i, offset, |data|)
      ensures !broken ==> Valid() && |pages| == |old(pages)|
      ensures !broken ==> (ok <==> old(IsFile(i)) && Enough(old(View(Tops(inodes, live))), first, i, offset, |data|))
      ensures !broken && ok ==> IsFile(i) && offset + |data| <= MAX_SIZE && CountIs(res, |data|) && done == |data|
      ensures !broken && ok ==> WrittenInode(old(inodes), inodes, i, offset + |data|)
      ensures !broken && ok ==> Wrote(old(View(Tops(inodes, live))), View(Tops(inodes, live)), i, offset, data)
      ensures !broken && !ok ==> res == -1 && inodes == old(inodes) && done <= |data|
      ensures !broken && !ok && !(IsFile(i) && offset + |data| <= MAX_SIZE) ==>
                View(Tops(inodes, live)) == old(View(Tops(inodes, live)))
      ensures !broken && !ok && IsFile(i) && offset + |data| <= MAX_SIZE ==>
                Affords(old(View(Tops(inodes, live))), first, i, offset, |data|, done)
      ensures !broken && !ok && IsFile(i) ==>
                HalfWrote(old(View(Tops(inodes, live))), View(Tops(inodes, live)), i, offset, data[..done],
                    inodes[i].slots)
      ensures !broken && ok ==> BlocksTo(offset, |data|) <= MAX_BLOCKS && |used| == |old(used)|
      ensures !broken && ok ==> Took(old(View(Tops(inodes, live))), View(Tops(inodes, live)), first,
                                     Trails(i, offset / PAGE_SIZE, BlocksTo(offset, |data|)))
      ensures !broken && !ok && IsFile(i) && offset + |data| <= MAX_SIZE ==> |used| == |old(used)|
      ensures !broken && !ok && IsFile(i) && offset + |data| <= MAX_SIZE ==>
                Halted(old(View(Tops(inodes, live))), View(Tops(inodes, live)), i, offset, done, inodes[i].slots)
    {
      hide Inv, Wrote, HalfWrote, Enough, InReach, Affords, Underway, Took, Strained, Halted, Trails, BlocksTo;
      ghost var tops := Tops(inodes, live);
      ghost var d := View(tops);
      TooLong(d, first, i, offset, |data|);
      if i == 0 || i >= |inodes| || inodes[i].kind != FILE || offset > MAX_SIZE || |data| > MAX_SIZE - offset {
        HalfNothing(d, i, offset, data);
        return false, -1, 0;
      }
      var before := inodes[i];
      assert tops[i] == before.slots;
      var inode, n := before, 0;
      assert tops[i := inode.slots] == tops;
      WroteSame(d, i, offset, data);
      UnderwayStart(d, first, i, offset, |data|);
      assert data[..0] == [];
      while n < |data|
        invariant Writing(d, first, View(tops[i := inode.slots]), i, offset, data, n) && !broken
        invariant SlotsKept(before, inode) && inodes == old(inodes)
        decreases |data| - n
      {
        ghost var t := tops[i := inode.slots];
        var r, now, size := WriteRound(t, d, i, before, inode, offset, data, n);
        if broken { return false, -1, 0; }
        assert t[i := now.slots] == tops[i := now.slots];
        inode := now;
        if r != 0 {
          SameLength(d, View(tops[i := inode.slots]), first);
          Undo(tops, d, i, before, inode, offset, data[..n]);
          return false, -1, n;
        }
        n := n + size;
      }
      UnderwayDone(d, first, View(tops[i := inode.slots]), i, offset, |data|);
      SameLength(d, View(tops[i := inode.slots]), first);
      assert data[..n] == data;
      ghost var slots := inode.slots;
      if offset + n > inode.size { inode := inode.(size := offset + n); }
      inodes := inodes[i := inode];
      assert Tops(inodes, live) == tops[i := slots];
      return true, Signed(n), n;
    }

    /** The failure exit of fs_write_inode; the inode on disk was never touched. */
    method Undo(ghost tops: seq<seq<nat>>, ghost d: Disk, ghost i: nat, before: Inode, now: Inode,
                ghost offset: nat, ghost data: seq<Byte>)
      requires i < |tops| && tops[i] == before.slots && d.tops == tops && Inv(d, first) && SlotsKept(before, now)
      requires Inv(View(tops[i := now.slots]), first) && Wrote(d, View(tops[i := now.slots]), i, offset, data)
      requires Strained(d, View(tops[i := now.slots]), i, offset, |data|)
      modifies this`used, this`node, this`home
      ensures Inv(View(tops), first) && HalfWrote(d, View(tops), i, offset, data, before.slots) && |used| == |old(used)|
      ensures Halted(d, View(tops), i, offset, |data|, before.slots)
    {
      hide Inv, Wrote, HalfWrote, Strained, Halted;
      ghost var e := View(tops[i := now.slots]);
      RollbackNewBlocks(e, i, before.slots, now.slots);
      ghost var gone := Emptied(before.slots, SLOTS);
      ghost var g := DropSlots(e, i, gone);
      DropSlotsKeeps(e, first, i, gone);
      node, home := g.node, g.home;
      Undone(d, e, first, i, before.slots, offset, data);
      NowHalted(d, e, first, i, before.slots, offset, |data|);
      RestoredTops(e, tops, i, before, now);
      assert used == g.used;
    }

    // ------------------------------------------------------ truncation, removal

    /** free_inode_blocks on the inode on disk, which then loses its pointers and takes
        the new size, kind and links; `alive` tells whether it stays allocated. */
    method Clear(i: nat, inode: Inode, alive: bool)
      requires Valid() && i < |inodes| && live[i] && |inode.slots| == SLOTS
      requires alive ==> inode.slots == NoSlots() && inode.size == 0
      modifies this`inodes, this`live, this`used, this`node, this`home
      ensures Valid() && inodes == old(inodes)[i := inode] && live == old(live)[i := alive]
      ensures Wiped(old(View(Tops(inodes, live))), View(Tops(inodes, live)), i)
      ensures |Free(used, first)| >= |Free(old(used), first)|
    {
      hide Inv, ClearedSlots, Wiped, Free, DropSlots, Upto;
      ghost var tops := Tops(inodes, live);
      ghost var d := View(tops);
      FreeInodeBlocks(d, i, inodes[i].slots);
      ghost var g := DropSlots(d, i, Upto(SLOTS));
      DropSlotsKeeps(d, first, i, Upto(SLOTS));
      DropWipes(d, first, i);
      node, home := g.node, g.home;
      ClearedIsDrop(d, used, i);
      inodes, live := inodes[i := inode], live[i := alive];
      assert Tops(inodes, live) == g.tops by { AllDropped(d, tops, i, inodes, live); }
      FreeMore(d.used, used, first);
    }

    /** truncate_inode, as open with the truncate flag calls it. */
    method Truncate(i: nat) returns (res: int)
      requires Valid() && 0 < i < |inodes| && live[i]
      modifies this`inodes, this`live, this`used, this`node, this`home
      ensures Valid() && live == old(live)
      ensures res == 0 <==> old(IsFile(i))
      ensures res != 0 ==>
        res == -1 && inodes == old(inodes) && View(Tops(inodes, live)) == old(View(Tops(inodes, live)))
      ensures res == 0 ==> inodes == old(inodes)[i := old(inodes)[i].(size := 0, slots := NoSlots())]
      ensures res == 0 ==> Wiped(old(View(Tops(inodes, live))), View(Tops(inodes, live)), i)
    {
      if inodes[i].kind != FILE { return -1; }
      Clear(i, inodes[i].(size := 0, slots := NoSlots()), true);
      return 0;
    }

    /** release_inode: the last close of an unlinked file gives back all its blocks. */
    method Release(i: nat)
      requires Valid() && (0 < i < |inodes| && open[i] > 0 ==> live[i])
      modifies this`inodes, this`live, this`open, this`used, this`node, this`home
      ensures Valid()
      ensures open == if 0 < i < |old(open)| && old(open[i]) > 0 then old(open[i := open[i] - 1]) else old(open)
      ensures if 0 < i < |old(inodes)| && old(open)[i] == 1 && old(inodes)[i].links == 0
        then inodes == old(inodes)[i := NoInode()] && live == old(live)[i := false] &&
             Wiped(old(View(Tops(inodes, live))), View(Tops(inodes, live)), i)
        else inodes == old(inodes) && live == old(live) && View(Tops(inodes, live)) == old(View(Tops(inodes, live)))
    {
      hide Inv, Wiped, Free;
      if i == 0 || i >= |inodes| || open[i] == 0 { return; }
      open := open[i := open[i] - 1];
      if open[i] == 0 && inodes[i].links == 0 {
        Clear(i, NoInode(), false);
      }
    }

    /** The end of fs_unlink_path: an open file only loses its link. */
    method Unlink(i: nat)
      requires Valid() && 0 < i < |inodes| && live[i]
      modifies this`inodes, this`live, this`used, this`node, this`home
      ensures Valid()
      ensures if open[i] == 0
        then inodes == old(inodes)[i := NoInode()] && live == old(live)[i := false] &&
             Wiped(old(View(Tops(inodes, live))), View(Tops(inodes, live)), i)
        else inodes == old(inodes)[i := old(inodes)[i].(links := 0)] && live == old(live) &&
             View(Tops(inodes, live)) == old(View(Tops(inodes, live)))
    {
      hide Inv, Wiped, Free;
      if open[i] == 0 {
        Clear(i, NoInode(), false);
      } else {
        ghost var tops := Tops(inodes, live);
        inodes := inodes[i := inodes[i].(links := 0)];
        assert Tops(inodes, live) == tops;
      }
    }
  }

  /** Byte k of inode i; what was never written is zero. */
  ghost function Content(d: Disk, i: nat, k: nat): Byte {
    if k / PAGE_SIZE < MAX_BLOCKS then DataAt(d, PosOf(i, k / PAGE_SIZE))[k % PAGE_SIZE] else 0
  }

  function Least(a: nat, b: nat): nat { if a < b then a else b }

  /** Only the empty slot on the way to block k may have been filled. */
  ghost predicate SlotsGrew(inode: Inode, now: Inode, k: nat) {
    && now == inode.(slots := now.slots) && |now.slots| == |inode.slots| == SLOTS
    && forall s :: 0 <= s < SLOTS && now.slots[s] != inode.slots[s] ==>
         k < MAX_BLOCKS && s == SlotOf(k) && inode.slots[s] == 0
  }

  lemma EmptyFree(used: seq<bool>, first: nat)
    requires Free(used, first) == {}
    ensures |Free(used, first)| == 0
  {
  }

  /** A run of bytes inside one block is behind one pointer. */
  lemma ReadChunk(d: Disk, first: nat, i: nat, at: nat, chunk: nat, b: nat)
    requires Inv(d, first) && at / PAGE_SIZE < MAX_BLOCKS
    requires b == if PosOf(i, at / PAGE_SIZE) in d.node then d.node[PosOf(i, at / PAGE_SIZE)] else 0
    ensures b < |d.pages| || b == 0
    ensures DataAt(d, PosOf(i, at / PAGE_SIZE)) == if 0 < b < |d.pages| then d.pages[b] else ZeroPage()
  {
    hide PosOf, ZeroPage;
    BlockNumber(d, first, PosOf(i, at / PAGE_SIZE));
  }

  lemma ReadPiece(d: Disk, i: nat, at: nat, chunk: nat, b: nat, piece: seq<Byte>)
    requires at / PAGE_SIZE < MAX_BLOCKS && at % PAGE_SIZE + chunk <= PAGE_SIZE && (b < |d.pages| || b == 0)
    requires DataAt(d, PosOf(i, at / PAGE_SIZE)) == if 0 < b < |d.pages| then d.pages[b] else ZeroPage()
    requires piece == if b == 0 then ZeroPage()[..chunk] else d.pages[b][at % PAGE_SIZE..][..chunk]
    ensures forall k :: 0 <= k < chunk ==> piece[k] == Content(d, i, at + k)
  {
    hide PosOf, DataAt;
    forall k | 0 <= k < chunk ensures piece[k] == Content(d, i, at + k) {
      assert (at + k) / PAGE_SIZE == at / PAGE_SIZE && (at + k) % PAGE_SIZE == at % PAGE_SIZE + k;
    }
  }

  lemma MissingChild(d: Disk, first: nat, q: Place, path: seq<nat>, node: map<Place, nat>, b: nat)
    requires Inv(d, first) && q !in d.node && node == d.node[q := b]
    ensures Missing(node, q, path) == |path|
  {
    MissingNew(d, q, path, node, b);
  }

  /** A position whose block number is zero is absent, and so is all below. */
  lemma {:induction false} Absent(d: Disk, first: nat, q: Place, path: seq<nat>)
    requires Inv(d, first) && (q in d.node ==> d.node[q] == 0)
    ensures Extend(q, path) !in d.node
    decreases |path|
  {
    if path != [] {
      NothingUnder(d, q);
      Absent(d, first, Below(q, path[0]), path[1..]);
    }
  }

  // ------------------------------------------------------- what freeing clears

  predicate Under(q: Place, p: Place) {
    q == p || (q.Below? && Under(q.up, p))
  }

  /** The entry of p through which q is reached, or -1. */
  function Via(q: Place, p: Place): int {
    if q.Top? then -1 else if q.up == p then q.idx else Via(q.up, p)
  }

  ghost predicate Cleared(before: seq<bool>, after: seq<bool>, home: map<nat, Place>, p: Place) {
    && |after| == |before|
    && forall b :: 0 <= b < |before| ==> after[b] == (before[b] && !(b in home && Under(home[b], p)))
  }

  ghost predicate ClearedVia(before: seq<bool>, after: seq<bool>, home: map<nat, Place>, p: Place, n: nat) {
    && |after| == |before|
    && forall b :: 0 <= b < |before| ==> after[b] == (before[b] && !(b in home && 0 <= Via(home[b], p) < n))
  }

  ghost predicate ClearedSlots(before: seq<bool>, after: seq<bool>, home: map<nat, Place>, i: nat, slots: set<nat>) {
    && |after| == |before|
    && forall b :: 0 <= b < |before| ==> after[b] == (before[b] && !(b in home && InSlots(home[b], i, slots)))
  }

  ghost predicate InUse(used: seq<bool>, home: map<nat, Place>, p: Place) {
    forall b :: b in home && Under(home[b], p) ==> b < |used| && used[b]
  }

  ghost function Upto(n: nat): (r: set<nat>)
    ensures forall s: nat :: s in r <==> s < n
  {
    if n == 0 then {} else Upto(n - 1) + {n - 1}
  }

  lemma {:induction false} UnderLevel(q: Place, p: Place)
    ensures Under(q, p) ==> q.Level() <= p.Level()
  {
    if q.Below? { UnderLevel(q.up, p); }
  }

  lemma {:induction false} UnderChild(q: Place, p: Place, i: nat)
    ensures Under(q, Below(p, i)) <==> Via(q, p) == i
  {
    if q.Below? {
      OneUp(Below(p, i), 0);
      UnderLevel(p, Below(p, i));
      UnderChild(q.up, p, i);
    }
  }

  /** What is reached through p lies lower than p, through one of its entries. */
  lemma {:induction false} ViaFacts(q: Place, p: Place, inodes: nat)
    ensures Via(q, p) >= -1 && (Via(q, p) >= 0 ==> q.Level() < p.Level())
    ensures q.InRange(inodes) ==> Via(q, p) < FANOUT && q.Level() >= 0
  {
    if q.Below? {
      ViaFacts(q.up, p, inodes);
    }
  }

  lemma {:induction false} UnderVia(q: Place, p: Place)
    ensures Under(q, p) <==> q == p || Via(q, p) >= 0
  {
    if q.Below? && q.up != p { UnderVia(q.up, p); }
  }

  lemma {:induction false} UnderTop(q: Place, i: nat, s: nat)
    ensures Under(q, Top(i, s)) <==> InSlots(q, i, {s})
  {
    if q.Below? {
      UnderTop(q.up, i, s);
      OneUp(q, 0);
    }
  }

  lemma {:induction false} UnderPresent(d: Disk, q: Place, p: Place)
    requires Linked(d) && q in d.node
    ensures Under(q, p) ==> p in d.node
  {
    if q.Below? { UnderPresent(d, q.up, p); }
  }

  lemma ClearedNone(used: seq<bool>, home: map<nat, Place>, p: Place)
    ensures ClearedVia(used, used, home, p, 0)
  {
  }

  lemma StillInUse(before: seq<bool>, used: seq<bool>, home: map<nat, Place>, p: Place, i: nat)
    requires InUse(before, home, p) && ClearedVia(before, used, home, p, i)
    ensures InUse(used, home, Below(p, i))
  {
    forall b | b in home && Under(home[b], Below(p, i)) ensures b < |used| && used[b] {
      UnderChild(home[b], p, i);
      UnderVia(home[b], p);
    }
  }

  lemma NoneVia(d: Disk, first: nat, p: Place, i: nat)
    requires Inv(d, first) && Below(p, i) !in d.node
    ensures forall b :: b in d.home ==> Via(d.home[b], p) != i
  {
    forall b | b in d.home ensures Via(d.home[b], p) != i {
      UnderChild(d.home[b], p, i);
      UnderPresent(d, d.home[b], Below(p, i));
    }
  }

  lemma ClearedNext(d: Disk, start: seq<bool>, before: seq<bool>, after: seq<bool>, p: Place, i: nat, present: bool)
    requires ClearedVia(start, before, d.home, p, i)
    requires if present then Cleared(before, after, d.home, Below(p, i))
             else after == before && forall b :: b in d.home ==> Via(d.home[b], p) != i
    ensures ClearedVia(start, after, d.home, p, i + 1)
  {
    forall b | 0 <= b < |start|
      ensures after[b] == (start[b] && !(b in d.home && 0 <= Via(d.home[b], p) < i + 1))
    {
      if b in d.home { UnderChild(d.home[b], p, i); }
    }
  }

  /** Below a data block there is nothing. */
  lemma NoneViaLeaf(d: Disk, first: nat, start: seq<bool>, after: seq<bool>, p: Place)
    requires Inv(d, first) && p.Level() == 0 && ClearedVia(start, after, d.home, p, 0)
    ensures ClearedVia(start, after, d.home, p, FANOUT)
  {
    hide Linked, Rooted;
    forall b | b in d.home ensures Via(d.home[b], p) == -1 { ViaFacts(d.home[b], p, |d.tops|); }
  }

  lemma OwnBlock(d: Disk, first: nat, start: seq<bool>, used: seq<bool>, p: Place)
    requires Inv(d, first) && p in d.node && InUse(start, d.home, p) && ClearedVia(start, used, d.home, p, FANOUT)
    ensures d.node[p] < |used| && used[d.node[p]]
  {
    hide Linked, Rooted;
    UnderVia(p, p);
    ViaFacts(p, p, |d.tops|);
  }

  lemma ClearedAll(d: Disk, first: nat, start: seq<bool>, mid: seq<bool>, after: seq<bool>, p: Place)
    requires Inv(d, first) && p in d.node && ClearedVia(start, mid, d.home, p, FANOUT)
    requires d.node[p] < |mid| && after == mid[d.node[p] := false]
    ensures Cleared(start, after, d.home, p)
  {
    hide Linked, Rooted;
    forall b | 0 <= b < |start| ensures after[b] == (start[b] && !(b in d.home && Under(d.home[b], p))) {
      if b in d.home {
        UnderVia(d.home[b], p);
        ViaFacts(d.home[b], p, |d.tops|);
      }
    }
    assert d.home[d.node[p]] == p;
  }

  lemma SlotInUse(d: Disk, first: nat, used: seq<bool>, i: nat, s: nat, done: set<nat>)
    requires Inv(d, first) && ClearedSlots(d.used, used, d.home, i, done) && s !in done
    ensures InUse(used, d.home, Top(i, s))
  {
    hide Linked, Rooted;
    forall b | b in d.home && Under(d.home[b], Top(i, s)) ensures b < |used| && used[b] {
      UnderTop(d.home[b], i, s);
      assert d.home[b] in d.node;
    }
  }

  lemma ClearedSlot(d: Disk, first: nat, before: seq<bool>, after: seq<bool>, i: nat, s: nat, done: set<nat>,
                    present: bool)
    requires Inv(d, first) && ClearedSlots(d.used, before, d.home, i, done)
    requires if present then Cleared(before, after, d.home, Top(i, s)) else after == before && Top(i, s) !in d.node
    ensures ClearedSlots(d.used, after, d.home, i, done + {s})
  {
    hide Rooted;
    forall b | 0 <= b < |d.used|
      ensures after[b] == (d.used[b] && !(b in d.home && InSlots(d.home[b], i, done + {s})))
    {
      if b in d.home {
        UnderTop(d.home[b], i, s);
        UnderPresent(d, d.home[b], Top(i, s));
      }
    }
  }

  lemma NoneSlots(used: seq<bool>, home: map<nat, Place>, i: nat)
    ensures ClearedSlots(used, used, home, i, Upto(0))
  {
  }

  // --------------------------------------------------------- what writing does

  ghost function Emptied(slots: seq<nat>, n: nat): (r: set<nat>)
    requires n <= |slots|
    ensures forall s: nat :: s in r <==> s < n && slots[s] == 0
  {
    if n == 0 then {} else if slots[n - 1] == 0 then Emptied(slots, n - 1) + {n - 1} else Emptied(slots, n - 1)
  }

  function Splice(page: Page, o: nat, chunk: seq<Byte>): Page
    requires o + |chunk| <= PAGE_SIZE
  {
    page[..o] + chunk + page[o + |chunk|..]
  }

  /** From d to g, `data` has been written to inode i at `offset`, and nothing else. */
  ghost predicate Wrote(d: Disk, g: Disk, i: nat, offset: nat, data: seq<Byte>) {
    forall j: nat, k: nat :: Content(g, j, k) == Overlay(Content(d, j, k), j == i, k, offset, data)
  }

  function Overlay(x: Byte, here: bool, k: nat, offset: nat, data: seq<Byte>): Byte {
    if here && offset <= k < offset + |data| then data[k - offset] else x
  }

  lemma WroteNothing(d: Disk, g: Disk, i: nat, at: nat)
    requires Grew(d, g, i)
    ensures Wrote(d, g, i, at, []) && |g.pages| == |d.pages| && |g.used| == |d.used|
  {
    hide DataAt, PosOf;
    forall j: nat, k: nat ensures Content(g, j, k) == Content(d, j, k) {
      if k / PAGE_SIZE < MAX_BLOCKS { PosOfIndex(j, k / PAGE_SIZE, j + 1); }
    }
  }

  lemma WroteMore(d: Disk, e: Disk, g: Disk, i: nat, offset: nat, data: seq<Byte>, n: nat, size: nat)
    requires n + size <= |data| && Wrote(d, e, i, offset, data[..n]) && Wrote(e, g, i, offset + n, data[n..n + size])
    ensures Wrote(d, g, i, offset, data[..n + size])
  {
    hide Wrote;
    WroteTrans(d, e, g, i, offset, data[..n], data[n..n + size]);
    assert data[..n] + data[n..n + size] == data[..n + size];
  }

  lemma WroteNoMore(d: Disk, e: Disk, g: Disk, i: nat, offset: nat, data: seq<Byte>, n: nat)
    requires n <= |data| && Wrote(d, e, i, offset, data[..n]) && Wrote(e, g, i, offset + n, [])
    ensures Wrote(d, g, i, offset, data[..n])
  {
    hide Wrote;
    WroteTrans(d, e, g, i, offset, data[..n], []);
    assert data[..n] + [] == data[..n];
  }

  lemma WroteTrans(d: Disk, e: Disk, g: Disk, i: nat, offset: nat, a: seq<Byte>, b: seq<Byte>)
    requires Wrote(d, e, i, offset, a) && Wrote(e, g, i, offset + |a|, b)
    ensures Wrote(d, g, i, offset, a + b)
  {
    hide Content;
    forall j: nat, k: nat ensures Content(g, j, k) == Overlay(Content(d, j, k), j == i, k, offset, a + b) {
      assert Content(e, j, k) == Overlay(Content(d, j, k), j == i, k, offset, a);
    }
  }

  lemma ChunkWritten(d: Disk, e: Disk, first: nat, i: nat, at: nat, chunk: seq<Byte>, b: nat)
    requires Inv(e, first) && Wrote(d, e, i, at, []) && at % PAGE_SIZE + |chunk| <= PAGE_SIZE
    requires at / PAGE_SIZE < MAX_BLOCKS
    requires b in e.home && e.home[b] == PosOf(i, at / PAGE_SIZE) && b < |e.pages|
    ensures Inv(SetData(e, b, Splice(e.pages[b], at % PAGE_SIZE, chunk)), first)
    ensures Wrote(d, SetData(e, b, Splice(e.pages[b], at % PAGE_SIZE, chunk)), i, at, chunk)
  {
    hide Inv, PosOf, SetData, DataAt;
    PosOfIndex(i, at / PAGE_SIZE, i + 1);
    var page := Splice(e.pages[b], at % PAGE_SIZE, chunk);
    var g := SetData(e, b, page);
    SetDataKeeps(e, first, b, page);
    DataHere(e, first, b);
    forall j: nat, k: nat ensures Content(g, j, k) == Overlay(Content(d, j, k), j == i, k, at, chunk) {
      assert Content(e, j, k) == Content(d, j, k);
      ChunkByte(e, first, i, at, chunk, b, j, k);
    }
  }

  lemma DataHere(e: Disk, first: nat, b: nat)
    requires Inv(e, first) && b in e.home && b < |e.pages|
    ensures DataAt(e, e.home[b]) == e.pages[b]
  {
  }

  lemma ChunkByte(e: Disk, first: nat, i: nat, at: nat, chunk: seq<Byte>, b: nat, j: nat, k: nat)
    requires Inv(e, first) && at % PAGE_SIZE + |chunk| <= PAGE_SIZE && at / PAGE_SIZE < MAX_BLOCKS
    requires b in e.home && e.home[b] == PosOf(i, at / PAGE_SIZE) && b < |e.pages| && DataAt(e, e.home[b]) == e.pages[b]
    ensures Content(SetData(e, b, Splice(e.pages[b], at % PAGE_SIZE, chunk)), j, k) ==
      Overlay(Content(e, j, k), j == i, k, at, chunk)
  {
    hide Inv, PosOf, SetData, DataAt;
    if k / PAGE_SIZE < MAX_BLOCKS {
      var page := Splice(e.pages[b], at % PAGE_SIZE, chunk);
      SetDataAt(e, first, b, page, PosOf(j, k / PAGE_SIZE));
      if PosOf(j, k / PAGE_SIZE) == PosOf(i, at / PAGE_SIZE) {
        PosOfInjective(j, k / PAGE_SIZE, i, at / PAGE_SIZE);
      }
    }
  }

  /** What a caller gets for a count of n bytes: n itself below 2^31, and else n - 2^32. */
  predicate CountIs(res: int, n: nat) {
    if n < 0x8000_0000 then res == n else res == n - 0x1_0000_0000
  }

  /** The conversion keeps the value modulo 2^32 and fits 32 bits, and that determines it. */
  lemma SignedIs(n: nat, x: int)
    requires n < 0x1_0000_0000
    ensures x == Signed(n) <==> -0x8000_0000 <= x < 0x8000_0000 && (n - x) % 0x1_0000_0000 == 0
  {
    if -0x8000_0000 <= x < 0x8000_0000 && (n - x) % 0x1_0000_0000 == 0 {
      var k := (n - x) / 0x1_0000_0000;
      assert n - x == k * 0x1_0000_0000;
      assert 0 <= k <= 1;
    }
  }

  /** A C int made from an unsigned 32-bit count. */
  function Signed(n: nat): int { if n < INT_LIMIT then n else n - 0x1_0000_0000 }

  function Most(a: nat, b: nat): nat { if a < b then b else a }

  ghost predicate WrittenInode(before: seq<Inode>, after: seq<Inode>, i: nat, end: nat) {
    && |after| == |before| && i < |before|
    && after == before[i := before[i].(size := Most(before[i].size, end), slots := after[i].slots)]
  }

  ghost predicate SlotsKept(before: Inode, now: Inode) {
    && now == before.(slots := now.slots) && |now.slots| == |before.slots| == SLOTS
    && forall s :: 0 <= s < SLOTS && before.slots[s] != 0 ==> now.slots[s] == before.slots[s]
  }

  lemma SlotsStep(before: Inode, inode: Inode, now: Inode, k: nat)
    requires SlotsKept(before, inode) && SlotsGrew(inode, now, k)
    ensures SlotsKept(before, now)
  {
  }

  lemma RestoredTops(e: Disk, tops: seq<seq<nat>>, i: nat, before: Inode, now: Inode)
    requires i < |tops| && tops[i] == before.slots && SlotsKept(before, now) && e.tops == tops[i := now.slots]
    ensures DropSlots(e, i, Emptied(before.slots, SLOTS)).tops == tops
  {
    var g := DropSlots(e, i, Emptied(before.slots, SLOTS));
    assert g.tops[i] == before.slots;
  }

  /** Like Wrote, except that bytes behind slots that were empty are as before. */
  ghost predicate HalfWrote(d: Disk, g: Disk, i: nat, offset: nat, data: seq<Byte>, slots: seq<nat>) {
    forall j: nat, k: nat :: Content(g, j, k) == Overlay(Content(d, j, k), j == i && Rooting(slots, k), k, offset, data)
  }

  predicate Rooting(slots: seq<nat>, k: nat) {
    k / PAGE_SIZE < MAX_BLOCKS && |slots| == SLOTS && slots[SlotOf(k / PAGE_SIZE)] != 0
  }

  lemma HalfNothing(d: Disk, i: nat, offset: nat, data: seq<Byte>)
    ensures forall slots :: HalfWrote(d, d, i, offset, data[..0], slots)
  {
  }

  lemma WroteSame(d: Disk, i: nat, offset: nat, data: seq<Byte>)
    ensures Wrote(d, d, i, offset, data[..0])
  {
  }

  lemma Undone(d: Disk, e: Disk, first: nat, i: nat, slots: seq<nat>, offset: nat, data: seq<Byte>)
    requires Inv(d, first) && i < |d.tops| == |e.tops| && d.tops[i] == slots && |slots| == SLOTS
    requires Wrote(d, e, i, offset, data)
    ensures HalfWrote(d, DropSlots(e, i, Emptied(slots, SLOTS)), i, offset, data, slots)
  {
    hide Inv, Content, DropSlots, Emptied;
    var g := DropSlots(e, i, Emptied(slots, SLOTS));
    forall j: nat, k: nat
      ensures Content(g, j, k) == Overlay(Content(d, j, k), j == i && Rooting(slots, k), k, offset, data)
    {
      assert Content(e, j, k) == Overlay(Content(d, j, k), j == i, k, offset, data);
      UndoneByte(d, e, first, i, slots, j, k);
    }
  }

  /** After the rollback of a write that got n bytes done: nothing has gone, the positions for
      those bytes in trees the file had are there, and besides at most some in such trees on
      the way to the next block. */
  ghost predicate Halted(d: Disk, g: Disk, i: nat, offset: nat, n: nat, slots: seq<nat>) {
    var lo, hi := offset / PAGE_SIZE, BlocksTo(offset, n);
    && hi < MAX_BLOCKS && |slots| == SLOTS && Onto(d.node, g.node)
    && (forall p: Place :: p in Trails(i, lo, hi) && HasTree(slots, p) ==> p in g.node)
    && (forall p: Place :: p in g.node ==> p in d.node || (p in Trails(i, lo, hi + 1) && HasTree(slots, p)))
  }

  predicate HasTree(slots: seq<nat>, p: Place) { p.Slot() < |slots| && slots[p.Slot()] != 0 }

  lemma NowHalted(d: Disk, e: Disk, first: nat, i: nat, slots: seq<nat>, offset: nat, n: nat)
    requires Inv(d, first) && Inv(e, first) && i < |d.tops| == |e.tops| && d.tops[i] == slots && |slots| == SLOTS
    requires Strained(d, e, i, offset, n)
    ensures Halted(d, DropSlots(e, i, Emptied(slots, SLOTS)), i, offset, n, slots)
  {
    hide Inv, Trails, BlocksTo, DropSlots;
    var g := DropSlots(e, i, Emptied(slots, SLOTS));
    forall p: Place ensures p in g.node <==> p in e.node && (p.Ino() == i ==> HasTree(slots, p)) {
      KeptNode(e, first, i, slots, p);
    }
    forall p: Place | p in g.node ensures g.node[p] == e.node[p] { DropSlotsNode(e, i, Emptied(slots, SLOTS), p); }
    forall p: Place | p in d.node && p.Ino() == i ensures HasTree(slots, p) { OwnTree(d, first, i, p); }
    forall k: nat, p: Place | k <= MAX_BLOCKS && p in Trails(i, offset / PAGE_SIZE, k) ensures p.Ino() == i {
      TrailsIno(i, offset / PAGE_SIZE, k, p);
    }
  }

  lemma DropSlotsNode(e: Disk, i: nat, gone: set<nat>, p: Place)
    requires i < |e.tops| && p in DropSlots(e, i, gone).node
    ensures p in e.node && DropSlots(e, i, gone).node[p] == e.node[p]
  {
  }

  lemma KeptNode(e: Disk, first: nat, i: nat, slots: seq<nat>, p: Place)
    requires Inv(e, first) && i < |e.tops| && |slots| == SLOTS
    ensures p in DropSlots(e, i, Emptied(slots, SLOTS)).node <==> p in e.node && (p.Ino() == i ==> HasTree(slots, p))
  {
    hide Linked, Rooted;
    if p in e.node { SlotBound(p, |e.tops|); }
  }

  lemma OwnTree(d: Disk, first: nat, i: nat, p: Place)
    requires Inv(d, first) && i < |d.tops| && |d.tops[i]| == SLOTS && p in d.node && p.Ino() == i
    ensures HasTree(d.tops[i], p)
  {
    hide LinkedAt, Mapped, RootedAt;
    SlotBound(p, |d.tops|);
    if d.tops[i][p.Slot()] == 0 {
      EmptySlot(d, p);
    }
  }

  /** A free inode owns nothing. */
  lemma NoneOwned(d: Disk, first: nat, n: nat)
    requires Inv(d, first) && n < |d.tops| && d.tops[n] == NoSlots()
    ensures forall p: Place :: p in d.node ==> p.Ino() != n
  {
    hide Inv;
    forall p: Place | p in d.node ensures p.Ino() != n {
      if p.Ino() == n { OwnTree(d, first, n, p); }
    }
  }

  lemma {:induction false} TrailsIno(i: nat, lo: nat, hi: nat, p: Place)
    requires hi <= MAX_BLOCKS && p in Trails(i, lo, hi)
    ensures p.Ino() == i
    decreases hi
  {
    hide SlotOf, PathOf;
    if p in TrailOf(i, hi - 1) {
      TrailIno(Top(i, SlotOf(hi - 1)), PathOf(hi - 1), p);
    } else {
      TrailsIno(i, lo, hi - 1, p);
    }
  }

  lemma {:induction false} TrailIno(q: Place, path: seq<nat>, p: Place)
    requires p in Trail(q, path)
    ensures p.Ino() == q.Ino()
    decreases |path|
  {
    if p != q { TrailIno(Below(q, path[0]), path[1..], p); }
  }

  lemma SameLength(d: Disk, e: Disk, first: nat)
    requires Inv(e, first) && |e.pages| == |d.pages| && Inv(d, first)
    ensures |e.used| == |d.used|
  {
  }

  lemma UndoneByte(d: Disk, e: Disk, first: nat, i: nat, slots: seq<nat>, j: nat, k: nat)
    requires Inv(d, first) && i < |d.tops| == |e.tops| && d.tops[i] == slots && |slots| == SLOTS
    ensures Content(DropSlots(e, i, Emptied(slots, SLOTS)), j, k) ==
      if j == i && !Rooting(slots, k) then Content(d, j, k) else Content(e, j, k)
  {
    hide DropSlots, PosOf, SlotOf, Emptied, DataAt;
    if k / PAGE_SIZE < MAX_BLOCKS {
      var p := PosOf(j, k / PAGE_SIZE);
      PosOfIndex(j, k / PAGE_SIZE, j + 1);
      DropSlotsData(e, i, Emptied(slots, SLOTS), p);
      PathFacts(k / PAGE_SIZE);
      if j == i && !Rooting(slots, k) {
        EmptySlot(d, p);
        AbsentData(d, p);
      }
    }
  }

  lemma AbsentData(d: Disk, p: Place)
    requires p !in d.node
    ensures DataAt(d, p) == ZeroPage()
  {
  }

  // ------------------------------------------------------------ removing a file

  function NoInode(): Inode { Inode(0, 0, 0, NoSlots()) }

  /** Inode i reads as zero everywhere and owns nothing; all others read as before. */
  ghost predicate Wiped(d: Disk, g: Disk, i: nat) {
    (forall j: nat, k: nat :: Content(g, j, k) == if j == i then 0 else Content(d, j, k)) && Shed(d, g, i)
  }

  /** The positions of inode i are gone and all others stay. */
  ghost predicate Shed(d: Disk, g: Disk, i: nat) {
    && |g.used| == |d.used| && (forall p :: p in g.node <==> p in d.node && p.Ino() != i)
    && (forall p :: p in g.node ==> g.node[p] == d.node[p])
  }

  lemma DropWipes(d: Disk, first: nat, i: nat)
    requires Inv(d, first) && i < |d.tops|
    ensures Wiped(d, DropSlots(d, i, Upto(SLOTS)), i)
  {
    hide DropSlots, PosOf, SlotOf, DataAt, Content, Inv, Upto, Shed;
    var g := DropSlots(d, i, Upto(SLOTS));
    forall j: nat, k: nat ensures Content(g, j, k) == if j == i then 0 else Content(d, j, k) {
      WipedByte(d, i, j, k);
    }
    DropSheds(d, first, i);
  }

  lemma DropSheds(d: Disk, first: nat, i: nat)
    requires Inv(d, first) && i < |d.tops|
    ensures Shed(d, DropSlots(d, i, Upto(SLOTS)), i)
  {
    hide DropSlots, Inv, Upto;
    var g := DropSlots(d, i, Upto(SLOTS));
    forall p ensures p in g.node <==> p in d.node && p.Ino() != i { WipedNode(d, first, i, p); }
    forall p | p in g.node ensures g.node[p] == d.node[p] { DropSlotsNode(d, i, Upto(SLOTS), p); }
    DropSlotsUsed(d, i, Upto(SLOTS));
  }

  lemma DropSlotsUsed(d: Disk, i: nat, gone: set<nat>)
    requires i < |d.tops|
    ensures |DropSlots(d, i, gone).used| == |d.used|
  {
  }

  lemma WipedByte(d: Disk, i: nat, j: nat, k: nat)
    requires i < |d.tops|
    ensures Content(DropSlots(d, i, Upto(SLOTS)), j, k) == if j == i then 0 else Content(d, j, k)
  {
    hide DropSlots, PosOf, DataAt, Upto, SlotOf;
    if k / PAGE_SIZE < MAX_BLOCKS {
      var p := PosOf(j, k / PAGE_SIZE);
      PosOfIndex(j, k / PAGE_SIZE, j + 1);
      PathFacts(k / PAGE_SIZE);
      DropSlotsData(d, i, Upto(SLOTS), p);
    }
  }

  lemma {:induction false} SlotBound(p: Place, inodes: nat)
    requires p.InRange(inodes)
    ensures p.Slot() < SLOTS
  {
    if p.Below? { SlotBound(p.up, inodes); }
  }

  lemma WipedNode(d: Disk, first: nat, i: nat, p: Place)
    requires Inv(d, first) && i < |d.tops|
    ensures p in DropSlots(d, i, Upto(SLOTS)).node <==> p in d.node && p.Ino() != i
  {
    hide Linked, Rooted, Upto;
    if p in d.node { SlotBound(p, |d.tops|); }
  }

  lemma ClearedIsDrop(d: Disk, used: seq<bool>, i: nat)
    requires i < |d.tops| && ClearedSlots(d.used, used, d.home, i, Upto(SLOTS))
    ensures used == DropSlots(d, i, Upto(SLOTS)).used && |used| == |d.used|
    ensures DropSlots(d, i, Upto(SLOTS)).pages == d.pages
    ensures forall b :: 0 <= b < |used| && used[b] ==> d.used[b]
  {
  }

  lemma AllDropped(d: Disk, tops: seq<seq<nat>>, i: nat, inodes: seq<Inode>, live: seq<bool>)
    requires d.tops == tops && i < |tops| == |inodes| && |live| == |inodes| && |tops[i]| == SLOTS
    requires (live[i] ==> inodes[i].slots == NoSlots()) && forall j :: 0 <= j < |inodes| && j != i ==>
      tops[j] == if live[j] then inodes[j].slots else NoSlots()
    ensures Tops(inodes, live) == DropSlots(d, i, Upto(SLOTS)).tops
  {
    var g := DropSlots(d, i, Upto(SLOTS));
    assert g.tops[i] == NoSlots();
  }

  lemma FreeMore(before: seq<bool>, after: seq<bool>, first: nat)
    requires |after| == |before| && forall b :: 0 <= b < |after| && after[b] ==> before[b]
    ensures |Free(after, first)| >= |Free(before, first)|
  {
    assert Free(before, first) <= Free(after, first);
    Smaller(Free(before, first), Free(after, first));
  }

  lemma Smaller(a: set<int>, b: set<int>)
    requires a <= b
    ensures |a| <= |b|
  {
    assert b == a + (b - a);
  }

  /** An inode without pointers reads as zero everywhere. */
  lemma NothingYet(d: Disk, first: nat, n: nat)
    requires Inv(d, first) && n < |d.tops| && d.tops[n] == NoSlots()
    ensures forall k: nat :: Content(d, n, k) == 0
  {
    hide PosOf, ZeroPage;
    forall k: nat ensures Content(d, n, k) == 0 {
      if k / PAGE_SIZE < MAX_BLOCKS {
        var p := PosOf(n, k / PAGE_SIZE);
        PosOfIndex(n, k / PAGE_SIZE, n + 1);
        PathFacts(k / PAGE_SIZE);
        EmptySlot(d, p);
        ZeroByte(k % PAGE_SIZE);
      }
    }
  }

  lemma ZeroByte(k: nat)
    requires k < PAGE_SIZE
    ensures ZeroPage()[k] == 0
  {
  }

  // --------------------------------------------------------- files as byte arrays

  /** The bytes of a file as a reader sees them. */
  ghost function FileBytes(d: Disk, size: nat, i: nat): seq<Byte> {
    seq(size, k requires 0 <= k < size => Content(d, i, k))
  }

  /** Writing to a plain byte array; a gap is filled with zeros. */
  ghost function WriteBytes(f: seq<Byte>, offset: nat, data: seq<Byte>): seq<Byte> {
    seq(Most(|f|, offset + |data|), k requires 0 <= k < Most(|f|, offset + |data|) =>
      Overlay(ByteAt(f, k), true, k, offset, data))
  }

  function ByteAt(f: seq<Byte>, k: nat): Byte { if k < |f| then f[k] else 0 }

  /** Nothing but zeros behind the end of inode i. */
  ghost predicate Tidy(d: Disk, size: nat, i: nat) {
    forall k: nat :: k >= size ==> Content(d, i, k) == 0
  }

  /** On a tidy file a successful write is a write to a byte array, the file stays tidy,
      and every other file reads as before. */
  lemma WriteRefines(d: Disk, g: Disk, i: nat, size: nat, offset: nat, data: seq<Byte>)
    requires Wrote(d, g, i, offset, data) && Tidy(d, size, i)
    ensures FileBytes(g, Most(size, offset + |data|), i) == WriteBytes(FileBytes(d, size, i), offset, data)
    ensures Tidy(g, Most(size, offset + |data|), i)
    ensures forall j: nat, n: nat :: j != i ==> FileBytes(g, n, j) == FileBytes(d, n, j)
    ensures forall j: nat, n: nat :: j != i ==> (Tidy(g, n, j) <==> Tidy(d, n, j))
  {
    hide Content;
    var n := Most(size, offset + |data|);
    forall k | 0 <= k < n
      ensures FileBytes(g, n, i)[k] == WriteBytes(FileBytes(d, size, i), offset, data)[k]
    {
      assert Content(g, i, k) == Overlay(Content(d, i, k), true, k, offset, data);
    }
    forall k: nat | k >= n ensures Content(g, i, k) == 0 {
      assert Content(g, i, k) == Overlay(Content(d, i, k), true, k, offset, data);
    }
    forall j: nat, m: nat | j != i
      ensures FileBytes(g, m, j) == FileBytes(d, m, j) && (Tidy(g, m, j) <==> Tidy(d, m, j))
    {
      OtherFile(d, g, i, offset, data, j, m);
    }
  }

  lemma OtherFile(d: Disk, g: Disk, i: nat, offset: nat, data: seq<Byte>, j: nat, m: nat)
    requires Wrote(d, g, i, offset, data) && j != i
    ensures FileBytes(g, m, j) == FileBytes(d, m, j) && (Tidy(g, m, j) <==> Tidy(d, m, j))
  {
    hide Content;
    assert forall k: nat :: Content(g, j, k) == Content(d, j, k) by {
      forall k: nat ensures Content(g, j, k) == Content(d, j, k) {
        assert Content(g, j, k) == Overlay(Content(d, j, k), j == i, k, offset, data);
      }
    }
  }

  /** On any file, a write agrees with the byte array exactly when the gap it jumps over
      reads as zero. */
  lemma WriteRefinesIff(d: Disk, g: Disk, i: nat, size: nat, offset: nat, data: seq<Byte>)
    requires Wrote(d, g, i, offset, data)
    ensures FileBytes(g, Most(size, offset + |data|), i) == WriteBytes(FileBytes(d, size, i), offset, data) <==>
      forall k: nat :: size <= k < offset ==> Content(d, i, k) == 0
  {
    hide Content;
    var n := Most(size, offset + |data|);
    var a, b := FileBytes(g, n, i), WriteBytes(FileBytes(d, size, i), offset, data);
    var f := FileBytes(d, size, i);
    forall k: nat | k < n ensures a[k] == Overlay(Content(d, i, k), true, k, offset, data) {
      assert Content(g, i, k) == Overlay(Content(d, i, k), i == i, k, offset, data);
    }
    forall k: nat | k < n ensures b[k] == Overlay(if k < size then Content(d, i, k) else 0, true, k, offset, data) {
      assert k < size ==> f[k] == Content(d, i, k);
    }
    if a == b {
      forall k: nat | size <= k < offset ensures Content(d, i, k) == 0 { assert a[k] == b[k]; }
    }
    if forall k: nat :: size <= k < offset ==> Content(d, i, k) == 0 {
      assert a == b;
    }
  }

  lemma EnoughLess(d: Disk, first: nat, i: nat, offset: nat, a: nat, b: nat)
    requires a <= b && Enough(d, first, i, offset, b)
    ensures Enough(d, first, i, offset, a)
  {
    hide Free, Needed;
    BlocksOrder(offset, a, b);
    NeededMore(d.node, i, offset / PAGE_SIZE, BlocksTo(offset, a), BlocksTo(offset, b));
  }

  lemma BlocksOrder(offset: nat, a: nat, b: nat)
    requires a <= b
    ensures BlocksTo(offset, a) <= BlocksTo(offset, b)
  {
  }

  lemma StopsOrder(offset: nat, a: nat, b: nat, length: nat)
    requires a < b <= length && AtBoundary(offset, b, length)
    ensures NextStop(offset, a, length) <= b
  {
    if b < length {
      var x, y := (offset + a) / PAGE_SIZE, (offset + b) / PAGE_SIZE;
      assert offset + b == y * PAGE_SIZE && offset + a == x * PAGE_SIZE + (offset + a) % PAGE_SIZE;
      assert x < y;
    }
  }

  /** How far a write gets that lacks space is settled beforehand. */
  lemma AffordsOne(d: Disk, first: nat, i: nat, offset: nat, length: nat, a: nat, b: nat)
    requires Affords(d, first, i, offset, length, a) && Affords(d, first, i, offset, length, b)
    ensures a == b
  {
    hide Enough, AtBoundary, NextStop;
    if a < b {
      StopsOrder(offset, a, b, length);
      EnoughLess(d, first, i, offset, NextStop(offset, a, length), b);
    } else if b < a {
      StopsOrder(offset, b, a, length);
      EnoughLess(d, first, i, offset, NextStop(offset, b, length), a);
    }
  }

  /** A write that fails for lack of space leaves a tidy file tidy exactly when, of the bytes
      it can pay for, those that fall behind the end into trees the file has are zero. */
  lemma FailedWriteTidy(d: Disk, g: Disk, first: nat, i: nat, size: nat, offset: nat, data: seq<Byte>, done: nat,
                        slots: seq<nat>)
    requires Affords(d, first, i, offset, |data|, done) && HalfWrote(d, g, i, offset, data[..done], slots)
    requires Tidy(d, size, i)
    ensures Tidy(g, size, i) <==>
      forall k: nat :: k >= size && offset <= k < offset + done && Rooting(slots, k) ==> data[k - offset] == 0
  {
    hide Content, Rooting, Enough, AtBoundary, NextStop;
    forall k: nat ensures Content(g, i, k) == Overlay(Content(d, i, k), Rooting(slots, k), k, offset, data[..done]) {
      assert Content(g, i, k) == Overlay(Content(d, i, k), i == i && Rooting(slots, k), k, offset, data[..done]);
    }
  }
}
