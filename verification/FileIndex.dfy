/** The block trees of MyFS inodes (kernel/fs.c): eleven direct pointers, then single,
    double and triple index blocks of little-endian words, over one allocation bitmap. */
module FileIndex {
  import opened Layout

  const DIRECT := 11
  const FANOUT := 1024
  const SLOTS := 14                    // direct pointers, then the three index roots
  const SQUARE := FANOUT * FANOUT
  const MAX_BLOCKS := DIRECT + FANOUT + SQUARE + SQUARE * FANOUT

  // ------------------------------------------------------------------- words

  function Word(p: Page, i: nat): nat
    requires i < FANOUT
  {
    var a: int, b: int, c: int, e: int := p[4 * i], p[4 * i + 1], p[4 * i + 2], p[4 * i + 3];
    a + 0x100 * b + 0x1_0000 * c + 0x100_0000 * e
  }

  function PutWord(p: Page, i: nat, v: nat): Page
    requires i < FANOUT && v < 0x1_0000_0000
  {
    p[4 * i := v % 0x100][4 * i + 1 := v / 0x100 % 0x100]
     [4 * i + 2 := v / 0x1_0000 % 0x100][4 * i + 3 := v / 0x100_0000]
  }

  lemma WordPut(p: Page, i: nat, v: nat, j: nat)
    requires i < FANOUT && j < FANOUT && v < 0x1_0000_0000
    ensures Word(PutWord(p, i, v), j) == if j == i then v else Word(p, j)
  {
    Digits(v);
    var q := PutWord(p, i, v);
    if j == i {
      assert q[4 * i] == v % 0x100 && q[4 * i + 1] == v / 0x100 % 0x100;
      assert q[4 * i + 2] == v / 0x1_0000 % 0x100 && q[4 * i + 3] == v / 0x100_0000;
    } else {
      assert q[4 * j] == p[4 * j] && q[4 * j + 1] == p[4 * j + 1] && q[4 * j + 2] == p[4 * j + 2] &&
          q[4 * j + 3] == p[4 * j + 3];
    }
  }

  lemma Digits(v: nat)
    ensures v == v % 0x100 + 0x100 * (v / 0x100 % 0x100) + 0x1_0000 * (v / 0x1_0000 % 0x100) +
        0x100_0000 * (v / 0x100_0000)
  {
    var a := v / 0x100;
    var b := a / 0x100;
    assert v == a * 0x100 + v % 0x100 && a == b * 0x100 + a % 0x100 && b == b / 0x100 * 0x100 + b % 0x100;
    NextDigit(v);
  }

  lemma NextDigit(v: nat)
    ensures v / 0x100 / 0x100 == v / 0x1_0000 && v / 0x100 / 0x100 / 0x100 == v / 0x100_0000
  {
  }

  lemma WordZero(j: nat)
    requires j < FANOUT
    ensures Word(ZeroPage(), j) == 0
  {
  }

  // --------------------------------------------------------------- positions

  /** The place of a pointer: a slot of an inode, or an entry of an index block. */
  datatype Place = Top(ino: nat, slot: nat) | Below(up: Place, idx: nat) {
    /** Levels of index blocks from here down; a data block has none. */
    function Level(): int {
      match this
      case Top(_, s) => if s < DIRECT then 0 else s - DIRECT + 1
      case Below(u, _) => u.Level() - 1
    }

    function Ino(): nat {
      match this case Top(i, _) => i case Below(u, _) => u.Ino()
    }

    function Slot(): nat {
      match this case Top(_, s) => s case Below(u, _) => u.Slot()
    }

    predicate InRange(inodes: nat) {
      match this
      case Top(i, s) => i < inodes && s < SLOTS
      case Below(u, k) => u.InRange(inodes) && u.Level() >= 1 && k < FANOUT
    }
  }

  function SlotOf(k: nat): nat
    requires k < MAX_BLOCKS
  {
    if k < DIRECT then k
    else if k < DIRECT + FANOUT then DIRECT
    else if k < DIRECT + FANOUT + SQUARE then DIRECT + 1
    else DIRECT + 2
  }

  /** The entries followed from the slot to block k of a file, outermost first. */
  function PathOf(k: nat): seq<nat>
    requires k < MAX_BLOCKS
  {
    if k < DIRECT then []
    else if k - DIRECT < FANOUT then [k - DIRECT]
    else if k - DIRECT - FANOUT < SQUARE then
      var j := k - DIRECT - FANOUT;
      [j / FANOUT, j % FANOUT]
    else
      var j := k - DIRECT - FANOUT - SQUARE;
      [j / SQUARE, j / FANOUT % FANOUT, j % FANOUT]
  }

  function Extend(p: Place, path: seq<nat>): Place
    decreases |path|
  {
    if path == [] then p else Extend(Below(p, path[0]), path[1..])
  }

  /** Where the pointer to block k of a file is. */
  function PosOf(ino: nat, k: nat): Place
    requires k < MAX_BLOCKS
  {
    Extend(Top(ino, SlotOf(k)), PathOf(k))
  }

  lemma Extend1(p: Place, a: nat)
    ensures Extend(p, [a]) == Below(p, a)
  {
    assert [a][1..] == [];
  }

  lemma Extend2(p: Place, a: nat, b: nat)
    ensures Extend(p, [a, b]) == Below(Below(p, a), b)
  {
    assert [a, b][1..] == [b];
    Extend1(Below(p, a), b);
  }

  lemma Extend3(p: Place, a: nat, b: nat, c: nat)
    ensures Extend(p, [a, b, c]) == Below(Below(Below(p, a), b), c)
  {
    assert [a, b, c][1..] == [b, c];
    Extend2(Below(p, a), b, c);
  }

  /** The file block a data pointer stands for. */
  function IndexOf(p: Place): nat {
    match p
    case Top(_, s) => s
    case Below(Top(_, s), c) => DIRECT + c
    case Below(Below(Top(_, s), b), c) => DIRECT + FANOUT + b * FANOUT + c
    case Below(Below(Below(_, a), b), c) => DIRECT + FANOUT + SQUARE + a * SQUARE + b * FANOUT + c
  }

  lemma PathFacts(k: nat)
    requires k < MAX_BLOCKS
    ensures |PathOf(k)| <= 3 && Top(0, SlotOf(k)).Level() == |PathOf(k)| && SlotOf(k) < SLOTS
    ensures forall i :: 0 <= i < |PathOf(k)| ==> PathOf(k)[i] < FANOUT
  {
  }

  lemma PosShape(ino: nat, k: nat)
    requires k < MAX_BLOCKS
    ensures k < DIRECT ==> PosOf(ino, k) == Top(ino, k)
    ensures DIRECT <= k < DIRECT + FANOUT ==> PosOf(ino, k) == Below(Top(ino, DIRECT), k - DIRECT)
    ensures DIRECT + FANOUT <= k < DIRECT + FANOUT + SQUARE ==> var j := k - DIRECT - FANOUT;
      PosOf(ino, k) == Below(Below(Top(ino, DIRECT + 1), j / FANOUT), j % FANOUT)
    ensures DIRECT + FANOUT + SQUARE <= k ==> var j := k - DIRECT - FANOUT - SQUARE;
      PosOf(ino, k) == Below(Below(Below(Top(ino, DIRECT + 2), j / SQUARE), j / FANOUT % FANOUT), j % FANOUT)
  {
    hide Extend;
    if k < DIRECT {
      assert PathOf(k) == [];
      ExtendNone(Top(ino, k));
    } else if k < DIRECT + FANOUT {
      Extend1(Top(ino, DIRECT), k - DIRECT);
    } else if k < DIRECT + FANOUT + SQUARE {
      var j := k - DIRECT - FANOUT;
      Extend2(Top(ino, DIRECT + 1), j / FANOUT, j % FANOUT);
    } else {
      var j := k - DIRECT - FANOUT - SQUARE;
      Extend3(Top(ino, DIRECT + 2), j / SQUARE, j / FANOUT % FANOUT, j % FANOUT);
    }
  }

  lemma ExtendNone(p: Place)
    ensures Extend(p, []) == p
  {
  }

  /** File blocks and data pointers of an inode correspond one to one. */
  lemma PosOfIndex(ino: nat, k: nat, inodes: nat)
    requires k < MAX_BLOCKS && ino < inodes
    ensures IndexOf(PosOf(ino, k)) == k
    ensures PosOf(ino, k).Level() == 0 && PosOf(ino, k).Ino() == ino && PosOf(ino, k).Slot() == SlotOf(k)
    ensures PosOf(ino, k).InRange(inodes)
  {
    hide PosOf;
    PosShape(ino, k);
    var p := PosOf(ino, k);
    if DIRECT <= k < DIRECT + FANOUT {
      OneUp(p, inodes);
    } else if DIRECT + FANOUT <= k < DIRECT + FANOUT + SQUARE {
      var j := k - DIRECT - FANOUT;
      DoubleIndex(j);
      TwoUp(p, inodes);
    } else if DIRECT + FANOUT + SQUARE <= k {
      var j := k - DIRECT - FANOUT - SQUARE;
      TripleSplit(j);
      TwoUp(p, inodes);
      OneUp(p.up.up, inodes);
    }
  }

  lemma TwoUp(p: Place, inodes: nat)
    requires p.Below? && p.up.Below?
    ensures p.Level() == p.up.up.Level() - 2 && p.Ino() == p.up.up.Ino() && p.Slot() == p.up.up.Slot()
    ensures p.InRange(inodes) <==>
      p.up.up.InRange(inodes) && p.up.up.Level() >= 2 && p.idx < FANOUT && p.up.idx < FANOUT
  {
    OneUp(p, inodes);
    OneUp(p.up, inodes);
  }

  lemma DoubleIndex(j: nat)
    requires j < SQUARE
    ensures j == j / FANOUT * FANOUT + j % FANOUT && j / FANOUT < FANOUT
  {
  }

  lemma TripleSplit(j: nat)
    requires j < SQUARE * FANOUT
    ensures j == j / SQUARE * SQUARE + j / FANOUT % FANOUT * FANOUT + j % FANOUT && j / SQUARE < FANOUT
  {
    var h := j / FANOUT;
    assert j == h * FANOUT + j % FANOUT && h == h / FANOUT * FANOUT + h % FANOUT;
    assert h / FANOUT == j / SQUARE;
  }

  lemma OneUp(p: Place, inodes: nat)
    requires p.Below?
    ensures p.Level() == p.up.Level() - 1 && p.Ino() == p.up.Ino() && p.Slot() == p.up.Slot()
    ensures p.InRange(inodes) <==> p.up.InRange(inodes) && p.up.Level() >= 1 && p.idx < FANOUT
  {
  }

  lemma IndexOfPos(p: Place, inodes: nat)
    requires p.InRange(inodes) && p.Level() == 0
    ensures IndexOf(p) < MAX_BLOCKS && PosOf(p.Ino(), IndexOf(p)) == p
  {
    hide PosOf;
    var k := IndexOf(p);
    if p.Top? {
      PosShape(p.ino, k);
      return;
    }
    OneUp(p, inodes);
    if p.up.Top? {
      PosShape(p.up.ino, k);
      return;
    }
    OneUp(p.up, inodes);
    if p.up.up.Top? {
      assert (p.up.idx * FANOUT + p.idx) / FANOUT == p.up.idx;
      PosShape(p.up.up.ino, k);
      return;
    }
    OneUp(p.up.up, inodes);
    LevelBound(p.up.up.up, inodes);
    TripleIndex(p.up.up.idx, p.up.idx, p.idx);
    PosShape(p.Ino(), k);
  }

  lemma TripleIndex(a: nat, b: nat, c: nat)
    requires a < FANOUT && b < FANOUT && c < FANOUT
    ensures var j := a * SQUARE + b * FANOUT + c;
      j < SQUARE * FANOUT && j / SQUARE == a && j / FANOUT % FANOUT == b && j % FANOUT == c
  {
    var j := a * SQUARE + b * FANOUT + c;
    assert j / FANOUT == a * FANOUT + b;
  }

  lemma {:induction false} LevelBound(p: Place, inodes: nat)
    requires p.InRange(inodes)
    ensures p.Level() <= 3 && (p.Level() == 3 ==> p == Top(p.Ino(), DIRECT + 2))
  {
    if p.Below? { LevelBound(p.up, inodes); }
  }

  lemma PosOfInjective(ino: nat, k: nat, jno: nat, j: nat)
    requires k < MAX_BLOCKS && j < MAX_BLOCKS && PosOf(ino, k) == PosOf(jno, j)
    ensures ino == jno && k == j
  {
    PosOfIndex(ino, k, ino + 1);
    PosOfIndex(jno, j, jno + 1);
  }

  // ------------------------------------------------------------- the invariant

  /** The pointer slots of every inode (all zero for a free one), the blocks and the data
      bitmap; `node` and `home` give the block at a position and back. */
  datatype Disk = Disk(node: map<Place, nat>, home: map<nat, Place>, tops: seq<seq<nat>>, pages: seq<Page>,
                       used: seq<bool>)

  ghost predicate Placed(d: Disk, first: nat) {
    && |d.used| == |d.pages| <= 0x1_0000_0000 && first > 0
    && (forall p :: p in d.node ==> p.InRange(|d.tops|) && first <= d.node[p] < |d.pages|)
    && (forall p :: p in d.node ==> d.node[p] in d.home && d.home[d.node[p]] == p)
    && (forall b :: b in d.home ==> d.home[b] in d.node && d.node[d.home[b]] == b)
  }

  ghost predicate Rooted(d: Disk) {
    && (forall i :: 0 <= i < |d.tops| ==> |d.tops[i]| == SLOTS)
    && (forall i, s :: 0 <= i < |d.tops| && 0 <= s < SLOTS ==> RootedAt(d, i, s))
  }

  ghost predicate RootedAt(d: Disk, i: nat, s: nat)
    requires i < |d.tops| && s < |d.tops[i]|
  {
    if Top(i, s) in d.node then d.node[Top(i, s)] == d.tops[i][s] != 0 else d.tops[i][s] == 0
  }

  ghost predicate Linked(d: Disk) {
    && (forall p, i :: p in d.node && p.Level() >= 1 && 0 <= i < FANOUT ==> LinkedAt(d, p, i))
    && (forall p :: p in d.node && p.Below? ==> p.up in d.node)
  }

  ghost predicate LinkedAt(d: Disk, p: Place, i: nat)
    requires p in d.node && i < FANOUT
  {
    d.node[p] < |d.pages| &&
    if Below(p, i) in d.node then d.node[Below(p, i)] == Word(d.pages[d.node[p]], i) != 0
    else Word(d.pages[d.node[p]], i) == 0
  }

  /** A data block is allocated exactly when some pointer reaches it. */
  ghost predicate Mapped(d: Disk, first: nat) {
    forall b :: first <= b < |d.used| ==> (d.used[b] <==> b in d.home)
  }

  ghost predicate Inv(d: Disk, first: nat) {
    Placed(d, first) && Rooted(d) && Linked(d) && Mapped(d, first)
  }

  // ----------------------------------------------------------- atomic changes

  /** A free block b, zeroed, behind slot s of inode i. */
  ghost function AttachTop(d: Disk, i: nat, s: nat, b: nat): Disk
    requires i < |d.tops| && s < |d.tops[i]| && b < |d.pages| && b < |d.used|
  {
    var slots: seq<nat> := d.tops[i];
    Disk(d.node[Top(i, s) := b], d.home[b := Top(i, s)], d.tops[i := slots[s := b]],
         d.pages[b := ZeroPage()], d.used[b := true])
  }

  /** A free block b, zeroed, behind entry i of the index block at p. */
  ghost function AttachEntry(d: Disk, p: Place, i: nat, b: nat): Disk
    requires p in d.node && d.node[p] < |d.pages| && i < FANOUT && b < |d.pages| && b < |d.used| && b < 0x1_0000_0000
  {
    Disk(d.node[Below(p, i) := b], d.home[b := Below(p, i)], d.tops,
         d.pages[b := ZeroPage()][d.node[p] := PutWord(d.pages[d.node[p]], i, b)], d.used[b := true])
  }

  /** The contents of data block b replaced. */
  ghost function SetData(d: Disk, b: nat, page: Page): Disk
    requires b < |d.pages|
  {
    d.(pages := d.pages[b := page])
  }

  lemma FreshBlock(d: Disk, first: nat, b: nat)
    requires Inv(d, first) && first <= b < |d.used| && !d.used[b]
    ensures b !in d.home && forall p :: p in d.node ==> d.node[p] != b
  {
  }

  lemma ZeroWords()
    ensures forall j :: 0 <= j < FANOUT ==> Word(ZeroPage(), j) == 0
  {
    forall j | 0 <= j < FANOUT ensures Word(ZeroPage(), j) == 0 { WordZero(j); }
  }

  lemma NothingUnder(d: Disk, p: Place)
    requires Linked(d) && p !in d.node
    ensures forall i :: Below(p, i) !in d.node
  {
    forall i ensures Below(p, i) !in d.node { var q := Below(p, i); assert q.up == p; }
  }

  lemma AttachTopKeeps(d: Disk, first: nat, i: nat, s: nat, b: nat)
    requires Inv(d, first) && i < |d.tops| && s < SLOTS && d.tops[i][s] == 0
    requires first <= b < |d.used| && !d.used[b]
    ensures Inv(AttachTop(d, i, s, b), first)
  {
    assert RootedAt(d, i, s);
    AttachTopParts(d, first, i, s, b);
  }

  lemma AttachTopParts(d: Disk, first: nat, i: nat, s: nat, b: nat)
    requires Inv(d, first) && i < |d.tops| && s < SLOTS && |d.tops[i]| == SLOTS && Top(i, s) !in d.node
    requires first <= b < |d.used| && !d.used[b]
    ensures |d.pages| == |d.used| && Inv(AttachTop(d, i, s, b), first)
  {
    hide Word, ZeroPage, Rooted, Linked, Mapped;
    FreshBlock(d, first, b);
    AttachTopPlaced(d, first, i, s, b);
    AttachTopRooted(d, first, i, s, b);
    AttachTopLinked(d, first, i, s, b);
  }

  lemma AttachTopPlaced(d: Disk, first: nat, i: nat, s: nat, b: nat)
    requires Placed(d, first) && Mapped(d, first) && i < |d.tops| && s < SLOTS && |d.tops[i]| == SLOTS
    requires Top(i, s) !in d.node && first <= b < |d.used| && b !in d.home
    ensures Placed(AttachTop(d, i, s, b), first) && Mapped(AttachTop(d, i, s, b), first)
  {
    hide ZeroPage;
  }

  lemma AttachTopRooted(d: Disk, first: nat, i: nat, s: nat, b: nat)
    requires Rooted(d) && first > 0 && i < |d.tops| && s < SLOTS && first <= b < |d.pages| && b < |d.used|
    ensures Rooted(AttachTop(d, i, s, b))
  {
    var g := AttachTop(d, i, s, b);
    forall j, t | 0 <= j < |g.tops| && 0 <= t < SLOTS ensures RootedAt(g, j, t) {
      assert RootedAt(d, j, t);
    }
  }

  lemma AttachTopLinked(d: Disk, first: nat, i: nat, s: nat, b: nat)
    requires Placed(d, first) && Linked(d) && i < |d.tops| && s < |d.tops[i]| && first <= b < |d.pages| && b < |d.used|
    requires Top(i, s) !in d.node && b !in d.home && forall p :: p in d.node ==> d.node[p] != b
    ensures Linked(AttachTop(d, i, s, b))
  {
    hide Word, ZeroPage, Placed;
    var g := AttachTop(d, i, s, b);
    ZeroWords();
    NothingUnder(d, Top(i, s));
    forall p, j | p in g.node && p.Level() >= 1 && 0 <= j < FANOUT ensures LinkedAt(g, p, j) {
      if p != Top(i, s) { assert LinkedAt(d, p, j); }
    }
  }

  lemma AttachEntryKeeps(d: Disk, first: nat, p: Place, i: nat, b: nat)
    requires Inv(d, first) && p in d.node && p.Level() >= 1 && i < FANOUT && Below(p, i) !in d.node
    requires first <= b < |d.used| && !d.used[b]
    ensures Inv(AttachEntry(d, p, i, b), first)
  {
    hide Word, PutWord, ZeroPage, Rooted, Linked, Mapped;
    FreshBlock(d, first, b);
    AttachEntryPlaced(d, first, p, i, b);
    AttachEntryRooted(d, p, i, b);
    AttachEntryLinked(d, first, p, i, b);
  }

  lemma AttachEntryPlaced(d: Disk, first: nat, p: Place, i: nat, b: nat)
    requires Placed(d, first) && Mapped(d, first) && p in d.node && p.Level() >= 1 && i < FANOUT
    requires Below(p, i) !in d.node && first <= b < |d.used| && b !in d.home
    ensures Placed(AttachEntry(d, p, i, b), first) && Mapped(AttachEntry(d, p, i, b), first)
  {
    hide PutWord, ZeroPage;
    OneUp(Below(p, i), |d.tops|);
  }

  lemma AttachEntryRooted(d: Disk, p: Place, i: nat, b: nat)
    requires Rooted(d) && p in d.node && d.node[p] < |d.pages| && i < FANOUT && b < |d.pages| && b < |d.used|
    requires b < 0x1_0000_0000
    ensures Rooted(AttachEntry(d, p, i, b))
  {
    hide PutWord, ZeroPage;
    var g := AttachEntry(d, p, i, b);
    forall j, t | 0 <= j < |g.tops| && 0 <= t < SLOTS ensures RootedAt(g, j, t) {
      assert RootedAt(d, j, t);
    }
  }

  lemma AttachEntryLinked(d: Disk, first: nat, p: Place, i: nat, b: nat)
    requires Placed(d, first) && Linked(d) && p in d.node && p.Level() >= 1 && i < FANOUT && Below(p, i) !in d.node
    requires first <= b < |d.pages| && forall q :: q in d.node ==> d.node[q] != b
    ensures Linked(AttachEntry(d, p, i, b))
  {
    hide Word, PutWord, ZeroPage;
    var g := AttachEntry(d, p, i, b);
    ZeroWords();
    NothingUnder(d, Below(p, i));
    forall q, j | q in g.node && q.Level() >= 1 && 0 <= j < FANOUT ensures LinkedAt(g, q, j) {
      if q == p {
        assert LinkedAt(d, p, j);
        WordPut(d.pages[d.node[p]], i, b, j);
      } else if q != Below(p, i) {
        assert LinkedAt(d, q, j);
        assert d.node[q] != d.node[p];
      }
    }
  }

  lemma SetDataKeeps(d: Disk, first: nat, b: nat, page: Page)
    requires Inv(d, first) && b in d.home && d.home[b].Level() == 0
    ensures b < |d.pages| && Inv(SetData(d, b, page), first)
  {
    hide Word;
    var g := SetData(d, b, page);
    forall j, t | 0 <= j < |g.tops| && 0 <= t < SLOTS ensures RootedAt(g, j, t) { assert RootedAt(d, j, t); }
    forall q, j | q in g.node && q.Level() >= 1 && 0 <= j < FANOUT ensures LinkedAt(g, q, j) {
      assert LinkedAt(d, q, j);
      assert d.node[q] != b;
    }
  }

  // ------------------------------------------------------ dropping whole slots

  predicate InSlots(p: Place, i: nat, slots: set<nat>) {
    p.Ino() == i && p.Slot() in slots
  }

  /** The positions of the given slots of inode i, and all below, are gone. */
  ghost function DropSlots(d: Disk, i: nat, slots: set<nat>): Disk
    requires i < |d.tops|
  {
    Disk(map p | p in d.node && !InSlots(p, i, slots) :: d.node[p],
         map b | b in d.home && !InSlots(d.home[b], i, slots) :: d.home[b],
         d.tops[i := seq(|d.tops[i]|, s requires 0 <= s < |d.tops[i]| => if s in slots then 0 else d.tops[i][s])],
         d.pages,
         seq(|d.used|, b requires 0 <= b < |d.used| => d.used[b] && !(b in d.home && InSlots(d.home[b], i, slots))))
  }

  lemma DropSlotsKeeps(d: Disk, first: nat, i: nat, slots: set<nat>)
    requires Inv(d, first) && i < |d.tops|
    ensures Inv(DropSlots(d, i, slots), first)
  {
    hide Word, InSlots;
    var g := DropSlots(d, i, slots);
    DropRooted(d, i, slots);
    DropLinked(d, first, i, slots);
  }

  lemma DropRooted(d: Disk, i: nat, slots: set<nat>)
    requires Rooted(d) && i < |d.tops|
    ensures Rooted(DropSlots(d, i, slots))
  {
    var g := DropSlots(d, i, slots);
    forall j, t | 0 <= j < |g.tops| && 0 <= t < SLOTS ensures RootedAt(g, j, t) {
      assert RootedAt(d, j, t);
      assert InSlots(Top(j, t), i, slots) <==> j == i && t in slots;
    }
  }

  lemma SameSlots(p: Place, i: nat, slots: set<nat>)
    requires p.Below?
    ensures InSlots(p, i, slots) <==> InSlots(p.up, i, slots)
  {
  }

  lemma DropLinked(d: Disk, first: nat, i: nat, slots: set<nat>)
    requires Placed(d, first) && Linked(d) && i < |d.tops|
    ensures Linked(DropSlots(d, i, slots))
  {
    hide Word, InSlots, Placed;
    var g := DropSlots(d, i, slots);
    forall p, j | p in g.node && p.Level() >= 1 && 0 <= j < FANOUT ensures LinkedAt(g, p, j) {
      assert LinkedAt(d, p, j);
      SameSlots(Below(p, j), i, slots);
    }
    forall p | p in g.node && p.Below? ensures p.up in g.node { SameSlots(p, i, slots); }
  }

  // --------------------------------------------------------------- data pages

  /** The contents behind a data pointer; absent blocks read as zero. */
  ghost function DataAt(d: Disk, p: Place): Page {
    if p in d.node && d.node[p] < |d.pages| then d.pages[d.node[p]] else ZeroPage()
  }

  ghost predicate SameData(d: Disk, g: Disk) {
    forall p: Place :: p.Level() == 0 ==> DataAt(g, p) == DataAt(d, p)
  }

  lemma AttachTopData(d: Disk, first: nat, i: nat, s: nat, b: nat)
    requires Inv(d, first) && i < |d.tops| && s < SLOTS && d.tops[i][s] == 0
    requires first <= b < |d.used| && !d.used[b]
    ensures SameData(d, AttachTop(d, i, s, b))
  {
    hide Word, ZeroPage, Linked;
    assert RootedAt(d, i, s);
    FreshBlock(d, first, b);
  }

  lemma AttachEntryData(d: Disk, first: nat, p: Place, i: nat, b: nat)
    requires Inv(d, first) && p in d.node && p.Level() >= 1 && i < FANOUT && Below(p, i) !in d.node
    requires first <= b < |d.used| && !d.used[b]
    ensures SameData(d, AttachEntry(d, p, i, b))
  {
    hide Word, PutWord, ZeroPage, Linked, Rooted;
    var g := AttachEntry(d, p, i, b);
    FreshBlock(d, first, b);
    forall q: Place | q.Level() == 0 ensures DataAt(g, q) == DataAt(d, q) {
      if q in d.node { assert d.node[q] != d.node[p]; }
    }
  }

  lemma SetDataAt(d: Disk, first: nat, b: nat, page: Page, q: Place)
    requires Inv(d, first) && b in d.home && b < |d.pages|
    ensures DataAt(SetData(d, b, page), q) == if q == d.home[b] then page else DataAt(d, q)
  {
    hide Linked, Rooted, ZeroPage;
  }

  lemma DropSlotsData(d: Disk, i: nat, slots: set<nat>, q: Place)
    requires i < |d.tops|
    ensures DataAt(DropSlots(d, i, slots), q) == if InSlots(q, i, slots) then ZeroPage() else DataAt(d, q)
  {
    hide ZeroPage;
  }

  /** Nothing is behind an empty slot. */
  lemma {:induction false} EmptySlot(d: Disk, p: Place)
    requires Rooted(d) && Linked(d) && p.Ino() < |d.tops| && p.Slot() < SLOTS && d.tops[p.Ino()][p.Slot()] == 0
    ensures p !in d.node
    decreases p
  {
    if p.Top? {
      assert RootedAt(d, p.ino, p.slot);
    } else {
      EmptySlot(d, p.up);
    }
  }

  // ------------------------------------------------------- what the pointers explain

  /** h has some of g's top pointers, over the same blocks. */
  ghost predicate Fewer(h: Disk, g: Disk) {
    && h.pages == g.pages && |h.tops| == |g.tops|
    && forall i, s :: 0 <= i < |h.tops| && 0 <= s < |h.tops[i]| && s < |g.tops[i]| ==>
         h.tops[i][s] == 0 || h.tops[i][s] == g.tops[i][s]
  }

  /** The pointers on disk determine what is where. */
  lemma {:induction false} Explained(g: Disk, h: Disk, first: nat, p: Place)
    requires Inv(g, first) && Inv(h, first) && Fewer(h, g) && p in h.node
    ensures p in g.node && g.node[p] == h.node[p]
    decreases p
  {
    hide Word;
    assert p.InRange(|h.tops|);
    if p.Top? {
      assert RootedAt(h, p.ino, p.slot) && RootedAt(g, p.ino, p.slot);
    } else {
      Explained(g, h, first, p.up);
      assert LinkedAt(h, p.up, p.idx) && LinkedAt(g, p.up, p.idx);
    }
  }

  /** No assignment of blocks to pointers explains the bitmap. */
  ghost predicate Lost(tops: seq<seq<nat>>, pages: seq<Page>, used: seq<bool>, first: nat) {
    forall node, home :: !Inv(Disk(node, home, tops, pages, used), first)
  }

  /** A block marked used that no pointer was made for is lost. */
  lemma LostBlock(d: Disk, first: nat, f: nat)
    requires Inv(d, first) && first <= f < |d.used| && !d.used[f]
    ensures Lost(d.tops, d.pages, d.used[f := true], first)
  {
    hide Rooted, Linked;
    var used := d.used[f := true];
    forall node, home ensures !Inv(Disk(node, home, d.tops, d.pages, used), first) {
      var h := Disk(node, home, d.tops, d.pages, used);
      if Inv(h, first) { Explained(d, h, first, h.home[f]); }
    }
  }
}
