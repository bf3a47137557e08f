/** The free data blocks of MyFS in the order alloc_data_block (kernel/fs.c) takes them, and
    how far that order reaches before a block number does not fit or a cache line is lost. */
module Allocation {
  import opened Layout

  const INT_LIMIT := 0x8000_0000        // block numbers from here on do not fit a C int
  const BITMAP_BITS := 8 * PAGE_SIZE    // bits in a bitmap block

  /** Blocks below this are found within fourteen bitmap blocks, so that an index block
      looked up before the search keeps its cache line. */
  function NearLimit(first: nat): nat { (first / BITMAP_BITS + 14) * BITMAP_BITS }

  /** The reach of an allocation that is followed by a store into an index block. */
  function EntryLimit(first: nat): nat {
    if NearLimit(first) < INT_LIMIT then NearLimit(first) else INT_LIMIT
  }

  ghost function Free(used: seq<bool>, first: nat): set<int> {
    set b | first <= b < |used| && !used[b]
  }

  lemma FreeTaken(used: seq<bool>, first: nat, b: nat)
    requires first <= b < |used| && !used[b]
    ensures Free(used[b := true], first) == Free(used, first) - {b}
    ensures |Free(used[b := true], first)| == |Free(used, first)| - 1
  {
    assert Free(used[b := true], first) == Free(used, first) - {b};
    assert b in Free(used, first);
  }

  // ------------------------------------------------------------------- ranks

  ghost function FreeBelow(used: seq<bool>, first: nat, b: int): set<int> {
    set c | c in Free(used, first) && c < b
  }

  /** How many free blocks are taken before b. */
  ghost function Rank(used: seq<bool>, first: nat, b: int): nat {
    |FreeBelow(used, first, b)|
  }

  /** The free blocks of ranks lo up to hi, as far as there are any, lie below the limit. */
  ghost predicate Reach(used: seq<bool>, first: nat, lo: nat, hi: nat, limit: nat) {
    forall b :: b in Free(used, first) && lo <= Rank(used, first, b) < hi ==> b < limit
  }

  ghost predicate Lowest(used: seq<bool>, first: nat, f: nat) {
    first <= f < |used| && !used[f] && forall c :: first <= c < f ==> used[c]
  }

  lemma RankFirst(used: seq<bool>, first: nat, f: nat, b: int)
    requires Lowest(used, first, f) && b in Free(used, first)
    ensures f <= b && (Rank(used, first, b) == 0 <==> b == f)
  {
    if b == f {
      assert FreeBelow(used, first, b) == {};
    } else {
      assert f in FreeBelow(used, first, b);
    }
  }

  lemma ReachFirst(used: seq<bool>, first: nat, f: nat, limit: nat)
    requires Lowest(used, first, f)
    ensures Reach(used, first, 0, 1, limit) <==> f < limit
  {
    hide Rank;
    assert f in Free(used, first);
    forall b | b in Free(used, first) ensures Rank(used, first, b) == 0 <==> b == f { RankFirst(used, first, f, b); }
  }

  lemma RankTaken(used: seq<bool>, first: nat, f: nat, b: int)
    requires Lowest(used, first, f) && b in Free(used, first) && b != f
    ensures b in Free(used[f := true], first) && Rank(used[f := true], first, b) + 1 == Rank(used, first, b)
  {
    var u := used[f := true];
    FreeTaken(used, first, f);
    assert FreeBelow(used, first, b) == FreeBelow(u, first, b) + {f};
  }

  lemma RankBound(used: seq<bool>, first: nat, b: int)
    requires b in Free(used, first)
    ensures Rank(used, first, b) < |Free(used, first)|
  {
    var s := FreeBelow(used, first, b);
    assert b !in s && s + {b} <= Free(used, first);
    Card(s + {b}, Free(used, first));
  }

  lemma Card(a: set<int>, b: set<int>)
    requires a <= b
    ensures |a| <= |b|
  {
    assert b == a + (b - a);
  }

  /** Ranks beyond the number of free blocks are never taken. */
  lemma ReachVoid(used: seq<bool>, first: nat, lo: nat, hi: nat, limit: nat)
    requires lo >= hi || |Free(used, first)| <= lo
    ensures Reach(used, first, lo, hi, limit)
  {
    hide Rank, Free;
    forall b | b in Free(used, first) ensures Rank(used, first, b) < |Free(used, first)| { RankBound(used, first, b); }
  }

  lemma ReachSplit(used: seq<bool>, first: nat, lo: nat, mid: nat, hi: nat, limit: nat)
    requires lo <= mid <= hi
    ensures Reach(used, first, lo, hi, limit) <==>
      Reach(used, first, lo, mid, limit) && Reach(used, first, mid, hi, limit)
  {
    hide Rank, Free;
  }

  // ------------------------------------------------------- the lowest m are gone

  /** From `before` to `after` exactly the m lowest free blocks have been taken. */
  ghost predicate Shifted(before: seq<bool>, after: seq<bool>, first: nat, m: nat) {
    && |after| == |before|
    && (forall b :: b in Free(after, first) ==> b in Free(before, first))
    && (forall b :: b in Free(before, first) ==> (b in Free(after, first) <==> Rank(before, first, b) >= m))
    && (forall b :: b in Free(after, first) ==> Rank(before, first, b) == Rank(after, first, b) + m)
  }

  lemma ShiftedNone(used: seq<bool>, first: nat)
    ensures Shifted(used, used, first, 0)
  {
  }

  lemma ShiftedOne(used: seq<bool>, first: nat, f: nat)
    requires Lowest(used, first, f)
    ensures Shifted(used, used[f := true], first, 1)
  {
    hide Rank;
    FreeTaken(used, first, f);
    forall b | b in Free(used, first)
      ensures Rank(used, first, b) == 0 <==> b == f
      ensures b != f ==> Rank(used[f := true], first, b) + 1 == Rank(used, first, b)
    {
      RankFirst(used, first, f, b);
      if b != f { RankTaken(used, first, f, b); }
    }
  }

  lemma ShiftedTrans(a: seq<bool>, b: seq<bool>, c: seq<bool>, first: nat, m: nat, n: nat)
    requires Shifted(a, b, first, m) && Shifted(b, c, first, n)
    ensures Shifted(a, c, first, m + n)
  {
    hide Rank, Free;
  }

  lemma ShiftedReach(a: seq<bool>, b: seq<bool>, first: nat, m: nat, lo: nat, hi: nat, limit: nat)
    requires Shifted(a, b, first, m)
    ensures Reach(b, first, lo, hi, limit) <==> Reach(a, first, m + lo, m + hi, limit)
  {
    hide Rank, Free;
    if Reach(b, first, lo, hi, limit) {
      forall x | x in Free(a, first) && m + lo <= Rank(a, first, x) < m + hi ensures x < limit {
        assert x in Free(b, first);
      }
    }
  }
}
