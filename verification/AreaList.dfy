/** The list of virtual memory areas of a process (kernel/process.c). */
module AreaList {
  import opened Layout

  datatype Flags = Flags(read: bool, write: bool, exec: bool, growsDown: bool, anon: bool)

  /** struct vm_area, `end` exclusive. */
  datatype Area = Area(start: nat, end: nat, flags: Flags, offset: nat) {
    predicate Well() {
      0 < start < end <= USER_TOP && start % PAGE_SIZE == 0 && end % PAGE_SIZE == 0
    }
  }

  predicate Sorted(xs: seq<Area>) {
    && (forall i :: 0 <= i < |xs| ==> xs[i].Well())
    && (forall i, j :: 0 <= i < j < |xs| ==> xs[i].end <= xs[j].start)
  }

  predicate Overlaps(xs: seq<Area>, start: nat, end: nat) {
    exists i :: 0 <= i < |xs| && start < xs[i].end && xs[i].start < end
  }

  /** Byte `a` lies in area `i`. */
  predicate In(xs: seq<Area>, a: nat, i: nat)
    requires i < |xs|
  {
    xs[i].start <= a < xs[i].end
  }

  predicate Covered(xs: seq<Area>, a: nat) {
    exists i :: 0 <= i < |xs| && In(xs, a, i)
  }

  /** vma_overlaps. */
  method FindOverlap(xs: seq<Area>, start: nat, end: nat) returns (found: bool)
    ensures found <==> Overlaps(xs, start, end)
  {
    for i := 0 to |xs|
      invariant forall j :: 0 <= j < i ==> !(start < xs[j].end && xs[j].start < end)
    {
      if start < xs[i].end && xs[i].start < end { return true; }
    }
    return false;
  }

  /** find_vma_locked: the area that holds `a`, or the length of the list. */
  method Find(xs: seq<Area>, a: nat) returns (i: nat)
    ensures i <= |xs|
    ensures i < |xs| ==> In(xs, a, i)
    ensures i == |xs| ==> !Covered(xs, a)
  {
    i := 0;
    while i < |xs|
      invariant 0 <= i <= |xs| && forall j :: 0 <= j < i ==> !In(xs, a, j)
    {
      if xs[i].start <= a < xs[i].end { return; }
      i := i + 1;
    }
  }

  /** The insertion point of process_add_vma: before the first area that starts
      later. */
  method InsertionPoint(xs: seq<Area>, start: nat) returns (k: nat)
    ensures k <= |xs|
    ensures forall j :: 0 <= j < k ==> xs[j].start < start
    ensures k < |xs| ==> xs[k].start >= start
  {
    k := 0;
    while k < |xs| && xs[k].start < start
      invariant 0 <= k <= |xs| && forall j :: 0 <= j < k ==> xs[j].start < start
    {
      k := k + 1;
    }
  }

  function InsertAt(xs: seq<Area>, k: nat, x: Area): seq<Area>
    requires k <= |xs|
  {
    xs[..k] + [x] + xs[k..]
  }

  lemma InsertSorted(xs: seq<Area>, k: nat, x: Area)
    requires Sorted(xs) && x.Well() && !Overlaps(xs, x.start, x.end) && k <= |xs|
    requires forall j :: 0 <= j < k ==> xs[j].start < x.start
    requires k < |xs| ==> xs[k].start >= x.start
    ensures Sorted(InsertAt(xs, k, x))
  {
    forall j | 0 <= j < |xs| ensures xs[j].end <= x.start || x.end <= xs[j].start {
      assert !(x.start < xs[j].end && xs[j].start < x.end);
    }
    assert forall j :: 0 <= j < k ==> xs[j].end <= x.start;
    assert forall j :: k <= j < |xs| ==> x.end <= xs[j].start;
  }

  lemma InsertCovers(xs: seq<Area>, k: nat, x: Area, a: nat)
    requires k <= |xs|
    ensures Covered(InsertAt(xs, k, x), a) <==> Covered(xs, a) || x.start <= a < x.end
  {
    var ys := InsertAt(xs, k, x);
    if i :| 0 <= i < |xs| && In(xs, a, i) {
      assert In(ys, a, if i < k then i else i + 1);
    }
    if x.start <= a < x.end { assert In(ys, a, k); }
    if i :| 0 <= i < |ys| && In(ys, a, i) {
      if i < k { assert In(xs, a, i); } else if i > k { assert In(xs, a, i - 1); }
    }
  }

  /** Byte `a` has these rights. */
  ghost predicate Marked(xs: seq<Area>, a: nat, flags: Flags, offset: nat) {
    exists i :: 0 <= i < |xs| && In(xs, a, i) && xs[i].flags == flags && xs[i].offset == offset
  }

  /** An insertion gives its own bytes their rights and takes nobody's. */
  lemma InsertMarks(xs: seq<Area>, k: nat, x: Area, a: nat, flags: Flags, offset: nat)
    requires k <= |xs|
    ensures Marked(InsertAt(xs, k, x), a, flags, offset) <==>
      Marked(xs, a, flags, offset) || (x.start <= a < x.end && x.flags == flags && x.offset == offset)
  {
    var ys := InsertAt(xs, k, x);
    if i :| 0 <= i < |xs| && In(xs, a, i) && xs[i].flags == flags && xs[i].offset == offset {
      assert ys[if i < k then i else i + 1] == xs[i];
      assert In(ys, a, if i < k then i else i + 1);
    }
    if x.start <= a < x.end { assert ys[k] == x && In(ys, a, k); }
    if i :| 0 <= i < |ys| && In(ys, a, i) && ys[i].flags == flags && ys[i].offset == offset {
      if i < k { assert In(xs, a, i); } else if i > k { assert In(xs, a, i - 1); }
    }
  }

  function RemoveAt(xs: seq<Area>, k: nat): seq<Area>
    requires k < |xs|
  {
    xs[..k] + xs[k + 1..]
  }

  lemma RemoveInserted(xs: seq<Area>, k: nat, x: Area)
    requires k <= |xs|
    ensures RemoveAt(InsertAt(xs, k, x), k) == xs
  {
  }

  /** What munmap makes of area `k` when [start, end) is cut out of it. */
  function Cut(xs: seq<Area>, k: nat, start: nat, end: nat): seq<Area>
    requires k < |xs|
  {
    var x := xs[k];
    var left := if x.start < start then [x.(end := start)] else [];
    var right := if end < x.end then [x.(start := end)] else [];
    xs[..k] + left + right + xs[k + 1..]
  }

  lemma CutSorted(xs: seq<Area>, k: nat, start: nat, end: nat)
    requires Sorted(xs) && k < |xs| && xs[k].start <= start < end <= xs[k].end
    requires start % PAGE_SIZE == 0 && end % PAGE_SIZE == 0
    ensures Sorted(Cut(xs, k, start, end))
  {
  }

  /** Cutting removes exactly the interval. */
  lemma CutCovers(xs: seq<Area>, k: nat, start: nat, end: nat, a: nat)
    requires Sorted(xs) && k < |xs| && xs[k].start <= start < end <= xs[k].end
    ensures Covered(Cut(xs, k, start, end), a) <==> Covered(xs, a) && !(start <= a < end)
  {
    var ys := Cut(xs, k, start, end);
    var x := xs[k];
    var l := if x.start < start then 1 else 0;
    var m := l + if end < x.end then 1 else 0;
    assert |ys| == |xs| - 1 + m;
    if i :| 0 <= i < |xs| && In(xs, a, i) {
      if i < k { assert In(ys, a, i); }
      else if i > k { assert ys[i - 1 + m] == xs[i]; assert In(ys, a, i - 1 + m); }
      else if a < start { assert In(ys, a, k); }
      else if a >= end { assert In(ys, a, k + l); }
    }
    if i :| 0 <= i < |ys| && In(ys, a, i) {
      CutFrom(xs, k, start, end, a, i);
    }
  }

  /** What is left keeps its rights. */
  lemma CutMarks(xs: seq<Area>, k: nat, start: nat, end: nat, a: nat, flags: Flags, offset: nat)
    requires Sorted(xs) && k < |xs| && xs[k].start <= start < end <= xs[k].end
    ensures Marked(Cut(xs, k, start, end), a, flags, offset) <==> Marked(xs, a, flags, offset) && !(start <= a < end)
  {
    hide Cut, Sorted;
    var ys := Cut(xs, k, start, end);
    if i :| 0 <= i < |xs| && In(xs, a, i) && xs[i].flags == flags && xs[i].offset == offset {
      if !(start <= a < end) { var j := KeptPart(xs, k, start, end, a, i); }
    }
    if i :| 0 <= i < |ys| && In(ys, a, i) && ys[i].flags == flags && ys[i].offset == offset {
      CutFrom(xs, k, start, end, a, i);
      var j := CameFrom(xs, k, start, end, a, i);
    }
  }

  lemma KeptPart(xs: seq<Area>, k: nat, start: nat, end: nat, a: nat, i: nat) returns (j: nat)
    requires k < |xs| && xs[k].start <= start < end <= xs[k].end && i < |xs| && In(xs, a, i) && !(start <= a < end)
    ensures var ys := Cut(xs, k, start, end);
      j < |ys| && In(ys, a, j) && ys[j].flags == xs[i].flags && ys[j].offset == xs[i].offset
  {
    var ys := Cut(xs, k, start, end);
    var l := if xs[k].start < start then 1 else 0;
    var m := l + if end < xs[k].end then 1 else 0;
    assert |ys| == |xs| - 1 + m;
    j := if i < k then i else if i > k then i - 1 + m else if a < start then k else k + l;
    assert i > k ==> ys[i - 1 + m] == xs[i];
  }

  lemma CameFrom(xs: seq<Area>, k: nat, start: nat, end: nat, a: nat, i: nat) returns (j: nat)
    requires k < |xs| && xs[k].start <= start < end <= xs[k].end
    requires i < |Cut(xs, k, start, end)| && In(Cut(xs, k, start, end), a, i)
    ensures var ys := Cut(xs, k, start, end);
      j < |xs| && In(xs, a, j) && ys[i].flags == xs[j].flags && ys[i].offset == xs[j].offset
  {
    var ys := Cut(xs, k, start, end);
    var l := if xs[k].start < start then 1 else 0;
    var m := l + if end < xs[k].end then 1 else 0;
    j := if i < k then i else if i >= k + m then i + 1 - m else k;
    assert i >= k + m ==> ys[i] == xs[i + 1 - m];
  }

  /** Cutting out all of what was inserted restores the list. */
  lemma CutInserted(xs: seq<Area>, k: nat, x: Area)
    requires k <= |xs|
    ensures Cut(InsertAt(xs, k, x), k, x.start, x.end) == xs
  {
  }

  lemma CutFrom(xs: seq<Area>, k: nat, start: nat, end: nat, a: nat, i: nat)
    requires Sorted(xs) && k < |xs| && xs[k].start <= start < end <= xs[k].end
    requires i < |Cut(xs, k, start, end)| && In(Cut(xs, k, start, end), a, i)
    ensures Covered(xs, a) && !(start <= a < end)
  {
    var ys := Cut(xs, k, start, end);
    var l := if xs[k].start < start then 1 else 0;
    var m := l + if end < xs[k].end then 1 else 0;
    if i < k { assert In(xs, a, i); }
    else if i >= k + m { assert ys[i] == xs[i + 1 - m]; assert In(xs, a, i + 1 - m); }
    else { assert In(xs, a, k); }
  }
}
