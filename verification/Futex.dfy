/** Futex wait queues (kernel/futex.c): sixty-four buckets of doubly linked waiters. */
module Futex {
  const BUCKETS := 64
  const ERR_INVAL := -1
  const ERR_AGAIN := -2
  const ERR_INTR := -4

  const TWO_32 := 0x1_0000_0000
  const TWO_64 := 0x1_0000_0000_0000_0000

  /** Bitwise exclusive or. */
  function Xor(a: nat, b: nat): nat {
    if a == 0 && b == 0 then 0 else (a + b) % 2 + 2 * Xor(a / 2, b / 2)
  }

  /** What a waiter waits for: a process and an address in it. */
  datatype Key = Key(process: nat, address: nat) {
    /** futex_hash, in 64-bit arithmetic. */
    function Bucket(): (r: nat)
      ensures r < BUCKETS
    {
      var value := Xor(Xor(process, address / 0x1000), address / 0x800_0000) * 0x9E37_79B1_85EB_CA87 % TWO_64;
      value / TWO_32 % BUCKETS
    }
  }

  /** The futex fields of a thread; 0 is the null link. */
  datatype Node = Node(waiting: bool, bucket: nat, key: Key, prev: nat, next: nat, result: int, blocked: bool)

  type Nodes = map<nat, Node>

  // ---------------------------------------------------------------- linked lists

  function After(q: seq<nat>, k: int): nat
    requires -1 <= k < |q|
  {
    if k + 1 < |q| then q[k + 1] else 0
  }

  function Before(q: seq<nat>, k: nat): nat
    requires k <= |q|
  {
    if k > 0 then q[k - 1] else 0
  }

  /** The links in `nodes` starting at `head` spell out q. */
  ghost predicate Chain(nodes: Nodes, q: seq<nat>, head: nat) {
    && head == After(q, -1)
    && (forall k :: 0 <= k < |q| ==> q[k] != 0 && q[k] in nodes)
    && (forall k :: 0 <= k < |q| ==> nodes[q[k]].prev == Before(q, k) && nodes[q[k]].next == After(q, k))
    && (forall i, j :: 0 <= i < j < |q| ==> q[i] != q[j])
  }

  ghost predicate InBucket(nodes: Nodes, q: seq<nat>, b: nat) {
    forall k :: 0 <= k < |q| ==>
      q[k] in nodes && nodes[q[k]].waiting && nodes[q[k]].bucket == b && nodes[q[k]].key.Bucket() == b
  }

  ghost predicate Listed(nodes: Nodes, queues: seq<seq<nat>>) {
    forall t :: t in nodes && nodes[t].waiting ==> nodes[t].bucket < |queues| && t in queues[nodes[t].bucket]
  }

  ghost predicate Table(nodes: Nodes, queues: seq<seq<nat>>, heads: seq<nat>) {
    && |queues| == |heads| == BUCKETS && 0 !in nodes
    && (forall b :: 0 <= b < BUCKETS ==> Chain(nodes, queues[b], heads[b]))
    && (forall b :: 0 <= b < BUCKETS ==> InBucket(nodes, queues[b], b))
    && Listed(nodes, queues)
  }

  ghost function Total(queues: seq<seq<nat>>): nat {
    if queues == [] then 0 else |queues[0]| + Total(queues[1..])
  }

  lemma {:induction false} TotalUpdate(queues: seq<seq<nat>>, b: nat, q: seq<nat>)
    requires b < |queues|
    ensures Total(queues[b := q]) + |queues[b]| == Total(queues) + |q|
  {
    if b == 0 {
      assert queues[b := q][1..] == queues[1..];
    } else {
      TotalUpdate(queues[1..], b - 1, q);
      assert queues[b := q][1..] == queues[1..][b - 1 := q];
    }
  }

  // ------------------------------------------------------------- list operations

  function Without(q: seq<nat>, k: nat): seq<nat>
    requires k < |q|
  {
    q[..k] + q[k + 1..]
  }

  /** unlink_waiter_locked on the links. */
  function Unlinked(nodes: Nodes, t: nat): Nodes
    requires t in nodes
  {
    var n := nodes[t];
    var a := if n.prev != 0 && n.prev in nodes then nodes[n.prev := nodes[n.prev].(next := n.next)] else nodes;
    var c := if n.next != 0 && n.next in a then a[n.next := a[n.next].(prev := n.prev)] else a;
    c[t := n.(prev := 0, next := 0, waiting := false)]
  }

  lemma UnlinkedChain(nodes: Nodes, q: seq<nat>, head: nat, k: nat)
    requires Chain(nodes, q, head) && k < |q| && 0 !in nodes
    ensures Chain(Unlinked(nodes, q[k]), Without(q, k), if k == 0 then nodes[q[k]].next else head)
  {
    hide Unlinked, Without, Chain, After, Before;
    ChainMember(nodes, q, head, k);
    var m, r := Unlinked(nodes, q[k]), Without(q, k);
    WithoutFacts(nodes, q, head, k);
    forall j | 0 <= j < |r| ensures r[j] in m && m[r[j]].prev == Before(r, j) && m[r[j]].next == After(r, j) {
      UnlinkedAt(nodes, q, head, k, j);
    }
    ChainIntro(m, r, if k == 0 then nodes[q[k]].next else head);
  }

  lemma WithoutFacts(nodes: Nodes, q: seq<nat>, head: nat, k: nat)
    requires Chain(nodes, q, head) && k < |q|
    ensures var r := Without(q, k);
      && |r| == |q| - 1 && (forall j :: 0 <= j < |r| ==> r[j] != 0)
      && (forall i, j :: 0 <= i < j < |r| ==> r[i] != r[j])
      && After(r, -1) == if k == 0 then nodes[q[k]].next else head
  {
    var r := Without(q, k);
    forall j | 0 <= j < |r| ensures r[j] == q[if j < k then j else j + 1] { }
  }

  lemma ChainIntro(nodes: Nodes, q: seq<nat>, head: nat)
    requires head == After(q, -1) && (forall k :: 0 <= k < |q| ==> q[k] != 0 && q[k] in nodes)
    requires forall k :: 0 <= k < |q| ==> nodes[q[k]].prev == Before(q, k) && nodes[q[k]].next == After(q, k)
    requires forall i, j :: 0 <= i < j < |q| ==> q[i] != q[j]
    ensures Chain(nodes, q, head)
  {
  }

  /** The fields of thread x after t has been unlinked. */
  function UnlinkedNode(nodes: Nodes, t: nat, x: nat): Node
    requires t in nodes && x in nodes
  {
    var n := nodes[t];
    if x == t then n.(prev := 0, next := 0, waiting := false)
    else if x == n.prev then nodes[x].(next := n.next)
    else if x == n.next then nodes[x].(prev := n.prev)
    else nodes[x]
  }

  lemma UnlinkedIs(nodes: Nodes, t: nat, x: nat)
    requires t in nodes && 0 !in nodes && nodes[t].prev != t && nodes[t].next != t
    requires nodes[t].prev != 0 ==> nodes[t].prev != nodes[t].next
    ensures x in Unlinked(nodes, t) <==> x in nodes
    ensures x in nodes ==> Unlinked(nodes, t)[x] == UnlinkedNode(nodes, t, x)
  {
  }

  lemma LinksAt(nodes: Nodes, q: seq<nat>, head: nat, k: nat)
    requires Chain(nodes, q, head) && k < |q|
    ensures var n := nodes[q[k]];
      && n.prev == Before(q, k) && n.next == After(q, k) && n.prev != q[k] && n.next != q[k]
      && (n.prev != 0 ==> n.prev != n.next)
  {
  }

  lemma UnlinkedAt(nodes: Nodes, q: seq<nat>, head: nat, k: nat, j: nat)
    requires Chain(nodes, q, head) && k < |q| && j < |q| - 1 && 0 !in nodes
    ensures var m, r := Unlinked(nodes, q[k]), Without(q, k);
      r[j] in m && m[r[j]].prev == Before(r, j) && m[r[j]].next == After(r, j)
  {
    hide Unlinked, Chain;
    var r := Without(q, k);
    var i := if j < k then j else j + 1;
    assert r[j] == q[i];
    LinksAt(nodes, q, head, k);
    LinksAt(nodes, q, head, i);
    ChainMember(nodes, q, head, k);
    ChainMember(nodes, q, head, i);
    UnlinkedIs(nodes, q[k], q[i]);
    NodeAt(nodes, q, head, k, i);
  }

  lemma NodeAt(nodes: Nodes, q: seq<nat>, head: nat, k: nat, i: nat)
    requires Chain(nodes, q, head) && k < |q| && i < |q| && i != k
    ensures var n, r, j := UnlinkedNode(nodes, q[k], q[i]), Without(q, k), if i < k then i else i - 1;
      n.prev == Before(r, j) && n.next == After(r, j)
  {
    hide Without;
    WithoutNeighbours(q, k, i);
    assert q[i] != q[k];
  }

  /** The neighbours of a member once another is out. */
  lemma WithoutNeighbours(q: seq<nat>, k: nat, i: nat)
    requires k < |q| && i < |q| && i != k
    ensures var r, j := Without(q, k), if i < k then i else i - 1;
      && j < |r|
      && Before(r, j) == Before(q, if i == k + 1 then k else i)
      && After(r, j) == After(q, if i + 1 == k then k else i)
  {
    var r, j := Without(q, k), if i < k then i else i - 1;
    assert j + 1 < |r| ==> r[j + 1] == q[if j + 1 < k then j + 1 else j + 2];
    assert j > 0 ==> r[j - 1] == q[if j - 1 < k then j - 1 else j];
  }

  /** The other lists do not notice. */
  lemma UnlinkedElsewhere(nodes: Nodes, q: seq<nat>, head: nat, k: nat, other: seq<nat>, oh: nat)
    requires Chain(nodes, q, head) && k < |q| && Chain(nodes, other, oh) && 0 !in nodes
    requires forall i, j :: 0 <= i < |q| && 0 <= j < |other| ==> q[i] != other[j]
    ensures Chain(Unlinked(nodes, q[k]), other, oh)
  {
    hide Unlinked;
    var m := Unlinked(nodes, q[k]);
    LinksAt(nodes, q, head, k);
    forall j | 0 <= j < |other| ensures other[j] in m && m[other[j]] == nodes[other[j]] {
      UnlinkedIs(nodes, q[k], other[j]);
      assert other[j] != q[k] && other[j] != 0;
      assert k > 0 ==> other[j] != q[k - 1];
      assert k + 1 < |q| ==> other[j] != q[k + 1];
    }
  }

  lemma UnlinkedFields(nodes: Nodes, q: seq<nat>, head: nat, k: nat, t: nat)
    requires Chain(nodes, q, head) && k < |q| && 0 !in nodes
    ensures var m := Unlinked(nodes, q[k]);
      && (t in m <==> t in nodes)
      && (t in nodes ==> m[t].bucket == nodes[t].bucket && m[t].key == nodes[t].key && m[t].result == nodes[t].result)
      && (t in nodes ==> m[t].blocked == nodes[t].blocked && m[t].waiting == (nodes[t].waiting && t != q[k]))
  {
    hide Unlinked, Chain;
    ChainMember(nodes, q, head, k);
    LinksAt(nodes, q, head, k);
    UnlinkedIs(nodes, q[k], t);
  }

  /** enqueue_waiter_locked on the links: in front. */
  function Pushed(nodes: Nodes, t: nat, key: Key, b: nat, head: nat): Nodes
    requires t in nodes
  {
    var a := nodes[t := nodes[t].(waiting := true, bucket := b, key := key, prev := 0, next := head, result := 0,
        blocked := true)];
    if head != 0 && head in a then a[head := a[head].(prev := t)] else a
  }

  lemma PushedChain(nodes: Nodes, q: seq<nat>, head: nat, t: nat, key: Key, b: nat)
    requires Chain(nodes, q, head) && t in nodes && t != 0 && t !in q
    ensures Chain(Pushed(nodes, t, key, b, head), [t] + q, t)
  {
    var m, r := Pushed(nodes, t, key, b, head), [t] + q;
    forall j | 0 <= j < |r| ensures r[j] in m && m[r[j]].prev == Before(r, j) && m[r[j]].next == After(r, j) {
      if j > 0 {
        assert r[j] == q[j - 1];
        assert j > 1 ==> r[j - 1] == q[j - 2];
      }
    }
  }

  lemma PushedElsewhere(nodes: Nodes, q: seq<nat>, head: nat, t: nat, key: Key, b: nat, other: seq<nat>, oh: nat)
    requires Chain(nodes, q, head) && t in nodes && t !in other && Chain(nodes, other, oh)
    requires forall i, j :: 0 <= i < |q| && 0 <= j < |other| ==> q[i] != other[j]
    ensures Chain(Pushed(nodes, t, key, b, head), other, oh)
  {
    var m := Pushed(nodes, t, key, b, head);
    forall j | 0 <= j < |other| ensures other[j] in m && m[other[j]] == nodes[other[j]] {
      assert q != [] ==> other[j] != q[0];
    }
  }

  // --------------------------------------------------------------- the whole table

  lemma BucketsApart(nodes: Nodes, queues: seq<seq<nat>>, heads: seq<nat>, b: nat, c: nat)
    requires Table(nodes, queues, heads) && b < BUCKETS && c < BUCKETS && b != c
    ensures forall i, j :: 0 <= i < |queues[b]| && 0 <= j < |queues[c]| ==> queues[b][i] != queues[c][j]
  {
    assert InBucket(nodes, queues[b], b) && InBucket(nodes, queues[c], c);
  }

  lemma UnlinkKeepsTable(nodes: Nodes, queues: seq<seq<nat>>, heads: seq<nat>, b: nat, k: nat)
    requires Table(nodes, queues, heads) && b < BUCKETS && k < |queues[b]|
    ensures var t := queues[b][k];
      t in nodes && Table(Unlinked(nodes, t), queues[b := Without(queues[b], k)],
          heads[b := if k == 0 then nodes[t].next else heads[b]])
  {
    hide Chain, Unlinked;
    var t, q := queues[b][k], queues[b];
    assert Chain(nodes, q, heads[b]);
    ChainMember(nodes, q, heads[b], k);
    var m, qs := Unlinked(nodes, t), queues[b := Without(q, k)];
    var hs := heads[b := if k == 0 then nodes[t].next else heads[b]];
    forall c | 0 <= c < BUCKETS ensures Chain(m, qs[c], hs[c]) {
      if c == b {
        UnlinkedChain(nodes, q, heads[b], k);
      } else {
        BucketsApart(nodes, queues, heads, b, c);
        UnlinkedElsewhere(nodes, q, heads[b], k, queues[c], heads[c]);
      }
    }
    UnlinkedFields(nodes, q, heads[b], k, 0);
    forall c | 0 <= c < BUCKETS ensures InBucket(m, qs[c], c) { UnlinkedBucket(nodes, queues, heads, b, k, c); }
    forall x | x in m && m[x].waiting ensures m[x].bucket < |qs| && x in qs[m[x].bucket] {
      UnlinkedFields(nodes, q, heads[b], k, x);
      if nodes[x].bucket == b {
        var j :| 0 <= j < |q| && q[j] == x;
        assert x == Without(q, k)[if j < k then j else j - 1];
      }
    }
  }

  lemma ChainMember(nodes: Nodes, q: seq<nat>, head: nat, k: nat)
    requires Chain(nodes, q, head) && k < |q|
    ensures q[k] != 0 && q[k] in nodes && forall j :: 0 <= j < |q| && j != k ==> q[j] != q[k]
  {
  }

  lemma UnlinkedBucket(nodes: Nodes, queues: seq<seq<nat>>, heads: seq<nat>, b: nat, k: nat, c: nat)
    requires Table(nodes, queues, heads) && b < BUCKETS && k < |queues[b]| && c < BUCKETS && queues[b][k] in nodes
    ensures InBucket(Unlinked(nodes, queues[b][k]), if c == b then Without(queues[b], k) else queues[c], c)
  {
    hide Chain, Unlinked;
    var q := queues[b];
    assert Chain(nodes, q, heads[b]) && InBucket(nodes, q, b) && InBucket(nodes, queues[c], c);
    ChainMember(nodes, q, heads[b], k);
    var m := Unlinked(nodes, q[k]);
    if c == b {
      var r := Without(q, k);
      forall j | 0 <= j < |r| ensures r[j] in m && m[r[j]].waiting && m[r[j]].bucket == b && m[r[j]].key.Bucket() == b {
        var i := if j < k then j else j + 1;
        assert r[j] == q[i];
        UnlinkedFields(nodes, q, heads[b], k, q[i]);
      }
    } else {
      BucketsApart(nodes, queues, heads, b, c);
      var r := queues[c];
      forall j | 0 <= j < |r| ensures r[j] in m && m[r[j]].waiting && m[r[j]].bucket == c && m[r[j]].key.Bucket() == c {
        UnlinkedFields(nodes, q, heads[b], k, r[j]);
      }
    }
  }

  lemma PushKeepsTable(nodes: Nodes, queues: seq<seq<nat>>, heads: seq<nat>, t: nat, key: Key)
    requires Table(nodes, queues, heads) && t in nodes && t != 0 && !nodes[t].waiting
    ensures var b := key.Bucket();
      Table(Pushed(nodes, t, key, b, heads[b]), queues[b := [t] + queues[b]], heads[b := t])
  {
    hide Chain, Pushed;
    var b := key.Bucket();
    var m, qs, hs := Pushed(nodes, t, key, b, heads[b]), queues[b := [t] + queues[b]], heads[b := t];
    forall c | 0 <= c < BUCKETS ensures t !in queues[c] { assert InBucket(nodes, queues[c], c); }
    assert Chain(nodes, queues[b], heads[b]);
    forall c | 0 <= c < BUCKETS ensures Chain(m, qs[c], hs[c]) {
      if c == b {
        PushedChain(nodes, queues[b], heads[b], t, key, b);
      } else {
        BucketsApart(nodes, queues, heads, b, c);
        PushedElsewhere(nodes, queues[b], heads[b], t, key, b, queues[c], heads[c]);
      }
    }
    PushedFields(nodes, t, key, b, heads[b], 0);
    forall x ensures PushedSame(nodes, m, t, key, b, x) { PushedFields(nodes, t, key, b, heads[b], x); }
    forall c | 0 <= c < BUCKETS ensures InBucket(m, qs[c], c) {
      assert InBucket(nodes, queues[c], c);
      forall k | 0 <= k < |qs[c]|
        ensures qs[c][k] in m && m[qs[c][k]].waiting && m[qs[c][k]].bucket == c && m[qs[c][k]].key.Bucket() == c
      {
        assert PushedSame(nodes, m, t, key, b, qs[c][k]);
        if c == b && k > 0 { assert qs[c][k] == queues[c][k - 1]; }
      }
    }
    forall x | x in m && m[x].waiting ensures m[x].bucket < |qs| && x in qs[m[x].bucket] {
      assert PushedSame(nodes, m, t, key, b, x);
      if x == t { assert qs[b][0] == t; }
    }
  }

  /** What enqueueing t leaves of thread x's fields. */
  ghost predicate PushedSame(nodes: Nodes, m: Nodes, t: nat, key: Key, b: nat, x: nat) {
    && (x in m <==> x in nodes)
    && (x in nodes && x != t ==> m[x] == nodes[x].(prev := m[x].prev))
    && (t in m && m[t].waiting && m[t].bucket == b && m[t].key == key && m[t].blocked && m[t].result == 0)
  }

  lemma PushedFields(nodes: Nodes, t: nat, key: Key, b: nat, head: nat, x: nat)
    requires t in nodes
    ensures PushedSame(nodes, Pushed(nodes, t, key, b, head), t, key, b, x)
  {
  }

  // --------------------------------------------------------------- waking, in order

  /** The list after waking the first n of its members in `hits`. */
  ghost function Woken(q: seq<nat>, hits: set<nat>, n: nat): seq<nat> {
    if q == [] || n == 0 then q
    else if q[0] in hits then Woken(q[1..], hits, n - 1)
    else [q[0]] + Woken(q[1..], hits, n)
  }

  /** Waking leaves a sublist; enough of a count leaves no hit behind. */
  lemma {:induction false} WokenFacts(q: seq<nat>, hits: set<nat>, n: nat)
    ensures |q| - n <= |Woken(q, hits, n)| <= |q|
    ensures forall x :: x in Woken(q, hits, n) ==> x in q
    ensures forall x :: x in q && x !in hits ==> x in Woken(q, hits, n)
    ensures |q| - |Woken(q, hits, n)| < n ==> forall x :: x in Woken(q, hits, n) ==> x !in hits
  {
    if q != [] && n != 0 {
      WokenFacts(q[1..], hits, if q[0] in hits then n - 1 else n);
    }
  }

  ghost function Matching(nodes: Nodes, key: Key): set<nat> {
    set t | t in nodes && nodes[t].waiting && nodes[t].key == key
  }

  function AtMost(count: nat, n: nat): nat { if n < count then n else count }

  predicate Distinct(q: seq<nat>) { forall i, j :: 0 <= i < j < |q| ==> q[i] != q[j] }

  ghost function Hits(q: seq<nat>, hits: set<nat>): set<nat> { set x | x in q && x in hits }

  lemma HitsStep(q: seq<nat>, hits: set<nat>)
    requires Distinct(q) && q != []
    ensures Distinct(q[1..]) && |Hits(q, hits)| == |Hits(q[1..], hits)| + if q[0] in hits then 1 else 0
  {
    assert q == [q[0]] + q[1..];
    if q[0] in hits {
      assert Hits(q, hits) == Hits(q[1..], hits) + {q[0]};
    } else {
      assert Hits(q, hits) == Hits(q[1..], hits);
    }
  }

  lemma {:induction false} WokenLess(q: seq<nat>, hits: set<nat>, n: nat)
    requires Distinct(q)
    ensures |q| - |Woken(q, hits, n)| == AtMost(n, |Hits(q, hits)|)
  {
    hide Distinct, Hits;
    if q == [] {
      NoHits(hits);
    } else if n != 0 {
      HitsStep(q, hits);
      WokenLess(q[1..], hits, if q[0] in hits then n - 1 else n);
    }
  }

  lemma NoHits(hits: set<nat>)
    ensures Hits([], hits) == {}
  {
  }

  function SetOf(q: seq<nat>): set<nat> { set x | x in q }

  lemma {:induction false} SetSize(q: seq<nat>)
    requires Distinct(q)
    ensures |SetOf(q)| == |q|
  {
    if q == [] {
      assert SetOf(q) == {};
    } else {
      var n := |q| - 1;
      assert q == q[..n] + [q[n]];
      SetSize(q[..n]);
      assert SetOf(q) == SetOf(q[..n]) + {q[n]};
    }
  }

  lemma {:induction false} WokenDistinct(q: seq<nat>, hits: set<nat>, n: nat)
    requires Distinct(q)
    ensures Distinct(Woken(q, hits, n))
  {
    if q != [] && n != 0 {
      var m := if q[0] in hits then n - 1 else n;
      WokenFacts(q[1..], hits, m);
      WokenDistinct(q[1..], hits, m);
      assert q[0] !in q[1..];
    }
  }

  lemma GoneCount(q: seq<nat>, hits: set<nat>, n: nat, gone: set<nat>)
    requires Distinct(q) && forall x :: x in gone <==> x in q && x !in Woken(q, hits, n)
    ensures |gone| == |q| - |Woken(q, hits, n)|
  {
    hide Woken, Distinct;
    var r := Woken(q, hits, n);
    WokenFacts(q, hits, n);
    WokenDistinct(q, hits, n);
    SetSize(q);
    SetSize(r);
    assert gone == SetOf(q) - SetOf(r);
    assert SetOf(q) == gone + SetOf(r);
  }

  /** As many leave as are meant, up to the count. */
  lemma WokenCount(q: seq<nat>, hits: set<nat>, n: nat, gone: set<nat>)
    requires Distinct(q) && forall x :: x in gone <==> x in q && x !in Woken(q, hits, n)
    ensures gone <= hits && |gone| == |q| - |Woken(q, hits, n)| == AtMost(n, |Hits(q, hits)|)
  {
    hide Woken, Hits, Distinct;
    WokenFacts(q, hits, n);
    WokenLess(q, hits, n);
    GoneCount(q, hits, n, gone);
  }

  /** Every waiter for the key is in the bucket the key hashes to, once. */
  lemma WaitersInBucket(nodes: Nodes, queues: seq<seq<nat>>, heads: seq<nat>, key: Key)
    requires Table(nodes, queues, heads)
    ensures Distinct(queues[key.Bucket()]) && Hits(queues[key.Bucket()], Matching(nodes, key)) == Matching(nodes, key)
  {
    hide Key.Bucket;
    var b := key.Bucket();
    assert Chain(nodes, queues[b], heads[b]);
    forall x | x in Matching(nodes, key) ensures x in queues[b] {
      var c := nodes[x].bucket;
      assert x in queues[c] && InBucket(nodes, queues[c], c);
    }
  }

  /** The threads in `gone` have left the queues with this result; of the others only
      links have changed. */
  ghost predicate Released(before: Nodes, after: Nodes, gone: set<nat>, result: int) {
    && (forall x :: x in after <==> x in before)
    && (forall x :: x in before ==> after[x].key == before[x].key && after[x].bucket == before[x].bucket)
    && (forall x :: x in before && x !in gone ==> after[x].waiting == before[x].waiting)
    && (forall x :: x in before && x !in gone ==>
          after[x].blocked == before[x].blocked && after[x].result == before[x].result)
    && (forall x :: x in before && x in gone ==> !after[x].waiting && !after[x].blocked && after[x].result == result)
  }

  lemma ReleasedOne(nodes: Nodes, q: seq<nat>, head: nat, k: nat, start: Nodes, gone: set<nat>, result: int)
    requires Chain(nodes, q, head) && k < |q| && 0 !in nodes && q[k] in nodes && Released(start, nodes, gone, result)
    ensures var m := Unlinked(nodes, q[k]);
      q[k] in m && Released(start, m[q[k] := m[q[k]].(result := result, blocked := false)], gone + {q[k]}, result)
  {
    hide Unlinked, Chain;
    forall x { UnlinkedFields(nodes, q, head, k, x); }
  }

  lemma ReleasedTable(nodes: Nodes, queues: seq<seq<nat>>, heads: seq<nat>, t: nat, result: int)
    requires Table(nodes, queues, heads) && t in nodes && !nodes[t].waiting
    ensures Table(nodes[t := nodes[t].(result := result, blocked := false)], queues, heads)
  {
    hide Chain, InBucket;
    var m := nodes[t := nodes[t].(result := result, blocked := false)];
    forall b | 0 <= b < BUCKETS ensures Chain(m, queues[b], heads[b]) && InBucket(m, queues[b], b) {
      ReleasedBucket(nodes, queues[b], heads[b], b, t, result);
    }
  }

  lemma ReleasedBucket(nodes: Nodes, q: seq<nat>, head: nat, b: nat, t: nat, result: int)
    requires Chain(nodes, q, head) && InBucket(nodes, q, b) && t in nodes && !nodes[t].waiting
    ensures var m := nodes[t := nodes[t].(result := result, blocked := false)]; Chain(m, q, head) && InBucket(m, q, b)
  {
  }

  class FutexTable {
    const heads: array<nat>
    var nodes: Nodes
    var waiters: nat
    ghost var queues: seq<seq<nat>>

    ghost predicate Valid()
      reads this, heads
    {
      heads.Length == BUCKETS && Table(nodes, queues, heads[..]) && waiters == Total(queues)
    }

    /** futex_init, with the threads there are and none of them waiting. */
    constructor (threads: Nodes)
      requires 0 !in threads && forall t :: t in threads ==> !threads[t].waiting
      ensures Valid() && nodes == threads && waiters == 0 && fresh(heads)
      ensures forall b :: 0 <= b < |queues| ==> queues[b] == []
    {
      heads := new nat[BUCKETS](_ => 0);
      nodes, waiters := threads, 0;
      queues := seq(BUCKETS, _ => []);
      new;
      NoneWaiting(queues);
    }

    /** The tail shared by wake and cancel: out of the queue, result set, unblocked. */
    method Dismiss(b: nat, t: nat, result: int, ghost k: nat, ghost start: Nodes, ghost gone: set<nat>)
      requires Valid() && b < BUCKETS && k < |queues[b]| && queues[b][k] == t && Released(start, nodes, gone, result)
      modifies this`nodes, this`waiters, this`queues, heads
      ensures Valid() && queues == old(queues)[b := Without(old(queues)[b], k)]
      ensures Released(start, nodes, gone + {t}, result)
    {
      hide Chain, Without, Unlinked, Released, Total, InBucket, Listed;
      ghost var before, hs := nodes, heads[..];
      UnlinkKeepsTable(nodes, queues, heads[..], b, k);
      TotalUpdate(queues, b, Without(queues[b], k));
      WithoutLength(queues[b], k);
      assert Chain(nodes, queues[b], heads[b]);
      ChainMember(nodes, queues[b], heads[b], k);
      LinksAt(nodes, queues[b], heads[b], k);
      HeadAt(nodes, queues[b], heads[b], k);
      ReleasedOne(before, queues[b], heads[b], k, start, gone, result);
      UnlinkedFields(nodes, queues[b], heads[b], k, t);
      if nodes[t].prev == 0 && heads[b] == t { heads[b] := nodes[t].next; }
      nodes := Unlinked(nodes, t);
      queues := queues[b := Without(queues[b], k)];
      if waiters != 0 { waiters := waiters - 1; }
      assert heads[..] == hs[b := if k == 0 then before[t].next else hs[b]];
      ReleasedTable(nodes, queues, heads[..], t, result);
      nodes := nodes[t := nodes[t].(result := result, blocked := false)];
    }

    /** futex_wait up to the sleep. `valid` tells whether the address is usable, `actual`
        is the word found there. */
    method Wait(t: nat, key: Key, expected: nat, valid: bool, actual: nat) returns (slept: bool, code: int)
      requires Valid() && t in nodes && !nodes[t].waiting
      modifies this`nodes, this`waiters, this`queues, heads
      ensures Valid()
      ensures slept <==> valid && actual == expected
      ensures !slept ==>
        code == (if valid then ERR_AGAIN else ERR_INVAL) && nodes == old(nodes) && queues == old(queues)
      ensures slept ==> queues == old(queues)[key.Bucket() := [t] + old(queues)[key.Bucket()]]
      ensures slept ==> forall x :: PushedSame(old(nodes), nodes, t, key, key.Bucket(), x)
    {
      hide Chain, Pushed, InBucket, Listed, PushedSame;
      if !valid { return false, ERR_INVAL; }
      if actual != expected { return false, ERR_AGAIN; }
      var b := key.Bucket();
      PushKeepsTable(nodes, queues, heads[..], t, key);
      TotalUpdate(queues, b, [t] + queues[b]);
      forall x
        ensures PushedSame(nodes, Pushed(nodes, t, key, b, heads[b]), t, key, b, x)
      {
        PushedFields(nodes, t, key, b, heads[b], x);
      }
      nodes := Pushed(nodes, t, key, b, heads[b]);
      ghost var hs := heads[..];
      heads[b] := t;
      assert heads[..] == hs[b := t];
      queues := queues[b := [t] + queues[b]];
      waiters := waiters + 1;
      return true, 0;
    }

    /** The loop of futex_wake over one bucket. */
    method WakeBucket(b: nat, key: Key, count: nat) returns (woke: nat, ghost gone: set<nat>)
      requires Valid() && b < BUCKETS
      modifies this`nodes, this`waiters, this`queues, heads
      ensures Valid() && Released(old(nodes), nodes, gone, 0)
      ensures queues == old(queues)[b := Woken(old(queues)[b], Matching(old(nodes), key), count)]
      ensures woke == |old(queues)[b]| - |queues[b]|
      ensures forall x :: x in gone <==> x in old(queues)[b] && x !in queues[b]
    {
      hide Chain, Without, Released, Total, InBucket, Listed, Matching, Woken, Sweep;
      gone, woke := {}, 0;
      ReleasedNone(nodes, 0);
      ghost var q0 := queues[b];
      ghost var hits := Matching(nodes, key);
      ghost var pre: seq<nat>, rest := [], queues[b];
      SweepStart(queues, b, hits, count, {});
      var thread := heads[b];
      HeadOf(nodes, queues, heads[..], b);
      while thread != 0 && woke < count
        invariant Valid() && Released(old(nodes), nodes, gone, 0) && woke <= count
        invariant queues == old(queues)[b := pre + rest] && thread == After(rest, -1) && woke == |q0| - |pre| - |rest|
        invariant Sweep(q0, pre, rest, hits, count - woke, count, {}, gone)
        decreases |rest|
      {
        NextInLine(nodes, queues, heads[..], b, pre, rest);
        var next := nodes[thread].next;
        SweepStep(q0, pre, rest, hits, count - woke, count, {}, gone);
        Hit(old(nodes), nodes, queues, heads[..], b, pre, rest, gone, key);
        if nodes[thread].key == key {
          WithoutMiddle(pre, rest);
          Dismiss(b, thread, 0, |pre|, old(nodes), gone);
          gone := gone + {thread};
          woke := woke + 1;
        } else {
          assert pre + rest == pre + [thread] + rest[1..];
          pre := pre + [thread];
        }
        rest := rest[1..];
        thread := next;
      }
      EndOfLine(nodes, queues, heads[..], b, pre, rest);
      SweepEnd(q0, pre, rest, hits, count - woke, count, {}, gone);
    }

    /** futex_wake: the first `count` waiters for the key, in list order, and no other. */
    method Wake(key: Key, count: nat, valid: bool) returns (woke: int, ghost gone: set<nat>)
      requires Valid()
      modifies this`nodes, this`waiters, this`queues, heads
      ensures Valid() && Released(old(nodes), nodes, gone, 0)
      ensures !valid ==> woke == ERR_INVAL && nodes == old(nodes) && queues == old(queues) && gone == {}
      ensures valid ==>
        queues == old(queues)[key.Bucket() := Woken(old(queues)[key.Bucket()], Matching(old(nodes), key), count)]
      ensures valid ==> woke == |old(queues)[key.Bucket()]| - |queues[key.Bucket()]|
      ensures valid ==> forall x :: x in gone <==> x in old(queues)[key.Bucket()] && x !in queues[key.Bucket()]
      ensures valid ==>
        gone <= Matching(old(nodes), key) && |gone| == woke == AtMost(count, |Matching(old(nodes), key)|)
    {
      hide Chain, Released, Total, InBucket, Listed, Matching, Woken, Distinct, Hits, Key.Bucket;
      WaitersInBucket(nodes, queues, heads[..], key);
      gone := {};
      ReleasedNone(nodes, 0);
      if !valid { return ERR_INVAL, gone; }
      if count == 0 {
        WokenZero(queues[key.Bucket()], Matching(nodes, key));
        return 0, gone;
      }
      woke, gone := WakeBucket(key.Bucket(), key, count);
      WokenCount(old(queues)[key.Bucket()], Matching(old(nodes), key), count, gone);
    }

    /** futex_cancel_thread: a waiter leaves its queue early. */
    method CancelThread(t: nat, result: int)
      requires Valid() && t in nodes
      modifies this`nodes, this`waiters, this`queues, heads
      ensures Valid() && Released(old(nodes), nodes, if old(nodes)[t].waiting then {t} else {}, result)
      ensures if old(nodes)[t].waiting then exists k ::
        Dropped(old(queues), queues, old(nodes)[t].bucket, k, t) else queues == old(queues)
    {
      hide Chain, Released, Total, InBucket, Without;
      ReleasedNone(nodes, result);
      if !nodes[t].waiting { return; }
      var b := nodes[t].bucket;
      ghost var k :| 0 <= k < |queues[b]| && queues[b][k] == t;
      Dismiss(b, t, result, k, nodes, {});
      assert {} + {t} == {t};
      assert Dropped(old(queues), queues, b, k, t);
    }

    /** One bucket of futex_cancel_process. */
    method CancelBucket(b: nat, process: nat, result: int, ghost start: Nodes, ghost gone0: set<nat>)
      returns (ghost gone: set<nat>)
      requires Valid() && b < BUCKETS && Released(start, nodes, gone0, result)
      requires forall x :: x in gone0 ==> x !in queues[b]
      modifies this`nodes, this`waiters, this`queues, heads
      ensures Valid() && Released(start, nodes, gone, result)
      ensures queues == old(queues)[b := Woken(old(queues)[b], OfProcess(start, process), |old(queues)[b]|)]
      ensures forall x :: x in gone <==> x in gone0 || (x in old(queues)[b] && x !in queues[b])
    {
      hide Chain, Without, Released, Total, InBucket, Listed, OfProcess, Woken, Sweep;
      gone := gone0;
      ghost var q0 := queues[b];
      ghost var hits := OfProcess(start, process);
      ghost var pre: seq<nat>, rest, left := [], queues[b], |queues[b]|;
      SweepStart(queues, b, hits, left, gone0);
      var thread := heads[b];
      HeadOf(nodes, queues, heads[..], b);
      while thread != 0
        invariant Valid() && Released(start, nodes, gone, result) && left >= |rest|
        invariant queues == old(queues)[b := pre + rest] && thread == After(rest, -1)
        invariant Sweep(q0, pre, rest, hits, left, |q0|, gone0, gone) && forall x :: x in gone0 ==> x !in q0
        decreases |rest|
      {
        NextInLine(nodes, queues, heads[..], b, pre, rest);
        var next := nodes[thread].next;
        SweepStep(q0, pre, rest, hits, left, |q0|, gone0, gone);
        HitProcess(start, nodes, queues, heads[..], b, pre, rest, gone, process, result);
        if nodes[thread].key.process == process {
          WithoutMiddle(pre, rest);
          Dismiss(b, thread, result, |pre|, start, gone);
          gone := gone + {thread};
          left := left - 1;
        } else {
          assert pre + rest == pre + [thread] + rest[1..];
          pre := pre + [thread];
        }
        rest := rest[1..];
        thread := next;
      }
      EndOfLine(nodes, queues, heads[..], b, pre, rest);
      SweepEnd(q0, pre, rest, hits, left, |q0|, gone0, gone);
    }

    /** futex_cancel_process: afterwards none of its threads waits anywhere, and every
        other waiter keeps its place. */
    method CancelProcess(process: nat, result: int) returns (ghost gone: set<nat>)
      requires Valid()
      modifies this`nodes, this`waiters, this`queues, heads
      ensures Valid() && Released(old(nodes), nodes, gone, result) && gone == OfProcess(old(nodes), process)
      ensures forall b :: 0 <= b < BUCKETS ==>
        queues[b] == Woken(old(queues)[b], OfProcess(old(nodes), process), |old(queues)[b]|)
    {
      hide Chain, Released, Total, InBucket, Listed, OfProcess, Woken;
      gone := {};
      ReleasedNone(nodes, result);
      ghost var hits := OfProcess(nodes, process);
      for b := 0 to BUCKETS
        invariant Valid() && Released(old(nodes), nodes, gone, result) && |queues| == BUCKETS
        invariant forall c :: 0 <= c < b ==> queues[c] == Woken(old(queues)[c], hits, |old(queues)[c]|)
        invariant forall c :: b <= c < BUCKETS ==> queues[c] == old(queues)[c]
        invariant forall x :: x in gone <==> exists c :: 0 <= c < b && x in old(queues)[c] && x in hits
      {
        GoneElsewhere(old(nodes), old(queues), old(heads[..]), b, gone, hits);
        ghost var before := gone;
        gone := CancelBucket(b, process, result, old(nodes), gone);
        GoneMore(old(queues), b, before, gone, hits, queues[b]);
      }
      GoneAll(old(nodes), old(queues), old(heads[..]), gone, process);
    }
  }

  lemma WokenZero(q: seq<nat>, hits: set<nat>)
    ensures Woken(q, hits, 0) == q
  {
  }

  lemma NoneWaiting(queues: seq<seq<nat>>)
    requires forall b :: 0 <= b < |queues| ==> queues[b] == []
    ensures Total(queues) == 0
  {
    if queues != [] { NoneWaiting(queues[1..]); }
  }

  lemma WithoutLength(q: seq<nat>, k: nat)
    requires k < |q|
    ensures |Without(q, k)| == |q| - 1
  {
  }

  lemma HeadAt(nodes: Nodes, q: seq<nat>, head: nat, k: nat)
    requires Chain(nodes, q, head) && k < |q|
    ensures k == 0 <==> nodes[q[k]].prev == 0
    ensures k == 0 <==> head == q[k]
  {
  }

  lemma ReleasedNone(nodes: Nodes, result: int)
    ensures Released(nodes, nodes, {}, result)
  {
  }

  /** Part of the way down a list q0: `pre` stays, `rest` is still to be looked at with
      `left` wakes to go, and the threads in `gone` have left. */
  ghost predicate Sweep(q0: seq<nat>, pre: seq<nat>, rest: seq<nat>, hits: set<nat>, left: nat, n: nat,
                        gone0: set<nat>, gone: set<nat>) {
    && pre + Woken(rest, hits, left) == Woken(q0, hits, n)
    && (forall x :: x in gone <==> x in gone0 || (x in q0 && x !in pre + rest))
    && (forall x :: x in pre + rest ==> x in q0)
  }

  lemma SweepStart(queues: seq<seq<nat>>, b: nat, hits: set<nat>, n: nat, gone0: set<nat>)
    requires b < |queues|
    ensures Sweep(queues[b], [], queues[b], hits, n, n, gone0, gone0) && queues == queues[b := [] + queues[b]]
  {
    assert [] + queues[b] == queues[b];
  }

  lemma SweepStep(q0: seq<nat>, pre: seq<nat>, rest: seq<nat>, hits: set<nat>, left: nat, n: nat, gone0: set<nat>,
                  gone: set<nat>)
    requires Sweep(q0, pre, rest, hits, left, n, gone0, gone) && rest != [] && left > 0 && rest[0] !in pre
    requires rest[0] !in rest[1..]
    ensures rest[0] in q0 && (rest[0] in gone ==> rest[0] in gone0)
    ensures rest[0] in hits ==> Sweep(q0, pre, rest[1..], hits, left - 1, n, gone0, gone + {rest[0]})
    ensures rest[0] !in hits ==> Sweep(q0, pre + [rest[0]], rest[1..], hits, left, n, gone0, gone)
  {
    var t := rest[0];
    assert pre + rest == pre + [t] + rest[1..];
    assert t in pre + rest;
    assert pre + ([t] + Woken(rest[1..], hits, left)) == pre + [t] + Woken(rest[1..], hits, left);
  }

  lemma SweepEnd(q0: seq<nat>, pre: seq<nat>, rest: seq<nat>, hits: set<nat>, left: nat, n: nat, gone0: set<nat>,
                 gone: set<nat>)
    requires Sweep(q0, pre, rest, hits, left, n, gone0, gone)
    ensures left == 0 || rest == [] ==> pre + rest == Woken(q0, hits, n)
    ensures forall x :: x in gone <==> x in gone0 || (x in q0 && x !in pre + rest)
  {
  }

  lemma HeadOf(nodes: Nodes, queues: seq<seq<nat>>, heads: seq<nat>, b: nat)
    requires Table(nodes, queues, heads) && b < BUCKETS
    ensures heads[b] == After(queues[b], -1)
  {
    assert Chain(nodes, queues[b], heads[b]);
  }

  lemma NextInLine(nodes: Nodes, queues: seq<seq<nat>>, heads: seq<nat>, b: nat, pre: seq<nat>, rest: seq<nat>)
    requires Table(nodes, queues, heads) && b < BUCKETS && queues[b] == pre + rest && After(rest, -1) != 0
    ensures rest != [] && rest[0] in nodes && nodes[rest[0]].next == After(rest[1..], -1)
    ensures rest[0] !in pre && rest[0] !in rest[1..]
  {
    var q := queues[b];
    assert Chain(nodes, q, heads[b]);
    assert q[|pre|] == rest[0];
    assert |rest| > 1 ==> q[|pre| + 1] == rest[1];
    forall j | 0 <= j < |pre| ensures pre[j] != rest[0] { assert q[j] == pre[j]; }
    forall j | 0 <= j < |rest| - 1 ensures rest[1..][j] != rest[0] { assert q[|pre| + 1 + j] == rest[1..][j]; }
  }

  lemma EndOfLine(nodes: Nodes, queues: seq<seq<nat>>, heads: seq<nat>, b: nat, pre: seq<nat>, rest: seq<nat>)
    requires Table(nodes, queues, heads) && b < BUCKETS && queues[b] == pre + rest
    ensures After(rest, -1) == 0 ==> rest == []
  {
    assert Chain(nodes, queues[b], heads[b]);
    if rest != [] { assert queues[b][|pre|] == rest[0]; }
  }

  /** Whether a waiter still queued is a hit has not changed since the start. */
  lemma Hit(start: Nodes, nodes: Nodes, queues: seq<seq<nat>>, heads: seq<nat>, b: nat, pre: seq<nat>, rest: seq<nat>,
            gone: set<nat>, key: Key)
    requires Table(nodes, queues, heads) && b < BUCKETS && queues[b] == pre + rest && rest != [] && rest[0] in nodes
    requires Released(start, nodes, gone, 0) && rest[0] !in gone
    ensures nodes[rest[0]].key == key <==> rest[0] in Matching(start, key)
  {
    assert InBucket(nodes, queues[b], b);
    assert queues[b][|pre|] == rest[0];
  }

  lemma WithoutMiddle(pre: seq<nat>, rest: seq<nat>)
    requires rest != []
    ensures Without(pre + rest, |pre|) == pre + rest[1..] && (pre + rest)[|pre|] == rest[0]
  {
  }

  ghost predicate Dropped(before: seq<seq<nat>>, after: seq<seq<nat>>, b: nat, k: nat, t: nat) {
    b < |before| && k < |before[b]| && before[b][k] == t && after == before[b := Without(before[b], k)]
  }

  ghost function OfProcess(nodes: Nodes, process: nat): set<nat> {
    set t | t in nodes && nodes[t].waiting && nodes[t].key.process == process
  }

  lemma HitProcess(start: Nodes, nodes: Nodes, queues: seq<seq<nat>>, heads: seq<nat>, b: nat, pre: seq<nat>,
                   rest: seq<nat>,
                   gone: set<nat>, process: nat, result: int)
    requires Table(nodes, queues, heads) && b < BUCKETS && queues[b] == pre + rest && rest != [] && rest[0] in nodes
    requires Released(start, nodes, gone, result) && rest[0] !in gone
    ensures nodes[rest[0]].key.process == process <==> rest[0] in OfProcess(start, process)
  {
    assert InBucket(nodes, queues[b], b);
    assert queues[b][|pre|] == rest[0];
  }

  lemma GoneElsewhere(nodes: Nodes, queues: seq<seq<nat>>, heads: seq<nat>, b: nat, gone: set<nat>, hits: set<nat>)
    requires Table(nodes, queues, heads) && b < BUCKETS
    requires forall x :: x in gone <==> exists c :: 0 <= c < b && x in queues[c] && x in hits
    ensures forall x :: x in gone ==> x !in queues[b]
  {
    hide Chain, InBucket, Listed;
    forall x | x in gone ensures x !in queues[b] {
      var c :| 0 <= c < b && x in queues[c] && x in hits;
      BucketsApart(nodes, queues, heads, b, c);
    }
  }

  lemma GoneMore(queues: seq<seq<nat>>, b: nat, before: set<nat>, gone: set<nat>, hits: set<nat>, left: seq<nat>)
    requires b < |queues| && left == Woken(queues[b], hits, |queues[b]|)
    requires forall x :: x in before <==> exists c :: 0 <= c < b && x in queues[c] && x in hits
    requires forall x :: x in gone <==> x in before || (x in queues[b] && x !in left)
    ensures forall x :: x in gone <==> exists c :: 0 <= c < b + 1 && x in queues[c] && x in hits
  {
    NoneLeft(queues[b], hits, |queues[b]|);
    forall x ensures x in gone <==> exists c :: 0 <= c < b + 1 && x in queues[c] && x in hits {
      WokenFacts(queues[b], hits, |queues[b]|);
      if x in gone && x !in before { assert x in queues[b] && x in hits; }
    }
  }

  /** A count as long as the list wakes every hit. */
  lemma {:induction false} NoneLeft(q: seq<nat>, hits: set<nat>, n: nat)
    requires n >= |q|
    ensures forall x :: x in Woken(q, hits, n) <==> x in q && x !in hits
  {
    if q != [] {
      NoneLeft(q[1..], hits, if q[0] in hits then n - 1 else n);
    }
  }

  lemma GoneAll(nodes: Nodes, queues: seq<seq<nat>>, heads: seq<nat>, gone: set<nat>, process: nat)
    requires Table(nodes, queues, heads)
    requires forall x :: x in gone <==> exists c :: 0 <= c < BUCKETS && x in queues[c] && x in OfProcess(nodes, process)
    ensures gone == OfProcess(nodes, process)
  {
    forall x ensures x in gone <==> x in OfProcess(nodes, process) {
      if x in OfProcess(nodes, process) { assert x in queues[nodes[x].bucket]; }
    }
  }
}
