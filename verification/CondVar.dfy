/** Condition variables over futexes (usr/thread_runtime.h on kernel/futex.c), as a machine
    whose steps are the atomic operations: the load of the sequence word, the kernel's
    compare-and-sleep, the increment, and the kernel's wake. */
module CondVar {
  import opened Futex

  const WORD := 0x1_0000_0000     // the sequence word wraps here
  const EVERYONE := 0xFFFF_FFFF   // count passed by a broadcast

  /** Where a thread is in user_cond_wait. `at` counts the increments before its load. */
  datatype Pc = Idle | Loaded(at: nat) | Asleep(at: nat) | Elsewhere

  /** An increment whose wake is still to come: the n-th, by a signal or a broadcast. */
  datatype Signal = Signal(n: nat, all: bool)

  /** The sequence word is `incs` modulo 2^32. `cleared` is the highest increment whose
      broadcast has returned. */
  datatype State = State(incs: nat, queues: seq<seq<nat>>, keys: map<nat, Key>, pc: map<nat, Pc>,
                         pending: map<nat, Signal>, cleared: nat)

  datatype Step =
    | Load(t: nat)
    | Wait(t: nat)
    | Increment(s: nat, all: bool)
    | Wake(s: nat)
    | Cancel(t: nat)
    | OtherWait(t: nat, key: Key)
    | OtherWake(key: Key, count: nat)

  ghost predicate Waiting(s: State, t: nat, key: Key) {
    t in s.keys && s.keys[t] == key && key.Bucket() < |s.queues| && t in s.queues[key.Bucket()]
  }

  ghost function Waiters(s: State, key: Key): set<nat> {
    set t | t in s.keys && s.keys[t] == key
  }

  /** Threads no longer in the queue they slept in go on. */
  ghost function Resume(s: State, b: nat, q: seq<nat>): State
    requires b < |s.queues|
  {
    s.(queues := s.queues[b := q],
       pc := map t | t in s.pc :: if t in s.queues[b] && t !in q &&
       (s.pc[t].Asleep? || s.pc[t].Elsewhere?) then Idle else s.pc[t])
  }

  ghost predicate Enabled(s: State, st: Step, cond: Key)
    requires |s.queues| == BUCKETS
  {
    match st
    case Load(t) => t in s.pc && s.pc[t].Idle?
    case Wait(t) => t in s.pc && s.pc[t].Loaded? && |s.queues[cond.Bucket()]| < EVERYONE
    case Increment(i, _) => i !in s.pending
    case Wake(i) => i in s.pending
    case Cancel(t) => t in s.pc && (s.pc[t].Asleep? || s.pc[t].Elsewhere?) && t in s.keys
    case OtherWait(t, key) => t in s.pc && s.pc[t].Idle? && key != cond && |s.queues[key.Bucket()]| < EVERYONE
    case OtherWake(key, _) => key != cond
  }

  ghost function Push(s: State, t: nat, key: Key, pc: Pc): State
    requires key.Bucket() < |s.queues|
  {
    s.(queues := s.queues[key.Bucket() := [t] + s.queues[key.Bucket()]], keys := s.keys[t := key], pc := s.pc[t := pc])
  }

  ghost function Next(s: State, st: Step, cond: Key): State
    requires |s.queues| == BUCKETS && Enabled(s, st, cond)
  {
    match st
    case Load(t) => s.(pc := s.pc[t := Loaded(s.incs)])
    case Wait(t) =>
      if s.pc[t].at % WORD == s.incs % WORD then Push(s, t, cond, Asleep(s.pc[t].at))
      else s.(pc := s.pc[t := Idle])
    case Increment(i, all) => s.(incs := s.incs + 1, pending := s.pending[i := Signal(s.incs + 1, all)])
    case Wake(i) =>
      var g := s.pending[i];
      var b := cond.Bucket();
      var r := Resume(s, b, Woken(s.queues[b], Waiters(s, cond), if g.all then EVERYONE else 1));
      r.(pending := s.pending - {i}, cleared := if g.all && g.n > s.cleared then g.n else s.cleared)
    case Cancel(t) =>
      var b := s.keys[t].Bucket();
      Resume(s, b, Woken(s.queues[b], {t}, |s.queues[b]|))
    case OtherWait(t, key) => Push(s, t, key, Elsewhere)
    case OtherWake(key, count) =>
      var b := key.Bucket();
      Resume(s, b, Woken(s.queues[b], Waiters(s, key), count))
  }

  // -------------------------------------------------------------- the invariant

  /** A thread sleeps on the condition exactly when it is queued for it; sleepers sit in
      the bucket of their key; nobody sleeps on a load older than a finished broadcast. */
  ghost predicate Inv(s: State, cond: Key) {
    && |s.queues| == BUCKETS && s.cleared <= s.incs && |s.queues[cond.Bucket()]| <= EVERYONE
    && (forall i :: i in s.pending ==> s.pending[i].n <= s.incs)
    && Seated(s) && Placed(s, cond) && Recent(s) && Once(s)
  }

  /** Nobody is in a queue twice. */
  ghost predicate Once(s: State) {
    forall b :: 0 <= b < |s.queues| ==> Distinct(s.queues[b])
  }

  ghost predicate Seated(s: State) {
    forall b, t :: 0 <= b < |s.queues| && t in s.queues[b] ==> t in s.keys && s.keys[t].Bucket() == b && Sleeping(s, t)
  }

  ghost predicate Sleeping(s: State, t: nat) {
    t in s.pc && (s.pc[t].Asleep? || s.pc[t].Elsewhere?)
  }

  ghost predicate Placed(s: State, cond: Key) {
    forall t :: t in s.pc ==> PlacedAt(s, cond, t)
  }

  ghost predicate PlacedAt(s: State, cond: Key, t: nat)
    requires t in s.pc
  {
    && (s.pc[t].Asleep? ==> Waiting(s, t, cond))
    && (s.pc[t].Elsewhere? ==> t in s.keys && s.keys[t] != cond && Waiting(s, t, s.keys[t]))
    && (!Sleeping(s, t) ==> forall b :: 0 <= b < |s.queues| ==> t !in s.queues[b])
  }

  ghost predicate Recent(s: State) {
    && (forall t :: t in s.pc && s.pc[t].Loaded? ==> s.pc[t].at <= s.incs)
    && (forall t :: t in s.pc && s.pc[t].Asleep? ==> s.cleared <= s.pc[t].at <= s.incs)
  }

  lemma PushInv(s: State, t: nat, key: Key, pc: Pc, cond: Key)
    requires Inv(s, cond) && t in s.pc && !Sleeping(s, t) && |s.queues[key.Bucket()]| < EVERYONE
    requires if key == cond then pc.Asleep? && s.cleared <= pc.at <= s.incs else pc.Elsewhere?
    ensures Inv(Push(s, t, key, pc), cond)
  {
    var r := Push(s, t, key, pc);
    assert PlacedAt(s, cond, t);
    assert r.queues[key.Bucket()][0] == t;
    forall b, x | 0 <= b < |r.queues| && x in r.queues[b]
      ensures x in r.keys && r.keys[x].Bucket() == b && Sleeping(r, x)
    {
      if x != t { assert x in s.queues[b] && Sleeping(s, x); }
    }
    forall x | x in r.pc ensures PlacedAt(r, cond, x) {
      if x != t {
        assert PlacedAt(s, cond, x);
        QueuedStill(s.queues, key.Bucket(), t, x);
      }
    }
  }

  lemma QueuedStill(queues: seq<seq<nat>>, b: nat, t: nat, x: nat)
    requires b < |queues| && x != t
    ensures var qs := queues[b := [t] + queues[b]]; forall c :: 0 <= c < |qs| ==> (x in qs[c] <==> x in queues[c])
  {
  }

  /** Taking some out of one queue, whoever of them sleeps there going on. */
  lemma ResumeInv(s: State, b: nat, q: seq<nat>, cond: Key)
    requires Inv(s, cond) && b < BUCKETS && (forall x :: x in q ==> x in s.queues[b]) && |q| <= |s.queues[b]|
    requires Distinct(q)
    ensures Inv(Resume(s, b, q), cond)
  {
    var r := Resume(s, b, q);
    forall c, x | 0 <= c < |r.queues| && x in r.queues[c]
      ensures x in r.keys && r.keys[x].Bucket() == c && Sleeping(r, x)
    {
      assert x in s.queues[c] && Sleeping(s, x);
      assert x in s.queues[b] ==> c == b;
    }
    forall x | x in r.pc ensures PlacedAt(r, cond, x) {
      assert PlacedAt(s, cond, x);
      if x in s.queues[b] { assert s.keys[x].Bucket() == b; }
    }
  }

  /** Every step keeps the invariant, as long as fewer than 2^32 increments come between
      a load and its wait. */
  lemma NextInv(s: State, st: Step, cond: Key)
    requires Inv(s, cond) && Enabled(s, st, cond) && Timely(s, st)
    ensures Inv(Next(s, st, cond), cond) && s.cleared <= Next(s, st, cond).cleared
  {
    hide Woken, Resume, Push;
    match st
    case Load(t) => LoadInv(s, t, s.pc[t := Loaded(s.incs)], cond);
    case Wait(t) =>
      if s.pc[t].at % WORD == s.incs % WORD {
        assert s.pc[t].at == s.incs;
        PushInv(s, t, cond, Asleep(s.pc[t].at), cond);
        PushKeeps(s, t, cond, Asleep(s.pc[t].at));
      } else {
        LoadInv(s, t, s.pc[t := Idle], cond);
      }
    case Increment(i, all) => IncrementInv(s, i, all, cond);
    case Wake(i) => WakeInv(s, i, cond);
    case Cancel(t) =>
      var b := s.keys[t].Bucket();
      WokenFacts(s.queues[b], {t}, |s.queues[b]|);
      WokenOnce(s.queues[b], {t}, |s.queues[b]|);
      ResumeInv(s, b, Woken(s.queues[b], {t}, |s.queues[b]|), cond);
      ResumeKeeps(s, b, Woken(s.queues[b], {t}, |s.queues[b]|));
    case OtherWait(t, key) =>
      PushInv(s, t, key, Elsewhere, cond);
      PushKeeps(s, t, key, Elsewhere);
    case OtherWake(key, count) =>
      var b := key.Bucket();
      WokenFacts(s.queues[b], Waiters(s, key), count);
      WokenOnce(s.queues[b], Waiters(s, key), count);
      ResumeInv(s, b, Woken(s.queues[b], Waiters(s, key), count), cond);
      ResumeKeeps(s, b, Woken(s.queues[b], Waiters(s, key), count));
  }

  lemma {:induction false} WokenOnce(q: seq<nat>, hits: set<nat>, n: nat)
    requires Distinct(q)
    ensures Distinct(Woken(q, hits, n))
  {
    if q != [] && n != 0 {
      WokenOnce(q[1..], hits, if q[0] in hits then n - 1 else n);
      WokenFacts(q[1..], hits, n);
      assert q[0] !in q[1..];
    }
  }

  lemma PushKeeps(s: State, t: nat, key: Key, pc: Pc)
    requires key.Bucket() < |s.queues|
    ensures Push(s, t, key, pc).cleared == s.cleared
  {
  }

  lemma ResumeKeeps(s: State, b: nat, q: seq<nat>)
    requires b < |s.queues|
    ensures Resume(s, b, q).cleared == s.cleared && Resume(s, b, q).incs == s.incs
    ensures Resume(s, b, q).pending == s.pending
  {
  }

  lemma LoadInv(s: State, t: nat, pc: map<nat, Pc>, cond: Key)
    requires Inv(s, cond) && t in s.pc && !Sleeping(s, t)
    requires pc == s.pc[t := Idle] || pc == s.pc[t := Loaded(s.incs)]
    ensures Inv(s.(pc := pc), cond)
  {
    var r := s.(pc := pc);
    assert PlacedAt(s, cond, t);
    forall x | x in r.pc ensures PlacedAt(r, cond, x) { assert PlacedAt(s, cond, x); }
    forall b, x | 0 <= b < |r.queues| && x in r.queues[b] ensures Sleeping(r, x) { assert Sleeping(s, x); }
  }

  lemma IncrementInv(s: State, i: nat, all: bool, cond: Key)
    requires Inv(s, cond) && i !in s.pending
    ensures Inv(s.(incs := s.incs + 1, pending := s.pending[i := Signal(s.incs + 1, all)]), cond)
  {
    var r := s.(incs := s.incs + 1, pending := s.pending[i := Signal(s.incs + 1, all)]);
    forall x | x in r.pc ensures PlacedAt(r, cond, x) { assert PlacedAt(s, cond, x); }
    forall b, x | 0 <= b < |r.queues| && x in r.queues[b] ensures Sleeping(r, x) { assert Sleeping(s, x); }
  }

  lemma WakeInv(s: State, i: nat, cond: Key)
    requires Inv(s, cond) && i in s.pending
    ensures Inv(Next(s, Wake(i), cond), cond) && Next(s, Wake(i), cond).cleared >= s.cleared
    ensures s.pending[i].all ==> forall t :: t in Next(s, Wake(i), cond).pc ==> !Next(s, Wake(i), cond).pc[t].Asleep?
    ensures s.pending[i].all ==> Next(s, Wake(i), cond).cleared >= s.pending[i].n
  {
    hide Woken;
    var g, b := s.pending[i], cond.Bucket();
    var n := if g.all then EVERYONE else 1;
    var q := Woken(s.queues[b], Waiters(s, cond), n);
    WokenFacts(s.queues[b], Waiters(s, cond), n);
    WokenOnce(s.queues[b], Waiters(s, cond), n);
    ResumeInv(s, b, q, cond);
    var r := Resume(s, b, q);
    if g.all {
      NoneLeft(s.queues[b], Waiters(s, cond), n);
      forall t | t in r.pc ensures !r.pc[t].Asleep? { assert PlacedAt(s, cond, t); }
    }
    WakeKeeps(r, s.pending - {i}, if g.all && g.n > s.cleared then g.n else s.cleared, g.all, cond);
  }

  lemma WakeKeeps(r: State, pending: map<nat, Signal>, cleared: nat, all: bool, cond: Key)
    requires Inv(r, cond) && (forall i :: i in pending ==> i in r.pending && pending[i] == r.pending[i])
    requires cleared <= r.incs
    requires if all then forall t :: t in r.pc ==> !r.pc[t].Asleep? else cleared == r.cleared
    ensures Inv(r.(pending := pending, cleared := cleared), cond)
  {
    var u := r.(pending := pending, cleared := cleared);
    forall x | x in u.pc ensures PlacedAt(u, cond, x) { assert PlacedAt(r, cond, x); }
    forall b, x | 0 <= b < |u.queues| && x in u.queues[b] ensures Sleeping(u, x) { assert Sleeping(r, x); }
  }

  // ------------------------------------------------------------------- runs

  /** Fewer than 2^32 increments between a load and the wait that uses it. */
  ghost predicate Timely(s: State, st: Step) {
    st.Wait? && st.t in s.pc && s.pc[st.t].Loaded? ==> s.incs - s.pc[st.t].at < WORD
  }

  ghost predicate Run(ss: seq<State>, steps: seq<Step>, cond: Key) {
    && |ss| == |steps| + 1 && Inv(ss[0], cond)
    && forall k :: 0 <= k < |steps| ==> RunStep(ss, steps, cond, k)
  }

  ghost predicate RunStep(ss: seq<State>, steps: seq<Step>, cond: Key, k: nat)
    requires k < |steps| && |ss| == |steps| + 1
  {
    && |ss[k].queues| == BUCKETS && Enabled(ss[k], steps[k], cond) && Timely(ss[k], steps[k])
    && ss[k + 1] == Next(ss[k], steps[k], cond)
  }

  lemma {:induction false} RunInv(ss: seq<State>, steps: seq<Step>, cond: Key, k: nat)
    requires Run(ss, steps, cond) && k <= |steps|
    ensures Inv(ss[k], cond)
  {
    hide Inv, Next, Enabled, Timely;
    if k > 0 {
      RunInv(ss, steps, cond, k - 1);
      assert RunStep(ss, steps, cond, k - 1);
      NextInv(ss[k - 1], steps[k - 1], cond);
    }
  }

  lemma {:induction false} ClearedGrows(ss: seq<State>, steps: seq<Step>, cond: Key, j: nat, k: nat)
    requires Run(ss, steps, cond) && j <= k <= |steps|
    ensures ss[j].cleared <= ss[k].cleared
    decreases k
  {
    hide Inv, Next, Enabled, Timely;
    if j < k {
      ClearedGrows(ss, steps, cond, j, k - 1);
      RunInv(ss, steps, cond, k - 1);
      assert RunStep(ss, steps, cond, k - 1);
      NextInv(ss[k - 1], steps[k - 1], cond);
    }
  }

  /** No lost wakeup: in every run, at any time after a broadcast has returned, whoever
      sleeps on the condition loaded the sequence after that broadcast's increment. */
  lemma NoLostWakeup(ss: seq<State>, steps: seq<Step>, cond: Key, j: nat, k: nat, t: nat)
    requires Run(ss, steps, cond) && j < k <= |steps| && steps[j].Wake?
    requires steps[j].s in ss[j].pending && ss[j].pending[steps[j].s].all
    requires t in ss[k].pc && ss[k].pc[t].Asleep?
    ensures ss[k].pc[t].at >= ss[j].pending[steps[j].s].n
  {
    hide Next, Enabled, Timely, Seated, Placed;
    RunInv(ss, steps, cond, j);
    assert RunStep(ss, steps, cond, j);
    WakeInv(ss[j], steps[j].s, cond);
    ClearedGrows(ss, steps, cond, j + 1, k);
    RunInv(ss, steps, cond, k);
  }

  ghost function Sleepers(s: State): set<nat> {
    set t | t in s.pc && s.pc[t].Asleep?
  }

  /** Waking one takes the first hit out, and nobody else. */
  lemma {:induction false} WokenFirst(q: seq<nat>, hits: set<nat>) returns (k: nat)
    ensures k <= |q| && (forall i :: 0 <= i < k ==> q[i] !in hits) && (k < |q| ==> q[k] in hits)
    ensures Woken(q, hits, 1) == if k < |q| then q[..k] + q[k + 1..] else q
  {
    if q == [] {
      k := 0;
    } else if q[0] in hits {
      k := 0;
      assert Woken(q, hits, 1) == Woken(q[1..], hits, 0) == q[1..];
    } else {
      var j := WokenFirst(q[1..], hits);
      k := j + 1;
      forall i | 0 <= i < k ensures q[i] !in hits { assert i > 0 ==> q[i] == q[1..][i - 1]; }
      assert Woken(q, hits, 1) == [q[0]] + Woken(q[1..], hits, 1);
      assert q == [q[0]] + q[1..];
      if k < |q| { OneOut(q, j); }
    }
  }

  lemma OneOut(q: seq<nat>, j: nat)
    requires j + 1 < |q|
    ensures q[..j + 1] + q[j + 2..] == [q[0]] + (q[1..][..j] + q[1..][j + 1..])
  {
  }

  /** The wake of a signal lets exactly one sleeper go on if there is one, that of a broadcast
      all of them, and neither touches any other thread. */
  lemma WakeTakes(s: State, i: nat, cond: Key)
    requires Inv(s, cond) && i in s.pending
    ensures var s' := Next(s, Wake(i), cond);
      && (s.pending[i].all ==> Sleepers(s') == {})
      && (!s.pending[i].all && Sleepers(s) == {} ==> Sleepers(s') == {})
      && (!s.pending[i].all && Sleepers(s) != {} ==> exists t :: t in Sleepers(s) && Sleepers(s') == Sleepers(s) - {t})
      && (forall t :: t in s.pc && t !in Sleepers(s) ==> t in s'.pc && s'.pc[t] == s.pc[t])
      && (forall t :: t in Sleepers(s) ==> t in s'.pc && (s'.pc[t] == s.pc[t] || s'.pc[t].Idle?))
  {
    hide Woken, Key.Bucket;
    var b, s' := cond.Bucket(), Next(s, Wake(i), cond);
    var q, hits := s.queues[b], Waiters(s, cond);
    forall t | t in s.pc ensures PlacedAt(s, cond, t) && (s.pc[t].Elsewhere? ==> t !in hits) { }
    var n := if s.pending[i].all then EVERYONE else 1;
    WokenFacts(q, hits, n);
    forall t | t in s.pc && t !in Sleepers(s) ensures s'.pc[t] == s.pc[t] { }
    if s.pending[i].all {
      WakeInv(s, i, cond);
    } else {
      OneGoesOn(s, i, cond);
    }
  }

  lemma OneGoesOn(s: State, i: nat, cond: Key)
    requires Inv(s, cond) && i in s.pending && !s.pending[i].all
    ensures var s' := Next(s, Wake(i), cond);
      if Sleepers(s) == {} then Sleepers(s') == {}
      else exists t :: t in Sleepers(s) && Sleepers(s') == Sleepers(s) - {t}
  {
    hide Woken, Key.Bucket;
    var b, s' := cond.Bucket(), Next(s, Wake(i), cond);
    var q, hits := s.queues[b], Waiters(s, cond);
    forall t | t in s.pc ensures PlacedAt(s, cond, t) { }
    var k := WokenFirst(q, hits);
    if k < |q| {
      var t := q[k];
      Gone(q, k);
      assert t in Sleepers(s);
      assert Sleepers(s') == Sleepers(s) - {t};
    } else {
      forall t | t in s.pc ensures !s.pc[t].Asleep? { assert s.pc[t].Asleep? ==> Waiting(s, t, cond); }
      assert Sleepers(s) == {} && Sleepers(s') == {};
    }
  }

  /** With someone asleep on the condition, a signal takes exactly one out of the queue and a
      broadcast at least one. */
  lemma SignalWakes(s: State, i: nat, t: nat, cond: Key)
    requires Inv(s, cond) && i in s.pending && t in s.pc && s.pc[t].Asleep?
    ensures var q, r := s.queues[cond.Bucket()], Next(s, Wake(i), cond).queues[cond.Bucket()];
      |r| < |q| && (!s.pending[i].all ==> |r| == |q| - 1)
  {
    hide Woken, Key.Bucket;
    assert PlacedAt(s, cond, t);
    var q, hits := s.queues[cond.Bucket()], Waiters(s, cond);
    if s.pending[i].all {
      SomeoneLeaves(q, hits, EVERYONE, t);
    } else {
      var k := WokenFirst(q, hits);
      assert t in q && t in hits;
    }
  }

  lemma {:induction false} SomeoneLeaves(q: seq<nat>, hits: set<nat>, n: nat, t: nat)
    requires t in q && t in hits && n > 0
    ensures |Woken(q, hits, n)| < |q|
  {
    WokenFacts(q[1..], hits, n - 1);
    if q[0] !in hits { SomeoneLeaves(q[1..], hits, n, t); }
  }

  lemma Gone(q: seq<nat>, k: nat)
    requires Distinct(q) && k < |q|
    ensures forall t :: t in q[..k] + q[k + 1..] <==> t in q && t != q[k]
  {
    var r := q[..k] + q[k + 1..];
    forall t | t in q && t != q[k] ensures t in r {
      var j :| 0 <= j < |q| && q[j] == t;
      assert r[if j < k then j else j - 1] == t;
    }
  }

  // ---------------------------------------------- signals between a load and its wait

  /** Any run, with no bound on the signals in it. */
  ghost predicate Trace(ss: seq<State>, steps: seq<Step>, cond: Key) {
    |ss| == |steps| + 1 && forall k :: 0 <= k < |steps| ==> TraceStep(ss, steps, cond, k)
  }

  ghost predicate TraceStep(ss: seq<State>, steps: seq<Step>, cond: Key, k: nat)
    requires k < |steps| && |ss| == |steps| + 1
  {
    |ss[k].queues| == BUCKETS && Enabled(ss[k], steps[k], cond) && ss[k + 1] == Next(ss[k], steps[k], cond)
  }

  /** The calls of signal and broadcast among the steps. */
  function Signals(steps: seq<Step>): nat {
    if steps == [] then 0 else Signals(steps[..|steps| - 1]) + if steps[|steps| - 1].Increment? then 1 else 0
  }

  lemma NextIncs(s: State, st: Step, cond: Key)
    requires |s.queues| == BUCKETS && Enabled(s, st, cond)
    ensures Next(s, st, cond).incs == s.incs + if st.Increment? then 1 else 0
  {
    hide Woken, Key.Bucket;
  }

  lemma NextLoaded(s: State, st: Step, cond: Key, t: nat)
    requires |s.queues| == BUCKETS && Enabled(s, st, cond) && t in s.pc && s.pc[t].Loaded? && st != Wait(t)
    ensures t in Next(s, st, cond).pc && Next(s, st, cond).pc[t] == s.pc[t]
  {
    hide Woken, Key.Bucket;
  }

  lemma {:induction false} Counted(ss: seq<State>, steps: seq<Step>, cond: Key, t: nat, j: nat, k: nat)
    requires Trace(ss, steps, cond) && j <= k <= |steps| && t in ss[j].pc && ss[j].pc[t].Loaded?
    requires forall i :: j <= i < k ==> steps[i] != Wait(t)
    ensures ss[k].incs == ss[j].incs + Signals(steps[j..k]) && t in ss[k].pc && ss[k].pc[t] == ss[j].pc[t]
    decreases k
  {
    hide Next, Enabled;
    if j < k {
      Counted(ss, steps, cond, t, j, k - 1);
      assert TraceStep(ss, steps, cond, k - 1);
      NextIncs(ss[k - 1], steps[k - 1], cond);
      NextLoaded(ss[k - 1], steps[k - 1], cond, t);
      assert steps[j..k][..k - 1 - j] == steps[j..k - 1];
    }
  }

  /** In every run: a wait goes to sleep if and only if the number of signals and broadcasts
      called since its load is a multiple of 2^32; otherwise it returns at once. So a signal
      that finds nobody asleep is not lost on a thread that loaded before it. */
  lemma SleepsIff(ss: seq<State>, steps: seq<Step>, cond: Key, t: nat, j: nat, k: nat)
    requires Trace(ss, steps, cond) && j < k < |steps| && steps[j] == Load(t) && steps[k] == Wait(t)
    requires forall i :: j < i < k ==> steps[i] != Wait(t)
    ensures t in ss[k + 1].pc
    ensures ss[k + 1].pc[t].Asleep? <==> Signals(steps[j + 1..k]) % 0x1_0000_0000 == 0
    ensures !ss[k + 1].pc[t].Asleep? ==> ss[k + 1].pc[t].Idle? && ss[k + 1].queues == ss[k].queues
  {
    hide Key.Bucket;
    assert TraceStep(ss, steps, cond, j);
    assert TraceStep(ss, steps, cond, k);
    Counted(ss, steps, cond, t, j + 1, k);
    SameWord(ss[k].pc[t].at, ss[k].incs);
  }

  /** Exactly when a wait goes to sleep although a signal has come since the load: the
      number of signals is a multiple of 2^32. */
  lemma StaleSleepIff(s: State, t: nat, cond: Key)
    requires Inv(s, cond) && Enabled(s, Wait(t), cond) && s.pc[t].at < s.incs
    ensures Next(s, Wait(t), cond).pc[t].Asleep? <==> (s.incs - s.pc[t].at) % WORD == 0
  {
    SameWord(s.pc[t].at, s.incs);
  }

  lemma SameWord(a: nat, b: nat)
    requires a <= b
    ensures a % WORD == b % WORD <==> (b - a) % WORD == 0
  {
    var q, r := (b - a) / WORD, (b - a) % WORD;
    assert b == a + q * WORD + r;
    Shifted(a + r, q);
    if r != 0 { NotSame(a, r); }
  }

  lemma Shifted(a: nat, q: nat)
    ensures (a + q * WORD) % WORD == a % WORD
  {
  }

  lemma NotSame(a: nat, r: nat)
    requires 0 < r < WORD
    ensures (a + r) % WORD != a % WORD
  {
  }

  /** From s the steps lead to s'. */
  ghost predicate Leads(s: State, steps: seq<Step>, cond: Key, s': State)
    decreases |steps|
  {
    if steps == [] then s' == s
    else |s.queues| == BUCKETS && Enabled(s, steps[0], cond) && Leads(Next(s, steps[0], cond), steps[1..], cond, s')
  }

  lemma {:induction false} LeadsOn(s: State, a: seq<Step>, s1: State, b: seq<Step>, s': State, cond: Key)
    requires Leads(s, a, cond, s1) && Leads(s1, b, cond, s')
    ensures Leads(s, a + b, cond, s')
    decreases |a|
  {
    hide Enabled, Next;
    if a == [] {
      assert a + b == b;
    } else {
      assert (a + b)[1..] == a[1..] + b;
      LeadsOn(Next(s, a[0], cond), a[1..], s1, b, s', cond);
    }
  }

  /** n broadcasts, one after the other. */
  ghost function Storm(n: nat): seq<Step> {
    if n == 0 then [] else [Increment(0, true), Wake(0)] + Storm(n - 1)
  }

  /** One thread that has loaded the word at the start, k broadcasts later. */
  ghost function Late(t: nat, k: nat): State {
    State(k, seq(BUCKETS, _ => []), map[], map[t := Loaded(0)], map[], k)
  }

  lemma OneBroadcast(cond: Key, t: nat, k: nat)
    ensures Leads(Late(t, k), [Increment(0, true), Wake(0)], cond, Late(t, k + 1))
  {
    hide Key.Bucket;
    var s, all := Late(t, k), [Increment(0, true), Wake(0)];
    assert Enabled(s, all[0], cond);
    var s1 := Next(s, all[0], cond);
    assert all[1..][0] == Wake(0) && all[1..][1..] == [];
    assert Enabled(s1, Wake(0), cond);
    assert Next(s1, Wake(0), cond) == Late(t, k + 1);
    assert Leads(s1, all[1..], cond, Late(t, k + 1));
  }

  lemma {:induction false} StormLeads(cond: Key, t: nat, k: nat, n: nat)
    ensures Leads(Late(t, k), Storm(n), cond, Late(t, k + n))
    decreases n
  {
    hide Leads, Late;
    if n == 0 {
      LeadsNowhere(Late(t, k), cond);
    } else {
      OneBroadcast(cond, t, k);
      StormLeads(cond, t, k + 1, n - 1);
      LeadsOn(Late(t, k), [Increment(0, true), Wake(0)], Late(t, k + 1), Storm(n - 1), Late(t, k + n), cond);
    }
  }

  lemma LeadsNowhere(s: State, cond: Key)
    ensures Leads(s, [], cond, s)
  {
  }

  lemma LeadsOnce(s: State, st: Step, cond: Key)
    requires |s.queues| == BUCKETS && Enabled(s, st, cond)
    ensures Leads(s, [st], cond, Next(s, st, cond))
  {
    hide Enabled, Next;
    assert [st][1..] == [];
  }

  /** With 2^32 broadcasts between the load and the wait the thread goes to sleep, and all of
      them are missed: a run from the initial state. */
  lemma MissedAfterWrap(cond: Key, t: nat)
    ensures var s0 := State(0, seq(BUCKETS, _ => []), map[], map[t := Idle], map[], 0);
      && Inv(s0, cond)
      && exists s ::
        && Leads(s0, [Load(t)] + Storm(WORD) + [Wait(t)], cond, s)
        && s.pc == map[t := Asleep(0)] && s.cleared == WORD
  {
    hide Leads, Storm, Key.Bucket;
    var s0 := State(0, seq(BUCKETS, _ => []), map[], map[t := Idle], map[], 0);
    assert PlacedAt(s0, cond, t);
    assert |s0.queues[cond.Bucket()]| == 0;
    assert Next(s0, Load(t), cond) == Late(t, 0);
    LeadsOnce(s0, Load(t), cond);
    StormLeads(cond, t, 0, WORD);
    LeadsOn(s0, [Load(t)], Late(t, 0), Storm(WORD), Late(t, WORD), cond);
    var s := Next(Late(t, WORD), Wait(t), cond);
    LeadsOnce(Late(t, WORD), Wait(t), cond);
    LeadsOn(s0, [Load(t)] + Storm(WORD), Late(t, WORD), [Wait(t)], s, cond);
  }

  // ----------------------------------------------------- the steps on the kernel's table

  /** The table holds the machine's queues, and its waiters wait for the machine's keys. */
  ghost predicate Mirrors(nodes: Nodes, queues: seq<seq<nat>>, s: State) {
    && queues == s.queues && (forall t :: t in s.pc ==> t in nodes)
    && (forall t :: t in nodes && nodes[t].waiting ==> t in s.pc && t in s.keys && s.keys[t] == nodes[t].key)
  }

  /** A thread that is not asleep does not wait in the table. */
  lemma NotWaiting(nodes: Nodes, queues: seq<seq<nat>>, s: State, t: nat, cond: Key)
    requires Inv(s, cond) && Mirrors(nodes, queues, s) && Listed(nodes, queues) && t in s.pc && !Sleeping(s, t)
    ensures t in nodes && !nodes[t].waiting
  {
    assert PlacedAt(s, cond, t);
  }

  lemma {:induction false} WokenSame(q: seq<nat>, a: set<nat>, b: set<nat>, n: nat)
    requires forall t :: t in q ==> (t in a <==> t in b)
    ensures Woken(q, a, n) == Woken(q, b, n)
  {
    if q != [] && n > 0 { WokenSame(q[1..], a, b, if q[0] in a then n - 1 else n); }
  }

  /** Who waits for a key in its bucket is the same in both. */
  lemma SameWaiters(nodes: Nodes, queues: seq<seq<nat>>, s: State, key: Key, n: nat)
    requires Mirrors(nodes, queues, s) && |queues| == BUCKETS && InBucket(nodes, queues[key.Bucket()], key.Bucket())
    ensures Woken(queues[key.Bucket()], Matching(nodes, key), n) == Woken(queues[key.Bucket()], Waiters(s, key), n)
  {
    hide Key.Bucket, Woken;
    WokenSame(queues[key.Bucket()], Matching(nodes, key), Waiters(s, key), n);
  }

  lemma MirrorsPush(nodes: Nodes, nodes': Nodes, queues: seq<seq<nat>>, s: State, t: nat, key: Key, pc: Pc)
    requires Mirrors(nodes, queues, s) && t in s.pc && t in nodes && key.Bucket() < |queues|
    requires forall x :: PushedSame(nodes, nodes', t, key, key.Bucket(), x)
    ensures Mirrors(nodes', queues[key.Bucket() := [t] + queues[key.Bucket()]], Push(s, t, key, pc))
  {
    hide Key.Bucket;
    var r := Push(s, t, key, pc);
    forall x | x in nodes' && nodes'[x].waiting ensures x in r.pc && x in r.keys && r.keys[x] == nodes'[x].key {
      assert PushedSame(nodes, nodes', t, key, key.Bucket(), x);
    }
    forall x | x in r.pc ensures x in nodes' { assert PushedSame(nodes, nodes', t, key, key.Bucket(), x); }
  }

  lemma MirrorsLess(nodes: Nodes, nodes': Nodes, queues: seq<seq<nat>>, s: State, b: nat, q: seq<nat>, gone: set<nat>,
                    result: int)
    requires Mirrors(nodes, queues, s) && b < |queues| && Released(nodes, nodes', gone, result)
    ensures Mirrors(nodes', queues[b := q], Resume(s, b, q))
  {
    hide Key.Bucket;
  }

  lemma {:induction false} WokenOne(q: seq<nat>, t: nat, k: nat, n: nat)
    requires k < |q| && q[k] == t && (forall i, j :: 0 <= i < j < |q| ==> q[i] != q[j]) && n > 0
    ensures Woken(q, {t}, n) == Without(q, k)
    decreases |q|
  {
    if k == 0 {
      WokenFacts(q[1..], {t}, n - 1);
      NobodyLeaves(q[1..], t, n - 1);
    } else {
      assert q[0] != t;
      WokenOne(q[1..], t, k - 1, n);
      assert Without(q, k) == [q[0]] + Without(q[1..], k - 1);
    }
  }

  lemma {:induction false} NobodyLeaves(q: seq<nat>, t: nat, n: nat)
    requires t !in q
    ensures Woken(q, {t}, n) == q
    decreases |q|
  {
    if q != [] && n > 0 { NobodyLeaves(q[1..], t, n); }
  }

  /** One step, done by the calls of kernel/futex.c where it is one of the kernel's: the
      queues of the table are those of the machine. */
  method Perform(table: FutexTable, s: State, st: Step, cond: Key)
    requires table.Valid() && Inv(s, cond) && Enabled(s, st, cond) && Mirrors(table.nodes, table.queues, s)
    modifies table, table.heads
    ensures table.Valid() && Mirrors(table.nodes, table.queues, Next(s, st, cond))
  {
    hide Key.Bucket, Inv, Chain, InBucket, Listed, Resume, Push, Woken, Released, PushedSame, Waiters, Matching;
    ghost var nodes, queues := table.nodes, table.queues;
    match st
    case Load(_) =>
    case Increment(_, _) =>
    case Wait(t) =>
      NotWaiting(nodes, queues, s, t, cond);
      var slept, code := table.Wait(t, cond, s.pc[t].at % WORD, true, s.incs % WORD);
      if slept { MirrorsPush(nodes, table.nodes, queues, s, t, cond, Asleep(s.pc[t].at)); }
    case OtherWait(t, key) =>
      NotWaiting(nodes, queues, s, t, cond);
      var slept, code := table.Wait(t, key, 0, true, 0);
      MirrorsPush(nodes, table.nodes, queues, s, t, key, Elsewhere);
    case Wake(i) =>
      var count := if s.pending[i].all then EVERYONE else 1;
      SameWaiters(nodes, queues, s, cond, count);
      var woke; ghost var gone;
      woke, gone := table.Wake(cond, count, true);
      MirrorsLess(nodes, table.nodes, queues, s, cond.Bucket(), table.queues[cond.Bucket()], gone, 0);
      MirrorsPending(table.nodes, table.queues, Resume(s, cond.Bucket(), table.queues[cond.Bucket()]),
                     Next(s, st, cond));
    case OtherWake(key, count) =>
      SameWaiters(nodes, queues, s, key, count);
      var woke; ghost var gone;
      woke, gone := table.Wake(key, count, true);
      MirrorsLess(nodes, table.nodes, queues, s, key.Bucket(), table.queues[key.Bucket()], gone, 0);
    case Cancel(t) => PerformCancel(table, s, t, cond);
  }

  lemma MirrorsPending(nodes: Nodes, queues: seq<seq<nat>>, s: State, s': State)
    requires Mirrors(nodes, queues, s) && s'.queues == s.queues && s'.pc == s.pc && s'.keys == s.keys
    ensures Mirrors(nodes, queues, s')
  {
  }

  lemma SleeperListed(nodes: Nodes, queues: seq<seq<nat>>, heads: seq<nat>, s: State, t: nat, cond: Key)
    requires Table(nodes, queues, heads) && Inv(s, cond) && Mirrors(nodes, queues, s) && Sleeping(s, t)
    ensures t in s.keys && t in nodes && nodes[t].waiting && nodes[t].bucket == s.keys[t].Bucket()
  {
    hide Key.Bucket, Chain, Listed;
    assert PlacedAt(s, cond, t);
    var b := s.keys[t].Bucket();
    assert InBucket(nodes, queues[b], b) && t in queues[b];
  }

  lemma CancelIs(nodes: Nodes, queues: seq<seq<nat>>, heads: seq<nat>, b: nat, k: nat, t: nat)
    requires Table(nodes, queues, heads) && b < |queues| && k < |queues[b]| && queues[b][k] == t
    ensures Woken(queues[b], {t}, |queues[b]|) == Without(queues[b], k)
  {
    hide InBucket, Listed, Woken, Without;
    assert Chain(nodes, queues[b], heads[b]);
    WokenOne(queues[b], t, k, |queues[b]|);
  }

  method PerformCancel(table: FutexTable, s: State, t: nat, cond: Key)
    requires table.Valid() && Inv(s, cond) && Enabled(s, Cancel(t), cond) && Mirrors(table.nodes, table.queues, s)
    modifies table, table.heads
    ensures table.Valid() && Mirrors(table.nodes, table.queues, Next(s, Cancel(t), cond))
  {
    hide Key.Bucket, Inv, Chain, InBucket, Listed, Resume, Push, Woken, Released, PushedSame, Without;
    ghost var nodes, queues, b := table.nodes, table.queues, s.keys[t].Bucket();
    ghost var heads := table.heads[..];
    SleeperListed(nodes, queues, heads, s, t, cond);
    table.CancelThread(t, ERR_INTR);
    ghost var k :| Dropped(queues, table.queues, b, k, t);
    CancelIs(nodes, queues, heads, b, k, t);
    MirrorsLess(nodes, table.nodes, queues, s, b, table.queues[b], {t}, ERR_INTR);
  }

  /** A whole run on the table: its queues are the machine's after every step. */
  method Play(table: FutexTable, ss: seq<State>, steps: seq<Step>, cond: Key)
    requires table.Valid() && Run(ss, steps, cond) && Mirrors(table.nodes, table.queues, ss[0])
    modifies table, table.heads
    ensures table.Valid() && Mirrors(table.nodes, table.queues, ss[|steps|]) && table.queues == ss[|steps|].queues
  {
    hide Inv, Enabled, Next, Timely, FutexTable.Valid;
    for k := 0 to |steps|
      invariant table.Valid() && Mirrors(table.nodes, table.queues, ss[k])
    {
      RunInv(ss, steps, cond, k);
      assert RunStep(ss, steps, cond, k);
      Perform(table, ss[k], steps[k], cond);
    }
  }
}
