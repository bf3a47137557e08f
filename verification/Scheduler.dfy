/** The round-robin scheduler (kernel/thread.c): a ring of threads linked by `next`, entered
    at the current one. */
module Scheduler {

  datatype Status = Ready | Running | Blocked | Zombie | Dead

  // ------------------------------------------------------------ rings and their steps

  /** The ring read from the current thread on. */
  datatype Sched = Sched(ring: seq<nat>, status: map<nat, Status>)

  ghost predicate Distinct(ring: seq<nat>) {
    forall i, j :: 0 <= i < j < |ring| ==> ring[i] != ring[j]
  }

  /** One ring without repetition; only the thread at its front may be running. */
  ghost predicate Well(s: Sched) {
    && Distinct(s.ring) && (forall i :: 0 <= i < |s.ring| ==> s.ring[i] != 0 && s.ring[i] in s.status)
    && (forall t :: t in s.status && s.status[t] == Running ==> |s.ring| > 0 && s.ring[0] == t)
  }

  predicate ReadyAt(s: Sched, i: int) {
    0 <= i < |s.ring| && s.ring[i] in s.status && s.status[s.ring[i]] == Ready
  }

  /** The thread schedule() chooses: the first ready one behind the current. */
  predicate Picked(s: Sched, i: int) {
    1 <= i && ReadyAt(s, i) && forall j :: 1 <= j < i ==> !ReadyAt(s, j)
  }

  function Rested(status: map<nat, Status>, t: nat): map<nat, Status>
    requires t in status
  {
    if status[t] == Running then status[t := Ready] else status
  }

  function Switched(s: Sched, i: nat): Sched
    requires 0 < i < |s.ring| && s.ring[0] in s.status
  {
    Sched(s.ring[i..] + s.ring[..i], Rested(s.status, s.ring[0])[s.ring[i] := Running])
  }

  function Without(ring: seq<nat>, i: nat): seq<nat>
    requires i < |ring|
  {
    ring[..i] + ring[i + 1..]
  }

  datatype Step =
    | Join(t: nat) | Leave(i: nat) | Block | Unblock(t: nat) | Exit | Retire(t: nat) | Switch(i: nat) | Resume

  /** What the kernel's operations do to the ring. */
  ghost predicate Goes(s: Sched, st: Step, s': Sched) {
    match st
    case Join(t) => t != 0 && t in s.status && t !in s.ring && s.status[t] == Ready &&
                    s' == if s.ring == [] then Sched([t], s.status[t := Running]) else Sched(s.ring + [t], s.status)
    case Leave(i) => 0 < i < |s.ring| && s' == Sched(Without(s.ring, i), s.status)
    case Block => s.ring != [] && s' == s.(status := s.status[s.ring[0] := Blocked])
    case Unblock(t) => t in s.status && s.status[t] == Blocked && s' == s.(status := s.status[t := Ready])
    case Exit => s.ring != [] && s' == s.(status := s.status[s.ring[0] := Zombie])
    case Retire(t) => t !in s.ring && t in s.status && s' == s.(status := s.status[t := Dead])
    case Switch(i) => Picked(s, i) && s.ring[0] in s.status && s' == Switched(s, i)
    case Resume => |s.ring| == 1 && ReadyAt(s, 0) && s' == s.(status := s.status[s.ring[0] := Running])
  }

  lemma GoesWell(s: Sched, st: Step, s': Sched)
    requires Well(s) && Goes(s, st, s')
    ensures Well(s')
  {
    match st
    case Join(t) => JoinWell(s, t);
    case Leave(i) => LeaveWell(s, i);
    case Switch(i) => SwitchedWell(s, i);
    case _ =>
  }

  lemma JoinWell(s: Sched, t: nat)
    requires Well(s) && t != 0 && t in s.status && t !in s.ring
    ensures Well(if s.ring == [] then Sched([t], s.status[t := Running]) else Sched(s.ring + [t], s.status))
  {
  }

  lemma LeaveWell(s: Sched, i: nat)
    requires Well(s) && 0 < i < |s.ring|
    ensures Well(Sched(Without(s.ring, i), s.status))
  {
    WithoutDistinct(s.ring, i);
  }

  lemma WithoutDistinct(ring: seq<nat>, i: nat)
    requires Distinct(ring) && i < |ring|
    ensures Distinct(Without(ring, i))
    ensures forall j :: 0 <= j < |ring| - 1 ==> Without(ring, i)[j] == ring[if j < i then j else j + 1]
  {
  }

  lemma SwitchedWell(s: Sched, i: nat)
    requires Well(s) && 0 < i < |s.ring|
    ensures Well(Switched(s, i))
  {
    var r := Switched(s, i);
    var n := |s.ring|;
    forall j | 0 <= j < n ensures r.ring[j] == s.ring[if j < n - i then i + j else i + j - n] { }
  }

  // ------------------------------------------------------------------- fairness

  /** Thread t waits at distance d and is ready. */
  ghost predicate Due(s: Sched, t: nat, d: nat) {
    1 <= d < |s.ring| && s.ring[d] == t && ReadyAt(s, d)
  }

  /** One step: t is reached, or stays ready at no greater distance, and nearer if the step
      was a switch. */
  lemma DueStep(s: Sched, st: Step, s': Sched, t: nat, d: nat) returns (e: nat)
    requires Well(s) && Goes(s, st, s') && Due(s, t, d) && (st.Leave? ==> st.i != d)
    ensures s'.ring != [] && (s'.ring[0] == t || (Due(s', t, e) && e <= if st.Switch? then d - 1 else d))
  {
    e := d;
    match st
    case Leave(i) => e := DueLeave(s, i, t, d);
    case Switch(i) => e := DueSwitch(s, i, t, d);
    case _ =>
  }

  lemma DueLeave(s: Sched, i: nat, t: nat, d: nat) returns (e: nat)
    requires Well(s) && 0 < i < |s.ring| && i != d && Due(s, t, d)
    ensures Due(Sched(Without(s.ring, i), s.status), t, e) && e <= d
  {
    WithoutDistinct(s.ring, i);
    e := if i < d then d - 1 else d;
  }

  lemma DueSwitch(s: Sched, i: nat, t: nat, d: nat) returns (e: nat)
    requires Well(s) && Picked(s, i) && s.ring[0] in s.status && Due(s, t, d)
    ensures i < |s.ring| && Switched(s, i).ring[0] == s.ring[i]
    ensures s.ring[i] == t || (Due(Switched(s, i), t, e) && e <= d - 1)
  {
    assert i <= d;
    e := d - i;
    if i < d {
      assert Switched(s, i).ring[e] == s.ring[d];
      assert s.ring[0] != t && s.ring[i] != t;
    }
  }

  ghost predicate Run(ss: seq<Sched>, steps: seq<Step>) {
    && |ss| == |steps| + 1 && Well(ss[0])
    && forall k :: 0 <= k < |steps| ==> Goes(ss[k], steps[k], ss[k + 1])
  }

  ghost function Switches(steps: seq<Step>): nat {
    if steps == [] then 0 else Switches(steps[..|steps| - 1]) + if steps[|steps| - 1].Switch? then 1 else 0
  }

  lemma {:induction false} RunWell(ss: seq<Sched>, steps: seq<Step>, k: nat)
    requires Run(ss, steps) && k <= |steps|
    ensures Well(ss[k])
  {
    if k > 0 {
      RunWell(ss, steps, k - 1);
      GoesWell(ss[k - 1], steps[k - 1], ss[k]);
    }
  }

  ghost predicate Reached(ss: seq<Sched>, t: nat, k: nat) {
    exists j :: 0 <= j <= k && j < |ss| && ss[j].ring != [] && ss[j].ring[0] == t
  }

  /** Nobody takes t itself out of the ring. */
  ghost predicate Stays(ss: seq<Sched>, steps: seq<Step>, t: nat) {
    forall k :: 0 <= k < |steps| && k < |ss| && steps[k].Leave? && steps[k].i < |ss[k].ring| ==>
      ss[k].ring[steps[k].i] != t
  }

  lemma {:induction false} Nearer(ss: seq<Sched>, steps: seq<Step>, t: nat, d: nat, k: nat) returns (e: nat)
    requires Run(ss, steps) && Stays(ss, steps, t) && Due(ss[0], t, d) && k <= |steps|
    ensures Reached(ss, t, k) || (Due(ss[k], t, e) && e + Switches(steps[..k]) <= d)
  {
    if k == 0 {
      e := d;
    } else {
      var e0 := Nearer(ss, steps, t, d, k - 1);
      assert steps[..k][..k - 1] == steps[..k - 1];
      if Reached(ss, t, k - 1) {
        e := 0;
      } else {
        RunWell(ss, steps, k - 1);
        e := DueStep(ss[k - 1], steps[k - 1], ss[k], t, e0);
      }
    }
  }

  /** Fairness: a ready thread at distance d has been chosen by the d-th context switch,
      whichever threads join, block, wake, exit or leave meanwhile. */
  lemma ChosenWithin(ss: seq<Sched>, steps: seq<Step>, t: nat, d: nat)
    requires Run(ss, steps) && Stays(ss, steps, t) && Due(ss[0], t, d) && Switches(steps) >= d
    ensures Reached(ss, t, |steps|)
  {
    var e := Nearer(ss, steps, t, d, |steps|);
    assert steps[..|steps|] == steps;
  }

  /** While a thread is due, schedule() never returns without switching. */
  lemma DueMeansSwitch(s: Sched, t: nat, d: nat) returns (i: nat)
    requires Due(s, t, d)
    ensures Picked(s, i) && i <= d
  {
    i := 1;
    while !ReadyAt(s, i)
      invariant 1 <= i <= d && forall j :: 1 <= j < i ==> !ReadyAt(s, j)
      decreases d - i
    {
      i := i + 1;
    }
  }

  // -------------------------------------------------------------- the linked ring

  function After(ring: seq<nat>, i: nat): nat
    requires i < |ring|
  {
    if i + 1 < |ring| then ring[i + 1] else ring[0]
  }

  /** The links spell out the ring. */
  ghost predicate Cycle(next: map<nat, nat>, ring: seq<nat>) {
    forall i :: 0 <= i < |ring| ==> ring[i] in next && next[ring[i]] == After(ring, i)
  }

  class Threads {
    var next: map<nat, nat>
    var status: map<nat, Status>
    var current: nat            // 0 before the first thread
    ghost var ring: seq<nat>

    ghost function Abs(): Sched
      reads this
    {
      Sched(ring, status)
    }

    ghost predicate Valid()
      reads this
    {
      Well(Abs()) && Cycle(next, ring) && current == if ring == [] then 0 else ring[0]
    }

    /** thread_init: the boot thread alone. */
    constructor (boot: nat)
      requires boot != 0
      ensures Valid() && ring == [boot] && status == map[boot := Running]
    {
      next, status, current, ring := map[boot := boot], map[boot := Running], boot, [boot];
    }

    /** thread_in_scheduler_ring. */
    method InRing(wanted: nat) returns (found: bool)
      requires Valid()
      ensures found <==> wanted in ring
    {
      if wanted == 0 || current == 0 { return false; }
      var thread := current;
      ghost var i := 0;
      while true
        invariant 0 <= i < |ring| && thread == ring[i] && forall j :: 0 <= j < i ==> ring[j] != wanted
        decreases |ring| - i
      {
        if thread == wanted { return true; }
        thread := next[thread];
        if thread == current {
          assert i + 1 == |ring|;
          return false;
        }
        i := i + 1;
      }
    }

    /** thread_append: behind all others; refused if already there or not ready. */
    method Append(t: nat) returns (ok: bool)
      requires Valid() && t != 0 && t in status
      modifies this
      ensures Valid() && (ok <==> old(status)[t] == Ready && t !in old(ring))
      ensures if ok then Goes(old(Abs()), Join(t), Abs()) else Abs() == old(Abs())
    {
      var present := InRing(t);
      if status[t] != Ready || present { return false; }
      GoesWell(Abs(), Join(t), if ring == [] then Sched([t], status[t := Running]) else Sched(ring + [t], status));
      if current == 0 {
        current, next, status, ring := t, next[t := t], status[t := Running], [t];
        return true;
      }
      var tail := current;
      ghost var i := 0;
      while next[tail] != current
        invariant 0 <= i < |ring| && tail == ring[i]
        decreases |ring| - i
      {
        tail := next[tail];
        i := i + 1;
      }
      assert i + 1 == |ring|;
      next := next[tail := t][t := current];
      ring := ring + [t];
      return true;
    }

    /** thread_remove_from_scheduler; the current thread is never removed. */
    method Remove(victim: nat) returns (ghost i: nat)
      requires Valid()
      modifies this`next, this`ring
      ensures Valid()
      ensures if victim != 0 && victim in old(ring) && victim != current
        then 0 < i < |old(ring)| && old(ring)[i] == victim && Goes(old(Abs()), Leave(i), Abs())
        else Abs() == old(Abs())
    {
      hide Goes, Without, Well, Cycle;
      i := 0;
      SomeCurrent(Abs());
      if victim == 0 || current == 0 || victim == current { return; }
      var previous := current;
      ghost var k := 0;
      LastHere(next, ring, status, k);
      while next[previous] != current && next[previous] != victim
        invariant Valid() && ring == old(ring) && next == old(next)
        invariant 0 <= k < |ring| && previous == ring[k] && previous in next
        invariant forall j :: 0 <= j <= k ==> ring[j] != victim
        invariant (next[previous] == current <==> k + 1 == |ring|) && (k + 1 < |ring| ==> next[previous] == ring[k + 1])
        decreases |ring| - k
      {
        previous := next[previous];
        k := k + 1;
        LastHere(next, ring, status, k);
      }
      if next[previous] == victim {
        i := k + 1;
        Unlink(next, ring, status, k, victim);
        next := next[previous := next[victim]][victim := 0];
        ring := Without(ring, i);
      }
    }

    /** thread_block, thread_unblock and the end of thread_exit_with_status on the status. */
    method SetCurrent(exiting: bool)
      requires Valid() && current != 0
      modifies this`status
      ensures Valid() && Goes(old(Abs()), if exiting then Exit else Block, Abs())
    {
      status := status[current := if exiting then Zombie else Blocked];
      GoesWell(old(Abs()), if exiting then Exit else Block, Abs());
    }

    method Unblock(t: nat)
      requires Valid() && t in status
      modifies this`status
      ensures Valid()
      ensures if old(status)[t] == Blocked then Goes(old(Abs()), Step.Unblock(t), Abs()) else Abs() == old(Abs())
    {
      if status[t] != Blocked { return; }
      status := status[t := Ready];
      GoesWell(old(Abs()), Step.Unblock(t), Abs());
    }

    /** thread_reap_detached: zombies nobody will join leave the ring before a switch. */
    method ReapDetached(detached: set<nat>)
      requires Valid() && current != 0
      modifies this`next, this`ring, this`status
      ensures Valid() && current == old(current)
      ensures Abs() == Buried(old(Abs()), Unwanted(old(Abs()), detached))
    {
      hide Well, Cycle, Left, Without, Goes, Unwanted, Reaping, Buried;
      ghost var gone := Unwanted(Abs(), detached);
      LastHere(next, ring, status, 0);
      var scan := next[current];
      ghost var pre, rest := ring[..1], ring[1..];
      ReapStart(Abs(), detached);
      while scan != current
        invariant Valid() && |pre| > 0 && pre[0] == current && ring == pre + rest
        invariant scan == if rest == [] then current else rest[0]
        invariant Reaping(old(Abs()), gone, pre, rest, status)
        decreases |rest|
      {
        RestFacts(pre, rest, next, status, current);
        ReapStep(old(Abs()), detached, pre, rest, status);
        var after := next[scan];
        if status[scan] == Zombie && scan in detached {
          ReapThread(scan, pre, rest);
        } else {
          PassedOver(pre, rest);
          pre := pre + [scan];
        }
        rest := rest[1..];
        scan := after;
      }
      EndReached(pre, rest, status, current);
      ReapEnd(old(Abs()), gone, pre, status);
      assert pre + [] == pre;
    }

    /** process_reap_orphans: `orphans` are the main threads of the single-threaded zombie
        processes without a parent, in the order of the process list. */
    method ReapOrphans(orphans: seq<nat>)
      requires Valid() && current != 0 && forall k :: 0 <= k < |orphans| ==> orphans[k] in status
      modifies this`next, this`ring, this`status
      ensures Valid() && current == old(current)
      ensures Abs() == Buried(old(Abs()), Forsaken(old(Abs()), orphans))
    {
      hide Well, Cycle, Left, Without, Goes, Buried, Forsaken;
      ForsakenNone(Abs(), orphans);
      for k := 0 to |orphans|
        invariant Valid() && current == old(current)
        invariant Abs() == Buried(old(Abs()), Forsaken(old(Abs()), orphans[..k]))
        invariant forall t :: t in old(status) <==> t in status
      {
        var o := orphans[k];
        ForsakenStep(old(Abs()), orphans, k);
        ghost var s := Abs();
        if o != 0 && o != current && status[o] == Zombie {
          ghost var i := Remove(o);
          BuriedOne(s, o, Abs(), i);
          status := status[o := Dead];
        }
      }
      assert orphans[..|orphans|] == orphans;
    }

    /** One zombie out of the ring. */
    method ReapThread(scan: nat, ghost pre: seq<nat>, ghost rest: seq<nat>)
      requires Valid() && rest != [] && rest[0] == scan && ring == pre + rest && |pre| > 0 && scan in status
      requires scan !in pre
      requires scan != 0 && scan != current && forall j :: 0 < j < |rest| ==> rest[j] != scan
      modifies this`next, this`ring, this`status
      ensures Valid() && ring == pre + rest[1..] && status == old(status)[scan := Dead]
    {
      hide Cycle, Well, Without;
      ghost var i := Remove(scan);
      WithoutFirst(pre, rest, i);
      ghost var s := Abs();
      status := status[scan := Dead];
      Dies(s, scan);
    }

    /** check_scheduler_invariants: whether its assertions hold. */
    method CheckInvariants() returns (ok: bool)
      requires Valid() && current != 0
      ensures ok <==> |ring| < RING_LIMIT
    {
      hide Well, Cycle;
      var thread, running, count := current, 0, 0;
      while true
        invariant 0 <= count < |ring| && count + 1 < RING_LIMIT + 1 && thread == ring[count]
        invariant running <= 1 && (running == 1 ==> count > 0)
        decreases |ring| - count
      {
        OneRunner(next, ring, status, count);
        if status[thread] == Running { running := running + 1; }
        count := count + 1;
        if count >= RING_LIMIT { return false; }
        LastHere(next, ring, status, count - 1);
        thread := next[thread];
        if thread == current { break; }
      }
      return running <= 1;
    }

    /** schedule. `Asserted` is the halt by a failed assertion. */
    method Schedule(orphans: seq<nat>, detached: set<nat>) returns (out: Outcome)
      requires Valid() && forall k :: 0 <= k < |orphans| ==> orphans[k] in status
      modifies this
      ensures Valid() && Scheduled(old(Abs()), Gone(old(Abs()), orphans, detached), out, Abs())
      ensures out.Asserted? <==> Halts(old(Abs()), Gone(old(Abs()), orphans, detached))
    {
      hide Well, Cycle, Buried, Scheduled, Halts, Gone, Unwanted, Forsaken;
      ghost var s, gone := Abs(), Gone(Abs(), orphans, detached);
      SomeCurrent(s);
      if current == 0 {
        Alone(s, gone);
        return Stayed;
      }
      LastHere(next, ring, status, 0);
      if next[current] == current {
        Alone(s, gone);
        return Stayed;
      }
      var ok := CheckInvariants();
      if !ok {
        TooMany(s, gone);
        return Asserted;
      }
      ReapOrphans(orphans);
      ReapDetached(detached);
      GoneTwice(s, orphans, detached);
      out := Choose();
      ChosenIs(s, gone, Abs(), out);
    }

    /** The rest of schedule, after the reaping: on to the first ready thread behind the
        current one, if there is one. */
    method Choose() returns (out: Outcome)
      requires Valid() && current != 0
      modifies this`status, this`current, this`ring
      ensures Valid() && Chose(old(Abs()), out, Abs())
    {
      hide Well, Cycle, Goes, Switched, Picked;
      ghost var s := Abs();
      LastHere(next, ring, status, 0);
      InStatus(s, 0);
      var chosen := next[current];
      var i := 1;
      if |ring| > 1 { Behind(next, ring, status, i); }
      while status[chosen] == Blocked || status[chosen] == Zombie || status[chosen] == Dead
        invariant Abs() == s && Valid() && current in status
        invariant chosen in status && chosen in next && forall j :: 1 <= j < i ==> !ReadyAt(s, j)
        invariant |ring| == 1 ==> i == 1 && chosen == current
        invariant |ring| > 1 ==> 0 < i < |ring| && chosen == ring[i] != current && status[chosen] != Running
        decreases |ring| - i
      {
        if |ring| > 1 { LastHere(next, ring, status, i); }
        chosen := next[chosen];
        if chosen == current {
          NothingPicked(s);
          return Stayed;
        }
        i := i + 1;
        Behind(next, ring, status, i);
      }
      if status[chosen] != Ready { return Asserted; }
      if chosen == current {
        AloneAgain(s);
        status := status[chosen := Running];
        return Resumed;
      }
      Chosen(next, s, i);
      if status[current] == Running { status := status[current := Ready]; }
      status := status[chosen := Running];
      current := chosen;
      ring := ring[i..] + ring[..i];
      return Picks(i);
    }
  }

  // ------------------------------------------------------------- what schedule does

  const RING_LIMIT := 4096

  /** How a call of schedule ends; `Picks(i)` is the switch to the i-th thread of the ring. */
  datatype Outcome = Stayed | Picks(i: nat) | Resumed | Asserted

  /** The threads reaping takes: zombie orphans, and detached zombies of the ring, but never
      the current thread. */
  ghost function Gone(s: Sched, orphans: seq<nat>, detached: set<nat>): set<nat> {
    Forsaken(s, orphans) + Unwanted(s, detached)
  }

  ghost function Forsaken(s: Sched, orphans: seq<nat>): set<nat> {
    set t | t in orphans && t != 0 && t in s.status && s.status[t] == Zombie && (s.ring != [] ==> t != s.ring[0])
  }

  ghost function Unwanted(s: Sched, detached: set<nat>): set<nat> {
    set t | t in s.ring && t in detached && t in s.status && s.status[t] == Zombie && t != s.ring[0]
  }

  /** The ring without the threads in `gone`. */
  ghost function Left(ring: seq<nat>, gone: set<nat>): seq<nat> {
    if ring == [] then []
    else if ring[0] in gone then Left(ring[1..], gone)
    else [ring[0]] + Left(ring[1..], gone)
  }

  ghost function Buried(s: Sched, gone: set<nat>): Sched {
    Sched(Left(s.ring, gone), map t | t in s.status :: if t in gone then Dead else s.status[t])
  }

  /** The choice among the threads left. With no other thread the walk starts at the current
      one itself, which the assertion does not allow to be running. */
  ghost predicate Chose(s: Sched, out: Outcome, s': Sched) {
    if |s.ring| == 1 && s.ring[0] in s.status && s.status[s.ring[0]] == Running then out.Asserted? && s' == s
    else if |s.ring| == 1 && ReadyAt(s, 0) then out.Resumed? && Goes(s, Resume, s')
    else if out.Picks? then Goes(s, Switch(out.i), s')
    else out.Stayed? && s' == s && forall j :: !Picked(s, j)
  }

  ghost predicate Scheduled(s: Sched, gone: set<nat>, out: Outcome, s': Sched) {
    if |s.ring| <= 1 then out.Stayed? && s' == s
    else if |s.ring| >= RING_LIMIT then out.Asserted? && s' == s
    else Chose(Buried(s, gone), out, s')
  }

  /** Exactly when schedule halts the kernel: the ring is too long, or all other threads are
      reaped while the current one is running. */
  ghost predicate Halts(s: Sched, gone: set<nat>) {
    || |s.ring| >= RING_LIMIT
    || (|s.ring| > 1 && (forall i :: 1 <= i < |s.ring| ==> s.ring[i] in gone) &&
        s.ring[0] in s.status && s.status[s.ring[0]] == Running)
  }

  /** A running thread with one detached zombie beside it: the next schedule halts. */
  lemma LastZombieHalts(c: nat, z: nat)
    requires c != 0 && z != 0 && c != z
    ensures var s := Sched([c, z], map[c := Running, z := Zombie]);
      Well(s) && Halts(s, Gone(s, [], {z})) && Buried(s, Gone(s, [], {z})) == Sched([c], map[c := Running, z := Dead])
  {
    var s := Sched([c, z], map[c := Running, z := Zombie]);
    var gone := Gone(s, [], {z});
    assert z in s.ring && gone == {z};
    assert Left([c, z], gone) == [c] + Left([c, z][1..], gone);
    assert [c, z][1..] == [z] && Left([z], gone) == [] + Left([z][1..], gone);
  }

  lemma Alone(s: Sched, gone: set<nat>)
    requires |s.ring| <= 1
    ensures Scheduled(s, gone, Stayed, s) && !Halts(s, gone)
  {
  }

  lemma TooMany(s: Sched, gone: set<nat>)
    requires |s.ring| >= RING_LIMIT
    ensures Scheduled(s, gone, Asserted, s) && Halts(s, gone)
  {
  }

  lemma {:induction false} LeftNone(ring: seq<nat>, gone: set<nat>)
    ensures Left(ring, gone) == [] <==> forall i :: 0 <= i < |ring| ==> ring[i] in gone
  {
    if ring != [] {
      LeftNone(ring[1..], gone);
      assert forall i :: 1 <= i < |ring| ==> ring[i] == ring[1..][i - 1];
    }
  }

  lemma ChosenIs(s: Sched, gone: set<nat>, s': Sched, out: Outcome)
    requires Well(s) && 1 < |s.ring| < RING_LIMIT && s.ring[0] !in gone && Chose(Buried(s, gone), out, s')
    ensures Scheduled(s, gone, out, s') && (out.Asserted? <==> Halts(s, gone))
  {
    hide Goes, Picked, Well, Left;
    FrontStays(s, gone);
    LeftNone(s.ring[1..], gone);
    assert forall i :: 1 <= i < |s.ring| ==> s.ring[i] == s.ring[1..][i - 1];
    InStatus(s, 0);
  }

  lemma FrontStays(s: Sched, gone: set<nat>)
    requires s.ring != [] && s.ring[0] !in gone
    ensures Left(s.ring, gone) == [s.ring[0]] + Left(s.ring[1..], gone)
  {
  }

  lemma InStatus(s: Sched, i: nat)
    requires Well(s) && i < |s.ring|
    ensures s.ring[i] in s.status
  {
  }

  lemma AloneAgain(s: Sched)
    requires Well(s) && |s.ring| == 1 && ReadyAt(s, 0)
    ensures Goes(s, Resume, s.(status := s.status[s.ring[0] := Running]))
    ensures Well(s.(status := s.status[s.ring[0] := Running]))
  {
  }

  lemma OneRunner(next: map<nat, nat>, ring: seq<nat>, status: map<nat, Status>, k: nat)
    requires Well(Sched(ring, status)) && Cycle(next, ring) && k < |ring|
    ensures ring[k] in status && ring[k] in next && (status[ring[k]] == Running ==> k == 0)
  {
  }

  // ------------------------------------------------------------------ reaping

  lemma {:induction false} LeftTwice(ring: seq<nat>, a: set<nat>, b: set<nat>)
    ensures Left(Left(ring, a), b) == Left(ring, a + b)
  {
    if ring != [] {
      LeftTwice(ring[1..], a, b);
      if ring[0] !in a { assert ([ring[0]] + Left(ring[1..], a))[1..] == Left(ring[1..], a); }
    }
  }

  lemma {:induction false} LeftMembers(ring: seq<nat>, gone: set<nat>, t: nat)
    ensures t in Left(ring, gone) <==> t in ring && t !in gone
  {
    if ring != [] {
      LeftMembers(ring[1..], gone, t);
      assert ring == [ring[0]] + ring[1..];
    }
  }

  /** Both passes together take the threads in Gone. */
  lemma GoneTwice(s: Sched, orphans: seq<nat>, detached: set<nat>)
    requires s.ring != []
    ensures var r := Buried(s, Forsaken(s, orphans));
      Buried(r, Unwanted(r, detached)) == Buried(s, Gone(s, orphans, detached)) &&
      s.ring[0] !in Gone(s, orphans, detached)
  {
    hide Left;
    var a := Forsaken(s, orphans);
    var r := Buried(s, a);
    var b := Unwanted(r, detached);
    FrontStays(s, a);
    forall t ensures t in r.ring <==> t in s.ring && t !in a { LeftMembers(s.ring, a, t); }
    LeftTwice(s.ring, a, b);
    assert a + b == Gone(s, orphans, detached);
  }

  /** Between two steps of the walk: `pre` is done, `rest` is still as it was. */
  ghost predicate Reaping(s: Sched, gone: set<nat>, pre: seq<nat>, rest: seq<nat>, status: map<nat, Status>) {
    && pre + Left(rest, gone) == Left(s.ring, gone)
    && (forall t :: t in status <==> t in s.status)
    && (forall t :: t in s.status ==> status[t] == if t in gone && t !in rest then Dead else s.status[t])
    && (forall j :: 0 <= j < |rest| ==> rest[j] in s.status && rest[j] in s.ring && rest[j] != s.ring[0])
    && (forall i, j :: 0 <= i < j < |rest| ==> rest[i] != rest[j])
  }

  lemma ReapStart(s: Sched, detached: set<nat>)
    requires Well(s) && s.ring != []
    ensures Reaping(s, Unwanted(s, detached), s.ring[..1], s.ring[1..], s.status) && s.ring == s.ring[..1] + s.ring[1..]
  {
    var gone := Unwanted(s, detached);
    FrontStays(s, gone);
    assert s.ring[..1] == [s.ring[0]];
    forall t | t in gone ensures t in s.ring[1..] {
      var i :| 0 <= i < |s.ring| && s.ring[i] == t;
      assert s.ring[1..][i - 1] == t;
    }
  }

  lemma ReapStep(s: Sched, detached: set<nat>, pre: seq<nat>, rest: seq<nat>, status: map<nat, Status>)
    requires s.ring != [] && rest != [] && Reaping(s, Unwanted(s, detached), pre, rest, status)
    ensures rest[0] in status
    ensures (status[rest[0]] == Zombie && rest[0] in detached <==> rest[0] in Unwanted(s, detached))
    ensures rest[0] in Unwanted(s, detached) ==>
      Reaping(s, Unwanted(s, detached), pre, rest[1..], status[rest[0] := Dead])
    ensures rest[0] !in Unwanted(s, detached) ==> Reaping(s, Unwanted(s, detached), pre + [rest[0]], rest[1..], status)
  {
    var gone := Unwanted(s, detached);
    assert rest == [rest[0]] + rest[1..];
    assert rest[0] !in rest[1..];
    if rest[0] !in gone { assert pre + ([rest[0]] + Left(rest[1..], gone)) == pre + [rest[0]] + Left(rest[1..], gone); }
  }

  lemma ReapEnd(s: Sched, gone: set<nat>, pre: seq<nat>, status: map<nat, Status>)
    requires Reaping(s, gone, pre, [], status)
    ensures Sched(pre, status) == Buried(s, gone)
  {
    assert pre + [] == pre;
  }

  lemma ForsakenNone(s: Sched, orphans: seq<nat>)
    ensures Forsaken(s, orphans[..0]) == {} && Buried(s, {}) == s
  {
    LeftAll(s.ring);
  }

  lemma {:induction false} LeftAll(ring: seq<nat>)
    ensures Left(ring, {}) == ring
  {
    if ring != [] { LeftAll(ring[1..]); }
  }

  /** One more orphan: it is taken if it is a zombie that the earlier ones left. */
  lemma ForsakenStep(s: Sched, orphans: seq<nat>, k: nat)
    requires k < |orphans| && orphans[k] in s.status && s.ring != []
    ensures var o, a, b, r := orphans[k], Forsaken(s, orphans[..k]), Forsaken(s, orphans[..k + 1]),
        Buried(s, Forsaken(s, orphans[..k]));
      && o in r.status
      && (if o != 0 && o != s.ring[0] && r.status[o] == Zombie then Buried(r, {o}) else r) == Buried(s, b)
  {
    var o, a, b := orphans[k], Forsaken(s, orphans[..k]), Forsaken(s, orphans[..k + 1]);
    assert orphans[..k + 1] == orphans[..k] + [o];
    var r := Buried(s, a);
    if o != 0 && o != s.ring[0] && r.status[o] == Zombie {
      assert b == a + {o};
      LeftTwice(s.ring, a, {o});
    } else {
      assert b == a;
    }
  }

  /** Taking one thread out of the ring, if it is there, and marking it dead. */
  lemma BuriedOne(s: Sched, o: nat, r: Sched, i: nat)
    requires Well(s) && s.ring != [] && o in s.status && o != 0 && o != s.ring[0]
    requires if o in s.ring then 0 < i < |s.ring| && s.ring[i] == o && Goes(s, Leave(i), r) else r == s
    ensures Sched(r.ring, r.status[o := Dead]) == Buried(s, {o}) && Well(Sched(r.ring, r.status[o := Dead]))
  {
    if o in s.ring {
      LeftOne(s.ring, i);
      LeaveWell(s, i);
      assert o !in r.ring;
    } else {
      LeftSame(s.ring, o);
    }
    Dies(r, o);
  }

  lemma {:induction false} LeftSame(ring: seq<nat>, o: nat)
    requires o !in ring
    ensures Left(ring, {o}) == ring
  {
    if ring != [] {
      assert o !in ring[1..];
      LeftSame(ring[1..], o);
    }
  }

  lemma {:induction false} LeftOne(ring: seq<nat>, i: nat)
    requires Distinct(ring) && i < |ring|
    ensures Left(ring, {ring[i]}) == Without(ring, i)
    decreases i
  {
    if i == 0 {
      assert ring[0] !in ring[1..];
      LeftSame(ring[1..], ring[0]);
    } else {
      LeftOne(ring[1..], i - 1);
      assert ring[1..][i - 1] == ring[i];
      assert Without(ring, i) == [ring[0]] + Without(ring[1..], i - 1);
    }
  }

  lemma SomeCurrent(s: Sched)
    requires Well(s)
    ensures s.ring != [] ==> s.ring[0] != 0
  {
  }

  lemma NothingPicked(s: Sched)
    ensures (forall j :: 1 <= j < |s.ring| ==> !ReadyAt(s, j)) ==> forall j :: !Picked(s, j)
  {
  }

  lemma Behind(next: map<nat, nat>, ring: seq<nat>, status: map<nat, Status>, i: nat)
    requires Well(Sched(ring, status)) && Cycle(next, ring) && 0 < i < |ring|
    ensures ring[i] in next && ring[i] in status && status[ring[i]] != Running && ring[0] in status
    ensures ring[0] != ring[i]
  {
  }

  /** The switch to the thread found is the step the ring makes. */
  lemma Chosen(next: map<nat, nat>, s: Sched, i: nat)
    requires Well(s) && Cycle(next, s.ring) && 0 < i < |s.ring| && ReadyAt(s, i)
    requires forall j :: 1 <= j < i ==> !ReadyAt(s, j)
    ensures s.ring[0] in s.status && s.ring[i] != 0 && Well(Switched(s, i)) && Cycle(next, s.ring[i..] + s.ring[..i])
    ensures Goes(s, Switch(i), Switched(s, i))
    ensures Switched(s, i) == Sched(s.ring[i..] + s.ring[..i], Rested(s.status, s.ring[0])[s.ring[i] := Running])
  {
    SwitchedWell(s, i);
    RotatedCycle(next, s.ring, i);
  }

  lemma WithoutFirst(pre: seq<nat>, rest: seq<nat>, i: nat)
    requires rest != [] && i < |pre + rest| && (pre + rest)[i] == rest[0] && rest[0] !in pre
    requires forall j :: 0 < j < |rest| ==> rest[j] != rest[0]
    ensures Without(pre + rest, i) == pre + rest[1..]
  {
    assert i == |pre|;
  }

  lemma Dies(s: Sched, t: nat)
    requires Well(s) && t in s.status && t !in s.ring
    ensures Well(s.(status := s.status[t := Dead]))
  {
    GoesWell(s, Retire(t), s.(status := s.status[t := Dead]));
  }

  lemma RestFacts(pre: seq<nat>, rest: seq<nat>, next: map<nat, nat>, status: map<nat, Status>, current: nat)
    requires Well(Sched(pre + rest, status)) && Cycle(next, pre + rest) && |pre| > 0 && pre[0] == current && rest != []
    ensures rest[0] in next && rest[0] in status && rest[0] != current && rest[0] != 0 && (pre + rest)[|pre|] == rest[0]
    ensures next[rest[0]] == if |rest| > 1 then rest[1] else current
    ensures rest[0] !in pre && status[rest[0]] != Running && forall j :: 0 < j < |rest| ==> rest[j] != rest[0]
  {
    assert forall j :: 0 <= j < |pre| ==> (pre + rest)[j] == pre[j];
    assert forall j :: 0 <= j < |rest| ==> (pre + rest)[|pre| + j] == rest[j];
    var r := pre + rest;
    assert r[|pre|] == rest[0] && r[0] == current;
    assert |rest| > 1 ==> r[|pre| + 1] == rest[1];
  }

  lemma PassedOver(pre: seq<nat>, rest: seq<nat>)
    requires rest != []
    ensures pre + rest == pre + [rest[0]] + rest[1..]
  {
  }

  lemma EndReached(pre: seq<nat>, rest: seq<nat>, status: map<nat, Status>, current: nat)
    requires Well(Sched(pre + rest, status)) && |pre| > 0 && pre[0] == current
    ensures rest != [] ==> rest[0] != current
  {
    var r := pre + rest;
    if rest != [] { assert r[|pre|] == rest[0] && r[0] == current; }
  }

  lemma LastHere(next: map<nat, nat>, ring: seq<nat>, status: map<nat, Status>, k: nat)
    requires Well(Sched(ring, status)) && Cycle(next, ring) && k < |ring|
    ensures ring[k] in next && (next[ring[k]] == ring[0] <==> k + 1 == |ring|)
    ensures k + 1 < |ring| ==> next[ring[k]] == ring[k + 1]
  {
    assert next[ring[k]] == After(ring, k);
  }

  lemma Unlink(next: map<nat, nat>, ring: seq<nat>, status: map<nat, Status>, k: nat, victim: nat)
    requires Well(Sched(ring, status)) && Cycle(next, ring) && k < |ring| && next[ring[k]] == victim
    requires victim != ring[0]
    ensures k + 1 < |ring| && ring[k + 1] == victim && victim in next
    ensures Cycle(next[ring[k] := next[victim]][victim := 0], Without(ring, k + 1))
    ensures Well(Sched(Without(ring, k + 1), status))
    ensures Goes(Sched(ring, status), Leave(k + 1), Sched(Without(ring, k + 1), status)) && Without(ring, k + 1) != []
    ensures Without(ring, k + 1)[0] == ring[0]
  {
    assert next[ring[k]] == After(ring, k);
    var r, m := Without(ring, k + 1), next[ring[k] := next[victim]][victim := 0];
    forall i | 0 <= i < |r| ensures r[i] in m && m[r[i]] == After(r, i) { UnlinkAt(next, ring, k, i); }
    GoesWell(Sched(ring, status), Leave(k + 1), Sched(r, status));
  }

  lemma UnlinkAt(next: map<nat, nat>, ring: seq<nat>, k: nat, i: nat)
    requires Distinct(ring) && Cycle(next, ring) && k + 1 < |ring| && i < |ring| - 1
    ensures var r, m := Without(ring, k + 1), next[ring[k] := next[ring[k + 1]]][ring[k + 1] := 0];
      r[i] in m && m[r[i]] == After(r, i)
  {
    hide Without, Cycle, Distinct;
    var j := if i < k + 1 then i else i + 1;
    WithoutAt(ring, k + 1, i);
    WithoutAt(ring, k + 1, 0);
    if i + 1 < |ring| - 1 { WithoutAt(ring, k + 1, i + 1); }
    CycleAt(next, ring, j);
    CycleAt(next, ring, k + 1);
    PlaceIs(ring, j, k);
    PlaceIs(ring, j, k + 1);
  }

  lemma CycleAt(next: map<nat, nat>, ring: seq<nat>, i: nat)
    requires Cycle(next, ring) && i < |ring|
    ensures ring[i] in next && next[ring[i]] == After(ring, i)
  {
  }

  lemma PlaceIs(ring: seq<nat>, i: nat, j: nat)
    requires Distinct(ring) && i < |ring| && j < |ring|
    ensures ring[i] == ring[j] <==> i == j
  {
  }

  lemma WithoutAt(ring: seq<nat>, k: nat, i: nat)
    requires k < |ring| && i < |ring| - 1
    ensures |Without(ring, k)| == |ring| - 1 && Without(ring, k)[i] == ring[if i < k then i else i + 1]
  {
  }

  lemma RotatedCycle(next: map<nat, nat>, ring: seq<nat>, i: nat)
    requires Cycle(next, ring) && 0 < i < |ring|
    ensures Cycle(next, ring[i..] + ring[..i])
  {
    var r, n := ring[i..] + ring[..i], |ring|;
    forall j | 0 <= j < n ensures r[j] in next && next[r[j]] == After(r, j) {
      var k := if j < n - i then i + j else i + j - n;
      assert r[j] == ring[k] && next[ring[k]] == After(ring, k);
    }
  }

  // ------------------------------------------------------- fairness of whole calls

  lemma {:induction false} LeftSplit(a: seq<nat>, b: seq<nat>, gone: set<nat>)
    ensures Left(a + b, gone) == Left(a, gone) + Left(b, gone) && |Left(a, gone)| <= |a|
  {
    if a == [] {
      assert a + b == b;
    } else {
      LeftSplit(a[1..], b, gone);
      assert (a + b)[1..] == a[1..] + b;
    }
  }

  lemma {:induction false} LeftDistinct(ring: seq<nat>, gone: set<nat>)
    requires Distinct(ring)
    ensures Distinct(Left(ring, gone))
  {
    if ring != [] {
      LeftDistinct(ring[1..], gone);
      LeftMembers(ring[1..], gone, ring[0]);
      assert ring[0] !in ring[1..];
    }
  }

  lemma BuriedWell(s: Sched, gone: set<nat>)
    requires Well(s) && (s.ring != [] ==> s.ring[0] !in gone)
    ensures Well(Buried(s, gone))
  {
    hide Left;
    LeftDistinct(s.ring, gone);
    var r := Left(s.ring, gone);
    forall i | 0 <= i < |r| ensures r[i] != 0 && r[i] in s.status { LeftMembers(s.ring, gone, r[i]); }
    if s.ring != [] { FrontStays(s, gone); } else { LeftNone(s.ring, gone); }
  }

  /** Reaping others brings a waiting thread no further away. */
  lemma BuriedDue(s: Sched, gone: set<nat>, t: nat, d: nat) returns (e: nat)
    requires Due(s, t, d) && t !in gone && s.ring[0] !in gone
    ensures 1 <= e <= d && Due(Buried(s, gone), t, e)
  {
    assert s.ring == s.ring[..d] + s.ring[d..] && s.ring[d..][0] == t;
    LeftSplit(s.ring[..d], s.ring[d..], gone);
    e := |Left(s.ring[..d], gone)|;
    assert s.ring[..d][0] == s.ring[0];
    assert Left(s.ring[d..], gone) == [t] + Left(s.ring[d..][1..], gone);
    assert Left(s.ring, gone)[e] == t;
  }

  /** A whole call of schedule, reaping and switch: with a thread due it always switches, and
      the thread is chosen or has come nearer. */
  lemma CallNearer(s: Sched, orphans: seq<nat>, detached: set<nat>, out: Outcome, s': Sched, t: nat, d: nat)
    returns (e: nat)
    requires Well(s) && Due(s, t, d) && !out.Asserted? && Scheduled(s, Gone(s, orphans, detached), out, s')
    ensures out.Picks? && s'.ring != [] && (s'.ring[0] == t || (Due(s', t, e) && e <= d - 1))
  {
    hide Left;
    var gone := Gone(s, orphans, detached);
    var e0 := BuriedDue(s, gone, t, d);
    BuriedWell(s, gone);
    var i := DueMeansSwitch(Buried(s, gone), t, e0);
    e := DueSwitch(Buried(s, gone), if out.Picks? then out.i else i, t, e0);
  }

  datatype Event = Op(st: Step) | Call(orphans: seq<nat>, detached: set<nat>, out: Outcome)

  /** Switches happen in schedule only. */
  ghost predicate Happens(s: Sched, e: Event, s': Sched) {
    match e
    case Op(st) => !st.Switch? && Goes(s, st, s')
    case Call(orphans, detached, out) => !out.Asserted? && Scheduled(s, Gone(s, orphans, detached), out, s')
  }

  lemma HappensWell(s: Sched, e: Event, s': Sched)
    requires Well(s) && Happens(s, e, s')
    ensures Well(s')
  {
    hide Left, Picked, Switched;
    match e
    case Op(st) => GoesWell(s, st, s');
    case Call(orphans, detached, out) =>
      var r := Buried(s, Gone(s, orphans, detached));
      BuriedWell(s, Gone(s, orphans, detached));
      if out.Picks? && |s.ring| > 1 {
        GoesWell(r, Switch(out.i), s');
      } else if out.Resumed? {
        GoesWell(r, Resume, s');
      }
  }

  /** A run of the kernel's operations and calls of schedule, none of which halts. */
  ghost predicate Life(ss: seq<Sched>, es: seq<Event>) {
    |ss| == |es| + 1 && Well(ss[0]) && forall k :: 0 <= k < |es| ==> Happens(ss[k], es[k], ss[k + 1])
  }

  ghost function Calls(es: seq<Event>): nat {
    if es == [] then 0 else Calls(es[..|es| - 1]) + if es[|es| - 1].Call? then 1 else 0
  }

  ghost predicate Spared(ss: seq<Sched>, es: seq<Event>, t: nat) {
    forall k :: 0 <= k < |es| && k < |ss| && es[k].Op? && es[k].st.Leave? && es[k].st.i < |ss[k].ring| ==>
      ss[k].ring[es[k].st.i] != t
  }

  lemma {:induction false} LifeWell(ss: seq<Sched>, es: seq<Event>, k: nat)
    requires Life(ss, es) && k <= |es|
    ensures Well(ss[k])
  {
    if k > 0 {
      LifeWell(ss, es, k - 1);
      HappensWell(ss[k - 1], es[k - 1], ss[k]);
    }
  }

  lemma {:induction false} Closer(ss: seq<Sched>, es: seq<Event>, t: nat, d: nat, k: nat) returns (e: nat)
    requires Life(ss, es) && Spared(ss, es, t) && Due(ss[0], t, d) && k <= |es|
    ensures Reached(ss, t, k) || (Due(ss[k], t, e) && e + Calls(es[..k]) <= d)
  {
    hide Well, Goes, Scheduled;
    e := d;
    if k > 0 {
      var e0 := Closer(ss, es, t, d, k - 1);
      assert es[..k][..k - 1] == es[..k - 1];
      LifeWell(ss, es, k - 1);
      if !Reached(ss, t, k - 1) {
        var ev := es[k - 1];
        assert Happens(ss[k - 1], ev, ss[k]);
        if ev.Op? {
          e := DueStep(ss[k - 1], ev.st, ss[k], t, e0);
        } else {
          e := CallNearer(ss[k - 1], ev.orphans, ev.detached, ev.out, ss[k], t, e0);
        }
      }
    }
  }

  /** Fairness of schedule: a ready thread at distance d is chosen by the d-th call at the
      latest, whatever is reaped and whoever joins, blocks, wakes or exits meanwhile. */
  lemma ServedWithin(ss: seq<Sched>, es: seq<Event>, t: nat, d: nat)
    requires Life(ss, es) && Spared(ss, es, t) && Due(ss[0], t, d) && Calls(es) >= d
    ensures Reached(ss, t, |es|)
  {
    var e := Closer(ss, es, t, d, |es|);
    assert es[..|es|] == es;
  }
}
