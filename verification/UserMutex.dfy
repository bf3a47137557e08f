/** The user-level mutex (usr/thread_runtime.h) as a machine over its atomic operations on
    `state` and `owner_tid`. Thread identifiers are not zero. */
module UserMutex {

  /** Where a thread is: outside; past the exchange but with the owner not yet stored; in
      the critical section; in unlock after the owner check, after clearing the owner; in
      the retry loop of lock, from outside or while holding the mutex itself. */
  datatype Phase = Outside | Acquired | Inside | Leaving | Cleared | Retrying | Stuck

  datatype State = State(word: nat, owner: nat, at: map<nat, Phase>)

  datatype Step =
    | Lock(t: nat)         // compare-exchange 0 to 1
    | StoreOwner(t: nat)
    | Promote(t: nat)      // compare-exchange 1 to 2, then wait and retry
    | Unlock(t: nat)       // load and compare the owner
    | ClearOwner(t: nat)
    | Exchange(t: nat)

  ghost predicate Enabled(s: State, st: Step) {
    st.t in s.at &&
    match st
    case Lock(t) => s.at[t].Outside? || s.at[t].Inside?
    case StoreOwner(t) => s.at[t].Acquired?
    case Promote(t) => s.at[t].Retrying? || s.at[t].Stuck?
    case Unlock(t) => s.at[t].Outside? || s.at[t].Inside?
    case ClearOwner(t) => s.at[t].Leaving?
    case Exchange(t) => s.at[t].Cleared?
  }

  ghost function Next(s: State, st: Step): State
    requires Enabled(s, st)
  {
    match st
    case Lock(t) =>
      if s.word == 0 then State(1, s.owner, s.at[t := Acquired])
      else s.(at := s.at[t := if s.at[t].Inside? then Stuck else Retrying])
    case StoreOwner(t) => State(s.word, t, s.at[t := Inside])
    case Promote(t) => if s.word == 1 then s.(word := 2) else s
    case Unlock(t) => if s.owner == t then s.(at := s.at[t := Leaving]) else s
    case ClearOwner(t) =>
      if s.word == 0 then s.(at := s.at[t := Inside]) else State(s.word, 0, s.at[t := Cleared])
    case Exchange(t) => State(0, s.owner, s.at[t := Outside])
  }

  predicate Holding(p: Phase) {
    p.Acquired? || p.Inside? || p.Leaving? || p.Cleared? || p.Stuck?
  }

  predicate Owning(p: Phase) {
    p.Inside? || p.Leaving? || p.Stuck?
  }

  /** One thread at most has the mutex, the word says whether any has, and the owner field
      names it from the store to the clearing. */
  ghost predicate Inv(s: State) {
    && s.word <= 2 && 0 !in s.at
    && (forall t, u :: t in s.at && u in s.at && Holding(s.at[t]) && Holding(s.at[u]) ==> t == u)
    && (s.word == 0 <==> forall t :: t in s.at ==> !Holding(s.at[t]))
    && (forall t :: t in s.at ==> (Owning(s.at[t]) <==> s.owner == t))
    && (s.owner != 0 ==> s.owner in s.at)
  }

  lemma NextInv(s: State, st: Step)
    requires Inv(s) && Enabled(s, st)
    ensures Inv(Next(s, st))
  {
    var r := Next(s, st);
    assert r.word == 0 ==> forall t :: t in r.at ==> !Holding(r.at[t]);
    if r.word != 0 {
      if st.Lock? && s.word == 0 {
        assert Holding(r.at[st.t]);
      } else {
        var t :| t in s.at && Holding(s.at[t]);
        assert Holding(r.at[t]);
      }
    }
  }

  ghost predicate Run(ss: seq<State>, steps: seq<Step>) {
    && |ss| == |steps| + 1 && Inv(ss[0])
    && forall k :: 0 <= k < |steps| ==> Enabled(ss[k], steps[k]) && ss[k + 1] == Next(ss[k], steps[k])
  }

  lemma {:induction false} RunInv(ss: seq<State>, steps: seq<Step>, k: nat)
    requires Run(ss, steps) && k <= |steps|
    ensures Inv(ss[k])
  {
    hide Inv, Next, Enabled;
    if k > 0 {
      RunInv(ss, steps, k - 1);
      NextInv(ss[k - 1], steps[k - 1]);
    }
  }

  /** Mutual exclusion in every run, wrong unlocks and nested locks included. */
  lemma MutualExclusion(ss: seq<State>, steps: seq<Step>, k: nat, t: nat, u: nat)
    requires Run(ss, steps) && k <= |steps| && t in ss[k].at && u in ss[k].at
    requires Holding(ss[k].at[t]) && Holding(ss[k].at[u])
    ensures t == u
  {
    RunInv(ss, steps, k);
  }

  /** Unlock is accepted exactly from the thread inside, and an accepted one does release. */
  lemma UnlockIff(s: State, t: nat)
    requires Inv(s) && Enabled(s, Unlock(t))
    ensures Next(s, Unlock(t)) != s <==> s.at[t].Inside?
    ensures s.at[t].Inside? ==> Enabled(Next(s, Unlock(t)), ClearOwner(t))
    ensures s.at[t].Inside? ==> Next(Next(s, Unlock(t)), ClearOwner(t)) == State(s.word, 0, s.at[t := Cleared])
  {
    assert s.at[t].Inside? ==> s.word != 0;
    if s.at[t].Inside? {
      var r := Next(s, Unlock(t));
      assert r.at[t := Cleared] == s.at[t := Cleared];
    }
  }

  /** The retry loop has no way into the critical section: once in it, a thread stays, in
      every run, whatever the others do. */
  lemma {:induction false} RetryNeverEnters(ss: seq<State>, steps: seq<Step>, j: nat, k: nat, t: nat)
    requires Run(ss, steps) && j <= k <= |steps| && t in ss[j].at && ss[j].at[t].Retrying?
    ensures t in ss[k].at && ss[k].at[t].Retrying?
    decreases k
  {
    if j < k { RetryNeverEnters(ss, steps, j, k - 1, t); }
  }

  /** Some time after step j thread t has the mutex. */
  ghost predicate Enters(ss: seq<State>, j: nat, t: nat) {
    exists k :: j < k < |ss| && t in ss[k].at && Holding(ss[k].at[t])
  }

  /** A call of lock from outside ever gets the mutex if and only if the word is 0 at its
      first exchange, that is, if and only if nobody has the mutex then. */
  lemma LockEntersIff(ss: seq<State>, steps: seq<Step>, j: nat, t: nat)
    requires Run(ss, steps) && j < |steps| && steps[j] == Lock(t) && ss[j].at[t].Outside?
    ensures Enters(ss, j, t) <==> ss[j].word == 0
    ensures Enters(ss, j, t) <==> forall u :: u in ss[j].at ==> !Holding(ss[j].at[u])
  {
    RunInv(ss, steps, j);
    if ss[j].word == 0 {
      assert Holding(ss[j + 1].at[t]);
    } else {
      forall k | j < k < |ss| ensures !(t in ss[k].at && Holding(ss[k].at[t])) {
        RetryNeverEnters(ss, steps, j + 1, k, t);
      }
    }
  }
}
