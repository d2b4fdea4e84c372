/** src/kernel/mutex.c: the mutex and the reentrant lock over it, as the steps of
    any number of tasks. A step ends wherever what another task sees can change: at a
    call of schedule() and after each write made with interrupts on. */
module Lock {
  import opened Common

  /** Where a task is: outside, about to test the mutex for the first time or
      after being woken, asleep on it, past mutex_lock but not yet the holder, the
      holder before and after `repeat` is set, and in lock_release before and after
      `repeat` is cleared. */
  datatype Pc = Outside | Trying | Woken | Asleep | Locked | Claimed | Holding | Dropping | Dropped

  /** lock_t with its mutex; waiters is newest first, owner the task past mutex_lock. */
  datatype State = State(value: bool, holder: Option<nat>, repeat: nat, waiters: seq<nat>,
                         pc: map<nat, Pc>, owner: Option<nat>)

  function At(s: State, t: nat): Pc { if t in s.pc then s.pc[t] else Outside }

  function Goto(s: State, t: nat, pc: Pc): State { s.(pc := s.pc[t := pc]) }

  predicate Past(pc: Pc) { pc == Locked || pc == Claimed || pc == Holding || pc == Dropping || pc == Dropped }

  /** Mutual exclusion: the mutex is taken exactly while one task is past mutex_lock. */
  ghost predicate Exclusive(s: State) {
    s.value == s.owner.Some? && forall t: nat :: Past(At(s, t)) <==> s.owner == Some(t)
  }

  /** holder says who holds the lock, and repeat is positive once it has been counted. */
  ghost predicate Counted(s: State) {
    && (forall t: nat :: s.holder == Some(t) <==> At(s, t) == Claimed || At(s, t) == Holding)
    && (s.holder.Some? ==> (s.repeat > 0 <==> At(s, s.holder.value) == Holding))
    && (s.holder.None? ==> s.repeat == if s.owner.Some? && At(s, s.owner.value) == Dropping then 1 else 0)
  }

  /** The waiters are the sleeping tasks, and beside a free mutex they sleep only
      if a task that was woken has still to look: no wakeup is lost. */
  ghost predicate Awaited(s: State) {
    && (forall i, j | 0 <= i < j < |s.waiters| :: s.waiters[i] != s.waiters[j])
    && (forall t: nat :: t in s.waiters <==> At(s, t) == Asleep)
    && (!s.value && s.waiters != [] ==> exists t: nat :: At(s, t) == Woken)
  }

  ghost predicate Inv(s: State) { Exclusive(s) && Counted(s) && Awaited(s) }

  // ----- the steps -----

  datatype Event = Call | TryLock | TakeHolder | SetRepeat | Release | ClearRepeat | Unlock

  /** lock_acquire: the holder only counts, anyone else goes for the mutex. */
  function Acquire(s: State, t: nat): State {
    if s.holder == Some(t) then s.(repeat := s.repeat + 1)
    else Goto(s, t, Trying)
  }

  /** One round of mutex_lock's loop: sleep in front of the list, or take the mutex. */
  function MutexLock(s: State, t: nat): State {
    if s.value then Goto(s, t, Asleep).(waiters := [t] + s.waiters)
    else Goto(s, t, Locked).(value := true, owner := Some(t))
  }

  function SetHolder(s: State, t: nat): State { Goto(s, t, Claimed).(holder := Some(t)) }

  function SetCount(s: State, t: nat): State { Goto(s, t, Holding).(repeat := 1) }

  /** lock_release up to holder = NULL. */
  function StartRelease(s: State, t: nat): State {
    if s.repeat > 1 then s.(repeat := s.repeat - 1) else Goto(s, t, Dropping).(holder := None)
  }

  /** mutex_unlock: the last of the list, which has waited longest, is woken. */
  function MutexUnlock(s: State, t: nat): State {
    var s1 := Goto(s, t, Outside).(value := false, owner := None);
    if s.waiters == [] then s1
    else Goto(s1, s.waiters[|s.waiters| - 1], Woken).(waiters := s.waiters[..|s.waiters| - 1])
  }

  /** Task t does e. */
  ghost predicate Step(s: State, t: nat, e: Event, s': State) {
    match e
    case Call => (At(s, t) == Outside || At(s, t) == Holding) && s' == Acquire(s, t)
    case TryLock => (At(s, t) == Trying || At(s, t) == Woken) && s' == MutexLock(s, t)
    case TakeHolder => At(s, t) == Locked && s' == SetHolder(s, t)
    case SetRepeat => At(s, t) == Claimed && s' == SetCount(s, t)
    case Release => At(s, t) == Holding && s' == StartRelease(s, t)
    case ClearRepeat => At(s, t) == Dropping && s' == Goto(s, t, Dropped).(repeat := 0)
    case Unlock => At(s, t) == Dropped && s' == MutexUnlock(s, t)
  }

  lemma AcquireKeeps(s: State, t: nat)
    requires Inv(s) && (At(s, t) == Outside || At(s, t) == Holding)
    ensures Inv(Acquire(s, t))
  {
    var s' := Acquire(s, t);
    assert forall u: nat | u != t :: At(s', u) == At(s, u);
    assert s.holder != Some(t) ==> forall u: nat | At(s, u) == Woken :: At(s', u) == Woken;
  }

  lemma MutexLockKeeps(s: State, t: nat)
    requires Inv(s) && (At(s, t) == Trying || At(s, t) == Woken)
    ensures Inv(MutexLock(s, t))
  {
    var s' := MutexLock(s, t);
    assert forall u: nat | u != t :: At(s', u) == At(s, u);
  }

  lemma SetHolderKeeps(s: State, t: nat)
    requires Inv(s) && At(s, t) == Locked
    ensures Inv(SetHolder(s, t))
  {
    var s' := SetHolder(s, t);
    assert forall u: nat | u != t :: At(s', u) == At(s, u);
  }

  lemma SetCountKeeps(s: State, t: nat)
    requires Inv(s) && At(s, t) == Claimed
    ensures Inv(SetCount(s, t)) && s.holder == Some(t) && s.repeat == 0
  {
    var s' := SetCount(s, t);
    assert forall u: nat | u != t :: At(s', u) == At(s, u);
  }

  lemma StartReleaseKeeps(s: State, t: nat)
    requires Inv(s) && At(s, t) == Holding
    ensures Inv(StartRelease(s, t)) && s.holder == Some(t) && s.repeat >= 1
  {
    var s' := StartRelease(s, t);
    assert forall u: nat | u != t :: At(s', u) == At(s, u);
  }

  lemma ClearRepeatKeeps(s: State, t: nat)
    requires Inv(s) && At(s, t) == Dropping
    ensures Inv(Goto(s, t, Dropped).(repeat := 0))
  {
    var s' := Goto(s, t, Dropped).(repeat := 0);
    assert forall u: nat | u != t :: At(s', u) == At(s, u);
  }

  lemma MutexUnlockKeeps(s: State, t: nat)
    requires Inv(s) && At(s, t) == Dropped
    ensures Inv(MutexUnlock(s, t)) && s.value
  {
    UnlockMoves(s, t);
    UnlockAwaited(s, t);
    hide Awaited;
  }

  /** Nobody is past the mutex any more, and the holder's bookkeeping does not move. */
  lemma UnlockMoves(s: State, t: nat)
    requires Exclusive(s) && Counted(s) && At(s, t) == Dropped
    requires s.waiters != [] ==> At(s, s.waiters[|s.waiters| - 1]) == Asleep
    ensures Exclusive(MutexUnlock(s, t)) && Counted(MutexUnlock(s, t)) && s.value
  {
    var s' := MutexUnlock(s, t);
    assert forall u: nat | u != t && !(s.waiters != [] && u == s.waiters[|s.waiters| - 1]) :: At(s', u) == At(s, u);
  }

  lemma UnlockAwaited(s: State, t: nat)
    requires Awaited(s) && At(s, t) == Dropped
    ensures Awaited(MutexUnlock(s, t))
    ensures s.waiters != [] ==> At(s, s.waiters[|s.waiters| - 1]) == Asleep
  {
    var s' := MutexUnlock(s, t);
    if s.waiters != [] {
      var w := s.waiters[|s.waiters| - 1];
      assert w in s.waiters && At(s', w) == Woken;
      assert s.waiters == s'.waiters + [w];
      assert w !in s'.waiters && forall u: nat | u != w :: u in s'.waiters <==> u in s.waiters;
      assert forall u: nat | u != t && u != w :: At(s', u) == At(s, u);
    } else {
      assert forall u: nat | u != t :: At(s', u) == At(s, u);
    }
  }

  /** Every step of every task keeps it, and none of the code's assertions can fail. */
  lemma StepKeeps(s: State, t: nat, e: Event, s': State)
    requires Inv(s) && Step(s, t, e, s')
    ensures Inv(s')
    ensures e == SetRepeat ==> s.holder == Some(t) && s.repeat == 0
    ensures e == Release ==> s.holder == Some(t) && s.repeat >= 1
    ensures e == Unlock ==> s.value
  {
    hide Inv, Acquire, MutexLock, SetHolder, SetCount, StartRelease, Goto, MutexUnlock;
    match e
    case Call => AcquireKeeps(s, t);
    case TryLock => MutexLockKeeps(s, t);
    case TakeHolder => SetHolderKeeps(s, t);
    case SetRepeat => SetCountKeeps(s, t);
    case Release => StartReleaseKeeps(s, t);
    case ClearRepeat => ClearRepeatKeeps(s, t);
    case Unlock => MutexUnlockKeeps(s, t);
  }

  function Initial(): State { State(false, None, 0, [], map[], None) }

  /** Whatever the tasks do in whatever order. */
  ghost predicate Run(ss: seq<State>, ts: seq<nat>, es: seq<Event>) {
    && |ss| == |es| + 1 == |ts| + 1 && ss[0] == Initial()
    && forall i | 0 <= i < |es| :: Step(ss[i], ts[i], es[i], ss[i + 1])
  }

  lemma {:induction false} RunSafe(ss: seq<State>, ts: seq<nat>, es: seq<Event>, i: nat)
    requires Run(ss, ts, es) && i < |ss|
    ensures Inv(ss[i])
  {
    if i > 0 {
      hide Inv, Step;
      RunSafe(ss, ts, es, i - 1);
      StepKeeps(ss[i - 1], ts[i - 1], es[i - 1], ss[i]);
    }
  }

  // ----- what the events of a run alone say -----

  /** Task t's acquires among the first i events: each time it comes past mutex_lock, and
      each call made while it holds the lock. */
  function Acquires(ss: seq<State>, ts: seq<nat>, es: seq<Event>, t: nat, i: nat): nat
    requires i <= |es| && |ts| == |es| && |ss| == |es| + 1
  {
    if i == 0 then 0
    else Acquires(ss, ts, es, t, i - 1) + if ts[i - 1] == t && Acquiring(ss[i - 1], t, es[i - 1]) then 1 else 0
  }

  predicate Acquiring(s: State, t: nat, e: Event) { e == SetRepeat || (e == Call && At(s, t) == Holding) }

  /** Task t's releases among the first i events. */
  function Releases(ts: seq<nat>, es: seq<Event>, t: nat, i: nat): nat
    requires i <= |es| && |ts| == |es|
  {
    if i == 0 then 0 else Releases(ts, es, t, i - 1) + if ts[i - 1] == t && es[i - 1] == Release then 1 else 0
  }

  function Held(s: State, t: nat): nat { if At(s, t) == Holding then s.repeat else 0 }

  /** A step moves the count of the task that makes it, and of no other. */
  lemma StepCounts(s: State, t: nat, e: Event, s': State, u: nat)
    requires Inv(s) && Step(s, t, e, s')
    ensures Held(s', u) + (if t == u && e == Release then 1 else 0)
            == Held(s, u) + (if t == u && Acquiring(s, t, e) then 1 else 0)
  {
    hide Awaited;
    if e == Unlock { UnlockOthers(s, t, u); }
  }

  lemma UnlockOthers(s: State, t: nat, u: nat)
    requires Inv(s) && At(s, t) == Dropped
    ensures MutexUnlock(s, t).repeat == s.repeat && (At(MutexUnlock(s, t), u) == Holding <==> At(s, u) == Holding)
  {
    if s.waiters != [] { assert s.waiters[|s.waiters| - 1] in s.waiters; }
  }

  /** In every run the lock is held exactly by the task with more acquires than releases;
      repeat is how many more, and the task is past the mutex until its last release. */
  lemma {:induction false} HeldCount(ss: seq<State>, ts: seq<nat>, es: seq<Event>, t: nat, i: nat)
    requires Run(ss, ts, es) && i <= |es|
    ensures Releases(ts, es, t, i) <= Acquires(ss, ts, es, t, i)
    ensures At(ss[i], t) == Holding <==> Releases(ts, es, t, i) < Acquires(ss, ts, es, t, i)
    ensures At(ss[i], t) == Holding ==>
              && ss[i].holder == Some(t) && ss[i].value
              && ss[i].repeat == Acquires(ss, ts, es, t, i) - Releases(ts, es, t, i)
  {
    CountIs(ss, ts, es, t, i);
    RunSafe(ss, ts, es, i);
    hide Run, Awaited;
  }

  lemma {:induction false} CountIs(ss: seq<State>, ts: seq<nat>, es: seq<Event>, t: nat, i: nat)
    requires Run(ss, ts, es) && i <= |es|
    ensures Held(ss[i], t) + Releases(ts, es, t, i) == Acquires(ss, ts, es, t, i)
  {
    if i > 0 {
      hide Inv, Step, Held, Acquiring;
      CountIs(ss, ts, es, t, i - 1);
      RunSafe(ss, ts, es, i - 1);
      StepCounts(ss[i - 1], ts[i - 1], es[i - 1], ss[i], t);
    }
  }

  /** In no run do two tasks hold the lock, and a task that sleeps on it is never
      forgotten: some task is past the mutex and will wake one when it leaves, or
      one that was woken has still to look. */
  lemma NeverStuck(ss: seq<State>, ts: seq<nat>, es: seq<Event>, i: nat, t: nat, u: nat)
    requires Run(ss, ts, es) && i < |ss|
    ensures Past(At(ss[i], t)) && Past(At(ss[i], u)) ==> t == u
    ensures At(ss[i], t) == Asleep ==> exists x: nat :: Past(At(ss[i], x)) || At(ss[i], x) == Woken
  {
    RunSafe(ss, ts, es, i);
    if At(ss[i], t) == Asleep && ss[i].value { assert Past(At(ss[i], ss[i].owner.value)); }
  }

  /** A woken task that finds the mutex taken again goes to the end of the queue:
      whoever slept already is woken before it. */
  lemma BargedWaitsAgain(s: State, t: nat, u: nat)
    requires Inv(s) && At(s, t) == Woken && s.value && At(s, u) == Asleep
    ensures var s' := MutexLock(s, t);
            exists i, j :: 0 <= i < j < |s'.waiters| && s'.waiters[i] == t && s'.waiters[j] == u
  {
    var j :| 0 <= j < |s.waiters| && s.waiters[j] == u;
    var s' := MutexLock(s, t);
    assert s'.waiters[0] == t && s'.waiters[j + 1] == u;
  }

  // ----- the code -----

  class LockObject {
    var value: bool
    var holder: Option<nat>
    var repeat: nat
    var waiters: seq<nat>
    ghost var pc: map<nat, Pc>
    ghost var owner: Option<nat>

    ghost function View(): State
      reads this
    {
      State(value, holder, repeat, waiters, pc, owner)
    }

    constructor ()
      ensures View() == Initial()
    {
      value, holder, repeat, waiters := false, None, 0, [];
      pc, owner := map[], None;
    }

    /** The beginning of lock_acquire by task t; done if t holds the lock already. */
    method StartAcquire(t: nat) returns (done: bool)
      requires Inv(View()) && (At(View(), t) == Outside || At(View(), t) == Holding)
      modifies this
      ensures Inv(View()) && Step(old(View()), t, Call, View())
      ensures done <==> At(old(View()), t) == Holding
      ensures value == old(value) && holder == old(holder) && waiters == old(waiters)
      ensures if done then repeat == old(repeat) + 1 && At(View(), t) == Holding
              else repeat == old(repeat) && At(View(), t) == Trying
    {
      AcquireKeeps(View(), t);
      if holder != Some(t) {
        pc := pc[t := Trying];
        return false;
      }
      repeat := repeat + 1;
      return true;
    }

    /** One round of mutex_lock's loop. */
    method MutexLockOnce(t: nat) returns (taken: bool)
      requires Inv(View()) && (At(View(), t) == Trying || At(View(), t) == Woken)
      modifies this
      ensures Inv(View()) && Step(old(View()), t, TryLock, View())
      ensures taken <==> !old(value)
    {
      MutexLockKeeps(View(), t);
      if value {
        waiters := [t] + waiters;
        pc := pc[t := Asleep];
        return false;
      }
      value := true;
      pc, owner := pc[t := Locked], Some(t);
      return true;
    }

    /** lock_acquire behind mutex_lock: the holder. */
    method ClaimHolder(t: nat)
      requires Inv(View()) && At(View(), t) == Locked
      modifies this
      ensures Inv(View()) && Step(old(View()), t, TakeHolder, View())
    {
      SetHolderKeeps(View(), t);
      holder := Some(t);
      pc := pc[t := Claimed];
    }

    /** The end of lock_acquire: the count. */
    method StartCount(t: nat)
      requires Inv(View()) && At(View(), t) == Claimed
      modifies this
      ensures Inv(View()) && Step(old(View()), t, SetRepeat, View())
    {
      SetCountKeeps(View(), t);
      assert repeat == 0;
      repeat := 1;
      pc := pc[t := Holding];
    }

    /** The beginning of lock_release; done if the lock is still held. */
    method BeginRelease(t: nat) returns (done: bool)
      requires Inv(View()) && At(View(), t) == Holding
      modifies this
      ensures Inv(View()) && Step(old(View()), t, Release, View())
      ensures done <==> old(repeat) > 1
      ensures value == old(value) && waiters == old(waiters)
      ensures if done then repeat == old(repeat) - 1 && holder == Some(t) && At(View(), t) == Holding
              else repeat == 1 && holder == None && At(View(), t) == Dropping
    {
      StartReleaseKeeps(View(), t);
      assert holder == Some(t);
      if repeat > 1 {
        repeat := repeat - 1;
        return true;
      }
      assert repeat == 1;
      holder := None;
      pc := pc[t := Dropping];
      return false;
    }

    method Clear(t: nat)
      requires Inv(View()) && At(View(), t) == Dropping
      modifies this
      ensures Inv(View()) && Step(old(View()), t, ClearRepeat, View())
    {
      ClearRepeatKeeps(View(), t);
      repeat := 0;
      pc := pc[t := Dropped];
    }

    /** mutex_unlock, up to the yield when someone is woken. */
    method Unlocking(t: nat) returns (woken: Option<nat>)
      requires Inv(View()) && At(View(), t) == Dropped
      modifies this
      ensures Inv(View()) && Step(old(View()), t, Unlock, View())
      ensures woken.None? <==> old(waiters) == []
      ensures woken.Some? ==> At(View(), woken.value) == Woken && old(waiters) == waiters + [woken.value]
    {
      hide Inv;
      MutexUnlockKeeps(View(), t);
      assert value;
      value := false;
      pc, owner := pc[t := Outside], None;
      woken := None;
      if waiters != [] {
        woken := Some(waiters[|waiters| - 1]);
        waiters := waiters[..|waiters| - 1];
        pc := pc[woken.value := Woken];
      }
    }

    /** lock_acquire while nobody else is past the mutex: the lock is held once more. */
    method LockAcquire(t: nat)
      requires Inv(View()) && (At(View(), t) == Holding || (At(View(), t) == Outside && !value))
      modifies this
      ensures Inv(View()) && At(View(), t) == Holding && holder == Some(t) && value && waiters == old(waiters)
      ensures repeat == if old(holder) == Some(t) then old(repeat) + 1 else 1
    {
      var done := StartAcquire(t);
      if !done {
        var taken := MutexLockOnce(t);
        ClaimHolder(t);
        StartCount(t);
      }
    }

    /** lock_release: the last release frees the mutex and wakes who has waited longest. */
    method LockRelease(t: nat)
      requires Inv(View()) && At(View(), t) == Holding
      modifies this
      ensures Inv(View()) && repeat == old(repeat) - 1
      ensures old(repeat) > 1 ==>
                At(View(), t) == Holding && holder == Some(t) && value && waiters == old(waiters)
      ensures old(repeat) == 1 ==>
                && At(View(), t) == Outside && holder == None && !value
                && waiters == (if old(waiters) == [] then [] else old(waiters)[..|old(waiters)| - 1])
    {
      var done := BeginRelease(t);
      if !done {
        Clear(t);
        var woken := Unlocking(t);
      }
    }
  }
}
