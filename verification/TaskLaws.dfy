/** What the operations on tasks mean, said without the functions that define them: the
    fields of every task after a step, and over whole runs the exit code a parent gets, the
    length of a sleep and the time the clock shows. */
module TaskLaws {
  import opened Common
  import opened Sequences
  import opened TaskRuns
  import opened Tasks

  predicate Up(t: Task) { t.status == Ready || t.status == Running }

  /** Task p is what it was, but for whether it runs or is only ready to. */
  ghost predicate Same(k: Kernel, k': Kernel, p: nat) {
    && Present(k, p) && Present(k', p) && Born(k', p) == Born(k, p)
    && var t, t' := k.table[p].value, k'.table[p].value;
       t' == t.(status := t'.status) && (t'.status == t.status || (Up(t) && Up(t')))
  }

  /** The tasks that are there are the same ones. */
  ghost predicate SameTasks(k: Kernel, k': Kernel) {
    && |k'.table| == |k.table| && k'.birth == k.birth && k'.clock == k.clock
    && forall q: nat :: Present(k', q) <==> Present(k, q)
  }

  // ----- one step -----

  /** schedule() only moves the processor. */
  lemma SwitchLaw(k: Kernel, k': Kernel)
    requires Leaving(k) && Scheduled(k, k')
    ensures SameTasks(k, k') && k' == k.(table := k'.table, current := k'.current)
    ensures forall q: nat | Present(k, q) :: Same(k, k', q)
  {
    var r: nat :| Picked(k, r) && k' == Switch(k, r);
    assert Shape(k);
    hide TreeOk, WaitOk, ListsOk, Early;
  }

  /** A ready task is passed over only for another one with more ticks left, or with as
      many that last ran no later. */
  lemma PickLaw(k: Kernel, k': Kernel, q: nat)
    requires Leaving(k) && Scheduled(k, k') && Is(k, q, Ready) && q != k.current
    ensures var r := k'.current;
            && r != k.current && Is(k, r, Ready) && Is(k', r, Running)
            && (k.table[r].value.ticks > k.table[q].value.ticks
                || (k.table[r].value.ticks == k.table[q].value.ticks
                    && k.table[r].value.jiffies <= k.table[q].value.jiffies))
  {
    var r: nat :| Picked(k, r) && k' == Switch(k, r);
    assert Candidate(k, q);
    hide Rest, Early, NoOtherRunning;
  }

  lemma SameItself(k: Kernel)
    ensures SameTasks(k, k) && forall q: nat | Present(k, q) :: Same(k, k, q)
  {}

  lemma SameTasksTwice(k: Kernel, k1: Kernel, k2: Kernel)
    requires SameTasks(k, k1) && SameTasks(k1, k2)
    ensures SameTasks(k, k2) && |k1.table| == |k.table| == |k2.table| && k1.birth == k.birth == k2.birth
    ensures forall q: nat :: (Present(k1, q) <==> Present(k, q)) && (Present(k2, q) <==> Present(k, q))
  {}

  lemma SameTwice(k: Kernel, k1: Kernel, k2: Kernel, q: nat)
    requires Present(k, q) && k1.birth == k.birth && q < |k1.table| && k1.table[q] == k.table[q] && Same(k1, k2, q)
    ensures Same(k, k2, q)
  {}

  lemma SameFields(k: Kernel, k': Kernel)
    requires forall q: nat | Present(k, q) :: Same(k, k', q)
    ensures forall q: nat | Present(k, q) ::
              && Present(k', q) && var t, t' := k.table[q].value, k'.table[q].value;
                 t' == t.(status := t'.status) && (t'.status == t.status || (Up(t) && Up(t')))
  {}

  /** The running task's own slot is all that changed before schedule(), and it went down. */
  ghost predicate Stopped(k: Kernel, k1: Kernel, t: Task) {
    && SameTasks(k, k1) && k1.jiffies == k.jiffies && k.current < |k.table| && k1.table[k.current] == Some(t) && !Up(t)
    && forall q: nat | q < |k.table| && q != k.current :: k1.table[q] == k.table[q]
  }

  lemma StopLaw(k: Kernel, k1: Kernel, k': Kernel, t: Task)
    requires Stopped(k, k1, t) && Leaving(k1) && Scheduled(k1, k')
    ensures SameTasks(k, k') && k'.jiffies == k.jiffies && k.current < |k'.table| && k'.table[k.current] == Some(t)
    ensures forall q: nat | Present(k, q) && q != k.current :: Same(k, k', q)
  {
    SwitchLaw(k1, k');
    hide Leaving, Scheduled, Same;
    SameFields(k1, k');
    SameTasksTwice(k, k1, k');
    forall q: nat | Present(k, q) && q != k.current ensures Same(k, k', q) { SameTwice(k, k1, k', q); }
  }

  /** A task that blocks itself stays down with all it had; so does one whose exit has to
      wait once more. */
  lemma BlockLaw(k: Kernel, op: Op, k': Kernel)
    requires Inv(k) && Step(k, op, k') && (op == BlockSelf || op == ReleaseWaits)
    ensures SameTasks(k, k') && k'.table[k.current] == Some(k.table[k.current].value.(status := Blocked))
    ensures k'.jiffies == k.jiffies && forall q: nat | Present(k, q) && q != k.current :: Same(k, k', q)
  {
    BlockKeeps(k);
    CurrentIs(k);
    var t := k.table[k.current].value.(status := Blocked);
    assert Stopped(k, Block(k), t);
    hide Inv, Leaving, Scheduled, Stopped, Same, SameTasks, Block;
    StopLaw(k, Block(k), k', t);
  }

  /** A task that is unblocked is ready, and no other is touched. */
  lemma UnblockLaw(k: Kernel, p: nat, k': Kernel)
    requires Inv(k) && Step(k, UnblockTask(p), k')
    ensures Present(k, p) && SameTasks(k, k') && k'.current == k.current && k'.jiffies == k.jiffies
    ensures k'.table[p] == Some(k.table[p].value.(status := Ready))
    ensures forall q: nat | Present(k, q) && q != p :: k'.table[q] == k.table[q]
  {
    ListedBlocked(k);
    hide Rest, Early, NoOtherRunning, Without;
  }

  /** The child of a fork: in the lowest free slot, ready, with a full slice of its parent's
      priority; nothing else changes. */
  lemma ForkLaw(k: Kernel, k': Kernel) returns (i: nat)
    requires Inv(k) && Step(k, ForkSelf, k')
    ensures i < TASK_NUMBER && !Present(k, i) && forall j: nat | j < i :: Present(k, j)
    ensures |k'.table| == |k.table| && Is(k', i, Ready) && Parent(k', i) == k.current == k'.current
    ensures var parent, child := k.table[k.current].value, k'.table[i].value;
            child.ticks == child.priority == parent.priority && child.code == parent.code
            && child.jiffies == parent.jiffies
    ensures Born(k', i) == k.clock && k'.clock == k.clock + 1 && k'.jiffies == k.jiffies
    ensures forall q: nat | q != i ::
              Present(k', q) == Present(k, q) && Born(k', q) == Born(k, q)
              && (Present(k, q) ==> k'.table[q] == k.table[q])
  {
    i :| FreeSlot(k, i) && k' == ForkInto(k, i);
    CurrentIs(k);
    assert |k.table| == TASK_NUMBER;
    hide Rest, Early, NoOtherRunning;
  }

  /** waitpid's three outcomes: the lowest dead child it is about gives its slot back; with
      none dead but one alive the task waits for that pid; with no child nothing changes. */
  lemma WaitLaw(k: Kernel, pid: int, k': Kernel)
    requires Inv(k) && Step(k, WaitPid(pid), k')
    ensures (exists c: nat :: Wanted(k, pid, c) && Is(k, c, Died)) ==>
              exists c: nat :: Wanted(k, pid, c) && Is(k, c, Died) && Reaping(k, k', c)
                && forall d: nat | d < c && Wanted(k, pid, d) :: !Is(k, d, Died)
    ensures (exists c: nat :: Wanted(k, pid, c)) && (forall c: nat | Wanted(k, pid, c) :: !Is(k, c, Died)) ==>
              && k'.table[k.current] == Some(k.table[k.current].value.(status := Waiting, waitpid := pid))
              && SameTasks(k, k') && forall q: nat | Present(k, q) && q != k.current :: Same(k, k', q)
    ensures (forall c: nat :: !Wanted(k, pid, c)) ==> k' == k
    ensures k'.jiffies == k.jiffies
  {
    hide Inv, Leaving, Scheduled, Wait, Is, Wanted, Same, SameTasks, Exiting;
    if exists c: nat :: FirstDead(k, pid, c) {
      var c: nat :| FirstDead(k, pid, c) && k' == Reap(k, c);
      InvFacts(k);
      WantedIs(k, pid, c);
    } else {
      NoneDead(k, pid, TASK_NUMBER);
      if exists c: nat :: Wanted(k, pid, c) { WaitAsleep(k, pid, k'); }
    }
  }

  lemma WantedIs(k: Kernel, pid: int, c: nat)
    requires Wanted(k, pid, c)
    ensures c < |k.table|
  {}

  lemma WaitAsleep(k: Kernel, pid: int, k': Kernel)
    requires Inv(k) && k.current != 0 && Scheduled(Wait(k, pid), k')
    requires (exists c: nat :: Wanted(k, pid, c)) && forall c: nat | Wanted(k, pid, c) :: !Is(k, c, Died)
    ensures k.current < |k.table| && k.table[k.current].Some? && k'.jiffies == k.jiffies && SameTasks(k, k')
    ensures k'.table[k.current] == Some(k.table[k.current].value.(status := Waiting, waitpid := pid))
    ensures forall q: nat | Present(k, q) && q != k.current :: Same(k, k', q)
  {
    hide Inv, Leaving, Scheduled, Wanted;
    WaitKeeps(k, pid);
    CurrentIs(k);
    var t := k.table[k.current].value.(status := Waiting, waitpid := pid);
    assert Stopped(k, Wait(k, pid), t);
    hide Stopped, Same, SameTasks, Wait;
    StopLaw(k, Wait(k, pid), k', t);
  }

  /** Slot c is free again, and nothing else has changed. */
  predicate Reaping(k: Kernel, k': Kernel, c: nat) {
    && c < |k.table| && k'.table == k.table[c := None] && k'.current == k.current
    && k'.birth == k.birth && k'.clock == k.clock
  }

  /** task_sleep: at least one tick, and as many as there are whole ones in ms. */
  lemma SleepLaw(k: Kernel, ms: nat, k': Kernel)
    requires Inv(k) && Step(k, SleepFor(ms), k')
    ensures var deadline := k.jiffies + if ms >= JIFFY then ms / JIFFY else 1;
            k'.table[k.current] == Some(k.table[k.current].value.(status := Sleeping, ticks := deadline))
    ensures SameTasks(k, k') && k'.jiffies == k.jiffies
    ensures forall q: nat | Present(k, q) && q != k.current :: Same(k, k', q)
  {
    hide Inv, Leaving, Scheduled, Stopped, Same, SameTasks, Sleep;
    SleepKeeps(k, ms);
    CurrentIs(k);
    SleepStops(k, ms);
    var deadline := k.jiffies + if ms >= JIFFY then ms / JIFFY else 1;
    StopLaw(k, Sleep(k, ms), k', k.table[k.current].value.(status := Sleeping, ticks := deadline));
  }

  lemma SleepStops(k: Kernel, ms: nat)
    requires Present(k, k.current)
    ensures var deadline := k.jiffies + if ms >= JIFFY then ms / JIFFY else 1;
            Stopped(k, Sleep(k, ms), k.table[k.current].value.(status := Sleeping, ticks := deadline))
  {
    assert WakeTime(k, ms) == k.jiffies + if ms >= JIFFY then ms / JIFFY else 1;
    hide WakeTime;
  }

  /** A tick charges the running task and notes when it ran; it wakes whoever is due, with
      no ticks left, and touches nobody else. */
  lemma TickLaw(k: Kernel, k': Kernel)
    requires Inv(k) && Step(k, Tick, k')
    ensures SameTasks(k, k') && k'.jiffies == k.jiffies + 1
    ensures Present(k, k.current) && Present(k', k.current)
    ensures var t, t' := k.table[k.current].value, k'.table[k.current].value;
            && Up(t') && t'.jiffies == k'.jiffies && t'.ticks == (if t.ticks == 1 then t.priority else t.ticks - 1)
            && t' == t.(jiffies := t'.jiffies, ticks := t'.ticks, status := t'.status)
    ensures forall q: nat | Is(k, q, Sleeping) && Deadline(k, q) <= k'.jiffies ::
              var t, t' := k.table[q].value, k'.table[q].value;
              Up(t') && t' == t.(ticks := 0, status := t'.status)
    ensures forall q: nat | Present(k, q) && q != k.current && !(Is(k, q, Sleeping) && Deadline(k, q) <= k'.jiffies) ::
              Same(k, k', q)
  {
    var k1 := Wake(Advance(k));
    var k2 := Charge(k1);
    TickWakes(k);
    ChargeFields(k1);
    hide Inv, Leaving, Scheduled, Wake, Advance, Is, Deadline, Charge, Same, SameTasks;
    SameTasksTwice(k, k1, k2);
    if Spent(k1) { SwitchLaw(k2, k'); } else { SameItself(k2); }
    SameTasksTwice(k, k2, k');
    forall q: nat | Present(k, q) && k2.table[q] == k.table[q] ensures Same(k, k', q) { SameTwice(k, k2, k', q); }
    SameFields(k2, k');
  }

  lemma ChargeFields(k: Kernel)
    requires Present(k, k.current)
    ensures var k', t := Charge(k), k.table[k.current].value;
            && SameTasks(k, k') && k'.current == k.current && k'.jiffies == k.jiffies
            && k'.table[k.current]
               == Some(t.(jiffies := k.jiffies, ticks := if t.ticks == 1 then t.priority else t.ticks - 1))
            && forall q: nat | q < |k.table| && q != k.current :: k'.table[q] == k.table[q]
  {}

  lemma TickWakes(k: Kernel)
    requires Inv(k)
    ensures var k1 := Wake(Advance(k));
            && SameTasks(k, k1) && k1.current == k.current && k1.jiffies == k.jiffies + 1
            && Leaving(Charge(k1)) && Present(k, k.current) && k1.table[k.current] == k.table[k.current]
            && Up(k.table[k.current].value) && !Is(k, k.current, Sleeping)
            && (forall q: nat | Is(k, q, Sleeping) && Deadline(k, q) <= k.jiffies + 1 ::
                  Present(k, q) && k1.table[q] == Some(k.table[q].value.(ticks := 0, status := Ready)))
            && (forall q: nat | Present(k, q) && !(Is(k, q, Sleeping) && Deadline(k, q) <= k.jiffies + 1) ::
                  k1.table[q] == k.table[q])
  {
    AdvanceKeeps(k);
    WakeExact(Advance(k));
    CurrentIs(k);
    forall q: nat ensures Due(Advance(k), q) <==> Is(k, q, Sleeping) && Deadline(k, q) <= k.jiffies + 1 {}
    hide Rest, Early, NoOtherRunning, Wake, Due;
    InvParts(Wake(Advance(k)));
    ChargeKeeps(Wake(Advance(k)));
    CurrentIs(Charge(Wake(Advance(k))));
  }

  // ----- exit -----

  /** What is left of a task of which me has taken leave: its children go to g, which is
      woken if it waits for any child or for me. */
  ghost predicate Bereft(k: Kernel, k': Kernel, me: nat, g: nat, q: nat) {
    && Present(k, q) && Present(k', q) && Born(k', q) == Born(k, q)
    && var t, t' := k.table[q].value, k'.table[q].value;
       && t' == t.(ppid := if t.ppid == me then g else t.ppid, status := t'.status)
       && if q == g && t.status == Waiting && (t.waitpid == ANY || t.waitpid == me) then Up(t')
          else t'.status == t.status || (Up(t) && Up(t'))
  }

  /** The end of a task_exit: dead with its code, or running on if it had to wait for the
      disk; either way the children go to the parent, which is woken exactly if it waits
      for this task. */
  lemma LeaveLaw(k: Kernel, op: Op, k': Kernel)
    requires Inv(k) && Step(k, op, k') && (op.ExitSelf? || op == ExitEnds)
    ensures SameTasks(k, k') && k'.jiffies == k.jiffies
    ensures var t := k.table[k.current].value;
            if op.ExitSelf? then k'.table[k.current] == Some(t.(status := Died, code := op.code))
            else Present(k', k.current) && Up(k'.table[k.current].value)
                 && k'.table[k.current].value == t.(status := k'.table[k.current].value.status)
    ensures forall q: nat | Present(k, q) && q != k.current :: Bereft(k, k', k.current, Parent(k, k.current), q)
  {
    CurrentIs(k);
    var code := if op.ExitSelf? then op.code else k.table[k.current].value.code;
    var s := if op.ExitSelf? then Died else Running;
    hide Inv, Leaving, Scheduled, Leave, Is, Bereft, SameTasks, Same;
    LeaveKeeps(k, code, s);
    LeaveFields(k, code, s);
    SwitchLaw(Leave(k, code, s), k');
    assert Present(Leave(k, code, s), k.current);
    SameAt(Leave(k, code, s), k', k.current);
    SameTasksTwice(k, Leave(k, code, s), k');
    forall q: nat | Present(k, q) && q != k.current ensures Bereft(k, k', k.current, Parent(k, k.current), q) {
      BereftSame(k, Leave(k, code, s), k', k.current, Parent(k, k.current), q);
    }
  }

  lemma SameAt(k: Kernel, k': Kernel, q: nat)
    requires Same(k, k', q)
    ensures Present(k, q) && Present(k', q)
    ensures var t, t' := k.table[q].value, k'.table[q].value;
            t' == t.(status := t'.status) && (t'.status == t.status || (Up(t) && Up(t')))
  {}

  lemma BereftSame(k: Kernel, k1: Kernel, k': Kernel, me: nat, g: nat, q: nat)
    requires Bereft(k, k1, me, g, q) && Same(k1, k', q)
    ensures Bereft(k, k', me, g, q)
  {}

  lemma LeaveFields(k: Kernel, code: int, s: Status)
    requires Inv(k) && k.current != 0 && (s == Died || s == Running)
    ensures var k1 := Leave(k, code, s);
            && SameTasks(k, k1) && k1.jiffies == k.jiffies
            && Present(k, k.current)
            && k1.table[k.current] == Some(k.table[k.current].value.(status := s, code := code))
            && forall q: nat | Present(k, q) && q != k.current :: Bereft(k, k1, k.current, Parent(k, k.current), q)
  {
    var me, g := k.current, Parent(k, k.current);
    var k1 := Depart(k, code, s);
    DepartFields(k, code, s);
    WakesField(k, k1, g, me);
    hide Inv, Depart, Wakes;
    var k2 := if Wakes(k1, g, me) then Unblock(k1, g) else k1;
    assert Leave(k, code, s) == k2.(exiting := Leave(k, code, s).exiting, gone := Leave(k, code, s).gone);
    assert forall q: nat | q < |k.table| && q != g :: k2.table[q] == k1.table[q];
    hide Leave;
  }

  lemma WakesField(k: Kernel, k1: Kernel, g: nat, me: nat)
    requires Present(k, g) && g < |k1.table| && g != me && k1.table[g] == Adopt(k.table[g], me, g)
    ensures Wakes(k1, g, me) <==>
            k.table[g].value.status == Waiting && (k.table[g].value.waitpid == ANY || k.table[g].value.waitpid == me)
  {}

  lemma DepartFields(k: Kernel, code: int, s: Status)
    requires Inv(k) && k.current != 0 && (s == Died || s == Running)
    ensures var k1, me, g := Depart(k, code, s), k.current, Parent(k, k.current);
            && g != me && Present(k, g) && Present(k, me) && |k1.table| == |k.table| && k1 == k.(table := k1.table)
            && k1.table[me] == Some(k.table[me].value.(status := s, code := code))
            && forall q: nat | q < |k.table| && q != me :: k1.table[q] == Adopt(k.table[q], me, g)
  {
    DepartIs(k, code, s);
    hide WaitOk, ListsOk, Early, NoOtherRunning;
  }

  /** A task_exit that has to wait is asleep with its code, and nobody has been told. */
  lemma ExitWaitsLaw(k: Kernel, code: int, k': Kernel)
    requires Inv(k) && Step(k, ExitWaits(code), k')
    ensures SameTasks(k, k') && k'.table[k.current] == Some(k.table[k.current].value.(status := Blocked, code := code))
    ensures k'.jiffies == k.jiffies && forall q: nat | Present(k, q) && q != k.current :: Same(k, k', q)
  {
    ExitBlockKeeps(k, code);
    CurrentIs(k);
    var t := k.table[k.current].value.(status := Blocked, code := code);
    assert Stopped(k, ExitBlock(k, code), t);
    hide Inv, Leaving, Scheduled, Stopped, Same, SameTasks, ExitBlock;
    StopLaw(k, ExitBlock(k, code), k', t);
  }

  // ----- over a run: the exit code -----

  /** The exit code in slot p after op, which is moved by the task's own exit only. */
  function CodeAfter(k: Kernel, op: Op, p: nat): int
    requires Present(k, p)
  {
    if p == k.current && (op.ExitSelf? || op.ExitWaits?) then op.code else k.table[p].value.code
  }

  /** A task in the table after a step was there before, with its code kept and dead if it
      was dead, or has just been made. */
  ghost predicate Carried(k: Kernel, op: Op, k': Kernel, p: nat) {
    && Present(k', p)
    && if Present(k, p) && Born(k, p) == Born(k', p)
       then k'.table[p].value.code == CodeAfter(k, op, p)
            && (Is(k, p, Died) || (p == k.current && op.ExitSelf?) ==> Is(k', p, Died))
       else Born(k', p) == k.clock < k'.clock
  }

  lemma SameCarried(k: Kernel, op: Op, k': Kernel, p: nat)
    requires Same(k, k', p) && !(p == k.current && (op.ExitSelf? || op.ExitWaits?))
    ensures Carried(k, op, k', p)
  {}

  lemma BereftCarried(k: Kernel, op: Op, k': Kernel, me: nat, g: nat, p: nat)
    requires Bereft(k, k', me, g, p) && p != k.current
    ensures Carried(k, op, k', p)
  {}

  lemma MineCarried(k: Kernel, op: Op, k': Kernel)
    requires SameTasks(k, k') && Is(k, k.current, Running) && Present(k', k.current)
    requires k'.table[k.current].value.code == CodeAfter(k, op, k.current)
    requires op.ExitSelf? ==> k'.table[k.current].value.status == Died
    ensures Carried(k, op, k', k.current)
  {}

  lemma TickCarries(k: Kernel, k': Kernel, p: nat)
    requires Inv(k) && Step(k, Tick, k') && Present(k', p)
    ensures Carried(k, Tick, k', p) && k.clock == k'.clock
  {
    CurrentIs(k);
    hide Inv, Step, Leaving;
    TickLaw(k, k');
  }

  lemma WaitCarries(k: Kernel, pid: int, k': Kernel, p: nat)
    requires Inv(k) && Step(k, WaitPid(pid), k') && Present(k', p)
    ensures Carried(k, WaitPid(pid), k', p) && k.clock == k'.clock
  {
    hide Inv, Step, Leaving, Wanted, Is, Same, SameTasks, Reaping, Carried, Present, Born;
    CurrentIs(k);
    WaitLaw(k, pid, k');
    if exists c: nat :: Wanted(k, pid, c) && Is(k, c, Died) {
      var c: nat :| Wanted(k, pid, c) && Is(k, c, Died) && Reaping(k, k', c);
      ReapCarries(k, pid, k', c, p);
    } else if exists c: nat :: Wanted(k, pid, c) {
      SameTasksIs(k, k', p);
      if p == k.current { MineCarried(k, WaitPid(pid), k'); } else { SameCarried(k, WaitPid(pid), k', p); }
    } else {
      StillCarried(k, WaitPid(pid), p);
    }
  }

  lemma SameTasksIs(k: Kernel, k': Kernel, p: nat)
    requires SameTasks(k, k')
    ensures k'.clock == k.clock && |k'.table| == |k.table| && Present(k', p) == Present(k, p)
  {}

  lemma ReapCarries(k: Kernel, pid: int, k': Kernel, c: nat, p: nat)
    requires Reaping(k, k', c) && Present(k', p)
    ensures Carried(k, WaitPid(pid), k', p) && k'.clock == k.clock
  {}

  lemma StillCarried(k: Kernel, op: Op, p: nat)
    requires Present(k, p) && op.WaitPid?
    ensures Carried(k, op, k, p)
  {}

  lemma ForkCarries(k: Kernel, k': Kernel, p: nat)
    requires Inv(k) && Step(k, ForkSelf, k') && Present(k', p)
    ensures Carried(k, ForkSelf, k', p) && k.clock <= k'.clock
  {
    hide Inv, Step;
    var i := ForkLaw(k, k');
  }

  lemma UnblockCarries(k: Kernel, u: nat, k': Kernel, p: nat)
    requires Inv(k) && Step(k, UnblockTask(u), k') && Present(k', p)
    ensures Carried(k, UnblockTask(u), k', p) && k.clock == k'.clock
  {
    ListedBlocked(k);
    UnblockLaw(k, u, k');
    LiveIs(k);
    assert u in k.blocked && !Is(k, u, Died);
    hide Inv, Step;
  }

  lemma LeaveCarries(k: Kernel, op: Op, k': Kernel, p: nat)
    requires Inv(k) && Step(k, op, k') && (op.ExitSelf? || op == ExitEnds) && Present(k', p)
    ensures Carried(k, op, k', p) && k.clock == k'.clock
  {
    CurrentIs(k);
    LeaveLaw(k, op, k');
    assert SameTasks(k, k');
    if p == k.current {
      hide Inv, Step, Bereft;
      MineCarried(k, op, k');
    } else {
      BereftCarried(k, op, k', k.current, Parent(k, k.current), p);
      hide Inv, Step, Bereft;
    }
  }

  lemma StopIs(k: Kernel, op: Op, k': Kernel)
    requires Inv(k) && Step(k, op, k')
    requires op == Yield || op == BlockSelf || op == ReleaseWaits || op.SleepFor? || op.ExitWaits?
    ensures SameTasks(k, k') && Present(k, k.current) && Present(k', k.current)
    ensures forall q: nat | Present(k, q) && (q != k.current || op == Yield) :: Same(k, k', q)
    ensures op != Yield ==> k'.table[k.current].value.code == CodeAfter(k, op, k.current)
  {
    CurrentIs(k);
    hide Inv, Leaving, Same;
    match op
    case Yield => SwitchLaw(k, k');
    case BlockSelf => BlockLaw(k, op, k');
    case ReleaseWaits => BlockLaw(k, op, k');
    case SleepFor(ms) => SleepLaw(k, ms, k');
    case ExitWaits(code) => ExitWaitsLaw(k, code, k');
  }

  /** The steps that put the running task to sleep, or only choose another one. */
  lemma StopCarries(k: Kernel, op: Op, k': Kernel, p: nat)
    requires Inv(k) && Step(k, op, k') && Present(k', p)
    requires op == Yield || op == BlockSelf || op == ReleaseWaits || op.SleepFor? || op.ExitWaits?
    ensures Carried(k, op, k', p) && k.clock == k'.clock
  {
    CurrentIs(k);
    StopIs(k, op, k');
    hide Inv, Step, Leaving, Same, SameTasks, Carried, Is, Present;
    SameTasksIs(k, k', p);
    if p == k.current && op != Yield {
      MineCarried(k, op, k');
    } else {
      SameCarried(k, op, k', p);
    }
  }

  lemma StepCarries(k: Kernel, op: Op, k': Kernel, p: nat)
    requires Inv(k) && Step(k, op, k') && Present(k', p)
    ensures Carried(k, op, k', p) && k.clock <= k'.clock
  {
    hide *;
    match op
    case UnblockTask(u) => UnblockCarries(k, u, k', p);
    case ForkSelf => ForkCarries(k, k', p);
    case WaitPid(pid) => WaitCarries(k, pid, k', p);
    case Tick => TickCarries(k, k', p);
    case ExitSelf(code) => LeaveCarries(k, op, k', p);
    case ExitEnds => LeaveCarries(k, op, k', p);
    case _ => StopCarries(k, op, k', p);
  }

  lemma StepClock(k: Kernel, op: Op, k': Kernel)
    requires Inv(k) && Step(k, op, k')
    ensures k.clock <= k'.clock
  {
    StepKeeps(k, op, k');
    assert Shape(k');
    hide Step, Carried;
    StepCarries(k, op, k', 0);
  }

  lemma {:induction false} ClockGrows(ks: seq<Kernel>, ops: seq<Op>, i: nat, j: nat)
    requires Run(ks, ops) && i <= j < |ks|
    ensures ks[i].clock <= ks[j].clock
  {
    hide Inv, Step;
    if i < j {
      ClockGrows(ks, ops, i, j - 1);
      RunSafe(ks, ops, j - 1);
      StepClock(ks[j - 1], ops[j - 1], ks[j]);
    }
  }

  predicate IsExit(op: Op) { op.ExitSelf? || op.ExitWaits? }

  /** The number of the task that runs. */
  function Runner(k: Kernel): nat { Born(k, k.current) }

  /** Unless its exit had to wait for the disk, a task cannot exit again. */
  predicate NoOtherExit(ks: seq<Kernel>, ops: seq<Op>, i: nat, j: nat)
    requires i < j < |ks| == |ops| + 1
  {
    ops[i].ExitWaits? ==> forall m | i < m < j :: IsExit(ops[m]) ==> Runner(ks[m]) != Runner(ks[i])
  }

  /** From its exit on a task has the exit code it gave, until its slot is given back: no
      other task's doing changes it, nor that of its parents, old and new. It is dead as
      well, unless the exit had to wait. */
  lemma {:induction false} ExitCode(ks: seq<Kernel>, ops: seq<Op>, i: nat, j: nat, p: nat)
    requires Run(ks, ops) && i < j < |ks| && IsExit(ops[i]) && NoOtherExit(ks, ops, i, j)
    requires Present(ks[j], p) && Born(ks[j], p) == Runner(ks[i])
    ensures p == ks[i].current && ks[j].table[p].value.code == ops[i].code
    ensures ops[i].ExitSelf? ==> Is(ks[j], p, Died)
  {
    hide Inv, Step, Carried;
    RunSafe(ks, ops, i);
    RunSafe(ks, ops, j - 1);
    StepCarries(ks[j - 1], ops[j - 1], ks[j], p);
    ClockGrows(ks, ops, i, j - 1);
    Older(ks[i]);
    CarriedIs(ks[j - 1], ops[j - 1], ks[j], p);
    if i == j - 1 {
      OnlyBearer(ks[i], p);
    } else {
      ExitCode(ks, ops, i, j - 1, p);
      RunsIs(ks[j - 1]);
    }
  }

  lemma Older(k: Kernel)
    requires Inv(k)
    ensures Runner(k) < k.clock
  {}

  lemma OnlyBearer(k: Kernel, p: nat)
    requires Inv(k) && Present(k, p) && Born(k, p) == Runner(k)
    ensures p == k.current
  {}

  lemma RunsIs(k: Kernel)
    requires Inv(k)
    ensures !Is(k, k.current, Died)
  {}

  lemma CarriedIs(k: Kernel, op: Op, k': Kernel, p: nat)
    requires Carried(k, op, k', p) && Born(k', p) < k.clock
    ensures Present(k, p) && Born(k, p) == Born(k', p) && k'.table[p].value.code == CodeAfter(k, op, p)
    ensures Is(k, p, Died) || (p == k.current && op.ExitSelf?) ==> Is(k', p, Died)
  {}

  /** Only waitpid gives a slot back: its parent's at the time, for a child it is about. */
  lemma GivenBack(k: Kernel, op: Op, k': Kernel, p: nat)
    requires Inv(k) && Step(k, op, k') && Present(k, p) && !(Present(k', p) && Born(k', p) == Born(k, p))
    ensures op.WaitPid? && FirstDead(k, op.pid, p) && Parent(k, p) == k.current
  {
    CurrentIs(k);
    match op
    case Yield => SwitchLaw(k, k');
    case BlockSelf => BlockLaw(k, op, k');
    case ReleaseWaits => BlockLaw(k, op, k');
    case UnblockTask(u) => UnblockLaw(k, u, k');
    case ForkSelf => var i := ForkLaw(k, k');
    case WaitPid(pid) => WaitLaw(k, pid, k');
    case SleepFor(ms) => SleepLaw(k, ms, k');
    case Tick => TickLaw(k, k');
    case ExitSelf(code) => LeaveLaw(k, op, k');
    case ExitEnds => LeaveLaw(k, op, k');
    case ExitWaits(code) => ExitWaitsLaw(k, code, k');
    hide Inv, Step, Leaving, Same, Bereft;
  }

  /** The step that gives back the slot of a task that has exited is a waitpid of its
      parent, which finds the code given to exit in the slot. */
  lemma ReapedWithCode(ks: seq<Kernel>, ops: seq<Op>, i: nat, j: nat, p: nat)
    requires Run(ks, ops) && i < j < |ops| && IsExit(ops[i]) && NoOtherExit(ks, ops, i, j)
    requires Present(ks[j], p) && Born(ks[j], p) == Runner(ks[i])
    requires !(Present(ks[j + 1], p) && Born(ks[j + 1], p) == Runner(ks[i]))
    ensures ops[j].WaitPid? && FirstDead(ks[j], ops[j].pid, p) && Parent(ks[j], p) == ks[j].current
    ensures p == ks[i].current && ks[j].table[p].value.code == ops[i].code
  {
    hide Inv, Step, FirstDead;
    ExitCode(ks, ops, i, j, p);
    RunSafe(ks, ops, j);
    GivenBack(ks[j], ops[j], ks[j + 1], p);
  }

  // ----- over a run: the clock and how long a sleep lasts -----

  /** The clock interrupts among the first n operations. */
  function Ticks(ops: seq<Op>, n: nat): nat
    requires n <= |ops|
  {
    if n == 0 then 0 else Ticks(ops, n - 1) + if ops[n - 1] == Tick then 1 else 0
  }

  lemma {:induction false} ClockShows(ks: seq<Kernel>, ops: seq<Op>, n: nat)
    requires Run(ks, ops) && n <= |ops|
    ensures ks[n].jiffies == ks[0].jiffies + Ticks(ops, n)
  {
    hide Inv, Step;
    if n > 0 {
      ClockShows(ks, ops, n - 1);
      RunSafe(ks, ops, n - 1);
      StepShows(ks[n - 1], ops[n - 1], ks[n]);
    }
  }

  lemma StepShows(k: Kernel, op: Op, k': Kernel)
    requires Inv(k) && Step(k, op, k')
    ensures k'.jiffies == k.jiffies + if op == Tick then 1 else 0
  {
    hide Inv;
    if op == Tick { TickLaw(k, k'); } else { StepSleepers(k, op, k'); }
  }

  lemma {:induction false} TicksGrow(ops: seq<Op>, m: nat, n: nat)
    requires m <= n <= |ops|
    ensures Ticks(ops, m) <= Ticks(ops, n)
  {
    if m < n { TicksGrow(ops, m, n - 1); }
  }

  /** After task_sleep(ms) the task sleeps until the clock has ticked once for each whole 10
      milliseconds, and once for less, whatever happens meanwhile; it is up after that tick. */
  lemma SleepTime(ks: seq<Kernel>, ops: seq<Op>, i: nat, j: nat)
    requires Run(ks, ops) && i < j < |ks| && ops[i].SleepFor?
    ensures var p, n, d := ks[i].current, Ticks(ops, j) - Ticks(ops, i), if ops[i].ms < 10 then 1 else ops[i].ms / 10;
            && (n < d ==> Is(ks[j], p, Sleeping))
            && (n == d && ops[j - 1] == Tick ==> Is(ks[j], p, Ready) || Is(ks[j], p, Running))
  {
    hide Inv, Step, Is, Deadline, Run;
    RunSize(ks, ops);
    RunStep(ks, ops, i);
    var p, d := ks[i].current, if ops[i].ms < 10 then 1 else ops[i].ms / 10;
    SleepStarts(ks[i], ops[i].ms, ks[i + 1]);
    ClockShows(ks, ops, i);
    var n := Ticks(ops, j) - Ticks(ops, i);
    if n < d || (n == d && ops[j - 1] == Tick) {
      forall m | i < m < j ensures ks[m].jiffies < ks[i].jiffies + d {
        ClockShows(ks, ops, m);
        TicksGrow(ops, m, j - 1);
      }
      ClockShows(ks, ops, j);
      RunTail(ks, ops, i + 1);
      WokenOnTime(ks[i + 1..], ops[i + 1..], p, j - i - 1);
    }
  }

  lemma SleepStarts(k: Kernel, ms: nat, k': Kernel)
    requires Inv(k) && Step(k, SleepFor(ms), k')
    ensures Is(k', k.current, Sleeping) && Deadline(k', k.current) == k.jiffies + if ms < 10 then 1 else ms / 10
  {
    CurrentIs(k);
    SleepLaw(k, ms, k');
    hide Inv, Step;
  }

  lemma RunSize(ks: seq<Kernel>, ops: seq<Op>)
    requires Run(ks, ops)
    ensures |ks| == |ops| + 1
  {}

  lemma RunStep(ks: seq<Kernel>, ops: seq<Op>, i: nat)
    requires Run(ks, ops) && i < |ops|
    ensures |ks| == |ops| + 1 && Inv(ks[i]) && Step(ks[i], ops[i], ks[i + 1])
  {
    hide Inv, Step;
    RunSafe(ks, ops, i);
  }

  lemma RunTail(ks: seq<Kernel>, ops: seq<Op>, i: nat)
    requires Run(ks, ops) && i < |ks|
    ensures Run(ks[i..], ops[i..])
  {
    hide Inv, Step;
    RunSafe(ks, ops, i);
  }
}
