/** The task table over whole runs: every operation of src/kernel/task.c and the
    clock interrupt as a step between two calls of schedule(), and what all runs keep. */
module TaskRuns {
  import opened Common
  import opened Tasks

  // ----- steps and runs -----

  /** ExitSelf is a task_exit that never has to wait for the disk. One that has to is
      ExitWaits, then ReleaseWaits for every further wait, then ExitEnds. */
  datatype Op = Yield | BlockSelf | UnblockTask(task: nat) | ForkSelf | WaitPid(pid: int) | SleepFor(ms: nat) | Tick
              | ExitSelf(code: int) | ExitWaits(code: int) | ReleaseWaits | ExitEnds

  /** schedule() chose some task r. */
  ghost predicate Scheduled(k: Kernel, k': Kernel) { exists r: nat :: Picked(k, r) && k' == Switch(k, r) }

  ghost predicate FirstDead(k: Kernel, pid: int, c: nat) {
    Wanted(k, pid, c) && Is(k, c, Died) && forall d: nat | d < c && Wanted(k, pid, d) :: !Is(k, d, Died)
  }

  /** Everything waitpid may do between two calls of schedule(). */
  ghost predicate Waited(k: Kernel, pid: int, k': Kernel) {
    if exists c: nat :: FirstDead(k, pid, c) then exists c: nat :: FirstDead(k, pid, c) && k' == Reap(k, c)
    else if exists c: nat :: Wanted(k, pid, c) then Scheduled(Wait(k, pid), k')
    else k' == k
  }

  ghost predicate Ticked(k: Kernel, k': Kernel) {
    var woken := Wake(Advance(k));
    if Spent(woken) then Scheduled(Charge(woken), k') else k' == Charge(woken)
  }

  /** The running task is inside task_exit. */
  predicate Exiting(k: Kernel) { Born(k, k.current) in k.exiting }

  /** One operation; the idle task performs none that would stop it, and a task inside
      task_exit does nothing else. */
  ghost predicate Step(k: Kernel, op: Op, k': Kernel) {
    match op
    case Yield => !Exiting(k) && Scheduled(k, k')
    case BlockSelf => !Exiting(k) && k.current != 0 && Scheduled(Block(k), k')
    case UnblockTask(p) => p in k.blocked && k' == Unblock(k, p)
    case ForkSelf => !Exiting(k) && exists i: nat :: FreeSlot(k, i) && k' == ForkInto(k, i)
    case WaitPid(pid) => !Exiting(k) && k.current != 0 && Waited(k, pid, k')
    case SleepFor(ms) => !Exiting(k) && k.current != 0 && Scheduled(Sleep(k, ms), k')
    case Tick => Ticked(k, k')
    case ExitSelf(code) => !Exiting(k) && k.current != 0 && Scheduled(LeaveWith(k, Some(code)), k')
    case ExitWaits(code) => !Exiting(k) && k.current != 0 && Scheduled(ExitBlock(k, code), k')
    case ReleaseWaits => Exiting(k) && k.current != 0 && Scheduled(Block(k), k')
    case ExitEnds => Exiting(k) && k.current != 0 && Scheduled(LeaveWith(k, None), k')
  }

  function ForkInto(k: Kernel, i: nat): Kernel {
    if Present(k, k.current) && i < |k.table| == |k.birth| then Fork(k, i) else k
  }

  /** task_exit's end: dead with its exit code, or after a wait running, with the code it
      was given before. */
  function LeaveWith(k: Kernel, code: Option<int>): Kernel {
    if !Present(k, k.current) then k
    else if code.Some? then Leave(k, code.value, Died)
    else Leave(k, k.table[k.current].value.code, Running)
  }

  lemma ScheduledKeeps(k: Kernel, k': Kernel)
    requires Leaving(k) && Scheduled(k, k')
    ensures Inv(k')
  {
    var r: nat :| Picked(k, r) && k' == Switch(k, r);
    SwitchKeeps(k, r);
  }

  lemma TickKeeps(k: Kernel, k': Kernel)
    requires Inv(k) && Ticked(k, k')
    ensures Inv(k')
  {
    AdvanceKeeps(k);
    WakeExact(Advance(k));
    hide Rest, Early, NoOtherRunning, Picked, Switch, Charge, Wake;
    ChargeKeeps(Wake(Advance(k)));
    if Spent(Wake(Advance(k))) { ScheduledKeeps(Charge(Wake(Advance(k))), k'); }
  }

  lemma CurrentIs(k: Kernel)
    requires Inv(k)
    ensures Leaving(k) && Is(k, k.current, Running) && Present(k, k.current) && |k.table| == |k.birth|
  {}

  lemma StepKeeps(k: Kernel, op: Op, k': Kernel)
    requires Inv(k) && Step(k, op, k')
    ensures Inv(k')
  {
    hide Inv, Leaving, Scheduled, Ticked, Block, Unblock, Fork, Leave, ExitBlock, Wait, Sleep, Reap, Is, Exiting;
    CurrentIs(k);
    match op
    case Yield => ScheduledKeeps(k, k');
    case BlockSelf => BlockKeeps(k); ScheduledKeeps(Block(k), k');
    case UnblockTask(p) => UnblockInv(k, p);
    case ForkSelf =>
      var i: nat :| FreeSlot(k, i) && k' == ForkInto(k, i);
      ForkKeeps(k, i);
    case WaitPid(pid) => WaitedKeeps(k, pid, k');
    case SleepFor(ms) => SleepKeeps(k, ms); ScheduledKeeps(Sleep(k, ms), k');
    case Tick => TickKeeps(k, k');
    case ExitSelf(code) => LeaveKeeps(k, code, Died); ScheduledKeeps(LeaveWith(k, Some(code)), k');
    case ExitWaits(code) => ExitBlockKeeps(k, code); ScheduledKeeps(ExitBlock(k, code), k');
    case ReleaseWaits => BlockKeeps(k); ScheduledKeeps(Block(k), k');
    case ExitEnds => LeaveKeeps(k, k.table[k.current].value.code, Running); ScheduledKeeps(LeaveWith(k, None), k');
  }

  lemma UnblockInv(k: Kernel, p: nat)
    requires Inv(k) && p in k.blocked
    ensures Inv(Unblock(k, p))
  {
    UnblockKeeps(k, p);
    hide Rest, Early, NoOtherRunning, Is;
  }

  lemma WaitedKeeps(k: Kernel, pid: int, k': Kernel)
    requires Inv(k) && k.current != 0 && Waited(k, pid, k')
    ensures Inv(k')
  {
    hide Inv, Leaving, Scheduled, Wait, Reap, Is, Wanted;
    if exists c: nat :: FirstDead(k, pid, c) {
      var c: nat :| FirstDead(k, pid, c) && k' == Reap(k, c);
      ReapKeeps(k, pid, c);
    } else if exists c: nat :: Wanted(k, pid, c) {
      NoneDead(k, pid, TASK_NUMBER);
      WaitKeeps(k, pid);
      ScheduledKeeps(Wait(k, pid), k');
    }
  }

  /** No first dead child, no dead child. */
  lemma {:induction false} NoneDead(k: Kernel, pid: int, n: nat)
    requires Inv(k) && !exists c: nat :: FirstDead(k, pid, c)
    ensures forall c: nat | Wanted(k, pid, c) && (c < n || n >= TASK_NUMBER) :: !Is(k, c, Died)
  {
    assert |k.table| == TASK_NUMBER;
    if n > 0 {
      NoneDead(k, pid, n - 1);
      if n <= TASK_NUMBER && Wanted(k, pid, n - 1) && Is(k, n - 1, Died) { assert FirstDead(k, pid, n - 1); }
    }
  }

  // ----- sleepers over a run -----

  lemma SwitchSleepers(k: Kernel, k': Kernel)
    requires Leaving(k) && Scheduled(k, k')
    ensures SleepersKept(k, k')
  {
    var r: nat :| Picked(k, r) && k' == Switch(k, r);
    assert Shape(k);
    hide TreeOk, WaitOk, ListsOk, Early;
  }

  lemma TickSleepers(k: Kernel, k': Kernel)
    requires Inv(k) && Ticked(k, k')
    ensures k'.jiffies == k.jiffies + 1
    ensures forall p: nat | Is(k, p, Sleeping) && Deadline(k, p) > k'.jiffies ::
            Is(k', p, Sleeping) && Deadline(k', p) == Deadline(k, p)
    ensures forall p: nat | Is(k, p, Sleeping) && Deadline(k, p) <= k'.jiffies :: Is(k', p, Ready) || Is(k', p, Running)
  {
    var k1 := Wake(Advance(k));
    AdvanceKeeps(k);
    WakeExact(Advance(k));
    forall p: nat | Is(k, p, Sleeping)
      ensures Deadline(k, p) > k.jiffies + 1 ==> Is(k1, p, Sleeping) && Deadline(k1, p) == Deadline(k, p)
      ensures Deadline(k, p) <= k.jiffies + 1 ==> Is(k1, p, Ready)
    {
      assert Due(Advance(k), p) <==> Deadline(k, p) <= k.jiffies + 1;
    }
    ChargeMoves(k1);
    LiveIs(k1);
    MovedSleepers(k1, Charge(k1), k1.current, Running);
    ChargeKeeps(k1);
    hide Rest, Early, NoOtherRunning, Charge, Wake, Advance;
    if Spent(k1) {
      SwitchSleepers(Charge(k1), k');
      ScheduledAwake(Charge(k1), k');
    }
    hide Is, Deadline, Present, Match, Parent;
  }

  /** schedule() stops nobody. */
  lemma ScheduledAwake(k: Kernel, k': Kernel)
    requires Scheduled(k, k')
    ensures forall p: nat | Is(k, p, Ready) || Is(k, p, Running) :: Is(k', p, Ready) || Is(k', p, Running)
  {
    var r: nat :| Picked(k, r) && k' == Switch(k, r);
    hide Picked;
  }

  lemma ForkSleepers(k: Kernel, i: nat)
    requires FreeSlot(k, i)
    ensures SleepersKept(k, ForkInto(k, i))
  {
    hide Match, Parent;
  }

  lemma LeaveSleepers(k: Kernel, code: int, s: Status)
    requires Shape(k) && TreeOk(k) && Is(k, k.current, Running) && k.current != 0 && s != Sleeping
    ensures SleepersKept(k, Leave(k, code, s))
  {
    var k1 := Depart(k, code, s);
    var g := Parent(k, k.current);
    DepartIs(k, code, s);
    LiveIs(k);
    LiveIs(k1);
    var k2 := if Wakes(k1, g, k.current) then Unblock(k1, g) else k1;
    if Wakes(k1, g, k.current) {
      SetStatusMoves(k1, g, Ready, Unblock(k1, g));
      MovedSleepers(k1, Unblock(k1, g), g, Ready);
    }
    var k' := Leave(k, code, s);
    assert forall q: nat, t: Status :: Is(k', q, t) == Is(k2, q, t);
    assert forall q: nat :: Deadline(k', q) == Deadline(k2, q);
    hide Present, Is, Parent, Born, Deadline, Match, Depart, Unblock, TreeOk, Moved, Shape;
  }

  lemma WaitedSleepers(k: Kernel, pid: int, k': Kernel)
    requires Inv(k) && k.current != 0 && Waited(k, pid, k')
    ensures SleepersKept(k, k')
  {
    LiveIs(k);
    hide Early, NoOtherRunning, WaitOk, TreeOk, Shape, Scheduled, Wait, Reap, Is, Deadline, Match, Present, Parent,
      Moved, Wanted;
    if exists c: nat :: FirstDead(k, pid, c) {
      var c: nat :| FirstDead(k, pid, c) && k' == Reap(k, c);
      ShapeSize(k);
      ReapIs(k, c);
    } else if exists c: nat :: Wanted(k, pid, c) {
      NoneDead(k, pid, TASK_NUMBER);
      WaitKeeps(k, pid);
      WaitMoves(k, pid);
      MovedSleepers(k, Wait(k, pid), k.current, Waiting);
      SwitchSleepers(Wait(k, pid), k');
    }
  }

  lemma ListedBlocked(k: Kernel)
    requires Inv(k)
    ensures forall p: nat | p in k.blocked :: Is(k, p, Blocked) || Is(k, p, Waiting)
  {}

  lemma StepSleepers(k: Kernel, op: Op, k': Kernel)
    requires Inv(k) && Step(k, op, k') && op != Tick
    ensures forall p: nat | Is(k, p, Sleeping) :: Is(k', p, Sleeping) && Deadline(k', p) == Deadline(k, p)
    ensures k'.jiffies == k.jiffies
  {
    CurrentIs(k);
    LiveIs(k);
    ListedBlocked(k);
    hide Rest, Early, NoOtherRunning, Scheduled, Fork, Leave, ExitBlock, Wait, Sleep, Reap, Is, Deadline, Match,
         Present, Parent, Moved, Exiting;
    match op
    case Yield => SwitchSleepers(k, k');
    case BlockSelf =>
      SetStatusMoves(k, k.current, Blocked, Block(k));
      MovedSleepers(k, Block(k), k.current, Blocked);
      BlockKeeps(k);
      SwitchSleepers(Block(k), k');
    case UnblockTask(p) =>
      SetStatusMoves(k, p, Ready, k');
      MovedSleepers(k, k', p, Ready);
    case ForkSelf =>
      var i: nat :| FreeSlot(k, i) && k' == ForkInto(k, i);
      ForkSleepers(k, i);
    case WaitPid(pid) => WaitedSleepers(k, pid, k');
    case SleepFor(ms) =>
      SleepMoves(k, ms);
      MovedSleepers(k, Sleep(k, ms), k.current, Sleeping);
      SleepKeeps(k, ms);
      SwitchSleepers(Sleep(k, ms), k');
    case ExitSelf(code) =>
      LeaveSleepers(k, code, Died);
      LeaveKeeps(k, code, Died);
      SwitchSleepers(LeaveWith(k, Some(code)), k');
    case ExitWaits(code) =>
      ExitBlockKeeps(k, code);
      SwitchSleepers(ExitBlock(k, code), k');
    case ReleaseWaits =>
      SetStatusMoves(k, k.current, Blocked, Block(k));
      MovedSleepers(k, Block(k), k.current, Blocked);
      BlockKeeps(k);
      SwitchSleepers(Block(k), k');
    case ExitEnds =>
      LeaveSleepers(k, k.table[k.current].value.code, Running);
      LeaveKeeps(k, k.table[k.current].value.code, Running);
      SwitchSleepers(LeaveWith(k, None), k');
    case Tick =>
  }

  /** A run: states one step apart. */
  ghost predicate Run(ks: seq<Kernel>, ops: seq<Op>) {
    && |ks| == |ops| + 1 && Inv(ks[0])
    && forall i | 0 <= i < |ops| :: Step(ks[i], ops[i], ks[i + 1])
  }

  /** The invariant holds in every state of every run. */
  lemma {:induction false} RunSafe(ks: seq<Kernel>, ops: seq<Op>, i: nat)
    requires Run(ks, ops) && i < |ks|
    ensures Inv(ks[i])
  {
    hide Inv, Step;
    if i > 0 {
      RunSafe(ks, ops, i - 1);
      StepKeeps(ks[i - 1], ops[i - 1], ks[i]);
    }
  }

  /** A task asleep at the start of a run sleeps on until the clock shows its
      deadline and is up in the first state where it does. */
  lemma {:induction false} WokenOnTime(ks: seq<Kernel>, ops: seq<Op>, p: nat, i: nat)
    requires Run(ks, ops) && i < |ks| && Is(ks[0], p, Sleeping)
    requires forall j | 0 <= j < i :: ks[j].jiffies < Deadline(ks[0], p)
    ensures ks[i].jiffies < Deadline(ks[0], p) ==> Is(ks[i], p, Sleeping) && Deadline(ks[i], p) == Deadline(ks[0], p)
    ensures ks[i].jiffies >= Deadline(ks[0], p) ==>
      i > 0 && ks[i].jiffies == Deadline(ks[0], p) && (Is(ks[i], p, Ready) || Is(ks[i], p, Running))
  {
    hide Rest, NoOtherRunning, Step, Is, Deadline;
    if i > 0 {
      WokenOnTime(ks, ops, p, i - 1);
      RunSafe(ks, ops, i - 1);
      OneStepOfSleep(ks[i - 1], ops[i - 1], ks[i], p);
    }
  }

  lemma OneStepOfSleep(k: Kernel, op: Op, k': Kernel, p: nat)
    requires Inv(k) && Step(k, op, k') && Is(k, p, Sleeping) && k.jiffies < Deadline(k, p)
    ensures k'.jiffies < Deadline(k, p) ==> Is(k', p, Sleeping) && Deadline(k', p) == Deadline(k, p)
    ensures k'.jiffies >= Deadline(k, p) ==> k'.jiffies == Deadline(k, p) && (Is(k', p, Ready) || Is(k', p, Running))
  {
    if op == Tick {
      hide Inv, Ticked, Is, Deadline;
      TickSleepers(k, k');
    } else {
      hide Inv, Is, Deadline;
      StepSleepers(k, op, k');
    }
  }

  /** Given back once: a number that is in reaped stays there and no task bears it again. */
  lemma {:induction false} NeverBack(ks: seq<Kernel>, ops: seq<Op>, b: nat, i: nat)
    requires Run(ks, ops) && i < |ks| && b in ks[0].reaped
    ensures b in ks[i].reaped && forall p: nat | Present(ks[i], p) :: Born(ks[i], p) != b
  {
    RunSafe(ks, ops, i);
    if i > 0 {
      NeverBack(ks, ops, b, i - 1);
      RunSafe(ks, ops, i - 1);
      StepReaps(ks[i - 1], ops[i - 1], ks[i]);
    }
    hide WaitOk, ListsOk, Early, NoOtherRunning, Step;
  }

  /** Every task made is reaped once at most: no two steps of a run give back the slot of
      the same one. The slot itself, and with it the pid, does come back. */
  lemma ReapedOnce(ks: seq<Kernel>, ops: seq<Op>, b: nat, i: nat, j: nat)
    requires Run(ks, ops) && i < j < |ops| && b !in ks[i].reaped && b in ks[i + 1].reaped
    ensures b in ks[j].reaped
  {
    RunSafe(ks, ops, i + 1);
    assert Run(ks[i + 1..], ops[i + 1..]) by {
      hide Inv, Step;
    }
    NeverBack(ks[i + 1..], ops[i + 1..], b, j - i - 1);
  }

  lemma ScheduledReaps(k: Kernel, k': Kernel)
    requires Scheduled(k, k')
    ensures k'.reaped == k.reaped
  {}

  lemma StepReaps(k: Kernel, op: Op, k': Kernel)
    requires Inv(k) && Step(k, op, k')
    ensures k.reaped <= k'.reaped
  {
    hide Inv, Picked, Is, Match, Present, Scheduled, Waited, Ticked;
    match op
    case Yield => ScheduledReaps(k, k');
    case BlockSelf => ScheduledReaps(Block(k), k');
    case UnblockTask(p) =>
    case ForkSelf =>
    case ExitSelf(code) => ScheduledReaps(LeaveWith(k, Some(code)), k');
    case ExitWaits(code) => ScheduledReaps(ExitBlock(k, code), k');
    case ReleaseWaits => ScheduledReaps(Block(k), k');
    case ExitEnds => ScheduledReaps(LeaveWith(k, None), k');
    case WaitPid(pid) => WaitedReaps(k, pid, k');
    case SleepFor(ms) => ScheduledReaps(Sleep(k, ms), k');
    case Tick => TickReaps(k, k');
  }

  lemma WaitedReaps(k: Kernel, pid: int, k': Kernel)
    requires Waited(k, pid, k')
    ensures k.reaped <= k'.reaped
  {
    hide Picked, Wanted, Is;
  }

  lemma TickReaps(k: Kernel, k': Kernel)
    requires Inv(k) && Ticked(k, k')
    ensures k.reaped == k'.reaped
  {
    AdvanceKeeps(k);
    WakeExact(Advance(k));
    hide Inv, Rest, Early, NoOtherRunning, Picked, Wake, Is;
  }

  // ----- starting up -----

  /** task_init: the idle task, init and test, made in this order; the stack the
      kernel booted on belongs to no task. */
  function Boot(): Kernel {
    var made := (priority: int) => Some(Task(0, Ready, priority, priority, 0, 0, 0));
    Kernel(seq(TASK_NUMBER, i => if i == 0 then made(1) else if i < 3 then made(5) else None),
           [], [], TASK_NUMBER, 0, seq(TASK_NUMBER, i requires i >= 0 => if i < 3 then i else 0), 3, {}, {}, {})
  }

  /** The first schedule() makes the invariant hold. */
  lemma BootKeeps(r: nat)
    requires Picked(Boot(), r)
    ensures Inv(Switch(Boot(), r)) && r != 0
  {
    var k := Boot();
    assert forall p: nat :: Present(k, p) <==> p < 3;
    assert forall p: nat, s: Status :: Is(k, p, s) <==> p < 3 && s == Ready;
    assert forall p: nat :: Parent(k, p) == 0;
    assert forall p: nat | p < 3 :: Born(k, p) == p;
    assert Rest(k) && Early(k) && NoOtherRunning(k);
    assert Candidate(k, 1) && k.table[1].value.ticks == 5;
    SwitchKeeps(k, r);
  }

  /** The three tasks, each with a full slice. */
  lemma BootTasks(r: nat)
    requires r < 3
    ensures var k := Switch(Boot(), r);
            && (forall p: nat :: Present(k, p) <==> p < 3)
            && forall p: nat | p < 3 :: k.table[p].value.ticks == k.table[p].value.priority == if p == 0 then 1 else 5
  {}

  lemma BootPick(r: nat)
    requires Picked(Boot(), r)
    ensures r < 3
  {}

  // ----- preemption -----

  function TicksLeft(k: Kernel): int { if Present(k, k.current) then k.table[k.current].value.ticks else 0 }

  /** The clock preempts the running task exactly when it has one tick left, and gives it
      a new slice then; else it only takes a tick. */
  lemma TickPreempts(k: Kernel, k': Kernel)
    requires Inv(k) && Ticked(k, k')
    ensures TicksLeft(k) != 1 ==> k'.current == k.current && TicksLeft(k') == TicksLeft(k) - 1
    ensures TicksLeft(k) == 1 ==>
            Scheduled(Charge(Wake(Advance(k))), k')
            && TicksLeft(Charge(Wake(Advance(k)))) == k.table[k.current].value.priority
  {
    var k0 := Advance(k);
    AdvanceKeeps(k);
    WakeExact(k0);
    LiveIs(k0);
    assert Is(k, k.current, Running) && !Due(k0, k.current);
    hide Rest, Early, NoOtherRunning, Wake, Due;
  }

  /** A task that was woken has no ticks left, and while only the clock interrupts it no
      tick takes the processor from it. The code's count is 32 bits wide: it comes round
      to the value that preempts after 2^32 ticks, where the integers here do not. */
  lemma {:induction false} NeverPreempted(ks: seq<Kernel>, ops: seq<Op>, i: nat)
    requires Run(ks, ops) && i < |ks| && TicksLeft(ks[0]) <= 0 && forall j | 0 <= j < |ops| :: ops[j] == Tick
    ensures ks[i].current == ks[0].current && TicksLeft(ks[i]) == TicksLeft(ks[0]) - i
  {
    if i > 0 {
      NeverPreempted(ks, ops, i - 1);
      RunSafe(ks, ops, i - 1);
      assert Step(ks[i - 1], ops[i - 1], ks[i]);
      hide Inv, Ticked;
      TickPreempts(ks[i - 1], ks[i]);
    }
  }
}
