/** What task_exit owes a waiting parent, when it pays it, and a run in which it does not:
    inode write-back inside task_exit may wait for the disk, and that wait puts another
    status over DIED. */
module ExitProtocol {
  import opened Common
  import opened Tasks
  import opened TaskRuns

  // ----- what an exit owes its parent -----

  /** Whoever got through task_exit is dead until it is reaped; its parent can then have
      it, and with the invariant no task waits for it. */
  ghost predicate Protocol(k: Kernel) {
    && (forall p: nat | Present(k, p) && Born(k, p) in k.gone :: Is(k, p, Died))
    && (forall b | b in k.gone :: b < k.clock)
  }

  /** No exit wakeup is lost: nobody waits for a child that is through task_exit. */
  lemma NoLostExit(k: Kernel, p: nat, c: nat)
    requires Inv(k) && Protocol(k) && Is(k, p, Waiting) && Match(k, p, c)
    ensures Born(k, c) !in k.gone
  {}

  /** The dead stay dead, and nobody gets through task_exit. */
  ghost predicate DeadKept(k: Kernel, k': Kernel) {
    && k'.gone == k.gone && k'.clock == k.clock && k'.birth == k.birth
    && (forall p: nat | Present(k', p) :: Present(k, p))
    && (forall p: nat | Is(k, p, Died) && Present(k', p) :: Is(k', p, Died))
  }

  lemma DeadProtocol(k: Kernel, k': Kernel)
    requires Protocol(k) && DeadKept(k, k')
    ensures Protocol(k')
  {
    BornSame(k, k');
    hide Present, Is, Born;
  }

  lemma MovedDead(k: Kernel, k': Kernel, p: nat, s: Status)
    requires Moved(k, k', p, s) && !Is(k, p, Died) && k'.gone == k.gone
    ensures DeadKept(k, k')
  {
    hide Present, Is, Parent, Deadline, Match;
  }

  lemma DeadTwice(k: Kernel, k1: Kernel, k2: Kernel)
    requires DeadKept(k, k1) && DeadKept(k1, k2)
    ensures DeadKept(k, k2)
  {
    hide Present, Is;
  }

  lemma SwitchDead(k: Kernel, k': Kernel)
    requires Leaving(k) && Scheduled(k, k')
    ensures DeadKept(k, k')
  {
    var r: nat :| Picked(k, r) && k' == Switch(k, r);
    assert Shape(k);
    hide TreeOk, WaitOk, ListsOk, Early;
  }

  lemma TickDead(k: Kernel, k': Kernel)
    requires Inv(k) && Ticked(k, k')
    ensures DeadKept(k, k')
  {
    var k0, k1 := Advance(k), Wake(Advance(k));
    AdvanceKeeps(k);
    WakeExact(k0);
    LiveIs(k);
    LiveIs(k0);
    forall p: nat | Is(k, p, Died) ensures Is(k1, p, Died) {
      assert Is(k0, p, Died) && !Due(k0, p);
    }
    assert forall p: nat | Present(k1, p) :: Present(k, p);
    LiveIs(k1);
    ChargeMoves(k1);
    ChargeKeeps(k1);
    hide Rest, Early, NoOtherRunning, Wake, Advance, Due, Scheduled;
    assert DeadKept(k, k1);
    MovedDead(k1, Charge(k1), k1.current, Running);
    DeadTwice(k, k1, Charge(k1));
    hide Charge, DeadKept;
    if Spent(k1) {
      SwitchDead(Charge(k1), k');
      DeadTwice(k, Charge(k1), k');
    }
  }

  lemma WaitedDead(k: Kernel, pid: int, k': Kernel)
    requires Inv(k) && k.current != 0 && Waited(k, pid, k')
    ensures DeadKept(k, k')
  {
    LiveIs(k);
    hide Early, NoOtherRunning, WaitOk, TreeOk, Shape, Scheduled, Is, Deadline, Match, Present, Parent, Moved, Wanted;
    if exists c: nat :: FirstDead(k, pid, c) {
      var c: nat :| FirstDead(k, pid, c) && k' == Reap(k, c);
      ShapeSize(k);
      ReapIs(k, c);
    } else if exists c: nat :: Wanted(k, pid, c) {
      NoneDead(k, pid, TASK_NUMBER);
      WaitKeeps(k, pid);
      WaitMoves(k, pid);
      MovedDead(k, Wait(k, pid), k.current, Waiting);
      SwitchDead(Wait(k, pid), k');
      DeadTwice(k, Wait(k, pid), k');
    }
  }

  lemma ForkProtocol(k: Kernel, i: nat)
    requires Inv(k) && Protocol(k) && FreeSlot(k, i)
    ensures Protocol(ForkInto(k, i))
  {
    var k' := ForkInto(k, i);
    assert forall p: nat | p != i :: Present(k', p) == Present(k, p) && Born(k', p) == Born(k, p);
    assert forall p: nat, s: Status | p != i :: Is(k', p, s) == Is(k, p, s);
    assert Born(k', i) == k.clock;
    hide Present, Is, Born, Inv;
  }

  lemma LeaveIs(k: Kernel, code: int, s: Status)
    requires Inv(k) && k.current != 0 && (s == Died || s == Running)
    ensures var k' := Leave(k, code, s);
            && k'.gone == k.gone + {Born(k, k.current)} && k'.clock == k.clock
            && (forall q: nat :: Present(k', q) == Present(k, q))
            && (forall q: nat :: Born(k', q) == Born(k, q))
            && (forall q: nat | q != k.current :: Is(k', q, Died) == Is(k, q, Died))
            && (Is(k', k.current, Died) <==> s == Died)
  {
    var k1 := Depart(k, code, s);
    var g, me := Parent(k, k.current), k.current;
    var k' := Leave(k, code, s);
    DepartIs(k, code, s);
    LiveIs(k1);
    if Wakes(k1, g, me) { SetStatusMoves(k1, g, Ready, Unblock(k1, g)); }
    hide Inv, Depart;
  }

  /** Leaving dead settles what an exit owes; leaving after a wait breaks it. */
  lemma LeaveProtocol(k: Kernel, code: int, s: Status)
    requires Inv(k) && Protocol(k) && k.current != 0 && (s == Died || s == Running)
    ensures Protocol(Leave(k, code, s)) <==> s == Died
  {
    LeaveIs(k, code, s);
    BirthFacts(k);
    hide Present, Is, Born, Inv, Leave;
  }

  lemma BirthFacts(k: Kernel)
    requires Inv(k)
    ensures Present(k, k.current) && Born(k, k.current) < k.clock
    ensures forall q: nat | Present(k, q) && Born(k, q) == Born(k, k.current) :: q == k.current
  {}

  lemma LeaveRunning(k: Kernel, code: int, s: Status, k': Kernel)
    requires Inv(k) && k.current != 0 && (s == Died || s == Running) && Scheduled(Leave(k, code, s), k')
    ensures Protocol(k') <==> Protocol(Leave(k, code, s))
  {
    LeaveKeeps(k, code, s);
    SwitchDead(Leave(k, code, s), k');
    if Protocol(Leave(k, code, s)) {
      DeadProtocol(Leave(k, code, s), k');
    } else {
      SwitchLiving(Leave(k, code, s), k');
    }
  }

  /** schedule() kills nobody either. */
  lemma SwitchLiving(k: Kernel, k': Kernel)
    requires Scheduled(k, k') && !Protocol(k)
    ensures !Protocol(k')
  {
    var r: nat :| Picked(k, r) && k' == Switch(k, r);
    assert forall p: nat :: Present(k', p) == Present(k, p) && Born(k', p) == Born(k, p);
    assert forall p: nat | Is(k', p, Died) :: Is(k, p, Died);
    hide Present, Is, Born, Picked, Switch;
  }

  /** The promise of exit is kept by every step but one: the end of a task_exit that had
      to wait, whose task is no longer marked dead. */
  lemma StepProtocol(k: Kernel, op: Op, k': Kernel)
    requires Inv(k) && Protocol(k) && Step(k, op, k')
    ensures Protocol(k') <==> op != ExitEnds
  {
    LiveIs(k);
    assert Is(k, k.current, Running) && Present(k, k.current) && k.current != 0 ==> !Is(k, k.current, Died);
    hide Inv, Protocol, Scheduled, Ticked, Leave, Is, Exiting, DeadKept, Moved;
    match op
    case Yield => YieldDead(k, k');
    case BlockSelf => BlockDead(k, k');
    case UnblockTask(p) => UnblockDead(k, p);
    case ForkSelf =>
      var i: nat :| FreeSlot(k, i) && k' == ForkInto(k, i);
      ForkProtocol(k, i);
    case WaitPid(pid) =>
      WaitedDead(k, pid, k');
      DeadProtocol(k, k');
    case SleepFor(ms) => SleepDead(k, ms, k');
    case Tick =>
      TickDead(k, k');
      DeadProtocol(k, k');
    case ExitSelf(code) =>
      LeaveProtocol(k, code, Died);
      LeaveRunning(k, code, Died, k');
    case ExitWaits(code) => ExitBlockDead(k, code, k');
    case ReleaseWaits => BlockDead(k, k');
    case ExitEnds => EndProtocol(k, k');
  }

  lemma YieldDead(k: Kernel, k': Kernel)
    requires Inv(k) && Protocol(k) && Scheduled(k, k')
    ensures Protocol(k')
  {
    hide Protocol;
    SwitchDead(k, k');
    DeadProtocol(k, k');
  }

  lemma BlockDead(k: Kernel, k': Kernel)
    requires Inv(k) && Protocol(k) && k.current != 0 && Scheduled(Block(k), k')
    ensures Protocol(k')
  {
    LiveIs(k);
    SetStatusMoves(k, k.current, Blocked, Block(k));
    hide Protocol, DeadKept, Moved;
    BlockKeeps(k);
    MovedDead(k, Block(k), k.current, Blocked);
    SwitchDead(Block(k), k');
    DeadProtocol(k, Block(k));
    DeadProtocol(Block(k), k');
  }

  lemma UnblockDead(k: Kernel, p: nat)
    requires Inv(k) && Protocol(k) && p in k.blocked
    ensures Protocol(Unblock(k, p))
  {
    LiveIs(k);
    assert Is(k, p, Blocked) || Is(k, p, Waiting);
    SetStatusMoves(k, p, Ready, Unblock(k, p));
    hide Protocol, DeadKept, Moved;
    MovedDead(k, Unblock(k, p), p, Ready);
    DeadProtocol(k, Unblock(k, p));
  }

  lemma SleepDead(k: Kernel, ms: nat, k': Kernel)
    requires Inv(k) && Protocol(k) && k.current != 0 && Scheduled(Sleep(k, ms), k')
    ensures Protocol(k')
  {
    LiveIs(k);
    SleepMoves(k, ms);
    hide Protocol, DeadKept, Moved;
    SleepKeeps(k, ms);
    MovedDead(k, Sleep(k, ms), k.current, Sleeping);
    SwitchDead(Sleep(k, ms), k');
    DeadProtocol(k, Sleep(k, ms));
    DeadProtocol(Sleep(k, ms), k');
  }

  lemma ExitBlockDead(k: Kernel, code: int, k': Kernel)
    requires Inv(k) && Protocol(k) && k.current != 0 && Scheduled(ExitBlock(k, code), k')
    ensures Protocol(k')
  {
    BlockedMoves(k, code);
    LiveIs(k);
    ExitBlockKeeps(k, code);
    hide *;
    MovedDead(k, ExitBlock(k, code), k.current, Blocked);
    SwitchDead(ExitBlock(k, code), k');
    DeadProtocol(k, ExitBlock(k, code));
    DeadProtocol(ExitBlock(k, code), k');
  }

  lemma BlockedMoves(k: Kernel, code: int)
    requires Inv(k)
    ensures Moved(k, ExitBlock(k, code), k.current, Blocked)
  {}

  lemma EndProtocol(k: Kernel, k': Kernel)
    requires Inv(k) && Protocol(k) && k.current != 0 && Scheduled(LeaveWith(k, None), k')
    ensures !Protocol(k')
  {
    var code := k.table[k.current].value.code;
    hide Protocol, Leave;
    LeaveProtocol(k, code, Running);
    LeaveRunning(k, code, Running, k');
  }

  /** Over a run every exit reaches its parent if and only if none of them had to wait. */
  lemma {:induction false} ProtocolHolds(ks: seq<Kernel>, ops: seq<Op>, i: nat)
    requires Run(ks, ops) && Protocol(ks[0]) && i <= |ops|
    ensures (forall j | 0 <= j <= i :: Protocol(ks[j])) <==> (forall j | 0 <= j < i :: ops[j] != ExitEnds)
  {
    hide Inv, Step, Protocol;
    if i > 0 {
      ProtocolHolds(ks, ops, i - 1);
      RunSafe(ks, ops, i - 1);
      if Protocol(ks[i - 1]) { StepProtocol(ks[i - 1], ops[i - 1], ks[i]); }
      assert (forall j | 0 <= j <= i :: Protocol(ks[j])) <==>
        Protocol(ks[i]) && forall j | 0 <= j <= i - 1 :: Protocol(ks[j]);
      assert (forall j | 0 <= j < i :: ops[j] != ExitEnds) <==>
        ops[i - 1] != ExitEnds && forall j | 0 <= j < i - 1 :: ops[j] != ExitEnds;
    }
  }

  // ----- a run that loses an exit -----

  function T(ppid: nat, status: Status, code: int, waitpid: int): Task { Task(ppid, status, 5, 5, 0, code, waitpid) }

  function Idle(): Task { Task(0, Ready, 1, 1, 0, 0, 0) }

  /** The start-up tasks and perhaps a child of init in slot 3, with no time gone by. */
  function Small(t1: Task, t2: Task, t3: Option<Task>, blocked: seq<nat>, current: nat, exiting: set<nat>,
          gone: set<nat>): Kernel {
    Kernel(seq(TASK_NUMBER, i requires i >= 0 => if i == 0 then Some(Idle()) else if i == 1 then Some(t1)
      else if i == 2 then Some(t2)
                                                 else if i == 3 then t3 else None),
           blocked, [], current, 0, seq(TASK_NUMBER, i requires i >= 0 => if i < 3 || (i == 3 && t3.Some?) then i
             else 0),
           if t3.Some? then 4 else 3, {}, exiting, gone)
  }

  /** With all time slices equal any of the ready tasks may be picked before idle. */
  lemma SmallPick(k: Kernel, r: nat)
    requires exists t1: Task, t2: Task, t3: Option<Task> ::
             k == Small(t1, t2, t3, k.blocked, k.current, k.exiting, k.gone)
               && t1.ticks == t2.ticks == 5 && t1.jiffies == t2.jiffies == 0
                  && (t3.Some? ==> t3.value.ticks == 5 && t3.value.jiffies == 0)
    requires 0 < r < 4 && Candidate(k, r)
    ensures Picked(k, r)
  {
    forall q: nat | Candidate(k, q) ensures Before(k.table[r].value, k.table[q].value) {
      assert q < 4;
    }
  }

  lemma SmallSwitch(t1: Task, t2: Task, t3: Option<Task>, blocked: seq<nat>, current: nat, exiting: set<nat>,
          gone: set<nat>, r: nat)
    requires t1.ticks == t2.ticks == 5 && t1.jiffies == t2.jiffies == 0
             && (t3.Some? ==> t3.value.ticks == 5 && t3.value.jiffies == 0)
    requires 0 < r < 4 && 0 < current < 4 && (current == 3 || r == 3 ==> t3.Some?)
    requires Candidate(Small(t1, t2, t3, blocked, current, exiting, gone), r)
    ensures Scheduled(Small(t1, t2, t3, blocked, current, exiting, gone),
                      Small(After(t1, 1, current, r), After(t2, 2, current, r), if t3.Some?
                        then Some(After(t3.value, 3, current, r)) else None,
                            blocked, r, exiting, gone))
  {
    var k := Small(t1, t2, t3, blocked, current, exiting, gone);
    var k' := Small(After(t1, 1, current, r), After(t2, 2, current, r), if t3.Some?
      then Some(After(t3.value, 3, current, r)) else None,
                    blocked, r, exiting, gone);
    SmallPick(k, r);
    forall i | 0 <= i < TASK_NUMBER ensures Switch(k, r).table[i] == k'.table[i] {}
    assert Switch(k, r) == k';
  }

  /** Task p of a Small kernel once r runs instead of `from`. */
  function After(t: Task, p: nat, from: nat, r: nat): Task {
    if p == r then t.(status := Running) else if p == from && t.status == Running then t.(status := Ready) else t
  }

  /** init forks, waits for the child, and the child's exit has to wait for the disk: the
      states of the run, one operation apart. */
  function LostRun(): seq<Kernel> {
    var test, child := T(0, Ready, 0, 0), T(1, Ready, 0, 0);
    var waiting := T(0, Waiting, 0, 3);
    [Small(T(0, Running, 0, 0), test, None, [], 1, {}, {}),
     Small(T(0, Running, 0, 0), test, Some(child), [], 1, {}, {}),
     Small(waiting, test, Some(child.(status := Running)), [1], 3, {}, {}),
     Small(waiting, test.(status := Running), Some(T(1, Blocked, 7, 0)), [3, 1], 2, {3}, {}),
     Small(waiting, test.(status := Running), Some(T(1, Ready, 7, 0)), [1], 2, {3}, {}),
     Small(waiting, test, Some(T(1, Running, 7, 0)), [1], 3, {3}, {}),
     Small(waiting.(status := Running), test, Some(T(1, Ready, 7, 0)), [], 1, {}, {3}),
     Small(waiting, test.(status := Running), Some(T(1, Ready, 7, 0)), [1], 2, {}, {3})]
  }

  function LostOps(): seq<Op> { [ForkSelf, WaitPid(3), ExitWaits(7), UnblockTask(3), Yield, ExitEnds, WaitPid(3)] }

  lemma LostStart()
    ensures Inv(LostRun()[0]) && Protocol(LostRun()[0])
  {
    var k := Boot();
    assert forall p: nat, s: Status :: Is(k, p, s) <==> p < 3 && s == Ready;
    assert forall q: nat | Candidate(k, q) :: q < 3;
    assert Candidate(k, 1) && Picked(k, 1);
    BootKeeps(1);
    assert Switch(k, 1) == LostRun()[0];
  }

  lemma LostForkAndWait()
    ensures Step(LostRun()[0], ForkSelf, LostRun()[1]) && Step(LostRun()[1], WaitPid(3), LostRun()[2])
  {
    var s := LostRun();
    assert FreeSlot(s[0], 3);
    assert ForkInto(s[0], 3) == s[1];
    assert Wanted(s[1], 3, 3) && forall c: nat :: !FirstDead(s[1], 3, c);
    var w := Small(T(0, Waiting, 0, 3), T(0, Ready, 0, 0), Some(T(1, Ready, 0, 0)), [1], 1, {}, {});
    assert Wait(s[1], 3) == w;
    SmallSwitch(T(0, Waiting, 0, 3), T(0, Ready, 0, 0), Some(T(1, Ready, 0, 0)), [1], 1, {}, {}, 3);
  }

  lemma LostExit()
    ensures Step(LostRun()[2], ExitWaits(7), LostRun()[3]) && Step(LostRun()[3], UnblockTask(3), LostRun()[4])
    ensures Step(LostRun()[4], Yield, LostRun()[5])
  {
    var s := LostRun();
    var b := Small(T(0, Waiting, 0, 3), T(0, Ready, 0, 0), Some(T(1, Blocked, 7, 0)), [3, 1], 3, {3}, {});
    assert ExitBlock(s[2], 7) == b;
    SmallSwitch(T(0, Waiting, 0, 3), T(0, Ready, 0, 0), Some(T(1, Blocked, 7, 0)), [3, 1], 3, {3}, {}, 2);
    assert Unblock(s[3], 3) == s[4];
    SmallSwitch(T(0, Waiting, 0, 3), T(0, Running, 0, 0), Some(T(1, Ready, 7, 0)), [1], 2, {3}, {}, 3);
  }

  lemma LostEnd()
    ensures Step(LostRun()[5], ExitEnds, LostRun()[6])
  {
    var s := LostRun();
    var l := Small(T(0, Ready, 0, 3), T(0, Ready, 0, 0), Some(T(1, Running, 7, 0)), [], 3, {}, {3});
    assert LeaveWith(s[5], None) == l;
    SmallSwitch(T(0, Ready, 0, 3), T(0, Ready, 0, 0), Some(T(1, Running, 7, 0)), [], 3, {}, {3}, 1);
  }

  lemma LostWait()
    ensures Step(LostRun()[6], WaitPid(3), LostRun()[7])
  {
    var s := LostRun();
    assert Wanted(s[6], 3, 3) && forall c: nat :: !FirstDead(s[6], 3, c);
    var w := Small(T(0, Waiting, 0, 3), T(0, Ready, 0, 0), Some(T(1, Ready, 7, 0)), [1], 1, {}, {3});
    assert Wait(s[6], 3) == w;
    SmallSwitch(T(0, Waiting, 0, 3), T(0, Ready, 0, 0), Some(T(1, Ready, 7, 0)), [1], 1, {}, {3}, 2);
  }

  /** From start-up, a run at the end of which a parent sleeps for a child that is
      through task_exit. */
  lemma ExitWakeupLost()
    ensures Run(LostRun(), LostOps()) && Protocol(LostRun()[0])
    ensures var k := LostRun()[7]; Is(k, 1, Waiting) && Match(k, 1, 3) && Born(k, 3) in k.gone && !Protocol(k)
  {
    LostState();
    hide Inv, Step, LostRun, Protocol, Born, Match, Is;
    LostStart();
    LostForkAndWait();
    LostExit();
    LostEnd();
    LostWait();
  }

  lemma LostState()
    ensures |LostRun()| == 8 && |LostOps()| == 7
    ensures var k := LostRun()[7]; Is(k, 1, Waiting) && Match(k, 1, 3) && Born(k, 3) in k.gone && !Protocol(k)
  {
    var k := LostRun()[7];
    assert Present(k, 3) && Born(k, 3) in k.gone && !Is(k, 3, Died);
  }
}
