/** src/kernel/task.c and the clock interrupt as code: the global task table and
    lists, changed in place. Each method is one step of module Tasks. */
module Scheduler {
  import opened Common
  import opened Sequences
  import opened TaskLaws
  import opened TaskRuns
  import opened Tasks

  /** What one round of waitpid came to; Asleep means the caller runs it again
      when it is next scheduled. */
  datatype WaitResult = Reaped(pid: nat, code: int) | NoChild | Asleep

  class TaskTable {
    var table: seq<Option<Task>>
    var blocked: seq<nat>
    var sleepers: seq<nat>
    var current: nat
    var jiffies: nat
    ghost var birth: seq<nat>
    ghost var clock: nat
    ghost var reaped: set<nat>
    ghost var exiting: set<nat>
    ghost var gone: set<nat>

    ghost function State(): Kernel
      reads this
    {
      Kernel(table, blocked, sleepers, current, jiffies, birth, clock, reaped, exiting, gone)
    }

    constructor ()
      ensures Inv(State()) && fresh(this) && Scheduled(TaskRuns.Boot(), State()) && current != 0 && jiffies == 0
      ensures (forall p: nat :: Present(State(), p) <==> p < 3)
              && forall p: nat | p < 3 :: table[p].value.ticks == table[p].value.priority == if p == 0 then 1 else 5
    {
      var boot := TaskRuns.Boot();
      table, blocked, sleepers, current, jiffies := boot.table, boot.blocked, boot.sleepers, boot.current, boot.jiffies;
      birth, clock, reaped := boot.birth, boot.clock, boot.reaped;
      exiting, gone := boot.exiting, boot.gone;
      new;
      ghost var k := State();
      Schedule();
      ghost var r: nat :| Picked(k, r) && State() == Switch(k, r);
      hide Inv, Picked, Switch, Scheduled;
      BootKeeps(r);
      BootPick(r);
      BootTasks(r);
    }

    /** The task with most ticks left, then the least recently run, then the
        lowest slot; else the idle task. */
    method SearchTask() returns (r: nat)
      requires |table| == TASK_NUMBER
      ensures Picked(State(), r) && r < TASK_NUMBER
      ensures forall q: nat | q < |table| && q != current && Is(State(), q, Ready) ::
                && r != current && Is(State(), r, Ready)
                && var a, b := table[r].value, table[q].value;
                   && (a.ticks > b.ticks || (a.ticks == b.ticks && a.jiffies <= b.jiffies))
                   && (q < r ==> a.ticks > b.ticks || a.jiffies < b.jiffies)
    {
      var best: Option<nat> := None;
      for i := 0 to TASK_NUMBER
        invariant best.None? ==> forall q: nat | q < i :: !Candidate(State(), q)
        invariant best.Some? ==> best.value < i && Candidate(State(), best.value)
        invariant best.Some? ==> forall q: nat | q < i && Candidate(State(), q) ::
                  Before(table[best.value].value, table[q].value)
        invariant best.Some? ==> forall q: nat | q < best.value && Candidate(State(), q) ::
                  !Before(table[q].value, table[best.value].value)
      {
        if table[i].Some? && table[i].value.status == Ready && i != current {
          if best.None? {
            best := Some(i);
          } else {
            var b := table[best.value].value;
            var t := table[i].value;
            if b.ticks < t.ticks || (b.ticks == t.ticks && t.jiffies < b.jiffies) {
              best := Some(i);
            }
          }
        }
      }
      r := if best.Some? then best.value else 0;
      assert forall q: nat | q < |table| && q != current && Is(State(), q, Ready) :: Candidate(State(), q);
    }

    method Schedule()
      requires |table| == TASK_NUMBER
      modifies this
      ensures Scheduled(old(State()), State())
    {
      var next := SearchTask();
      ghost var k := State();
      if current < |table| && table[current].Some? && table[current].value.status == Running {
        table := table[current := Some(table[current].value.(status := Ready))];
      }
      if table[next].Some? {
        table := table[next := Some(table[next].value.(status := Running))];
      }
      current := next;
      assert State() == Switch(k, next);
    }

    /** task_block of the running task on block_list. */
    method BlockCurrent()
      requires Inv(State()) && current != 0 && !Exiting(State())
      modifies this
      ensures Inv(State()) && Step(old(State()), BlockSelf, State()) && Is(State(), old(current), Blocked)
    {
      ghost var k := State();
      blocked := [current] + blocked;
      table := table[current := Some(table[current].value.(status := Blocked))];
      assert State() == Block(k);
      BlockKeeps(k);
      Schedule();
      ScheduledKeeps(Block(k), State());
      BlockLaw(k, BlockSelf, State());
    }

    method Take(p: nat)
      requires p < |table| && table[p].Some?
      modifies this
      ensures State() == Unblock(old(State()), p)
    {
      blocked := Without(blocked, p);
      table := table[p := Some(table[p].value.(status := Ready))];
    }

    /** task_unblock of a task on block_list. */
    method UnblockOne(p: nat)
      requires Inv(State()) && p in blocked
      modifies this
      ensures Inv(State()) && Step(old(State()), UnblockTask(p), State()) && Is(State(), p, Ready)
    {
      ghost var k := State();
      UnblockKeeps(k, p);
      Take(p);
    }

    method FindFree() returns (slot: Option<nat>)
      requires |table| == TASK_NUMBER
      ensures slot.Some? ==> FreeSlot(State(), slot.value)
      ensures slot.None? ==> forall i: nat | i < TASK_NUMBER :: Present(State(), i)
    {
      for i := 0 to TASK_NUMBER
        invariant forall j: nat | j < i :: Present(State(), j)
      {
        if table[i].None? {
          return Some(i);
        }
      }
      return None;
    }

    /** task_fork; None stands for the panic when all slots are taken. */
    method ForkTask() returns (pid: Option<nat>)
      requires Inv(State()) && !Exiting(State())
      modifies this
      ensures Inv(State())
      ensures pid.None? <==> forall i: nat | i < TASK_NUMBER :: Present(old(State()), i)
      ensures pid.None? ==> State() == old(State())
      ensures pid.Some? ==> Step(old(State()), ForkSelf, State()) && FreeSlot(old(State()), pid.value)
      ensures pid.Some? ==>
                && Is(State(), pid.value, Ready) && Parent(State(), pid.value) == current == old(current)
                && current < |table| && table[current].Some? && table[current] == old(table[current])
                && table[pid.value].value.ticks == table[pid.value].value.priority == table[current].value.priority
    {
      ghost var k := State();
      pid := FindFree();
      if pid.Some? {
        var i := pid.value;
        assert !Present(k, i);
        var me := table[current].value;
        table := table[i := Some(me.(ppid := current, ticks := me.priority, status := Ready))];
        birth := birth[i := clock];
        clock := clock + 1;
        assert State() == Fork(k, i) == ForkInto(k, i);
        ForkKeeps(k, i);
      }
    }

    /** task_exit from the loop over the children to schedule(); the running task has
        status s and its exit code by then. */
    method FinishExit(ghost k: Kernel, code: int, s: Status)
      requires Inv(k) && k.current != 0 && (s == Died || s == Running)
      requires State() == k.(table := k.table[k.current := Some(k.table[k.current].value.(status := s, code := code))])
      modifies this
      ensures Inv(State()) && Scheduled(Leave(k, code, s), State())
    {
      InvFacts(k);
      var g := table[current].value.ppid;
      Reparent(current, g);
      DepartParent(k, code, s);
      assert table == Depart(k, code, s).table;
      assert State() == Depart(k, code, s);
      WakeParent(g);
      exiting := exiting - {birth[current]};
      gone := gone + {birth[current]};
      assert State() == Leave(k, code, s);
      LeaveKeeps(k, code, s);
      LeaveSize(k, code, s);
      hide Inv, Leave, Leaving;
      Schedule();
      ScheduledKeeps(Leave(k, code, s), State());
    }

    /** The loop over the children. */
    method Reparent(from: nat, to: nat)
      requires |table| == TASK_NUMBER
      modifies this`table
      ensures |table| == TASK_NUMBER && forall i | 0 <= i < TASK_NUMBER :: table[i] == Adopt(old(table)[i], from, to)
    {
      for i := 0 to TASK_NUMBER
        invariant |table| == TASK_NUMBER
        invariant forall j | 0 <= j < i :: table[j] == Adopt(old(table)[j], from, to)
        invariant forall j | i <= j < TASK_NUMBER :: table[j] == old(table)[j]
      {
        if table[i].Some? && table[i].value.ppid == from {
          table := table[i := Some(table[i].value.(ppid := to))];
        }
      }
    }

    /** The wakeup of the parent. */
    method WakeParent(g: nat)
      requires g < |table| && table[g].Some?
      modifies this
      ensures State() == if Wakes(old(State()), g, old(current)) then Unblock(old(State()), g) else old(State())
    {
      var parent := table[g].value;
      if parent.status == Waiting && (parent.waitpid == ANY || parent.waitpid == current) {
        Take(g);
      }
    }

    /** task_exit when nothing it releases has to wait. */
    method ExitTask(code: int)
      requires Inv(State()) && current != 0 && !Exiting(State())
      modifies this
      ensures Inv(State()) && Step(old(State()), ExitSelf(code), State())
      ensures Is(State(), old(current), Died) && table[old(current)].value.code == code
    {
      ghost var k := State();
      InvFacts(k);
      hide Inv, Leave;
      table := table[current := Some(table[current].value.(status := Died, code := code))];
      FinishExit(k, code, Died);
      LeaveLaw(k, ExitSelf(code), State());
    }

    /** task_exit up to the first wait inside a release: the task is marked dead, then
        task_block puts BLOCKED over the mark. */
    method ExitWaitsForDisk(code: int)
      requires Inv(State()) && current != 0 && !Exiting(State())
      modifies this
      ensures Inv(State()) && Step(old(State()), ExitWaits(code), State())
      ensures Is(State(), old(current), Blocked) && table[old(current)].value.code == code
    {
      ghost var k := State();
      InvFacts(k);
      ExitBlockKeeps(k, code);
      hide Inv, Leaving;
      table := table[current := Some(table[current].value.(status := Died, code := code))];
      exiting := exiting + {birth[current]};
      blocked := [current] + blocked;
      table := table[current := Some(table[current].value.(status := Blocked))];
      assert State() == ExitBlock(k, code);
      Schedule();
      ScheduledKeeps(ExitBlock(k, code), State());
      ExitWaitsLaw(k, code, State());
    }

    /** A further wait inside a release. */
    method ExitWaitsAgain()
      requires Inv(State()) && current != 0 && Exiting(State())
      modifies this
      ensures Inv(State()) && Step(old(State()), ReleaseWaits, State())
    {
      ghost var k := State();
      InvFacts(k);
      BlockKeeps(k);
      hide Inv, Leaving;
      blocked := [current] + blocked;
      table := table[current := Some(table[current].value.(status := Blocked))];
      assert State() == Block(k);
      Schedule();
      ScheduledKeeps(Block(k), State());
    }

    /** The end of a task_exit that had to wait: the task is running, not dead. */
    method ExitFinally()
      requires Inv(State()) && current != 0 && Exiting(State())
      modifies this
      ensures Inv(State()) && Step(old(State()), ExitEnds, State())
    {
      ghost var k := State();
      InvFacts(k);
      hide Inv, Leave;
      var code := table[current].value.code;
      assert table == table[current := Some(table[current].value.(status := Running, code := code))];
      FinishExit(k, code, Running);
    }

    /** The scan of task_waitpid: the first dead child wanted, else whether there is any. */
    method FindDead(pid: int) returns (dead: Option<nat>, hasChild: bool)
      requires |table| == TASK_NUMBER
      ensures dead.Some? ==> FirstDead(State(), pid, dead.value)
      ensures dead.None? ==> forall c: nat | Wanted(State(), pid, c) :: !Is(State(), c, Died)
      ensures dead.None? ==> (hasChild <==> exists c: nat :: Wanted(State(), pid, c))
    {
      hasChild := false;
      for i := 2 to TASK_NUMBER
        invariant forall c: nat | c < i && Wanted(State(), pid, c) :: !Is(State(), c, Died)
        invariant hasChild <==> exists c: nat :: c < i && Wanted(State(), pid, c)
      {
        if table[i].Some? && table[i].value.ppid == current && (pid == i || pid == ANY) {
          assert Wanted(State(), pid, i);
          if table[i].value.status == Died {
            return Some(i), hasChild;
          }
          hasChild := true;
        }
      }
      dead := None;
    }

    method GiveBack(c: nat)
      requires c < |table| == |birth|
      modifies this
      ensures State() == Reap(old(State()), c)
    {
      reaped := reaped + {birth[c]};
      table := table[c := None];
    }

    /** task_block of the running task as waiting for pid, up to schedule(). */
    method StartWait(pid: int)
      requires current < |table| && table[current].Some?
      modifies this
      ensures State() == Wait(old(State()), pid)
    {
      table := table[current := Some(table[current].value.(waitpid := pid, status := Waiting))];
      blocked := [current] + blocked;
    }

    /** One round of task_waitpid. */
    method WaitPidOnce(pid: int) returns (r: WaitResult)
      requires Inv(State()) && current != 0 && !Exiting(State())
      modifies this
      ensures Inv(State()) && Step(old(State()), WaitPid(pid), State())
      ensures r.Reaped? ==> FirstDead(old(State()), pid, r.pid) && State() == Reap(old(State()), r.pid)
                            && r.code == old(table)[r.pid].value.code
      ensures r.Reaped? ==>
                && r.pid >= 2 && Parent(old(State()), r.pid) == current == old(current)
                && (pid == ANY || pid == r.pid)
                && forall d: nat | 2 <= d < r.pid && Is(old(State()), d, Died) && (pid == ANY || pid == d) ::
                     Parent(old(State()), d) != current
      ensures r.NoChild? ==> State() == old(State()) && forall c: nat :: !Wanted(old(State()), pid, c)
      ensures r.Asleep? ==>
              (exists c: nat :: Wanted(old(State()), pid, c)) && Scheduled(Wait(old(State()), pid), State())
    {
      ghost var k := State();
      var dead, hasChild := FindDead(pid);
      if dead.Some? {
        r := Reaped(dead.value, table[dead.value].value.code);
        ReapKeeps(k, pid, dead.value);
        GiveBack(dead.value);
      } else if hasChild {
        StartWait(pid);
        WaitKeeps(k, pid);
        Schedule();
        ScheduledKeeps(Wait(k, pid), State());
        r := Asleep;
      } else {
        r := NoChild;
      }
    }

    /** The search of list_insert_sort. */
    method FindPlace(deadline: int) returns (pos: nat)
      requires forall i | 0 <= i < |sleepers| :: Present(State(), sleepers[i])
      ensures pos == InsertPos(Keys(State()), deadline)
    {
      pos := 0;
      while pos < |sleepers| && table[sleepers[pos]].value.ticks <= deadline
        invariant pos <= |sleepers| && forall i | 0 <= i < pos :: Keys(State())[i] <= deadline
      {
        pos := pos + 1;
      }
      FirstLarger(Keys(State()), deadline, pos);
    }

    /** task_sleep up to schedule(). */
    method StartSleep(ms: nat)
      requires current < |table| && table[current].Some?
      requires forall i | 0 <= i < |sleepers| :: Present(State(), sleepers[i])
      modifies this
      ensures State() == Sleep(old(State()), ms)
    {
      var ticks := ms / JIFFY;
      ticks := if ticks > 0 then ticks else 1;
      var deadline := jiffies + ticks;
      var pos := FindPlace(deadline);
      sleepers := InsertAt(sleepers, pos, current);
      table := table[current := Some(table[current].value.(ticks := deadline, status := Sleeping))];
    }

    /** task_sleep. */
    method SleepTask(ms: nat)
      requires Inv(State()) && current != 0 && !Exiting(State())
      modifies this
      ensures Inv(State()) && Step(old(State()), SleepFor(ms), State()) && Is(State(), old(current), Sleeping)
      ensures Deadline(State(), old(current)) == jiffies + (if ms < 10 then 1 else ms / 10) && jiffies == old(jiffies)
    {
      ghost var k := State();
      InvFacts(k);
      SleepKeeps(k, ms);
      StartSleep(ms);
      Schedule();
      ScheduledKeeps(Sleep(k, ms), State());
      SleepStarts(k, ms, State());
      SleepLaw(k, ms, State());
    }

    /** task_wakeup. */
    method Wakeup()
      requires Rest(State()) && NoOtherRunning(State()) && Is(State(), current, Running)
      modifies this
      ensures State() == Wake(old(State()))
    {
      ghost var k := State();
      FirstSleeper(k);
      while sleepers != [] && table[sleepers[0]].value.ticks <= jiffies
        invariant Rest(State()) && NoOtherRunning(State()) && Is(State(), current, Running)
        invariant sleepers != [] ==> Present(State(), sleepers[0])
        invariant Wake(State()) == Wake(k)
        decreases |sleepers|
      {
        ghost var s := State();
        WakeOneLists(s);
        WakeOneKeeps(s);
        var p := sleepers[0];
        table := table[p := Some(table[p].value.(ticks := 0, status := Ready))];
        sleepers := sleepers[1..];
        assert State() == WakeOne(s);
        FirstSleeper(State());
      }
    }

    /** clock_handler's charge to the running task. */
    method ChargeCurrent() returns (spent: bool)
      requires current < |table| && table[current].Some?
      modifies this
      ensures State() == Charge(old(State())) && spent == Spent(old(State()))
    {
      var me := table[current].value;
      table := table[current := Some(me.(jiffies := jiffies, ticks := me.ticks - 1))];
      spent := table[current].value.ticks == 0;
      if spent {
        table := table[current := Some(table[current].value.(ticks := table[current].value.priority))];
      }
    }

    /** clock_handler up to the charge. */
    method PassTime()
      requires Inv(State())
      modifies this
      ensures State() == Wake(Advance(old(State())))
      ensures current < |table| && table[current].Some? && Inv(Charge(State()))
    {
      hide Rest, Early, NoOtherRunning, Charge, Wake;
      ghost var k := State();
      AdvanceKeeps(k);
      WakeExact(Advance(k));
      jiffies := jiffies + 1;
      AdvanceIs(k);
      Wakeup();
      InvParts(State());
      InvFacts(State());
      ChargeKeeps(State());
    }

    /** clock_handler. */
    method ClockTick()
      requires Inv(State())
      modifies this
      ensures Inv(State()) && Step(old(State()), Op.Tick, State()) && jiffies == old(jiffies) + 1
    {
      ghost var k := State();
      PassTime();
      var spent := ChargeCurrent();
      if spent {
        InvFacts(Charge(Wake(Advance(k))));
        Schedule();
      }
      hide Inv, Rest, Scheduled, Charge, Wake, Advance;
      TickKeeps(k, State());
      StepShows(k, Op.Tick, State());
    }
  }
}
