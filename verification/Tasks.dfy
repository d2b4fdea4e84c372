/** src/kernel/task.c with the clock interrupt: the task table, the scheduler and
    the wait and sleep lists as one state, and each operation up to its call of
    schedule() as one step. */
module Tasks {
  import opened Common
  import opened Sequences

  const TASK_NUMBER := 64
  const JIFFY := 10
  const ANY := -1

  datatype Status = Running | Ready | Blocked | Sleeping | Waiting | Died

  /** task_t; tasks are known by their slot, which is their pid. For a sleeping
      task `ticks` is its deadline. */
  datatype Task = Task(ppid: nat, status: Status, ticks: int, priority: int, jiffies: nat, code: int, waitpid: int)

  /** blocked is block_list, sleepers is sleep_list; birth numbers every task ever
      made; reaped holds the numbers of those whose slot has been given back, exiting
      those of tasks asleep or running inside task_exit, gone those that got through it. */
  datatype Kernel = Kernel(
    table: seq<Option<Task>>, blocked: seq<nat>, sleepers: seq<nat>, current: nat, jiffies: nat,
    birth: seq<nat>, clock: nat, reaped: set<nat>, exiting: set<nat>, gone: set<nat>)

  predicate Present(k: Kernel, p: nat) { p < |k.table| && k.table[p].Some? }

  predicate Is(k: Kernel, p: nat, s: Status) { Present(k, p) && k.table[p].value.status == s }

  predicate Live(k: Kernel, p: nat) { Present(k, p) && k.table[p].value.status != Died }

  function Parent(k: Kernel, p: nat): nat { if Present(k, p) then k.table[p].value.ppid else 0 }

  function Born(k: Kernel, p: nat): nat { if p < |k.birth| then k.birth[p] else 0 }

  predicate Shape(k: Kernel) {
    && |k.table| == TASK_NUMBER == |k.birth|
    && (Is(k, 0, Ready) || Is(k, 0, Running)) && Parent(k, 0) == 0 && Present(k, 1) && Parent(k, 1) == 0
  }

  // ----- the process tree -----

  /** Each task but the idle one has a parent that is present, not dead and older. */
  ghost predicate TreeOk(k: Kernel) {
    && |k.birth| == |k.table|
    && (forall p: nat {:trigger Parent(k, p)} | Present(k, p) && p != 0 ::
       Live(k, Parent(k, p)) && Born(k, Parent(k, p)) < Born(k, p))
    && (forall p: nat | Present(k, p) :: Born(k, p) < k.clock && Born(k, p) !in k.reaped)
    && (forall p: nat, q: nat | Present(k, p) && Present(k, q) && Born(k, p) == Born(k, q) :: p == q)
    && (forall b | b in k.reaped :: b < k.clock)
  }

  /** c is a child that p's waitpid call is about. */
  predicate Match(k: Kernel, p: nat, c: nat) {
    && Present(k, p) && Present(k, c) && c >= 2
    && Parent(k, c) == p && (k.table[p].value.waitpid == ANY || k.table[p].value.waitpid == c)
  }

  /** No exit wakeup is lost: a task waits only while there is something to wait
      for and nothing it could have. */
  ghost predicate WaitOk(k: Kernel) {
    forall p: nat | Is(k, p, Waiting) ::
      (forall c: nat | Match(k, p, c) :: !Is(k, c, Died)) && (exists c: nat :: Match(k, p, c))
  }

  // ----- states and lists -----

  function Deadline(k: Kernel, p: nat): int { if Present(k, p) then k.table[p].value.ticks else 0 }

  ghost predicate ListsOk(k: Kernel) {
    && Distinct(k.blocked) && Distinct(k.sleepers)
    && (forall p: nat :: p in k.blocked <==> Is(k, p, Blocked) || Is(k, p, Waiting))
    && (forall p: nat :: p in k.sleepers <==> Is(k, p, Sleeping))
    && (forall i, j | 0 <= i < j < |k.sleepers| :: Deadline(k, k.sleepers[i]) <= Deadline(k, k.sleepers[j]))
  }

  /** Whoever is still asleep has not reached its deadline. */
  ghost predicate Early(k: Kernel) {
    forall p: nat | Is(k, p, Sleeping) :: Deadline(k, p) > k.jiffies
  }

  ghost predicate NoOtherRunning(k: Kernel) {
    forall p: nat | Is(k, p, Running) :: p == k.current
  }

  /** Everything but who is awake and who runs. */
  ghost predicate Rest(k: Kernel) {
    Shape(k) && TreeOk(k) && WaitOk(k) && ListsOk(k)
  }

  /** What holds whenever a task runs: see also RootReached. */
  ghost predicate Inv(k: Kernel) {
    Rest(k) && Early(k) && NoOtherRunning(k) && Is(k, k.current, Running)
  }

  // ----- the ancestors -----

  function Ancestor(k: Kernel, p: nat, n: nat): nat
    decreases n
  {
    if n == 0 then p else Ancestor(k, Parent(k, p), n - 1)
  }

  lemma {:induction false} OlderAncestor(k: Kernel, p: nat, n: nat)
    requires Shape(k) && TreeOk(k) && Present(k, p)
    ensures Present(k, Ancestor(k, p, n)) && Born(k, Ancestor(k, p, n)) <= Born(k, p)
    decreases n
  {
    if n > 0 { OlderAncestor(k, Parent(k, p), n - 1); }
  }

  /** Following parents always ends at the idle task and never comes back to
      where it started: the relation is acyclic, although slots are reused. */
  lemma {:induction false} RootReached(k: Kernel, p: nat) returns (n: nat)
    requires Shape(k) && TreeOk(k) && Present(k, p)
    ensures Ancestor(k, p, n) == 0
    ensures p != 0 ==> forall m: nat | m > 0 :: Ancestor(k, p, m) != p
    decreases Born(k, p)
  {
    if p == 0 {
      n := 0;
    } else {
      n := RootReached(k, Parent(k, p));
      n := n + 1;
      forall m: nat | m > 0 ensures Ancestor(k, p, m) != p {
        OlderAncestor(k, Parent(k, p), m - 1);
      }
    }
  }

  // ----- what one operation changes -----

  /** Between k and k' only task p's state is different, and it is s now. */
  ghost predicate Moved(k: Kernel, k': Kernel, p: nat, s: Status) {
    && |k'.table| == |k.table| && k'.birth == k.birth && k'.clock == k.clock && k'.reaped == k.reaped
       && k'.jiffies == k.jiffies
    && Present(k, p)
    && (forall q: nat :: Present(k', q) == Present(k, q))
    && (forall q: nat :: Parent(k', q) == Parent(k, q))
    && (forall q: nat | q != p :: Deadline(k', q) == Deadline(k, q))
    && (forall q: nat, t: Status | q != p :: Is(k', q, t) == Is(k, q, t))
    && (forall t: Status :: Is(k', p, t) == (t == s))
    && (forall q: nat, c: nat | q != p :: Match(k', q, c) == Match(k, q, c))
  }

  lemma BornSame(k: Kernel, k': Kernel)
    requires k'.birth == k.birth
    ensures forall q: nat :: Born(k', q) == Born(k, q)
  {}

  lemma LiveIs(k: Kernel)
    ensures forall q: nat :: Live(k, q) <==> Present(k, q) && !Is(k, q, Died)
    ensures forall q: nat, s: Status | Is(k, q, s) :: Present(k, q)
    ensures forall q: nat, s: Status, t: Status | Is(k, q, s) && Is(k, q, t) :: s == t
  {}

  lemma MovedTree(k: Kernel, k': Kernel, p: nat, s: Status)
    requires Shape(k) && TreeOk(k) && Moved(k, k', p, s) && s != Died && (p == 0 ==> s == Ready || s == Running)
    ensures Shape(k') && TreeOk(k')
  {
    BornSame(k, k');
    LiveIs(k);
    LiveIs(k');
    hide Present, Is, Parent, Born, Live, Deadline, Match;
  }

  /** A task that leaves or does not enter Waiting disturbs nobody's wait. */
  lemma MovedWait(k: Kernel, k': Kernel, p: nat, s: Status)
    requires WaitOk(k) && Moved(k, k', p, s) && s != Waiting && s != Died
    ensures WaitOk(k')
  {
    hide Present, Is, Parent, Deadline, Match;
    forall q: nat | Is(k', q, Waiting)
      ensures (forall c: nat | Match(k', q, c) :: !Is(k', c, Died)) && (exists c: nat :: Match(k', q, c))
    {
      var c: nat :| Match(k, q, c);
      assert Match(k', q, c);
    }
  }

  predicate InBlocked(s: Status) { s == Blocked || s == Waiting }

  /** The lists follow the state of the task that moved. */
  lemma MovedLists(k: Kernel, k': Kernel, p: nat, s: Status)
    requires ListsOk(k) && Moved(k, k', p, s) && s != Sleeping && !Is(k, p, Sleeping) && k'.sleepers == k.sleepers
    requires Distinct(k'.blocked) && (forall q: nat | q != p :: q in k'.blocked <==> q in k.blocked)
    requires p in k'.blocked <==> InBlocked(s)
    ensures ListsOk(k')
  {
    hide Present, Is, Parent, Deadline, Match, Distinct;
    forall i | 0 <= i < |k.sleepers| ensures Deadline(k', k.sleepers[i]) == Deadline(k, k.sleepers[i]) {
      assert k.sleepers[i] in k.sleepers;
    }
  }

  /** A move in or out of the lists' reach that keeps them right. */
  lemma MovedRest(k: Kernel, k': Kernel, p: nat, s: Status)
    requires Rest(k) && Moved(k, k', p, s)
    requires (Is(k, p, Ready) || Is(k, p, Running)) && (s == Ready || s == Running)
    requires k'.blocked == k.blocked && k'.sleepers == k.sleepers
    ensures Rest(k')
  {
    LiveIs(k);
    MovedTree(k, k', p, s);
    MovedWait(k, k', p, s);
    assert p in k.blocked <==> Is(k, p, Blocked) || Is(k, p, Waiting);
    hide Shape, TreeOk, WaitOk, Moved, Present, Is;
    MovedLists(k, k', p, s);
  }

  lemma MovedEarly(k: Kernel, k': Kernel, p: nat, s: Status)
    requires Early(k) && Moved(k, k', p, s) && (s == Sleeping ==> Deadline(k', p) > k'.jiffies)
    ensures Early(k')
  {
    hide Present, Is, Parent, Deadline, Match;
  }

  lemma MovedRunning(k: Kernel, k': Kernel, p: nat, s: Status)
    requires NoOtherRunning(k) && Moved(k, k', p, s) && (s == Running ==> p == k'.current)
    requires k'.current == k.current || p == k.current
    requires k'.current == k.current || s != Running
    ensures NoOtherRunning(k')
  {
    hide Present, Parent, Deadline, Match;
  }

  // ----- switching tasks -----

  /** a is to be preferred to b: more ticks left, then run less recently. */
  predicate Before(a: Task, b: Task) { a.ticks > b.ticks || (a.ticks == b.ticks && a.jiffies <= b.jiffies) }

  predicate Candidate(k: Kernel, q: nat) { q != k.current && Is(k, q, Ready) }

  /** What schedule() switches to: the best of the other ready tasks, else idle. */
  ghost predicate Picked(k: Kernel, r: nat) {
    if exists q: nat :: Candidate(k, q)
    then Candidate(k, r) && forall q: nat | Candidate(k, q) :: Before(k.table[r].value, k.table[q].value)
    else r == 0
  }

  function SetStatus(k: Kernel, p: nat, s: Status): Kernel {
    if Present(k, p) then k.(table := k.table[p := Some(k.table[p].value.(status := s))]) else k
  }

  lemma SetStatusMoves(k: Kernel, p: nat, s: Status, k': Kernel)
    requires Present(k, p) && k' == SetStatus(k, p, s).(blocked := k'.blocked, sleepers := k'.sleepers,
             current := k'.current)
    ensures Moved(k, k', p, s)
    ensures forall q: nat :: Deadline(k', q) == Deadline(k, q)
  {}

  /** The rest of schedule(). */
  function Switch(k: Kernel, r: nat): Kernel {
    var k1 := if Is(k, k.current, Running) then SetStatus(k, k.current, Ready) else k;
    SetStatus(k1, r, Running).(current := r)
  }

  /** From the boot stack or from a task in any state, exactly one task runs afterwards. */
  lemma SwitchKeeps(k: Kernel, r: nat)
    requires Rest(k) && Early(k) && NoOtherRunning(k) && Picked(k, r)
    ensures Inv(Switch(k, r)) && Switch(k, r).current == r
  {
    var k' := Switch(k, r);
    var k1 := if Is(k, k.current, Running) then SetStatus(k, k.current, Ready) else k;
    assert Shape(k);
    forall p: nat ensures !Is(k1, p, Running) {
      assert Is(k, p, Running) ==> p == k.current;
    }
    assert Is(k1, r, Ready);
    if Is(k, k.current, Running) {
      SetStatusMoves(k, k.current, Ready, k1);
      hide Rest, Early;
      MovedRest(k, k1, k.current, Ready);
      MovedEarly(k, k1, k.current, Ready);
    }
    SetStatusMoves(k1, r, Running, k');
    hide Rest, Early;
    MovedRest(k1, k', r, Running);
    MovedEarly(k1, k', r, Running);
    hide Present, Parent, Deadline, Match;
  }

  // ----- block and unblock -----

  /** task_block of the running task on block_list, up to schedule(). */
  function Block(k: Kernel): Kernel {
    SetStatus(k, k.current, Blocked).(blocked := [k.current] + k.blocked)
  }

  /** A state schedule() may be called in. */
  ghost predicate Leaving(k: Kernel) { Rest(k) && Early(k) && NoOtherRunning(k) }

  lemma BlockKeeps(k: Kernel)
    requires Inv(k) && k.current != 0
    ensures Leaving(Block(k))
  {
    var k' := Block(k);
    SetStatusMoves(k, k.current, Blocked, k');
    PushIs(k.blocked, k.current);
    LiveIs(k);
    assert k.current !in k.blocked;
    hide Present, Is, Shape, TreeOk, WaitOk, Early, NoOtherRunning, Moved, SetStatus, Parent, Deadline, Match;
    MovedTree(k, k', k.current, Blocked);
    MovedWait(k, k', k.current, Blocked);
    MovedLists(k, k', k.current, Blocked);
    MovedEarly(k, k', k.current, Blocked);
    MovedRunning(k, k', k.current, Blocked);
  }

  /** task_unblock of a task on block_list. */
  function Unblock(k: Kernel, p: nat): Kernel {
    SetStatus(k, p, Ready).(blocked := Without(k.blocked, p))
  }

  lemma UnblockKeeps(k: Kernel, p: nat)
    requires Leaving(k) && p in k.blocked
    ensures Leaving(Unblock(k, p)) && (Is(k, k.current, Running) ==> Is(Unblock(k, p), k.current, Running))
  {
    var k' := Unblock(k, p);
    LiveIs(k);
    assert Is(k, p, Blocked) || Is(k, p, Waiting);
    SetStatusMoves(k, p, Ready, k');
    WithoutIs(k.blocked, p);
    assert Is(k, k.current, Running) ==> Is(k', k.current, Running);
    hide Present, Is, Shape, TreeOk, WaitOk, Early, NoOtherRunning, Moved, SetStatus, Parent, Deadline, Match, Without;
    MovedTree(k, k', p, Ready);
    MovedWait(k, k', p, Ready);
    MovedLists(k, k', p, Ready);
    MovedEarly(k, k', p, Ready);
    MovedRunning(k, k', p, Ready);
  }

  // ----- fork -----

  /** task_getFreeTask: the lowest free slot. */
  ghost predicate FreeSlot(k: Kernel, i: nat) {
    i < |k.table| && k.table[i].None? && forall j: nat | j < i :: Present(k, j)
  }

  function Fork(k: Kernel, i: nat): Kernel
    requires Present(k, k.current) && i < |k.table| == |k.birth|
  {
    var parent := k.table[k.current].value;
    var child := parent.(ppid := k.current, ticks := parent.priority, status := Ready);
    k.(table := k.table[i := Some(child)], birth := k.birth[i := k.clock], clock := k.clock + 1)
  }

  lemma ForkTree(k: Kernel, i: nat)
    requires Shape(k) && TreeOk(k) && Is(k, k.current, Running) && FreeSlot(k, i)
    ensures Shape(Fork(k, i)) && TreeOk(Fork(k, i))
  {
    var k' := Fork(k, i);
    assert forall q: nat | q != i :: Present(k', q) == Present(k, q);
    assert forall q: nat {:trigger Parent(k', q)} | q != i :: Parent(k', q) == Parent(k, q);
    assert forall q: nat | q != i :: Born(k', q) == Born(k, q);
    assert forall q: nat, t: Status | q != i :: Is(k', q, t) == Is(k, q, t);
    assert Present(k', i) && !Is(k', i, Died) && Parent(k', i) == k.current && Born(k', i) == k.clock && !Present(k, i);
    LiveIs(k);
    LiveIs(k');
    hide Present, Is, Parent, Born, Live, Fork, FreeSlot;
  }

  lemma ForkWaits(k: Kernel, i: nat)
    requires Shape(k) && WaitOk(k) && Is(k, k.current, Running) && FreeSlot(k, i)
    ensures WaitOk(Fork(k, i))
  {
    var k' := Fork(k, i);
    forall p: nat | Is(k', p, Waiting)
      ensures (forall c: nat | Match(k', p, c) :: !Is(k', c, Died)) && (exists c: nat :: Match(k', p, c))
    {
      assert Is(k, p, Waiting) && p != i;
      forall c: nat | Match(k', p, c) ensures !Is(k', c, Died) {
        assert c != i ==> Match(k, p, c);
      }
      var c: nat :| Match(k, p, c);
      assert Match(k', p, c);
    }
  }

  lemma ForkLists(k: Kernel, i: nat)
    requires Shape(k) && ListsOk(k) && Early(k) && NoOtherRunning(k) && Is(k, k.current, Running) && FreeSlot(k, i)
    ensures ListsOk(Fork(k, i)) && Early(Fork(k, i)) && NoOtherRunning(Fork(k, i))
    ensures Is(Fork(k, i), k.current, Running)
  {
    var k' := Fork(k, i);
    assert forall q: nat, t: Status | q != i :: Is(k', q, t) == Is(k, q, t);
    assert forall q: nat | q != i :: Deadline(k', q) == Deadline(k, q);
    assert forall t: Status :: Is(k', i, t) == (t == Ready) && !Is(k, i, t);
    hide Present, Is, Deadline, Fork, Distinct;
    forall j | 0 <= j < |k.sleepers| ensures Deadline(k', k.sleepers[j]) == Deadline(k, k.sleepers[j]) {
      assert k.sleepers[j] in k.sleepers;
    }
  }

  lemma ForkKeeps(k: Kernel, i: nat)
    requires Inv(k) && FreeSlot(k, i)
    ensures Inv(Fork(k, i))
  {
    hide Shape, TreeOk, WaitOk, ListsOk, Early, NoOtherRunning, Is, FreeSlot, Present;
    ShapeSize(k);
    ForkTree(k, i);
    ForkWaits(k, i);
    ForkLists(k, i);
  }

  lemma ShapeSize(k: Kernel)
    requires Shape(k)
    ensures |k.table| == TASK_NUMBER == |k.birth| && Present(k, 0) && Present(k, 1)
  {}

  // ----- exit -----

  /** The dead task's children, dead or alive, go to its own parent. */
  function Adopt(t: Option<Task>, from: nat, to: nat): Option<Task> {
    if t.Some? && t.value.ppid == from then Some(t.value.(ppid := to)) else t
  }

  /** The loop of task_exit over the children, with the exit code and the status s the
      task has by then: DIED, unless something it released made it wait in between. */
  function Depart(k: Kernel, code: int, s: Status): Kernel
    requires Present(k, k.current)
  {
    var me := k.table[k.current].value;
    var table := k.table[k.current := Some(me.(status := s, code := code))];
    k.(table := seq(|table|, i requires 0 <= i < |table| => Adopt(table[i], k.current, me.ppid)))
  }

  predicate Wakes(k: Kernel, g: nat, p: nat) {
    Is(k, g, Waiting) && (k.table[g].value.waitpid == ANY || k.table[g].value.waitpid == p)
  }

  /** The rest of task_exit up to schedule(). */
  function Leave(k: Kernel, code: int, s: Status): Kernel
    requires Present(k, k.current)
  {
    var k1 := Depart(k, code, s);
    var g := Parent(k, k.current);
    var k2 := if Wakes(k1, g, k.current) then Unblock(k1, g) else k1;
    var me := Born(k, k.current);
    k2.(exiting := k.exiting - {me}, gone := k.gone + {me})
  }

  /** What Depart() does to a single task. */
  lemma DepartIs(k: Kernel, code: int, s: Status)
    requires Shape(k) && TreeOk(k) && Is(k, k.current, Running) && k.current != 0
    ensures var k1 := Depart(k, code, s); var me := k.current; var g := Parent(k, me);
            && g != me && |k1.table| == |k.table| && k1 == k.(table := k1.table)
            && (forall q: nat ::
               Present(k1, q) == Present(k, q) && Born(k1, q) == Born(k, q) && Deadline(k1, q) == Deadline(k, q))
            && (forall q: nat | Parent(k, q) == me && Present(k, q) :: Parent(k1, q) == g)
            && (forall q: nat | Parent(k, q) != me :: Parent(k1, q) == Parent(k, q))
            && (forall q: nat, t: Status | q != me :: Is(k1, q, t) == Is(k, q, t))
            && (forall t: Status :: Is(k1, me, t) == (t == s))
  {
    assert Born(k, Parent(k, k.current)) < Born(k, k.current);
  }

  lemma DepartParent(k: Kernel, code: int, s: Status)
    requires Shape(k) && TreeOk(k) && Is(k, k.current, Running) && k.current != 0
    ensures var g := Parent(k, k.current); Present(Depart(k, code, s), g) && Depart(k, code, s).current == k.current
  {
    DepartIs(k, code, s);
  }

  lemma DepartTree(k: Kernel, code: int, s: Status)
    requires Shape(k) && TreeOk(k) && Is(k, k.current, Running) && k.current != 0
    ensures Shape(Depart(k, code, s)) && TreeOk(Depart(k, code, s))
  {
    var k1 := Depart(k, code, s);
    DepartIs(k, code, s);
    LiveIs(k);
    LiveIs(k1);
    hide Present, Is, Parent, Born, Live, Deadline, Depart;
  }

  lemma DepartLists(k: Kernel, code: int, s: Status)
    requires Shape(k) && TreeOk(k) && ListsOk(k) && Early(k) && NoOtherRunning(k) && Is(k, k.current, Running)
             && k.current != 0
    requires s == Died || s == Running
    ensures ListsOk(Depart(k, code, s)) && Early(Depart(k, code, s)) && NoOtherRunning(Depart(k, code, s))
  {
    var k1 := Depart(k, code, s);
    DepartIs(k, code, s);
    LiveIs(k);
    hide Present, Is, Parent, Born, Live, Deadline, Depart, TreeOk, Shape;
  }

  /** Whoever still waits after the wakeup waits for nothing that is there. */
  lemma DepartWaits(k: Kernel, code: int, s: Status, p: nat)
    requires Shape(k) && TreeOk(k) && WaitOk(k) && Is(k, k.current, Running) && k.current != 0
    requires Is(k, p, Waiting) && !(p == Parent(k, k.current) && Wakes(Depart(k, code, s), p, k.current))
    ensures var k1 := Depart(k, code, s);
            (forall c: nat | Match(k1, p, c) :: !Is(k1, c, Died)) && (exists c: nat :: Match(k1, p, c))
  {
    var k1 := Depart(k, code, s);
    DepartIs(k, code, s);
    var c0: nat :| Match(k, p, c0);
    assert k1.table[p].value.waitpid == k.table[p].value.waitpid;
    assert Match(k1, p, c0);
    forall c: nat | Match(k1, p, c) ensures !Is(k1, c, Died) {
      if p == Parent(k, k.current) {
        assert c == c0;
      } else {
        assert Match(k, p, c);
      }
    }
  }

  /** Whatever status the task ends with, the tree, the waits and the lists stay right. */
  lemma LeaveKeeps(k: Kernel, code: int, s: Status)
    requires Inv(k) && k.current != 0 && (s == Died || s == Running)
    ensures Leaving(Leave(k, code, s)) && Is(Leave(k, code, s), k.current, s)
  {
    var k1 := Depart(k, code, s);
    var me := k.current;
    var g := Parent(k, me);
    DepartIs(k, code, s);
    DepartTree(k, code, s);
    DepartLists(k, code, s);
    forall p: nat | Is(k, p, Waiting) && !(p == g && Wakes(k1, p, me))
      ensures (forall c: nat | Match(k1, p, c) :: !Is(k1, c, Died)) && (exists c: nat :: Match(k1, p, c))
    {
      DepartWaits(k, code, s, p);
    }
    assert forall p: nat :: Is(k1, p, Waiting) <==> Is(k, p, Waiting) by {
      assert Is(k, me, Running);
    }
    var k2 := if Wakes(k1, g, me) then Unblock(k1, g) else k1;
    if Wakes(k1, g, me) {
      WokenKeeps(k1, g);
      WokenOnly(k1, g, me, s);
    }
    assert Leave(k, code, s) == k2.(exiting := Leave(k, code, s).exiting, gone := Leave(k, code, s).gone);
    hide Depart, Unblock, Wakes, Leave;
    GhostsOnly(k2, Leave(k, code, s));
  }

  lemma LeaveSize(k: Kernel, code: int, s: Status)
    requires Shape(k) && Present(k, k.current)
    ensures |Leave(k, code, s).table| == TASK_NUMBER
  {}

  lemma WokenOnly(k: Kernel, g: nat, p: nat, s: Status)
    requires Present(k, g) && p != g && Is(k, p, s)
    ensures Is(Unblock(k, g), p, s)
  {}

  /** exiting and gone are looked at by nothing the invariant is about. */
  lemma GhostsOnly(k: Kernel, k': Kernel)
    requires Leaving(k) && k' == k.(exiting := k'.exiting, gone := k'.gone)
    ensures Leaving(k') && forall q: nat, t: Status :: Is(k', q, t) == Is(k, q, t)
  {
    hide Rest;
    SameRest(k, k');
    hide Is, Deadline;
  }

  lemma SameRest(k: Kernel, k': Kernel)
    requires Rest(k) && k' == k.(current := k'.current, jiffies := k'.jiffies, exiting := k'.exiting, gone := k'.gone)
    ensures Rest(k')
    ensures forall p: nat, s: Status :: Is(k', p, s) == Is(k, p, s)
    ensures forall p: nat :: Deadline(k', p) == Deadline(k, p)
  {
    assert forall p: nat :: Present(k', p) == Present(k, p);
    assert forall p: nat {:trigger Parent(k', p)} :: Parent(k', p) == Parent(k, p);
    assert forall p: nat :: Born(k', p) == Born(k, p);
    assert forall p: nat, s: Status :: Is(k', p, s) == Is(k, p, s);
    assert forall p: nat, c: nat :: Match(k', p, c) == Match(k, p, c);
    LiveIs(k);
    LiveIs(k');
    SameLists(k, k');
    hide Present, Is, Parent, Born, Live, Match, ListsOk, Deadline;
    forall p: nat | Is(k', p, Waiting)
      ensures (forall c: nat | Match(k', p, c) :: !Is(k', c, Died)) && (exists c: nat :: Match(k', p, c))
    {
      var c: nat :| Match(k, p, c);
      assert Match(k', p, c);
    }
  }

  /** task_exit when something it releases has to wait for the disk: the task is marked
      dead, and the wait puts BLOCKED over it. */
  function ExitBlock(k: Kernel, code: int): Kernel {
    if Present(k, k.current)
    then k.(table := k.table[k.current := Some(k.table[k.current].value.(status := Blocked, code := code))],
            blocked := [k.current] + k.blocked, exiting := k.exiting + {Born(k, k.current)})
    else k
  }

  lemma ExitBlockKeeps(k: Kernel, code: int)
    requires Inv(k) && k.current != 0
    ensures Leaving(ExitBlock(k, code)) && SleepersKept(k, ExitBlock(k, code))
  {
    var k' := ExitBlock(k, code);
    PushIs(k.blocked, k.current);
    LiveIs(k);
    assert k.current !in k.blocked;
    assert Moved(k, k', k.current, Blocked);
    assert k'.sleepers == k.sleepers && k'.blocked == [k.current] + k.blocked && k'.current == k.current;
    hide Present, Is, Shape, TreeOk, WaitOk, Early, NoOtherRunning, Moved, ExitBlock, Parent, Deadline, Match;
    MovedTree(k, k', k.current, Blocked);
    MovedWait(k, k', k.current, Blocked);
    MovedLists(k, k', k.current, Blocked);
    MovedEarly(k, k', k.current, Blocked);
    MovedRunning(k, k', k.current, Blocked);
    MovedSleepers(k, k', k.current, Blocked);
  }

  /** Nobody asleep is disturbed. */
  ghost predicate SleepersKept(k: Kernel, k': Kernel) {
    && k'.jiffies == k.jiffies
    && forall p: nat | Is(k, p, Sleeping) :: Is(k', p, Sleeping) && Deadline(k', p) == Deadline(k, p)
  }

  lemma MovedSleepers(k: Kernel, k': Kernel, p: nat, s: Status)
    requires Moved(k, k', p, s) && !Is(k, p, Sleeping)
    ensures SleepersKept(k, k')
  {
    hide Present, Is, Parent, Deadline, Match;
  }

  /** Waking the one task whose wait is over makes the wait protocol right again. */
  lemma WokenKeeps(k: Kernel, g: nat)
    requires Shape(k) && TreeOk(k) && ListsOk(k) && Early(k) && NoOtherRunning(k) && Is(k, g, Waiting)
    requires forall p: nat | p != g && Is(k, p, Waiting) ::
      (forall c: nat | Match(k, p, c) :: !Is(k, c, Died)) && (exists c: nat :: Match(k, p, c))
    ensures Leaving(Unblock(k, g)) && forall q: nat | q != g :: Is(Unblock(k, g), q, Died) == Is(k, q, Died)
  {
    var k' := Unblock(k, g);
    LiveIs(k);
    SetStatusMoves(k, g, Ready, k');
    WithoutIs(k.blocked, g);
    WokenWaits(k, k', g);
    hide Present, Is, Shape, TreeOk, WaitOk, Early, NoOtherRunning, Moved, SetStatus, Parent, Deadline, Match, Without;
    MovedTree(k, k', g, Ready);
    MovedLists(k, k', g, Ready);
    MovedEarly(k, k', g, Ready);
    MovedRunning(k, k', g, Ready);
  }

  lemma WokenWaits(k: Kernel, k': Kernel, g: nat)
    requires Moved(k, k', g, Ready)
    requires forall p: nat | p != g && Is(k, p, Waiting) ::
      (forall c: nat | Match(k, p, c) :: !Is(k, c, Died)) && (exists c: nat :: Match(k, p, c))
    ensures WaitOk(k')
  {
    hide Present, Is, Parent, Deadline, Match;
    forall q: nat | Is(k', q, Waiting)
      ensures (forall c: nat | Match(k', q, c) :: !Is(k', c, Died)) && (exists c: nat :: Match(k', q, c))
    {
      var c: nat :| Match(k, q, c);
      assert Match(k', q, c);
    }
  }

  // ----- waitpid -----

  /** A child of the running task that waitpid(pid) is about. */
  predicate Wanted(k: Kernel, pid: int, c: nat) {
    c >= 2 && Present(k, c) && Parent(k, c) == k.current && (pid == ANY || pid == c)
  }

  /** waitpid's choice to sleep, up to schedule(). */
  function Wait(k: Kernel, pid: int): Kernel {
    if Present(k, k.current)
    then k.(table := k.table[k.current := Some(k.table[k.current].value.(waitpid := pid, status := Waiting))],
            blocked := [k.current] + k.blocked)
    else k
  }

  lemma WaitMoves(k: Kernel, pid: int)
    requires Present(k, k.current)
    ensures Moved(k, Wait(k, pid), k.current, Waiting)
    ensures forall c: nat :: Match(Wait(k, pid), k.current, c) <==> Wanted(k, pid, c)
  {}

  lemma WaitWaits(k: Kernel, pid: int)
    requires WaitOk(k) && Is(k, k.current, Running)
    requires (exists c: nat :: Wanted(k, pid, c)) && forall c: nat | Wanted(k, pid, c) :: !Is(k, c, Died)
    ensures WaitOk(Wait(k, pid))
  {
    var k' := Wait(k, pid);
    WaitMoves(k, pid);
    assert forall t: Status :: Is(k, k.current, t) == (t == Running);
    hide Wait, Present, Is, Parent, Deadline, Match, Wanted;
    forall q: nat | Is(k', q, Waiting)
      ensures (forall c: nat | Match(k', q, c) :: !Is(k', c, Died)) && (exists c: nat :: Match(k', q, c))
    {
      if q == k.current {
        var c: nat :| Wanted(k, pid, c);
        assert Match(k', q, c);
        forall c: nat | Match(k', q, c) ensures !Is(k', c, Died) {
          assert Wanted(k, pid, c);
        }
      } else {
        var c: nat :| Match(k, q, c);
        assert Match(k', q, c);
      }
    }
  }

  lemma WaitKeeps(k: Kernel, pid: int)
    requires Inv(k) && k.current != 0
    requires (exists c: nat :: Wanted(k, pid, c)) && forall c: nat | Wanted(k, pid, c) :: !Is(k, c, Died)
    ensures Leaving(Wait(k, pid))
  {
    var k' := Wait(k, pid);
    WaitMoves(k, pid);
    WaitWaits(k, pid);
    PushIs(k.blocked, k.current);
    LiveIs(k);
    assert k.current !in k.blocked;
    assert k'.blocked == [k.current] + k.blocked && k'.sleepers == k.sleepers && k'.current == k.current;
    hide Wait, Present, Is, Shape, TreeOk, WaitOk, Early, NoOtherRunning, Moved, Parent, Deadline, Match, Wanted;
    MovedTree(k, k', k.current, Waiting);
    MovedLists(k, k', k.current, Waiting);
    MovedEarly(k, k', k.current, Waiting);
    MovedRunning(k, k', k.current, Waiting);
  }

  /** waitpid gives a dead child's slot back. */
  function Reap(k: Kernel, c: nat): Kernel {
    if c < |k.table| then k.(table := k.table[c := None], reaped := k.reaped + {Born(k, c)}) else k
  }

  lemma ReapIs(k: Kernel, c: nat)
    requires Present(k, c) && |k.birth| == |k.table|
    ensures var k' := Reap(k, c);
            && |k'.table| == |k.table| && k' == k.(table := k'.table, reaped := k'.reaped)
               && k'.reaped == k.reaped + {Born(k, c)}
            && !Present(k', c) && (forall t: Status :: !Is(k', c, t))
            && (forall q: nat :: Born(k', q) == Born(k, q))
            && (forall q: nat | q != c :: Present(k', q) == Present(k, q))
            && (forall q: nat {:trigger Parent(k', q)} | q != c :: Parent(k', q) == Parent(k, q))
            && (forall q: nat {:trigger Deadline(k', q)} | q != c :: Deadline(k', q) == Deadline(k, q))
            && (forall q: nat, t: Status | q != c :: Is(k', q, t) == Is(k, q, t))
            && (forall q: nat, d: nat | q != c && d != c :: Match(k', q, d) == Match(k, q, d))
            && (forall q: nat :: !Match(k', q, c))
  {}

  /** A dead child is reaped once: its number was not among those given back, and
      no task alive depended on it. */
  lemma ReapKeeps(k: Kernel, pid: int, c: nat)
    requires Inv(k) && Wanted(k, pid, c) && Is(k, c, Died)
    ensures Inv(Reap(k, c)) && Born(k, c) !in k.reaped
    ensures forall q: nat | Present(Reap(k, c), q) :: Born(k, q) !in Reap(k, c).reaped
  {
    var k' := Reap(k, c);
    ReapIs(k, c);
    LiveIs(k);
    LiveIs(k');
    ReapWaits(k, c);
    assert c >= 2 && k.current != c;
    hide Present, Is, Parent, Born, Live, Deadline, Match, Reap, WaitOk, Wanted;
    forall j | 0 <= j < |k.sleepers| ensures Deadline(k', k.sleepers[j]) == Deadline(k, k.sleepers[j]) {
      assert k.sleepers[j] in k.sleepers;
    }
  }

  lemma ReapWaits(k: Kernel, c: nat)
    requires WaitOk(k) && Is(k, c, Died) && |k.birth| == |k.table|
    ensures WaitOk(Reap(k, c))
  {
    var k' := Reap(k, c);
    ReapIs(k, c);
    LiveIs(k);
    hide Present, Is, Parent, Born, Live, Deadline, Match, Reap;
    forall q: nat | Is(k', q, Waiting)
      ensures (forall d: nat | Match(k', q, d) :: !Is(k', d, Died)) && (exists d: nat :: Match(k', q, d))
    {
      var d: nat :| Match(k, q, d);
      assert Match(k', q, d);
    }
  }

  // ----- sleeping -----

  function Keys(k: Kernel): seq<int> {
    seq(|k.sleepers|, i requires 0 <= i < |k.sleepers| => Deadline(k, k.sleepers[i]))
  }

  /** At least one tick away. */
  function WakeTime(k: Kernel, ms: nat): int { k.jiffies + if ms / JIFFY > 0 then ms / JIFFY else 1 }

  /** task_sleep up to schedule(): list_insert_sort by deadline. */
  function Sleep(k: Kernel, ms: nat): Kernel {
    if Present(k, k.current)
    then k.(table := k.table[k.current :=
      Some(k.table[k.current].value.(ticks := WakeTime(k, ms), status := Sleeping))],
            sleepers := InsertAt(k.sleepers, InsertPos(Keys(k), WakeTime(k, ms)), k.current))
    else k
  }

  lemma SleepMoves(k: Kernel, ms: nat)
    requires Present(k, k.current)
    ensures Moved(k, Sleep(k, ms), k.current, Sleeping)
    ensures Deadline(Sleep(k, ms), k.current) == WakeTime(k, ms) > k.jiffies
  {}

  lemma InsertIs(s: seq<nat>, pos: nat, x: nat)
    requires Distinct(s) && x !in s && pos <= |s|
    ensures Distinct(InsertAt(s, pos, x)) && forall q: nat :: q in InsertAt(s, pos, x) <==> q == x || q in s
  {
    var r := InsertAt(s, pos, x);
    assert s == s[..pos] + s[pos..];
    forall i, j | 0 <= i < j < |r| ensures r[i] != r[j] {
      assert i == pos || r[i] == s[if i < pos then i else i - 1];
      assert j == pos || r[j] == s[if j < pos then j else j - 1];
    }
  }

  lemma SleepKeys(k: Kernel, ms: nat)
    requires Present(k, k.current) && k.current !in k.sleepers
    ensures Keys(Sleep(k, ms)) == InsertAt(Keys(k), InsertPos(Keys(k), WakeTime(k, ms)), WakeTime(k, ms))
  {
    var k' := Sleep(k, ms);
    var pos := InsertPos(Keys(k), WakeTime(k, ms));
    InsertAtIndex(k.sleepers, pos, k.current);
    InsertAtIndex(Keys(k), pos, WakeTime(k, ms));
    assert forall i | 0 <= i < |k.sleepers| :: k.sleepers[i] in k.sleepers;
    SleepMoves(k, ms);
    var s := k'.sleepers;
    assert |s| == |k.sleepers| + 1;
    hide Present, Is, Parent, Match, Deadline, Sleep, InsertAt, WakeTime;
  }

  /** list_insert_sort puts the task behind those due at the same tick. */
  lemma SleepSorts(k: Kernel, ms: nat)
    requires ListsOk(k) && Present(k, k.current) && k.current !in k.sleepers
    ensures var k' := Sleep(k, ms); var s := k'.sleepers;
            && Distinct(s) && (forall q: nat :: q in s <==> q == k.current || q in k.sleepers)
            && Sorted(Keys(k'))
  {
    InsertIs(k.sleepers, InsertPos(Keys(k), WakeTime(k, ms)), k.current);
    InsertKeepsSorted(Keys(k), WakeTime(k, ms));
    SleepKeys(k, ms);
    hide Present, Is, Parent, Match, Deadline, InsertAt, WakeTime, InsertPos;
  }

  lemma SleepKeeps(k: Kernel, ms: nat)
    requires Inv(k) && k.current != 0
    ensures Leaving(Sleep(k, ms))
  {
    var k' := Sleep(k, ms);
    SleepMoves(k, ms);
    LiveIs(k);
    SleepSorts(k, ms);
    assert forall i | 0 <= i < |k'.sleepers| :: Keys(k')[i] == Deadline(k', k'.sleepers[i]);
    hide Present, Is, Shape, TreeOk, WaitOk, Early, NoOtherRunning, Parent, Deadline, Match, Sleep, Keys;
    MovedTree(k, k', k.current, Sleeping);
    MovedWait(k, k', k.current, Sleeping);
    MovedEarly(k, k', k.current, Sleeping);
    MovedRunning(k, k', k.current, Sleeping);
  }

  /** One round of the loop of task_wakeup. */
  function WakeOne(k: Kernel): Kernel
    requires k.sleepers != []
  {
    var p := k.sleepers[0];
    if Present(k, p)
    then k.(table := k.table[p := Some(k.table[p].value.(ticks := 0, status := Ready))], sleepers := k.sleepers[1..])
    else k.(sleepers := k.sleepers[1..])
  }

  predicate Due(k: Kernel, p: nat) { Is(k, p, Sleeping) && Deadline(k, p) <= k.jiffies }

  function Wake(k: Kernel): Kernel
    decreases |k.sleepers|
  {
    if k.sleepers != [] && Deadline(k, k.sleepers[0]) <= k.jiffies then Wake(WakeOne(k)) else k
  }

  lemma WakeOneMoves(k: Kernel)
    requires k.sleepers != [] && Present(k, k.sleepers[0])
    ensures Moved(k, WakeOne(k), k.sleepers[0], Ready)
  {}

  lemma FirstSleeper(k: Kernel)
    requires ListsOk(k)
    ensures k.sleepers != [] ==> Is(k, k.sleepers[0], Sleeping)
  {
    assert k.sleepers != [] ==> k.sleepers[0] in k.sleepers;
  }

  lemma WakeOneLists(k: Kernel)
    requires ListsOk(k) && k.sleepers != []
    ensures Is(k, k.sleepers[0], Sleeping) && ListsOk(WakeOne(k))
  {
    var p := k.sleepers[0];
    var k' := WakeOne(k);
    LiveIs(k);
    assert p in k.sleepers && k.sleepers == [p] + k.sleepers[1..];
    WakeOneMoves(k);
    hide Present, Is, Parent, Deadline, Match;
    forall j | 0 < j < |k.sleepers| ensures Deadline(k', k.sleepers[j]) == Deadline(k, k.sleepers[j])
      && k.sleepers[j] != p {
      assert k.sleepers[j] in k.sleepers;
    }
  }

  lemma WakeOneKeeps(k: Kernel)
    requires Rest(k) && NoOtherRunning(k) && Is(k, k.current, Running) && k.sleepers != []
    ensures var k' := WakeOne(k); Rest(k') && NoOtherRunning(k') && Is(k', k.current, Running)
  {
    WakeOneLists(k);
    LiveIs(k);
    WakeOneMoves(k);
    assert k.sleepers[0] == 0 ==> false by { assert Shape(k); }
    hide Present, Is, Shape, TreeOk, WaitOk, ListsOk, NoOtherRunning, Parent, Deadline, Match, WakeOne;
    MovedTree(k, WakeOne(k), k.sleepers[0], Ready);
    MovedWait(k, WakeOne(k), k.sleepers[0], Ready);
    MovedRunning(k, WakeOne(k), k.sleepers[0], Ready);
  }

  /** task_wakeup wakes exactly the sleepers whose deadline has come, all of them,
      although it stops at the first that is not due. */
  lemma {:induction false} WakeExact(k: Kernel)
    requires Rest(k) && NoOtherRunning(k) && Is(k, k.current, Running)
    ensures var k' := Wake(k);
            && Rest(k') && NoOtherRunning(k') && Is(k', k.current, Running) && Early(k')
            && |k'.table| == |k.table| && k' == k.(table := k'.table, sleepers := k'.sleepers)
            && (forall p: nat | Due(k, p) :: k'.table[p] == Some(k.table[p].value.(ticks := 0, status := Ready)))
            && (forall p: nat | p < |k.table| && !Due(k, p) :: k'.table[p] == k.table[p])
    decreases |k.sleepers|
  {
    if k.sleepers != [] && Deadline(k, k.sleepers[0]) <= k.jiffies {
      WakeOneLists(k);
      WakeOneKeeps(k);
      WakeExact(WakeOne(k));
      WakeOneDue(k);
      hide Rest, NoOtherRunning, Early, Is, Due, Deadline, Present;
    } else {
      NoneDue(k);
      hide Shape, TreeOk, WaitOk, ListsOk, Due;
    }
  }

  lemma NoneDue(k: Kernel)
    requires Rest(k) && (k.sleepers == [] || Deadline(k, k.sleepers[0]) > k.jiffies)
    ensures Early(k) && forall p: nat :: !Due(k, p)
  {
    forall p: nat | Is(k, p, Sleeping) ensures Deadline(k, p) > k.jiffies {
      assert p in k.sleepers;
    }
  }

  lemma WakeOneDue(k: Kernel)
    requires k.sleepers != [] && Due(k, k.sleepers[0])
    ensures var p := k.sleepers[0]; var k' := WakeOne(k);
            && p < |k.table| == |k'.table| && k' == k.(table := k'.table, sleepers := k'.sleepers)
            && !Due(k', p) && k'.table[p] == Some(k.table[p].value.(ticks := 0, status := Ready))
            && (forall q: nat | q != p :: Due(k', q) == Due(k, q))
            && (forall q: nat | q < |k.table| && q != p :: k'.table[q] == k.table[q])
            && (forall q: nat | Due(k, q) :: q < |k.table| && k.table[q].Some?)
  {}

  /** The facts about a running kernel that its code relies on. */
  lemma InvFacts(k: Kernel)
    requires Inv(k)
    ensures |k.table| == TASK_NUMBER == |k.birth| && Is(k, k.current, Running)
    ensures forall i | 0 <= i < |k.sleepers| :: Present(k, k.sleepers[i])
  {
    forall i | 0 <= i < |k.sleepers| ensures Present(k, k.sleepers[i]) {
      assert k.sleepers[i] in k.sleepers;
    }
  }

  lemma InvParts(k: Kernel)
    ensures Inv(k) <==> Rest(k) && Early(k) && NoOtherRunning(k) && Is(k, k.current, Running)
  {}

  // ----- the clock -----

  function Advance(k: Kernel): Kernel { k.(jiffies := k.jiffies + 1) }

  lemma AdvanceIs(k: Kernel)
    ensures Advance(k) == k.(jiffies := k.jiffies + 1)
  {}

  lemma AdvanceKeeps(k: Kernel)
    requires Rest(k) && NoOtherRunning(k) && Is(k, k.current, Running)
    ensures var k' := Advance(k); Rest(k') && NoOtherRunning(k') && Is(k', k.current, Running)
    ensures forall p: nat, s: Status :: Is(Advance(k), p, s) == Is(k, p, s)
    ensures forall p: nat :: Deadline(Advance(k), p) == Deadline(k, p)
  {
    hide Rest;
    SameRest(k, Advance(k));
    hide Is, Deadline;
  }

  lemma SameLists(k: Kernel, k': Kernel)
    requires ListsOk(k) && k'.table == k.table && k'.blocked == k.blocked && k'.sleepers == k.sleepers
    ensures ListsOk(k')
  {
    assert forall p: nat, s: Status :: Is(k', p, s) == Is(k, p, s);
    assert forall p: nat :: Deadline(k', p) == Deadline(k, p);
    hide Is, Deadline;
  }

  /** The running task used up its time slice. */
  predicate Spent(k: Kernel) { Present(k, k.current) && k.table[k.current].value.ticks == 1 }

  /** clock_handler's charge to the running task, up to schedule(). */
  function Charge(k: Kernel): Kernel {
    if Present(k, k.current)
    then var t := k.table[k.current].value;
         var left := if t.ticks == 1 then t.priority else t.ticks - 1;
         k.(table := k.table[k.current := Some(t.(jiffies := k.jiffies, ticks := left))])
    else k
  }

  lemma ChargeMoves(k: Kernel)
    requires Is(k, k.current, Running)
    ensures Moved(k, Charge(k), k.current, Running)
  {}

  lemma ChargeKeeps(k: Kernel)
    requires Inv(k)
    ensures Inv(Charge(k))
  {
    ChargeMoves(k);
    LiveIs(k);
    hide Rest, Early, NoOtherRunning, Present, Parent, Deadline, Match, Charge;
    MovedRest(k, Charge(k), k.current, Running);
    MovedEarly(k, Charge(k), k.current, Running);
    MovedRunning(k, Charge(k), k.current, Running);
  }
}
