/** The table of open files (src/fs/file.c, src/fs/pipe.c) and the descriptors of
    the tasks that point into it (src/kernel/task.c). */
module Files {
  import opened Common

  const FILE_NR := 128
  const TASK_FILE_NR := 16
  const FIRST := 3

  /** file_t */
  datatype File = File(count: nat, inode: Option<nat>, flags: nat, offset: nat)

  /** tasks maps a task to its descriptors; held are the references to inodes that
      open files have. */
  datatype State = State(files: seq<File>, tasks: map<nat, seq<Option<nat>>>, held: multiset<nat>)

  function FdAt(s: State, t: nat, fd: nat): Option<nat> {
    if t in s.tasks && fd < |s.tasks[t]| then s.tasks[t][fd] else None
  }

  /** The descriptors that name slot k. */
  ghost function Refs(s: State, k: nat): set<(nat, nat)> {
    set t: nat, fd: nat | t in s.tasks && fd < TASK_FILE_NR && FdAt(s, t, fd) == Some(k) :: (t, fd)
  }

  /** The slots in use for inode i. */
  ghost function Uses(s: State, i: nat): set<nat> {
    set k: nat | k < |s.files| && s.files[k].count > 0 && s.files[k].inode == Some(i)
  }

  ghost predicate Shaped(s: State) {
    && |s.files| == FILE_NR
    && (forall t | t in s.tasks :: |s.tasks[t]| == TASK_FILE_NR)
    && (forall t: nat, fd: nat | FdAt(s, t, fd).Some? ::
       FdAt(s, t, fd).value < FILE_NR && s.files[FdAt(s, t, fd).value].inode.Some?)
  }

  /** Every count is the number of descriptors that name the slot, and an inode is
      held once for every slot in use. */
  ghost predicate Exact(s: State) {
    && (forall k: nat | k < |s.files| :: s.files[k].count == |Refs(s, k)|)
    && (forall i: nat :: s.held[i] == |Uses(s, i)|)
  }

  ghost predicate Inv(s: State) { Shaped(s) && Exact(s) }

  /** A slot that get_file may hand out is named by nobody. */
  lemma UnusedSlot(s: State, k: nat)
    requires Inv(s) && k < FILE_NR
    ensures s.files[k].count == 0 <==> forall t: nat, fd: nat :: FdAt(s, t, fd) != Some(k)
  {
    if s.files[k].count == 0 {
      forall t: nat, fd: nat ensures FdAt(s, t, fd) != Some(k) {
        assert FdAt(s, t, fd) == Some(k) ==> (t, fd) in Refs(s, k);
      }
    } else {
      var r :| r in Refs(s, k);
      assert FdAt(s, r.0, r.1) == Some(k);
    }
  }

  lemma Named(s: State, t: nat, fd: nat)
    requires Inv(s) && FdAt(s, t, fd).Some?
    ensures var k := FdAt(s, t, fd).value; k < FILE_NR == |s.files| && s.files[k].count > 0 && s.files[k].inode.Some?
  {
    UnusedSlot(s, FdAt(s, t, fd).value);
  }

  // ----- one descriptor more or less -----

  function SetFd(s: State, t: nat, fd: nat, v: Option<nat>): State {
    if t in s.tasks && fd < |s.tasks[t]| then s.(tasks := s.tasks[t := s.tasks[t][fd := v]]) else s
  }

  lemma SetFdIs(s: State, t: nat, fd: nat, v: Option<nat>)
    requires Shaped(s) && t in s.tasks && fd < TASK_FILE_NR
    ensures var s' := SetFd(s, t, fd, v);
            && s'.tasks.Keys == s.tasks.Keys && (forall u | u in s'.tasks :: |s'.tasks[u]| == TASK_FILE_NR)
            && FdAt(s', t, fd) == v && (forall u: nat, e: nat | u != t || e != fd :: FdAt(s', u, e) == FdAt(s, u, e))
  {}

  /** No slot changes more than its count: inode, flags and offset stay. */
  ghost predicate SameContents(s: State, s': State) {
    && |s'.files| == |s.files|
    && forall k: nat | k < |s.files| ::
         && s'.files[k].inode == s.files[k].inode && s'.files[k].flags == s.files[k].flags
         && s'.files[k].offset == s.files[k].offset
  }

  /** The tasks are the same, and no descriptor but fd of t moves. */
  ghost predicate OnlyFd(s: State, s': State, t: nat, fd: nat) {
    s'.tasks.Keys == s.tasks.Keys && forall u: nat, e: nat | u != t || e != fd :: FdAt(s', u, e) == FdAt(s, u, e)
  }

  /** The descriptor (t, fd) goes from `was` to `now`. */
  lemma RefsMove(s: State, s': State, t: nat, fd: nat, k: nat)
    requires s'.tasks.Keys == s.tasks.Keys && t in s.tasks && fd < TASK_FILE_NR
    requires forall u: nat, e: nat | u != t || e != fd :: FdAt(s', u, e) == FdAt(s, u, e)
    ensures FdAt(s, t, fd) == FdAt(s', t, fd) ==> Refs(s', k) == Refs(s, k)
    ensures FdAt(s, t, fd) != Some(k) && FdAt(s', t, fd) == Some(k) ==> |Refs(s', k)| == |Refs(s, k)| + 1
    ensures FdAt(s, t, fd) == Some(k) && FdAt(s', t, fd) != Some(k) ==> |Refs(s', k)| == |Refs(s, k)| - 1
    ensures FdAt(s, t, fd) != Some(k) && FdAt(s', t, fd) != Some(k) ==> Refs(s', k) == Refs(s, k)
  {
    if FdAt(s, t, fd) != Some(k) && FdAt(s', t, fd) == Some(k) {
      assert Refs(s', k) == Refs(s, k) + {(t, fd)};
    } else if FdAt(s, t, fd) == Some(k) && FdAt(s', t, fd) != Some(k) {
      assert Refs(s', k) == Refs(s, k) - {(t, fd)};
    } else {
      assert Refs(s', k) == Refs(s, k);
    }
  }

  /** A free slot becomes an open file of inode i. */
  function Open(s: State, t: nat, fd: nat, k: nat, i: nat, flags: nat, offset: nat): State
    requires k < |s.files|
  {
    SetFd(s, t, fd, Some(k)).(files := s.files[k := File(1, Some(i), flags, offset)], held := s.held + multiset{i})
  }

  lemma OpenKeeps(s: State, t: nat, fd: nat, k: nat, i: nat, flags: nat, offset: nat)
    requires Inv(s) && t in s.tasks && fd < TASK_FILE_NR && FdAt(s, t, fd) == None && k < FILE_NR
             && s.files[k].count == 0
    ensures Inv(Open(s, t, fd, k, i, flags, offset))
  {
    var s' := Open(s, t, fd, k, i, flags, offset);
    SetFdIs(s, t, fd, Some(k));
    assert forall u: nat, e: nat :: FdAt(s', u, e) == FdAt(SetFd(s, t, fd, Some(k)), u, e);
    UnusedSlot(s, k);
    assert Shaped(s');
    forall j: nat | j < |s'.files| ensures s'.files[j].count == |Refs(s', j)| {
      RefsMove(s, s', t, fd, j);
    }
    UsesOpen(s, s', k, i);
  }

  lemma OpenIs(s: State, t: nat, fd: nat, k: nat, i: nat, flags: nat, offset: nat)
    requires Inv(s) && t in s.tasks && fd < TASK_FILE_NR && k < FILE_NR
    ensures var s' := Open(s, t, fd, k, i, flags, offset);
            && OnlyFd(s, s', t, fd) && FdAt(s', t, fd) == Some(k)
            && s'.held == s.held + multiset{i} && s'.files == s.files[k := File(1, Some(i), flags, offset)]
               && |s.files| == FILE_NR
  {}

  lemma UsesOpen(s: State, s': State, k: nat, i: nat)
    requires k < |s.files| == |s'.files| && s.files[k].count == 0 && s'.files[k].count > 0
             && s'.files[k].inode == Some(i)
    requires forall j: nat | j < |s.files| && j != k :: s'.files[j] == s.files[j]
    requires s'.held == s.held + multiset{i} && forall j: nat :: s.held[j] == |Uses(s, j)|
    ensures forall j: nat :: s'.held[j] == |Uses(s', j)|
  {
    forall j: nat ensures s'.held[j] == |Uses(s', j)| {
      if j == i { assert Uses(s', j) == Uses(s, j) + {k}; } else { assert Uses(s', j) == Uses(s, j); }
    }
  }

  /** One more descriptor for a slot in use. */
  function Share(s: State, t: nat, fd: nat, k: nat): State
    requires k < |s.files|
  {
    SetFd(s, t, fd, Some(k)).(files := s.files[k := s.files[k].(count := s.files[k].count + 1)])
  }

  lemma ShareKeeps(s: State, t: nat, fd: nat, k: nat)
    requires Inv(s) && t in s.tasks && fd < TASK_FILE_NR && FdAt(s, t, fd) == None && k < FILE_NR
             && s.files[k].count > 0
    requires s.files[k].inode.Some?
    ensures Inv(Share(s, t, fd, k))
  {
    var s' := Share(s, t, fd, k);
    SetFdIs(s, t, fd, Some(k));
    assert forall u: nat, e: nat :: FdAt(s', u, e) == FdAt(SetFd(s, t, fd, Some(k)), u, e);
    forall j: nat | j < |s'.files| ensures s'.files[j].count == |Refs(s', j)| {
      RefsMove(s, s', t, fd, j);
    }
    forall j: nat ensures s'.held[j] == |Uses(s', j)| {
      assert Uses(s', j) == Uses(s, j);
    }
  }

  /** dup gives a second name to the same open file: flags, offset and inode stay. */
  lemma ShareIs(s: State, t: nat, fd: nat, k: nat)
    requires Inv(s) && t in s.tasks && fd < TASK_FILE_NR && k < FILE_NR
    ensures var s' := Share(s, t, fd, k);
            && SameContents(s, s') && OnlyFd(s, s', t, fd) && FdAt(s', t, fd) == Some(k) && s'.held == s.held
            && forall j: nat | j < |s.files| :: s'.files[j].count == s.files[j].count + if j == k then 1 else 0
  {}

  lemma Lengths(s: State, t: nat)
    requires Inv(s) && t in s.tasks
    ensures |s.tasks[t]| == TASK_FILE_NR && |s.files| == FILE_NR
  {}

  /** put_file and task_put_fd. */
  function Close(s: State, t: nat, fd: nat): State {
    var v := FdAt(s, t, fd);
    if v.None? || v.value >= |s.files| || s.files[v.value].count == 0 || s.files[v.value].inode.None? then s
    else
      var f := s.files[v.value];
      SetFd(s, t, fd, None).(files := s.files[v.value := f.(count := f.count - 1)],
                            held := if f.count == 1 then s.held - multiset{f.inode.value} else s.held)
  }

  /** Closing gives the inode back exactly when no other descriptor names the
      slot; the assertions of sys_close and put_file hold. */
  lemma CloseKeeps(s: State, t: nat, fd: nat)
    requires Inv(s)
    ensures Inv(Close(s, t, fd)) && FdAt(Close(s, t, fd), t, fd) == None
    ensures SameContents(s, Close(s, t, fd)) && OnlyFd(s, Close(s, t, fd), t, fd)
    ensures FdAt(s, t, fd).Some? ==>
              var k := FdAt(s, t, fd).value;
              && s.files[k].count > 0 && s.files[k].inode.Some?
              && (Close(s, t, fd).held == if Refs(s, k) == {(t, fd)} then s.held - multiset{s.files[k].inode.value}
                 else s.held)
  {
    if FdAt(s, t, fd).Some? {
      var k := FdAt(s, t, fd).value;
      var s' := Close(s, t, fd);
      assert (t, fd) in Refs(s, k);
      SetFdIs(s, t, fd, None);
      assert forall u: nat, e: nat :: FdAt(s', u, e) == FdAt(SetFd(s, t, fd, None), u, e);
      forall j: nat | j < |s'.files| ensures s'.files[j].count == |Refs(s', j)| {
        RefsMove(s, s', t, fd, j);
      }
      OnlyOne(Refs(s, k), (t, fd));
      UsesClose(s, s', k, s.files[k].inode.value);
    }
  }

  lemma OnlyOne<T>(a: set<T>, x: T)
    requires x in a
    ensures |a| == 1 <==> a == {x}
  {
    if |a| == 1 {
      assert |a - {x}| == 0;
    }
  }

  lemma UsesClose(s: State, s': State, k: nat, i: nat)
    requires k < |s.files| && s.files[k].count > 0 && s.files[k].inode == Some(i)
    requires s'.files == s.files[k := s.files[k].(count := s.files[k].count - 1)]
    requires s'.held == if s.files[k].count == 1 then s.held - multiset{i} else s.held
    requires forall j: nat :: s.held[j] == |Uses(s, j)|
    ensures forall j: nat :: s'.held[j] == |Uses(s', j)|
  {
    forall j: nat ensures s'.held[j] == |Uses(s', j)| {
      if j == i && s.files[k].count == 1 {
        assert k in Uses(s, i) && Uses(s', j) == Uses(s, j) - {k};
      } else {
        assert Uses(s', j) == Uses(s, j);
      }
    }
  }

  // ----- tasks come and go -----

  /** The first n of a task's descriptors. */
  function Prefix(fds: seq<Option<nat>>, n: nat): seq<Option<nat>> {
    seq(|fds|, i requires 0 <= i < |fds| => if i < n then fds[i] else None)
  }

  /** A task with no open file comes or goes unnoticed. */
  lemma EmptyTask(s: State, s': State, t: nat)
    requires Inv(s) && (forall fd: nat :: FdAt(s, t, fd) == None && FdAt(s', t, fd) == None)
    requires s'.files == s.files && s'.held == s.held
    requires forall u: nat | u != t :: (u in s'.tasks <==> u in s.tasks) && (u in s.tasks ==> s'.tasks[u] == s.tasks[u])
    requires t in s'.tasks ==> |s'.tasks[t]| == TASK_FILE_NR
    ensures Inv(s')
  {
    assert forall u: nat, e: nat :: FdAt(s', u, e) == FdAt(s, u, e);
    forall k: nat | k < |s.files| ensures Refs(s', k) == Refs(s, k) {}
    forall i: nat ensures Uses(s', i) == Uses(s, i) {}
  }

  /** task_fork while it counts: the child has the first n of its parent's descriptors. */
  function Forking(s: State, files: seq<File>, fds: seq<Option<nat>>, child: nat, n: nat): State {
    s.(files := files, tasks := s.tasks[child := Prefix(fds, n)])
  }

  /** One round of task_fork's loop over the files the child got. */
  lemma ForkRound(s: State, files: seq<File>, fds: seq<Option<nat>>, parent: nat, child: nat, i: nat)
    requires Inv(Forking(s, files, fds, child, i)) && i < |fds| == TASK_FILE_NR
    requires parent != child && parent in s.tasks && s.tasks[parent] == fds
    ensures fds[i].None? ==> Inv(Forking(s, files, fds, child, i + 1))
    ensures fds[i].Some? ==>
              var k := fds[i].value;
              k < |files| && Inv(Forking(s, files[k := files[k].(count := files[k].count + 1)], fds, child, i + 1))
  {
    var c := Forking(s, files, fds, child, i);
    hide Inv;
    if fds[i].Some? {
      var k := fds[i].value;
      assert FdAt(c, parent, i) == Some(k) && FdAt(c, child, i) == None;
      Named(c, parent, i);
      ShareKeeps(c, child, i, k);
      assert Prefix(fds, i)[i := Some(k)] == Prefix(fds, i + 1);
      hide Prefix;
      assert Share(c, child, i, k) == Forking(s, files[k := files[k].(count := files[k].count + 1)], fds, child, i + 1);
    } else {
      assert Prefix(fds, i + 1) == Prefix(fds, i);
    }
  }

  lemma ForkEnds(s: State, files: seq<File>, fds: seq<Option<nat>>, parent: nat, child: nat)
    requires Inv(s) && parent in s.tasks && s.tasks[parent] == fds && child !in s.tasks
    ensures Inv(Forking(s, s.files, fds, child, 0))
    ensures Forking(s, files, fds, child, TASK_FILE_NR) == s.(files := files, tasks := s.tasks[child := fds])
  {
    EmptyTask(s, Forking(s, s.files, fds, child, 0), child);
    assert Prefix(fds, TASK_FILE_NR) == fds;
  }

  // ----- descriptors as the code checks them -----

  /** What a call on descriptors comes to: a descriptor, EOF, a failed assertion, or an
      access outside the task's 16 entries, after which nothing is promised. */
  datatype Outcome = Fd(fd: nat) | Eof | Failed | Wild

  predicate InTable(fd: int) { 0 <= fd < TASK_FILE_NR }

  /** dupfd's range test: signed, and one too far. */
  predicate DupPasses(fd: int) { !(fd > TASK_FILE_NR) }

  /** sys_close's assertion, signed as well. */
  predicate ClosePasses(fd: int) { fd < TASK_FILE_NR }

  /** Which descriptors each test lets through to an entry that is not there. */
  lemma TestsExactly(fd: int)
    ensures DupPasses(fd) && !InTable(fd) <==> fd < 0 || fd == 16
    ensures ClosePasses(fd) && !InTable(fd) <==> fd < 0
  {}

  predicate OthersOpen(s: State, t: nat, a: nat) {
    forall e: nat | FIRST <= e < TASK_FILE_NR && e != a :: FdAt(s, t, e).Some?
  }

  predicate OthersUsed(s: State, a: nat) {
    forall k: nat | FIRST <= k < |s.files| && k != a :: s.files[k].count > 0
  }

  /** At most one descriptor of t, or at most one slot, is left for open and pipe. */
  ghost predicate OneLeft(s: State, t: nat) {
    (exists a: nat :: OthersOpen(s, t, a)) || exists a: nat :: OthersUsed(s, a)
  }

  class FileTable {
    var files: seq<File>
    var tasks: map<nat, seq<Option<nat>>>
    var held: multiset<nat>

    ghost function Now(): State
      reads this
    {
      State(files, tasks, held)
    }

    /** file_init, and the descriptors 0, 1 and 2 that task_create gives to each of the
        three tasks made at start. */
    constructor (stdin: nat, stdout: nat, stderr: nat)
      ensures Inv(Now()) && tasks.Keys == {0, 1, 2}
      ensures forall t: nat, fd: nat | t < 3 :: FdAt(Now(), t, fd) == if fd < FIRST then Some(fd) else None
    {
      var s := Start(stdin, stdout, stderr);
      files, tasks, held := s.files, s.tasks, s.held;
      new;
      StartKeeps(stdin, stdout, stderr);
      hide Inv, Start;
      ghost var fds := tasks[0];
      Fork(0, 1);
      Fork(0, 2);
      assert tasks[0] == tasks[1] == tasks[2] == fds;
      assert forall fd: nat :: FdAt(s, 0, fd) == if fd < |fds| then fds[fd] else None;
    }

    /** task_get_fd; None stands for its panic. */
    method GetFd(t: nat) returns (fd: Option<nat>)
      requires t in tasks && |tasks[t]| == TASK_FILE_NR
      ensures fd.Some? ==>
              FIRST <= fd.value < TASK_FILE_NR && tasks[t][fd.value].None?
              && forall e | FIRST <= e < fd.value :: tasks[t][e].Some?
      ensures fd.None? ==> forall e | FIRST <= e < TASK_FILE_NR :: tasks[t][e].Some?
    {
      for i := FIRST to TASK_FILE_NR
        invariant forall e | FIRST <= e < i :: tasks[t][e].Some?
      {
        if tasks[t][i].None? {
          return Some(i);
        }
      }
      return None;
    }

    /** get_file; None stands for its panic. */
    method GetFile() returns (k: Option<nat>)
      requires |files| == FILE_NR
      modifies this`files
      ensures k.Some? ==>
              FIRST <= k.value < FILE_NR && old(files)[k.value].count == 0
              && forall j | FIRST <= j < k.value :: old(files)[j].count > 0
      ensures k.Some? ==> files == old(files)[k.value := old(files)[k.value].(count := 1)]
      ensures k.None? ==> files == old(files) && forall j | FIRST <= j < FILE_NR :: files[j].count > 0
    {
      for i := FIRST to FILE_NR
        invariant files == old(files) && forall j | FIRST <= j < i :: files[j].count > 0
      {
        if files[i].count == 0 {
          files := files[i := files[i].(count := files[i].count + 1)];
          return Some(i);
        }
      }
      return None;
    }

    /** What sys_open and sys_pipe do for one descriptor: an unused slot holds inode i.
        Without an offset the slot keeps the one it had. None stands for a panic. */
    method TakeSlot(t: nat, i: nat, flags: nat, offset: Option<nat>) returns (fd: Option<nat>, ghost k: nat)
      requires Inv(Now()) && t in tasks
      modifies this
      ensures fd.Some? ==> Inv(Now()) && FIRST <= fd.value < TASK_FILE_NR && FdAt(old(Now()), t, fd.value) == None
      ensures fd.Some? ==> FIRST <= k < FILE_NR == |old(files)| && old(files)[k].count == 0
      ensures fd.Some? ==>
                Now() == Open(old(Now()), t, fd.value, k, i, flags, if offset.Some? then offset.value
                  else old(files)[k].offset)
      ensures fd.None? ==> Now() == old(Now())
      ensures fd.None? ==> (forall e: nat | FIRST <= e < TASK_FILE_NR :: FdAt(Now(), t, e).Some?)
                           || forall j: nat | FIRST <= j < |files| :: files[j].count > 0
    {
      hide Inv;
      k := 0;
      Lengths(Now(), t);
      fd := GetFd(t);
      if fd.None? {
        return;
      }
      var slot := GetFile();
      if slot.None? {
        fd := None;
        return;
      }
      k := slot.value;
      ghost var at := if offset.Some? then offset.value else old(files)[k].offset;
      OpenKeeps(old(Now()), t, fd.value, k, i, flags, at);
      tasks := tasks[t := tasks[t][fd.value := slot]];
      files := files[slot.value := files[slot.value].(inode := Some(i), flags := flags)];
      if offset.Some? {
        files := files[slot.value := files[slot.value].(offset := offset.value)];
      }
      held := held + multiset{i};
      assert files == old(files)[k := File(1, Some(i), flags, at)];
      assert Now() == Open(old(Now()), t, fd.value, k, i, flags, at);
    }

    /** The part of sys_open behind inode_open, which found inode i of the given
        size and took a reference to it. */
    method OpenFile(t: nat, i: nat, flags: nat, append: bool, size: nat) returns (fd: Option<nat>, ghost k: nat)
      requires Inv(Now()) && t in tasks
      modifies this
      ensures fd.Some? ==> Inv(Now()) && FIRST <= fd.value < TASK_FILE_NR && FdAt(old(Now()), t, fd.value) == None
      ensures fd.Some? ==> FIRST <= k < FILE_NR == |old(files)| && old(files)[k].count == 0
      ensures fd.Some? ==> OnlyFd(old(Now()), Now(), t, fd.value) && FdAt(Now(), t, fd.value) == Some(k)
      ensures fd.Some? ==> files == old(files)[k := File(1, Some(i), flags, if append then size else 0)]
      ensures fd.None? ==> Now() == old(Now())
    {
      hide Inv, Open;
      fd, k := TakeSlot(t, i, flags, Some(if append then size else 0));
      if fd.Some? {
        OpenIs(old(Now()), t, fd.value, k, i, flags, if append then size else 0);
      }
    }

    /** sys_close. */
    method CloseFile(t: nat, fd: int) returns (r: Outcome)
      requires Inv(Now()) && t in tasks
      modifies this
      ensures Inv(Now())
      ensures r == Wild <==> fd < 0
      ensures r == Failed <==> fd >= TASK_FILE_NR
      ensures r == Wild || r == Failed ==> Now() == old(Now())
      ensures InTable(fd) ==> r == Eof && Now() == Close(old(Now()), t, fd) && FdAt(Now(), t, fd) == None
      ensures InTable(fd) ==> SameContents(old(Now()), Now()) && OnlyFd(old(Now()), Now(), t, fd)
    {
      if !ClosePasses(fd) {
        return Failed;
      }
      if !InTable(fd) {
        return Wild;
      }
      CloseEntry(t, fd);
      return Eof;
    }

    /** sys_close of a descriptor that has an entry. */
    method CloseEntry(t: nat, fd: nat)
      requires Inv(Now()) && t in tasks && InTable(fd)
      modifies this
      ensures Inv(Now()) && Now() == Close(old(Now()), t, fd) && FdAt(Now(), t, fd) == None
      ensures SameContents(old(Now()), Now()) && OnlyFd(old(Now()), Now(), t, fd)
    {
      hide Inv;
      CloseKeeps(Now(), t, fd);
      Lengths(Now(), t);
      if tasks[t][fd].None? {
        return;
      }
      Named(Now(), t, fd);
      var k := tasks[t][fd].value;
      var f := files[k];
      assert f.inode.Some? && f.count > 0;
      files := files[k := f.(count := f.count - 1)];
      if f.count == 1 {
        held := held - multiset{f.inode.value};
      }
      tasks := tasks[t := tasks[t][fd := None]];
    }

    /** The loop of dupfd. */
    method FirstFree(t: nat, arg: nat) returns (a: nat)
      requires t in tasks && |tasks[t]| == TASK_FILE_NR
      ensures a >= arg && (a < TASK_FILE_NR ==> tasks[t][a].None?)
      ensures forall e | arg <= e < a && e < TASK_FILE_NR :: tasks[t][e].Some?
    {
      a := arg;
      while a < TASK_FILE_NR && tasks[t][a].Some?
        invariant a >= arg && forall e | arg <= e < a && e < TASK_FILE_NR :: tasks[t][e].Some?
      {
        a := a + 1;
      }
    }

    /** dupfd: it stays inside the table exactly when the old descriptor is inside it or
        above 16 and, once that one is open, the new one is not negative. */
    method DupFd(t: nat, fd: int, arg: int) returns (r: Outcome)
      requires Inv(Now()) && t in tasks
      modifies this
      ensures Inv(Now()) && r != Failed
      ensures r == Wild <==> fd < 0 || fd == 16 || (InTable(fd) && FdAt(old(Now()), t, fd).Some? && arg < 0)
      ensures r.Fd? ==>
                && InTable(fd) && arg <= r.fd < TASK_FILE_NR && FdAt(old(Now()), t, r.fd) == None
                && (forall e: nat | arg <= e < r.fd :: FdAt(old(Now()), t, e).Some?)
                && FdAt(old(Now()), t, fd).Some? && FdAt(Now(), t, r.fd) == FdAt(old(Now()), t, fd)
                && SameContents(old(Now()), Now()) && OnlyFd(old(Now()), Now(), t, r.fd) && held == old(held)
      ensures !r.Fd? ==> Now() == old(Now())
      ensures r == Eof <==> fd > 16 || (InTable(fd) && (FdAt(old(Now()), t, fd) == None
                            || (arg >= 0 && forall e: nat | arg <= e < TASK_FILE_NR :: FdAt(old(Now()), t, e).Some?)))
    {
      TestsExactly(fd);
      if !DupPasses(fd) {
        return Eof;
      }
      if !InTable(fd) {
        return Wild;
      }
      Lengths(Now(), t);
      if tasks[t][fd].None? {
        return Eof;
      }
      if arg < 0 {
        return Wild;
      }
      var a := FirstFree(t, arg);
      hide Inv;
      if a >= TASK_FILE_NR {
        return Eof;
      }
      var k := tasks[t][fd].value;
      Named(Now(), t, fd);
      ShareKeeps(Now(), t, a, k);
      ShareIs(Now(), t, a, k);
      tasks := tasks[t := tasks[t][a := Some(k)]];
      files := files[k := files[k].(count := files[k].count + 1)];
      return Fd(a);
    }

    /** sys_dup2: the new descriptor names the old one's file, unless they are one
        and the same, which is closed and nothing else. */
    method Dup2(t: nat, fd: int, target: int) returns (r: Outcome)
      requires Inv(Now()) && t in tasks
      modifies this
      ensures Inv(Now())
      ensures r == Wild <==> target < 0 || (InTable(target) && (fd < 0 || fd == 16))
      ensures r == Failed <==> target >= TASK_FILE_NR
      ensures r.Fd? <==> InTable(fd) && InTable(target) && fd != target && FdAt(old(Now()), t, fd).Some?
      ensures r.Fd? ==> r.fd == target && FdAt(Now(), t, target) == FdAt(Now(), t, fd) == FdAt(old(Now()), t, fd)
      ensures r.Fd? ==> SameContents(old(Now()), Now()) && OnlyFd(old(Now()), Now(), t, target)
      ensures r == Eof ==> InTable(target) && FdAt(Now(), t, target) == None && Now() == Close(old(Now()), t, target)
    {
      r := CloseFile(t, target);
      if r != Eof {
        return;
      }
      CloseOthers(old(Now()), t, target);
      r := DupFd(t, fd, target);
    }

    /** sys_pipe: the two ends are two slots that each hold the new inode. */
    method Pipe(t: nat, i: nat) returns (ends: Option<(nat, nat)>)
      requires Inv(Now()) && t in tasks
      modifies this
      ensures ends.Some? ==>
                && Inv(Now()) && ends.value.0 != ends.value.1 && held == old(held) + multiset{i, i}
                && var a, b := FdAt(Now(), t, ends.value.0), FdAt(Now(), t, ends.value.1);
                   && a.Some? && b.Some? && a != b && a.value < FILE_NR == |old(files)| && b.value < FILE_NR
                   && files[a.value] == File(1, Some(i), 0, old(files)[a.value].offset)
                   && files[b.value] == File(1, Some(i), 1, old(files)[b.value].offset)
                   && old(files)[a.value].count == old(files)[b.value].count == 0
                   && files == old(files)[a.value := files[a.value]][b.value := files[b.value]]
      ensures ends.Some? ==>
                && tasks.Keys == old(tasks).Keys
                && forall u: nat, e: nat | u != t || (e != ends.value.0 && e != ends.value.1) ::
                     FdAt(Now(), u, e) == FdAt(old(Now()), u, e)
      ensures ends.None? ==> OneLeft(old(Now()), t)
    {
      ghost var s0 := Now();
      hide Inv, Open;
      var a, j := TakeSlot(t, i, 0, None);
      if a.None? {
        assert OthersOpen(s0, t, 0) || OthersUsed(s0, 0);
        return None;
      }
      ghost var s1 := Now();
      OpenIs(s0, t, a.value, j, i, 0, s0.files[j].offset);
      var b, k := TakeSlot(t, i, 1, None);
      if b.None? {
        if exists e: nat :: FIRST <= e < TASK_FILE_NR && FdAt(s1, t, e).None? {
          assert forall x: nat | FIRST <= x < |s0.files| && x != j ::
            s1.files[x].count > 0 && s1.files[x] == s0.files[x];
          assert OthersUsed(s0, j);
        } else {
          assert forall e: nat | FIRST <= e < TASK_FILE_NR && e != a.value :: FdAt(s1, t, e) == FdAt(s0, t, e);
          assert OthersOpen(s0, t, a.value);
        }
        return None;
      }
      OpenIs(s1, t, b.value, k, i, 1, s1.files[k].offset);
      return Some((a.value, b.value));
    }

    /** task_fork's copy of the descriptors: every file counts once more for every
        descriptor of the child. */
    method Fork(parent: nat, child: nat)
      requires Inv(Now()) && parent in tasks && child !in tasks
      modifies this
      ensures Inv(Now()) && tasks == old(tasks)[child := old(tasks)[parent]] && held == old(held)
      ensures SameContents(old(Now()), Now())
    {
      ghost var s := Now();
      hide Inv, Forking;
      Lengths(s, parent);
      var fds := tasks[parent];
      tasks := tasks[child := fds];
      ForkEnds(s, files, fds, parent, child);
      for i := 0 to TASK_FILE_NR
        invariant tasks == s.tasks[child := fds] && held == s.held && Inv(Forking(s, files, fds, child, i))
        invariant SameContents(s, Now())
      {
        ForkRound(s, files, fds, parent, child, i);
        if fds[i].Some? {
          var k := fds[i].value;
          files := files[k := files[k].(count := files[k].count + 1)];
        }
      }
      ForkEnds(s, files, fds, parent, child);
    }

    /** task_exit's loop: everything is closed, and the task is gone. */
    method Exit(t: nat)
      requires Inv(Now()) && t in tasks
      modifies this
      ensures Inv(Now()) && tasks.Keys == old(tasks).Keys - {t} && forall u | u in tasks :: tasks[u] == old(tasks)[u]
      ensures SameContents(old(Now()), Now())
    {
      for i := 0 to TASK_FILE_NR
        invariant Inv(Now()) && tasks.Keys == old(tasks).Keys
                  && forall u | u in tasks && u != t :: tasks[u] == old(tasks)[u]
        invariant forall e: nat | e < i :: FdAt(Now(), t, e) == None
        invariant SameContents(old(Now()), Now())
      {
        ghost var s := Now();
        CloseEntry(t, i);
        CloseOthers(s, t, i);
      }
      ghost var s := Now();
      tasks := tasks - {t};
      EmptyTask(s, Now(), t);
    }
  }

  lemma CloseOthers(s: State, t: nat, fd: nat)
    requires Inv(s) && t in s.tasks && fd < TASK_FILE_NR
    ensures var s' := Close(s, t, fd);
            && s'.tasks.Keys == s.tasks.Keys && (forall u | u in s.tasks && u != t :: s'.tasks[u] == s.tasks[u])
            && forall e: nat | e != fd :: FdAt(s', t, e) == FdAt(s, t, e)
  {}

  function Blank(): State {
    State(seq(FILE_NR, _ => File(0, None, 0, 0)), map[0 := seq(TASK_FILE_NR, _ => None)], multiset{})
  }

  function Start(stdin: nat, stdout: nat, stderr: nat): State {
    Open(Open(Open(Blank(), 0, 0, 0, stdin, 0, 0), 0, 1, 1, stdout, 1, 0), 0, 2, 2, stderr, 1, 0)
  }

  lemma BlankKeeps()
    ensures Inv(Blank()) && Blank().tasks.Keys == {0}
            && Blank().files[0].count == Blank().files[1].count == Blank().files[2].count == 0
    ensures forall fd: nat :: FdAt(Blank(), 0, fd) == None
  {
    assert forall k: nat :: Refs(Blank(), k) == {};
    assert forall k: nat :: Uses(Blank(), k) == {};
  }

  lemma StartKeeps(stdin: nat, stdout: nat, stderr: nat)
    ensures var s := Start(stdin, stdout, stderr);
            Inv(s) && s.tasks.Keys == {0} && forall fd: nat :: FdAt(s, 0, fd) == if fd < FIRST then Some(fd) else None
  {
    var s := Blank();
    BlankKeeps();
    hide Inv, Open, Blank;
    OpenKeeps(s, 0, 0, 0, stdin, 0, 0);
    OpenIs(s, 0, 0, 0, stdin, 0, 0);
    var s1 := Open(s, 0, 0, 0, stdin, 0, 0);
    OpenKeeps(s1, 0, 1, 1, stdout, 1, 0);
    OpenIs(s1, 0, 1, 1, stdout, 1, 0);
    var s2 := Open(s1, 0, 1, 1, stdout, 1, 0);
    OpenKeeps(s2, 0, 2, 2, stderr, 1, 0);
    OpenIs(s2, 0, 2, 2, stderr, 1, 0);
  }
}
