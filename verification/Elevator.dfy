/** src/kernel/device.c: the sorted queue of disk requests, whose running member
    is also what keeps the others waiting. Sector numbers are taken below 2^31,
    where the signed comparison of the list agrees with them. */
module Elevator {
  import opened Common
  import opened Sequences

  /** request_t: `task` is the task blocked on it, if it had to wait. */
  datatype Request = Request(idx: int, task: Option<nat>)

  function Keys(q: seq<Request>): seq<int> { seq(|q|, i requires 0 <= i < |q| => q[i].idx) }

  predicate ByKey(q: seq<Request>) { forall i, j | 0 <= i < j < |q| :: q[i].idx <= q[j].idx }

  lemma KeysSorted(q: seq<Request>)
    ensures Sorted(Keys(q)) <==> ByKey(q)
  {
    assert forall i | 0 <= i < |q| :: Keys(q)[i] == q[i].idx;
    if Sorted(Keys(q)) {
      forall i, j | 0 <= i < j < |q| ensures q[i].idx <= q[j].idx { assert Keys(q)[i] <= Keys(q)[j]; }
    }
  }

  /** The queue; requests[running] is being served and came first into an empty
      queue or was woken; `blocked` are the tasks not woken yet. */
  datatype Queue = Queue(requests: seq<Request>, running: nat, up: bool, blocked: set<nat>)

  ghost predicate Waits(s: Queue, t: nat) {
    exists i :: 0 <= i < |s.requests| && i != s.running && s.requests[i].task == Some(t)
  }

  ghost predicate Valid(s: Queue) {
    && ByKey(s.requests)
    && (s.requests != [] ==> s.running < |s.requests|)
    // everyone but the running request waits, and is asleep
    && (forall i | 0 <= i < |s.requests| && i != s.running ::
       s.requests[i].task.Some? && s.requests[i].task.value in s.blocked)
    && (forall i, j | 0 <= i < j < |s.requests| && s.requests[i].task.Some? :: s.requests[i].task != s.requests[j].task)
    && (forall t | t in s.blocked :: Waits(s, t))
  }

  /** request_nextreq: turn round at an end of the queue, then step. */
  function Turn(n: nat, i: nat, up: bool): bool {
    if up && i + 1 == n then false else if !up && i == 0 then true else up
  }

  function NextReq(n: nat, i: nat, up: bool): Option<nat>
    requires i < n
  {
    if Turn(n, i, up) then (if i + 1 < n then Some(i + 1) else None)
    else if i > 0 then Some(i - 1) else None
  }

  /** No other request is queued exactly when there is no next one. */
  lemma NextReqNone(n: nat, i: nat, up: bool)
    requires i < n
    ensures NextReq(n, i, up).None? <==> n == 1
    ensures NextReq(n, i, up).Some? ==> NextReq(n, i, up).value < n && NextReq(n, i, up).value != i
  {}

  /** The arm turns round only when nothing lies ahead, whatever has been
      queued in the meantime, so it serves keys in order until then. */
  lemma TurnsAtEnds(q: seq<Request>, i: nat, up: bool)
    requires i < |q| && ByKey(q)
    ensures up && !Turn(|q|, i, up) ==> forall j | 0 <= j < |q| :: q[j].idx <= q[i].idx
    ensures !up && Turn(|q|, i, up) ==> forall j | 0 <= j < |q| :: q[j].idx >= q[i].idx
    ensures NextReq(|q|, i, up).Some? ==>
              var next := q[NextReq(|q|, i, up).value].idx;
              if Turn(|q|, i, up) then next >= q[i].idx else next <= q[i].idx
  {}

  // ----- draining without arrivals -----

  /** The order in which the queue is served from request i on. */
  function Drain(q: seq<Request>, i: nat, up: bool): seq<Request>
    requires i < |q|
    decreases |q|
  {
    var next := NextReq(|q|, i, up);
    [q[i]] +
    if next.None? then []
    else Drain(RemoveAt(q, i), NextPlace(next.value, i), Turn(|q|, i, up))
  }

  /** Where the request at next is once the one at i has left the queue. */
  function NextPlace(next: nat, i: nat): nat { if next > i then next - 1 else next }

  function Reversed(q: seq<Request>): seq<Request> {
    if q == [] then [] else Reversed(q[1..]) + [q[0]]
  }

  /** SCAN: one way to the end, then back over the rest. */
  function Scan(q: seq<Request>, i: nat, up: bool): seq<Request>
    requires i < |q|
  {
    if up then q[i..] + Reversed(q[..i]) else Reversed(q[..i + 1]) + q[i + 1..]
  }

  lemma {:induction false} ReversedLast(q: seq<Request>)
    requires q != []
    ensures Reversed(q) == [q[|q| - 1]] + Reversed(q[..|q| - 1])
  {
    if |q| > 1 {
      ReversedLast(q[1..]);
      assert q[1..][..|q| - 2] == q[..|q| - 1][1..];
    }
  }

  lemma ScanUp(q: seq<Request>, i: nat)
    requires i + 1 < |q|
    ensures Scan(q, i, true) == [q[i]] + Scan(RemoveAt(q, i), i, true)
  {
    assert RemoveAt(q, i)[i..] == q[i + 1..] && RemoveAt(q, i)[..i] == q[..i];
  }

  lemma ScanTurnDown(q: seq<Request>, i: nat)
    requires 0 < i && i + 1 == |q|
    ensures Scan(q, i, true) == [q[i]] + Scan(RemoveAt(q, i), i - 1, false)
  {
    assert RemoveAt(q, i) == q[..i] && q[..i][..i] == q[..i] && q[..i][i..] == [];
  }

  lemma ScanDown(q: seq<Request>, i: nat)
    requires 0 < i < |q|
    ensures Scan(q, i, false) == [q[i]] + Scan(RemoveAt(q, i), i - 1, false)
  {
    assert RemoveAt(q, i)[i..] == q[i + 1..] && RemoveAt(q, i)[..i] == q[..i];
    ReversedLast(q[..i + 1]);
    assert q[..i + 1][..i] == q[..i];
  }

  lemma ScanTurnUp(q: seq<Request>)
    requires |q| > 1
    ensures Scan(q, 0, false) == [q[0]] + Scan(RemoveAt(q, 0), 0, true)
  {
    assert RemoveAt(q, 0) == q[1..] && q[1..][0..] == q[1..] && q[1..][..0] == [] && q[..1] == [q[0]];
    assert Reversed([q[0]]) == [q[0]];
  }

  lemma ScanOne(q: seq<Request>, up: bool)
    requires |q| == 1
    ensures Scan(q, 0, up) == [q[0]]
  {
    assert q[0..] == [q[0]] && q[..0] == [] && q[..1] == [q[0]] && q[1..] == [];
    assert Reversed([q[0]]) == [q[0]];
  }

  /** Every request is served once and in SCAN order. */
  lemma {:induction false} DrainIsScan(q: seq<Request>, i: nat, up: bool)
    requires i < |q|
    ensures Drain(q, i, up) == Scan(q, i, up)
    decreases |q|
  {
    hide Scan, RemoveAt;
    RemoveAtIndex(q, i);
    if |q| == 1 {
      ScanOne(q, up);
    } else if up && i + 1 < |q| {
      DrainIsScan(RemoveAt(q, i), i, true);
      ScanUp(q, i);
    } else if up {
      DrainIsScan(RemoveAt(q, i), i - 1, false);
      ScanTurnDown(q, i);
    } else if i > 0 {
      DrainIsScan(RemoveAt(q, i), i - 1, false);
      ScanDown(q, i);
    } else {
      DrainIsScan(RemoveAt(q, 0), 0, true);
      ScanTurnUp(q);
    }
  }

  // ----- how far the arm travels -----

  function Abs(x: int): nat { if x < 0 then -x else x }

  function Travel(q: seq<Request>): nat {
    if |q| < 2 then 0 else Abs(q[1].idx - q[0].idx) + Travel(q[1..])
  }

  lemma {:induction false} TravelJoin(a: seq<Request>, b: seq<Request>)
    requires a != [] && b != []
    ensures Travel(a + b) == Travel(a) + Abs(b[0].idx - a[|a| - 1].idx) + Travel(b)
  {
    assert (a + b)[1..] == a[1..] + b && (a + b)[0] == a[0];
    if |a| == 1 {
      assert a[1..] + b == b && (a + b)[1] == b[0];
    } else {
      assert (a + b)[1] == a[1];
      TravelJoin(a[1..], b);
    }
  }

  lemma {:induction false} TravelSorted(q: seq<Request>)
    requires q != [] && ByKey(q)
    ensures Travel(q) == q[|q| - 1].idx - q[0].idx
  {
    if |q| > 1 {
      TravelSorted(q[1..]);
      assert q[1..][|q| - 2] == q[|q| - 1];
    }
  }

  lemma ReversedEnds(q: seq<Request>)
    requires q != []
    ensures |Reversed(q)| == |q| && Reversed(q)[0] == q[|q| - 1] && Reversed(q)[|q| - 1] == q[0]
  {
    ReversedLast(q);
    ReversedSize(q);
  }

  lemma ReversedSize(q: seq<Request>)
    ensures |Reversed(q)| == |q|
  {}

  lemma {:induction false} TravelReversed(q: seq<Request>)
    requires q != []
    ensures Travel(Reversed(q)) == Travel(q)
  {
    if |q| > 1 {
      TravelReversed(q[1..]);
      ReversedEnds(q[1..]);
      TravelJoin(Reversed(q[1..]), [q[0]]);
    }
  }

  lemma UpThenBack(q: seq<Request>, i: nat)
    requires 0 < i < |q| && ByKey(q)
    ensures Travel(q[i..] + Reversed(q[..i])) == (q[|q| - 1].idx - q[i].idx) + (q[|q| - 1].idx - q[0].idx)
  {
    var a, b := q[i..], q[..i];
    assert a[0] == q[i] && a[|a| - 1] == q[|q| - 1] && b[0] == q[0] && b[|b| - 1] == q[i - 1];
    assert q[i - 1].idx <= q[|q| - 1].idx;
    assert ByKey(a) && ByKey(b);
    hide Travel, Reversed, ByKey;
    TravelSorted(a);
    TravelSorted(b);
    TravelReversed(b);
    ReversedEnds(b);
    TravelJoin(a, Reversed(b));
  }

  /** Going up first, the arm moves to the largest key and back to the smallest at most. */
  lemma UpwardTravel(q: seq<Request>, i: nat)
    requires i < |q| && ByKey(q)
    ensures Travel(Drain(q, i, true)) ==
            (q[|q| - 1].idx - q[i].idx) + (if i > 0 then q[|q| - 1].idx - q[0].idx else 0)
    ensures Travel(Drain(q, i, true)) <= (q[|q| - 1].idx - q[i].idx) + (q[|q| - 1].idx - q[0].idx)
  {
    DrainIsScan(q, i, true);
    assert q[0].idx <= q[|q| - 1].idx;
    if i > 0 {
      UpThenBack(q, i);
    } else {
      assert q[i..] == q && q[..i] == [] && q + [] == q;
      TravelSorted(q);
    }
    hide Travel, Drain;
  }

  // ----- the device as the code runs it -----

  class Device {
    var requests: seq<Request>
    var running: nat
    var up: bool
    ghost var blocked: set<nat>

    ghost function State(): Queue
      reads this
    {
      Queue(requests, running, up, blocked)
    }

    constructor ()
      ensures Valid(State()) && requests == []
    {
      requests, running, up, blocked := [], 0, true, {};
    }

    /** device_request up to the point where it is served or put to sleep. */
    method Submit(idx: int, task: nat) returns (granted: bool)
      requires Valid(State()) && task !in blocked && forall r | r in requests :: r.task != Some(task)
      modifies this
      ensures Valid(State())
      ensures granted <==> old(requests) == []
      ensures var r := Request(idx, if granted then None else Some(task));
              requests == InsertAt(old(requests), InsertPos(Keys(old(requests)), idx), r)
      ensures !granted ==> requests[running] == old(requests[running]) && blocked == old(blocked) + {task}
      ensures granted ==> blocked == {} && up == old(up)
    {
      ghost var s := State();
      var empty := requests == [];
      var at := InsertPos(Keys(requests), idx);
      var r := Request(idx, if empty then None else Some(task));
      requests := InsertAt(requests, at, r);
      if empty {
        running := 0;
      } else {
        // a request in front of the running one moves it along
        running := if at <= running then running + 1 else running;
        blocked := blocked + {task};
      }
      SubmitKeeps(s, State(), at, r);
      return empty;
    }

    /** device_request once do_request is done: the next one in the arm's direction is woken. */
    method Complete() returns (woken: Option<nat>)
      requires Valid(State()) && requests != []
      modifies this
      ensures Valid(State()) && requests == RemoveAt(old(requests), old(running))
              && up == Turn(|old(requests)|, old(running), old(up))
      ensures woken.None? <==> requests == []
      ensures var next := NextReq(|old(requests)|, old(running), old(up));
              && woken == (if next.Some? then old(requests)[next.value].task else None)
              && (next.Some? ==>
                 requests[running] == old(requests)[next.value] && running == NextPlace(next.value, old(running)))
      ensures woken.Some? ==>
                && woken.value in old(blocked) && blocked == old(blocked) - {woken.value}
                && (if up then requests[running].idx >= old(requests[running].idx)
                   else requests[running].idx <= old(requests[running].idx))
    {
      ghost var s := State();
      var n := |requests|;
      var next := NextReq(n, running, up);
      NextReqNone(n, running, up);
      TurnsAtEnds(requests, running, up);
      up := Turn(n, running, up);
      var i := running;
      if next.Some? {
        woken := requests[next.value].task;
        assert woken.Some?;
        blocked := blocked - {woken.value};
        running := NextPlace(next.value, i);
      } else {
        woken := None;
      }
      requests := RemoveAt(requests, i);
      CompleteKeeps(s, State(), i, next);
    }

    /** Completing one request after another while none arrives: what is served, in order. */
    method ServeAll() returns (served: seq<Request>)
      requires Valid(State())
      modifies this
      ensures requests == [] && Valid(State())
      ensures served == if old(requests) == [] then [] else Scan(old(requests), old(running), old(up))
    {
      served := [];
      while requests != []
        invariant Valid(State())
        invariant old(requests) == [] ==> requests == [] && served == []
        invariant old(requests) != [] ==>
                    served + (if requests == [] then [] else Drain(requests, running, up))
                    == Drain(old(requests), old(running), old(up))
        decreases |requests|
      {
        ServeNext(served, requests, running, up);
        NextReqNone(|requests|, running, up);
        served := served + [requests[running]];
        var woken := Complete();
      }
      if old(requests) != [] { DrainIsScan(old(requests), old(running), old(up)); }
    }
  }

  lemma ServeNext(served: seq<Request>, q: seq<Request>, i: nat, up: bool)
    requires i < |q|
    ensures var next := NextReq(|q|, i, up);
            served + Drain(q, i, up) ==
            (served + [q[i]]) + (if next.None? then []
              else Drain(RemoveAt(q, i), NextPlace(next.value, i), Turn(|q|, i, up)))
  {
    NextReqNone(|q|, i, up);
  }

  lemma SubmitKeeps(s: Queue, s': Queue, at: nat, r: Request)
    requires Valid(s) && at == InsertPos(Keys(s.requests), r.idx) && s'.requests == InsertAt(s.requests, at, r)
    requires forall x | x in s.requests :: r.task.Some? ==> x.task != r.task
    requires if s.requests == [] then
               s'.running == 0 && s'.blocked == s.blocked && r.task.None?
             else
               && s'.running == (if at <= s.running then s.running + 1 else s.running)
               && r.task.Some? && s'.blocked == s.blocked + {r.task.value}
    ensures Valid(s') && (s.requests == [] ==> s'.blocked == {})
            && (s.requests != [] ==> s'.requests[s'.running] == s.requests[s.running])
  {
    hide InsertAt, InsertPos, ByKey, Waits;
    var q, q' := s.requests, s'.requests;
    SubmitSorted(q, at, r);
    InsertAtIndex(q, at, r);
    SubmitTasks(q, q', at, r);
    assert Submitted(s, s', at, r);
    hide Submitted;
    SubmitAsleep(s, s', at, r);
    SubmitAllWait(s, s', at, r);
  }

  /** s' is s with r at place `at`, as far as the waiting goes. */
  ghost predicate Submitted(s: Queue, s': Queue, at: nat, r: Request) {
    && at <= |s.requests| && s'.requests == InsertAt(s.requests, at, r)
    && if s.requests == [] then
         s'.running == 0 && s'.blocked == s.blocked
       else
         && s.running < |s.requests| && s'.running == Shift(at, s.running)
         && r.task.Some? && s'.blocked == s.blocked + {r.task.value}
  }

  lemma SubmitAsleep(s: Queue, s': Queue, at: nat, r: Request)
    requires Submitted(s, s', at, r)
    requires forall i | 0 <= i < |s.requests| && i != s.running ::
             s.requests[i].task.Some? && s.requests[i].task.value in s.blocked
    ensures forall i | 0 <= i < |s'.requests| && i != s'.running ::
            s'.requests[i].task.Some? && s'.requests[i].task.value in s'.blocked
    ensures s.requests != [] ==> s'.requests[s'.running] == s.requests[s.running]
  {
    InsertAtIndex(s.requests, at, r);
    hide InsertAt;
    forall i | 0 <= i < |s'.requests| && i != s'.running
      ensures s'.requests[i].task.Some? && s'.requests[i].task.value in s'.blocked {
      if i < at { assert s'.requests[i] == s.requests[i]; }
        else if i > at { assert s'.requests[i] == s.requests[i - 1]; }
    }
  }

  lemma SubmitAllWait(s: Queue, s': Queue, at: nat, r: Request)
    requires Submitted(s, s', at, r) && forall t | t in s.blocked :: Waits(s, t)
    ensures forall t | t in s'.blocked :: Waits(s', t)
    ensures s.requests == [] ==> s'.blocked == {}
  {
    ShiftIndex(s.requests, at, r);
    forall t | t in s'.blocked ensures Waits(s', t) {
      if t in s.blocked { assert Waits(s, t); }
      SubmitWaits(s, s', at, r, t);
    }
    assert s.requests == [] ==> forall t :: !Waits(s, t);
  }

  lemma SubmitWaits(s: Queue, s': Queue, at: nat, r: Request, t: nat)
    requires at <= |s.requests| && |s'.requests| == |s.requests| + 1 && s'.requests[at] == r
    requires forall i | 0 <= i < |s.requests| :: s'.requests[Shift(at, i)] == s.requests[i]
    requires s.requests != [] ==> s.running < |s.requests| && s'.running == Shift(at, s.running)
    requires (t in s.blocked && Waits(s, t)) || (r.task == Some(t) && s.requests != [])
    ensures Waits(s', t)
  {
    if t in s.blocked && Waits(s, t) {
      var i :| 0 <= i < |s.requests| && i != s.running && s.requests[i].task == Some(t);
      assert s'.requests[Shift(at, i)].task == Some(t) && Shift(at, i) != s'.running;
    } else {
      assert s'.requests[at].task == Some(t) && at != s'.running;
    }
  }

  /** Where the request at i is after one has been put in at `at`. */
  function Shift(at: nat, i: int): int { if i < at then i else i + 1 }

  lemma ShiftIndex(q: seq<Request>, at: nat, r: Request)
    requires at <= |q|
    ensures |InsertAt(q, at, r)| == |q| + 1
    ensures forall i | 0 <= i < |q| :: InsertAt(q, at, r)[Shift(at, i)] == q[i]
  {}

  lemma SubmitTasks(q: seq<Request>, q': seq<Request>, at: nat, r: Request)
    requires at <= |q| && |q'| == |q| + 1 && q'[at] == r
    requires (forall i | 0 <= i < at :: q'[i] == q[i]) && (forall i | at < i <= |q| :: q'[i] == q[i - 1])
    requires forall x | x in q :: r.task.Some? ==> x.task != r.task
    requires forall i, j | 0 <= i < j < |q| && q[i].task.Some? :: q[i].task != q[j].task
    ensures r.task.Some? || q == [] ==> forall i, j | 0 <= i < j < |q'| && q'[i].task.Some? :: q'[i].task != q'[j].task
  {
    if r.task.Some? || q == [] {
      forall i, j | 0 <= i < j < |q'| && q'[i].task.Some? ensures q'[i].task != q'[j].task {
        if i == at { assert q'[j] == q[j - 1] && q[j - 1] in q; }
        else if j == at { assert q'[i] == q[i] && q[i] in q; }
        else { assert q'[i] == q[if i < at then i else i - 1] && q'[j] == q[if j < at then j else j - 1]; }
      }
    }
  }

  lemma SubmitSorted(q: seq<Request>, at: nat, r: Request)
    requires ByKey(q) && at == InsertPos(Keys(q), r.idx)
    ensures at <= |q| && ByKey(InsertAt(q, at, r))
  {
    assert at <= |q|;
    hide InsertAt, InsertPos, Sorted, ByKey, Keys;
    KeysSorted(q);
    InsertKeepsSorted(Keys(q), r.idx);
    KeysInserted(q, at, r);
    KeysSorted(InsertAt(q, at, r));
  }

  lemma KeysInserted(q: seq<Request>, at: nat, r: Request)
    requires at <= |q|
    ensures Keys(InsertAt(q, at, r)) == InsertAt(Keys(q), at, r.idx)
  {}

  lemma CompleteKeeps(s: Queue, s': Queue, i: nat, next: Option<nat>)
    requires Valid(s) && i == s.running && i < |s.requests| && s'.requests == RemoveAt(s.requests, i)
    requires next.None? <==> |s.requests| == 1
    requires next.Some? ==> next.value < |s.requests| && (next.value == i + 1 || next.value == i - 1)
    requires next.Some? ==>
             s.requests[next.value].task.Some? && s'.blocked == s.blocked - {s.requests[next.value].task.value}
                            && s'.running == NextPlace(next.value, i)
    requires next.None? ==> s'.blocked == s.blocked
    ensures Valid(s') && (next.Some? ==> s'.requests[s'.running] == s.requests[next.value])
  {
    var q, q' := s.requests, s'.requests;
    RemoveAtIndex(q, i);
    hide RemoveAt;
    CompleteSorted(q, q', i);
    CompleteTasks(q, q', i);
    CompleteAsleep(s, s', i, next);
    CompleteWaits(s, s', i, next);
  }

  /** s' is s without its running request i, the next one being woken. */
  ghost predicate Completed(s: Queue, s': Queue, i: nat, next: Option<nat>) {
    && i == s.running && i < |s.requests| && |s'.requests| == |s.requests| - 1
    && (forall j | 0 <= j < i :: s'.requests[j] == s.requests[j])
    && (forall j | i <= j < |s'.requests| :: s'.requests[j] == s.requests[j + 1])
    && (next.None? <==> |s.requests| == 1)
    && (next.None? ==> s'.blocked == s.blocked)
    && (next.Some? ==> next.value < |s.requests| && (next.value == i + 1 || next.value == i - 1)
                       && s.requests[next.value].task.Some?
                          && s'.blocked == s.blocked - {s.requests[next.value].task.value}
                       && s'.running == NextPlace(next.value, i))
  }

  lemma CompleteWaits(s: Queue, s': Queue, i: nat, next: Option<nat>)
    requires Completed(s, s', i, next) && forall t | t in s.blocked :: Waits(s, t)
    ensures forall t | t in s'.blocked :: Waits(s', t)
  {
    forall t | t in s'.blocked ensures Waits(s', t) {
      assert Waits(s, t);
      var j :| 0 <= j < |s.requests| && j != i && s.requests[j].task == Some(t);
      if j < i { assert s'.requests[j] == s.requests[j]; } else { assert s'.requests[j - 1] == s.requests[j]; }
    }
  }

  lemma CompleteAsleep(s: Queue, s': Queue, i: nat, next: Option<nat>)
    requires Completed(s, s', i, next)
    requires forall j | 0 <= j < |s.requests| && j != s.running ::
             s.requests[j].task.Some? && s.requests[j].task.value in s.blocked
    requires forall j, k | 0 <= j < k < |s.requests| && s.requests[j].task.Some? ::
             s.requests[j].task != s.requests[k].task
    ensures forall j | 0 <= j < |s'.requests| && j != s'.running ::
            s'.requests[j].task.Some? && s'.requests[j].task.value in s'.blocked
    ensures next.Some? ==> s'.requests[s'.running] == s.requests[next.value]
  {
    forall j | 0 <= j < |s'.requests| && j != s'.running
      ensures s'.requests[j].task.Some? && s'.requests[j].task.value in s'.blocked {
      if j < i { assert s'.requests[j] == s.requests[j]; } else { assert s'.requests[j] == s.requests[j + 1]; }
    }
  }

  lemma CompleteSorted(q: seq<Request>, q': seq<Request>, i: nat)
    requires ByKey(q) && i < |q| == |q'| + 1
    requires (forall j | 0 <= j < i :: q'[j] == q[j]) && (forall j | i <= j < |q'| :: q'[j] == q[j + 1])
    ensures ByKey(q')
  {
    forall j, k | 0 <= j < k < |q'| ensures q'[j].idx <= q'[k].idx {
      assert q[if j < i then j else j + 1].idx <= q[if k < i then k else k + 1].idx;
    }
  }

  lemma CompleteTasks(q: seq<Request>, q': seq<Request>, i: nat)
    requires i < |q| == |q'| + 1
    requires (forall j | 0 <= j < i :: q'[j] == q[j]) && (forall j | i <= j < |q'| :: q'[j] == q[j + 1])
    requires forall j, k | 0 <= j < k < |q| && q[j].task.Some? :: q[j].task != q[k].task
    ensures forall j, k | 0 <= j < k < |q'| && q'[j].task.Some? :: q'[j].task != q'[k].task
  {
    forall j, k | 0 <= j < k < |q'| && q'[j].task.Some? ensures q'[j].task != q'[k].task {
      var a, b := if j < i then j else j + 1, if k < i then k else k + 1;
      assert q'[j] == q[a] && q'[k] == q[b] && a < b;
    }
  }
}
