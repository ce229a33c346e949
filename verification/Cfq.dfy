// The completely fair queueing I/O scheduler: conservation, per-process order and a bound on waiting.
module Cfq {
  import opened Wrappers

  type Pid = nat

  datatype Request = Request(pid: Pid, id: nat)

  datatype Queue = Queue(requests: seq<Request>, usedTime: nat)

  const TIME_SLICE: nat := 100

  datatype State = State(queues: map<Pid, Queue>, active: Option<Pid>, roundRobin: seq<Pid>, idle: seq<Request>)

  const EMPTY := State(map[], None, [], [])

  // ---- The specification of the two operations ----

  function Add(s: State, r: Request): State {
    if r.pid == 0 then s.(idle := s.idle + [r])
    else if r.pid in s.queues then
      s.(queues := s.queues[r.pid := s.queues[r.pid].(requests := s.queues[r.pid].requests + [r])])
    else
      s.(queues := s.queues[r.pid := Queue([r], 0)], roundRobin := s.roundRobin + [r.pid])
  }

  predicate Ready(s: State, pid: Pid) {
    pid in s.queues && s.queues[pid].requests != []
  }

  /** The active process's next request; a used-up slice ends its turn. */
  function Serve(s: State, pid: Pid): (State, Option<Request>)
    requires Ready(s, pid)
  {
    var q := s.queues[pid];
    var ended := q.usedTime + 1 >= TIME_SLICE;
    var q' := Queue(q.requests[1..], if ended then 0 else q.usedTime + 1);
    (s.(queues := s.queues[pid := q'], active := if ended then None else Some(pid)), Some(q.requests[0]))
  }

  function Scan(s: State): (State, Option<Request>)
    decreases |s.roundRobin|
  {
    if s.roundRobin == [] then
      if s.idle == [] then (s, None) else (s.(idle := s.idle[1..]), Some(s.idle[0]))
    else
      var pid := s.roundRobin[0];
      if Ready(s, pid) then Serve(s.(roundRobin := s.roundRobin[1..] + [pid], active := Some(pid)), pid)
      else Scan(s.(roundRobin := s.roundRobin[1..], queues := s.queues - {pid}))
  }

  function Next(s: State): (State, Option<Request>) {
    if s.active.Some? && Ready(s, s.active.value) then Serve(s, s.active.value)
    else Scan(if s.active.Some? && s.active.value in s.queues then s.(active := None) else s)
  }

  // ---- The invariant ----

  /** A queue holds its own process's requests, and its slice is not used up. */
  predicate OwnRequests(q: Queue, pid: Pid) {
    q.usedTime < TIME_SLICE && forall i :: 0 <= i < |q.requests| ==> q.requests[i].pid == pid
  }

  ghost predicate Valid(s: State) {
    Distinct(s.roundRobin) &&
    (forall p :: p in s.queues <==> p in s.roundRobin) &&
    (forall p :: p in s.queues ==> p != 0 && OwnRequests(s.queues[p], p)) &&
    (s.active.Some? ==> s.active.value in s.queues) &&
    (forall i :: 0 <= i < |s.idle| ==> s.idle[i].pid == 0)
  }

  /** The pending requests of a process, in order; process 0 is the idle queue. */
  function Pending(s: State, pid: Pid): seq<Request> {
    if pid == 0 then s.idle else if pid in s.queues then s.queues[pid].requests else []
  }

  lemma {:induction false} AddKeepsValid(s: State, r: Request)
    requires Valid(s)
    ensures Valid(Add(s, r))
    ensures forall p :: Pending(Add(s, r), p) == if p == r.pid then Pending(s, p) + [r] else Pending(s, p)
  {
    var s' := Add(s, r);
    if r.pid != 0 {
      assert OwnRequests(s'.queues[r.pid], r.pid) by {
        if r.pid in s.queues {
          assert OwnRequests(s.queues[r.pid], r.pid);
        }
      }
    }
  }

  /** What one dispatch does to the pending requests. */
  ghost predicate Dispatches(s: State, s': State, r: Option<Request>) {
    match r
    case None => forall p :: Pending(s, p) == [] && Pending(s', p) == []
    case Some(x) =>
      (forall p :: Pending(s, p) == if p == x.pid then [x] + Pending(s', p) else Pending(s', p)) &&
      (x.pid == 0 ==> forall p :: p != 0 ==> Pending(s, p) == [])
  }

  lemma {:induction false} ServeDispatches(s: State, pid: Pid)
    requires Valid(s) && Ready(s, pid)
    ensures Valid(Serve(s, pid).0) && Dispatches(s, Serve(s, pid).0, Serve(s, pid).1)
  {
    var s' := Serve(s, pid).0;
    assert OwnRequests(s.queues[pid], pid) && OwnRequests(s'.queues[pid], pid);
  }

  lemma RotateKeepsValid(s: State)
    requires Valid(s) && s.roundRobin != [] && s.roundRobin[0] in s.queues
    ensures Valid(s.(roundRobin := s.roundRobin[1..] + [s.roundRobin[0]], active := Some(s.roundRobin[0])))
  {
    var rr := s.roundRobin;
    var rr' := rr[1..] + [rr[0]];
    forall p
      ensures p in rr <==> p in rr'
    {
      assert rr == [rr[0]] + rr[1..];
    }
  }

  lemma DropKeepsValid(s: State)
    requires Valid(s) && s.active == None && s.roundRobin != [] && !Ready(s, s.roundRobin[0])
    ensures Valid(s.(roundRobin := s.roundRobin[1..], queues := s.queues - {s.roundRobin[0]}))
    ensures forall p :: Pending(s, p) == Pending(s.(roundRobin := s.roundRobin[1..], queues := s.queues - {s.roundRobin[0]}), p)
  {
    var rr := s.roundRobin;
    forall p
      ensures p in s.queues - {rr[0]} <==> p in rr[1..]
    {
      assert rr == [rr[0]] + rr[1..];
    }
  }

  lemma {:induction false} ScanDispatches(s: State)
    requires Valid(s) && s.active == None
    ensures Valid(Scan(s).0) && Dispatches(s, Scan(s).0, Scan(s).1)
    decreases |s.roundRobin|
  {
    if s.roundRobin != [] {
      var pid := s.roundRobin[0];
      if Ready(s, pid) {
        RotateKeepsValid(s);
        ServeDispatches(s.(roundRobin := s.roundRobin[1..] + [pid], active := Some(pid)), pid);
      } else {
        DropKeepsValid(s);
        ScanDispatches(s.(roundRobin := s.roundRobin[1..], queues := s.queues - {pid}));
      }
    }
  }

  /**
   * A dispatch takes exactly one request, the oldest of its process; none only when nothing is
   * pending; an idle one only when no process has any.
   */
  lemma NextDispatches(s: State)
    requires Valid(s)
    ensures Valid(Next(s).0) && Dispatches(s, Next(s).0, Next(s).1)
  {
    if s.active.Some? && Ready(s, s.active.value) {
      ServeDispatches(s, s.active.value);
    } else {
      var s0 := s.(active := None);
      ScanDispatches(s0);
      assert forall p :: Pending(s, p) == Pending(s0, p);
    }
  }

  // ---- Runs ----

  datatype Op = Submit(r: Request) | Dispatch

  function StepOf(s: State, op: Op): State {
    match op
    case Submit(r) => Add(s, r)
    case Dispatch => Next(s).0
  }

  function Run(s: State, ops: seq<Op>): State
    decreases |ops|
  {
    if ops == [] then s else Run(StepOf(s, ops[0]), ops[1..])
  }

  /** The requests of `pid` submitted in a run. */
  function Submitted(ops: seq<Op>, pid: Pid): seq<Request> {
    if ops == [] then []
    else (if ops[0].Submit? && ops[0].r.pid == pid then [ops[0].r] else []) + Submitted(ops[1..], pid)
  }

  function ServedNow(s: State, op: Op, pid: Pid): seq<Request> {
    if op.Dispatch? && Next(s).1.Some? && Next(s).1.value.pid == pid then [Next(s).1.value] else []
  }

  /** The requests of `pid` dispatched in a run. */
  function Served(s: State, ops: seq<Op>, pid: Pid): seq<Request>
    decreases |ops|
  {
    if ops == [] then [] else ServedNow(s, ops[0], pid) + Served(StepOf(s, ops[0]), ops[1..], pid)
  }

  lemma {:induction false} StepConserves(s: State, op: Op, pid: Pid)
    requires Valid(s)
    ensures Valid(StepOf(s, op))
    ensures Pending(s, pid) + Submitted([op], pid) == ServedNow(s, op, pid) + Pending(StepOf(s, op), pid)
  {
    assert [op][1..] == [];
    if op.Submit? {
      AddKeepsValid(s, op.r);
    } else {
      NextDispatches(s);
    }
  }

  /** Over any run, each process's requests come out in the order they went in, none lost or repeated. */
  lemma {:induction false} RunConserves(s: State, ops: seq<Op>, pid: Pid)
    requires Valid(s)
    ensures Valid(Run(s, ops))
    ensures Pending(s, pid) + Submitted(ops, pid) == Served(s, ops, pid) + Pending(Run(s, ops), pid)
    decreases |ops|
  {
    if ops != [] {
      var op, rest := ops[0], ops[1..];
      var s' := StepOf(s, op);
      StepConserves(s, op, pid);
      RunConserves(s', rest, pid);
      assert [op][1..] == [];
      Regroup(Pending(s, pid), Submitted([op], pid), Submitted(rest, pid), ServedNow(s, op, pid),
              Pending(s', pid), Served(s', rest, pid), Pending(Run(s', rest), pid));
    }
  }

  lemma Regroup(before: seq<Request>, a: seq<Request>, b: seq<Request>, now: seq<Request>,
                between: seq<Request>, later: seq<Request>, after: seq<Request>)
    requires before + a == now + between && between + b == later + after
    ensures before + (a + b) == (now + later) + after
  {
    calc {
      before + (a + b);
      (before + a) + b;
      now + (between + b);
      (now + later) + after;
    }
  }

  // ---- Waiting ----

  function IndexOf(rr: seq<Pid>, pid: Pid): (i: nat)
    requires pid in rr
    ensures i < |rr| && rr[i] == pid
  {
    if rr[0] == pid then 0 else 1 + IndexOf(rr[1..], pid)
  }

  /** What the process whose turn it is may still take before `pid`'s turn can come nearer. */
  function Remaining(s: State, pid: Pid): int {
    if s.active.Some? && s.active.value != pid && s.active.value in s.queues
    then TIME_SLICE - s.queues[s.active.value].usedTime else 0
  }

  /** A bound on the dispatches of others before `pid` is served. */
  function Wait(s: State, pid: Pid): int
    requires pid in s.roundRobin
  {
    Remaining(s, pid) + TIME_SLICE * IndexOf(s.roundRobin, pid)
  }

  lemma WaitBound(s: State, pid: Pid)
    requires Valid(s) && pid in s.roundRobin
    ensures 0 <= Wait(s, pid) <= TIME_SLICE * (IndexOf(s.roundRobin, pid) + 1)
  {
    if s.active.Some? {
      assert OwnRequests(s.queues[s.active.value], s.active.value);
    }
  }

  lemma {:induction false} IndexAppend(rr: seq<Pid>, tail: seq<Pid>, pid: Pid)
    requires pid in rr
    ensures pid in rr + tail && IndexOf(rr + tail, pid) == IndexOf(rr, pid)
  {
    assert (rr + tail)[0] == rr[0];
    if rr[0] != pid {
      assert (rr + tail)[1..] == rr[1..] + tail;
      IndexAppend(rr[1..], tail, pid);
    }
  }

  lemma AddKeepsWait(s: State, r: Request, pid: Pid)
    requires Valid(s) && Ready(s, pid)
    ensures Ready(Add(s, r), pid) && Wait(Add(s, r), pid) == Wait(s, pid)
  {
    if r.pid != 0 && r.pid !in s.queues {
      IndexAppend(s.roundRobin, [r.pid], pid);
    }
  }

  /** The scan serves the first process with work, so everyone behind it moves up. */
  lemma {:induction false} ScanWait(s: State, pid: Pid)
    requires Valid(s) && s.active == None && Ready(s, pid) && pid != 0
    ensures var (s', r) := Scan(s);
            r.Some? && (r.value.pid == pid || (Ready(s', pid) && pid in s'.roundRobin && Wait(s', pid) < Wait(s, pid)))
    decreases |s.roundRobin|
  {
    var first := s.roundRobin[0];
    var rest := s.roundRobin[1..];
    assert s.roundRobin == [first] + rest;
    if Ready(s, first) {
      assert OwnRequests(s.queues[first], first);
      if first != pid {
        IndexAppend(rest, [first], pid);
      }
    } else {
      DropKeepsValid(s);
      ScanWait(s.(roundRobin := rest, queues := s.queues - {first}), pid);
    }
  }

  lemma NextWait(s: State, pid: Pid)
    requires Valid(s) && Ready(s, pid)
    ensures var (s', r) := Next(s);
            r.Some? && (r.value.pid == pid || (Ready(s', pid) && pid in s'.roundRobin && Wait(s', pid) < Wait(s, pid)))
  {
    if s.active.Some? && Ready(s, s.active.value) {
      assert OwnRequests(s.queues[s.active.value], s.active.value);
    } else {
      ScanWait(s.(active := None), pid);
      WaitBound(s, pid);
    }
  }

  function Dispatched(ops: seq<Op>): nat {
    if ops == [] then 0 else (if ops[0].Dispatch? then 1 else 0) + Dispatched(ops[1..])
  }

  lemma {:induction false} UnservedRun(s: State, ops: seq<Op>, pid: Pid)
    requires Valid(s) && Ready(s, pid) && Served(s, ops, pid) == []
    ensures Dispatched(ops) <= Wait(s, pid)
    decreases |ops|
  {
    WaitBound(s, pid);
    if ops != [] {
      assert ServedNow(s, ops[0], pid) == [];
      if ops[0].Submit? {
        AddKeepsValid(s, ops[0].r);
        AddKeepsWait(s, ops[0].r, pid);
      } else {
        NextDispatches(s);
        NextWait(s, pid);
      }
      UnservedRun(StepOf(s, ops[0]), ops[1..], pid);
    }
  }

  /**
   * A process with work at index i of the round-robin list is served within 100 (i + 1) dispatches of
   * others, whatever is submitted meanwhile.
   */
  lemma ServedInTime(s: State, ops: seq<Op>, pid: Pid)
    requires Valid(s) && Ready(s, pid) && Dispatched(ops) > TIME_SLICE * (IndexOf(s.roundRobin, pid) + 1)
    ensures Served(s, ops, pid) != []
  {
    WaitBound(s, pid);
    if Served(s, ops, pid) == [] {
      UnservedRun(s, ops, pid);
    }
  }

  // ---- Turns ----

  /** The process whose turn it is, with u of its 100 dispatches used. */
  predicate Turn(s: State, pid: Pid, used: nat) {
    s.active == Some(pid) && pid in s.queues && s.queues[pid].usedTime == used
  }

  /** One operation in a turn: a dispatch is the turn's while the process has work, and only the hundredth ends it. */
  lemma {:induction false} TurnStep(s: State, op: Op, pid: Pid, used: nat)
    requires Valid(s) && Turn(s, pid, used) && (op.Dispatch? ==> Ready(s, pid))
    ensures var s' := StepOf(s, op);
            && ServedNow(s, op, pid) == (if op.Dispatch? then [s.queues[pid].requests[0]] else [])
            && |Pending(s', pid)| >= |Pending(s, pid)| - (if op.Dispatch? then 1 else 0)
            && (if op.Submit? then Turn(s', pid, used)
                else if used + 1 < TIME_SLICE then Turn(s', pid, used + 1)
                else s'.active == None && s'.queues[pid].usedTime == 0)
  {
    assert pid != 0 && OwnRequests(s.queues[pid], pid);
    if op.Submit? {
      AddKeepsValid(s, op.r);
    }
  }

  /**
   * A turn lasts: while the process has the requests, every dispatch is its own until its hundred are
   * used up, whatever is submitted.
   */
  lemma {:induction false} TurnLasts(s: State, ops: seq<Op>, pid: Pid, used: nat)
    requires Valid(s) && Turn(s, pid, used)
    requires Dispatched(ops) <= TIME_SLICE - used && Dispatched(ops) <= |Pending(s, pid)|
    ensures |Served(s, ops, pid)| == Dispatched(ops)
    ensures Dispatched(ops) < TIME_SLICE - used ==> Turn(Run(s, ops), pid, used + Dispatched(ops))
    decreases |ops|
  {
    if ops != [] {
      var s' := StepOf(s, ops[0]);
      assert Dispatched(ops) == (if ops[0].Dispatch? then 1 else 0) + Dispatched(ops[1..]);
      TurnStep(s, ops[0], pid, used);
      StepConserves(s, ops[0], pid);
      if ops[0].Submit? {
        TurnLasts(s', ops[1..], pid, used);
      } else if used + 1 < TIME_SLICE {
        TurnLasts(s', ops[1..], pid, used + 1);
      } else {
        NoMoreServed(s', ops[1..], pid);
      }
    }
  }

  lemma {:induction false} NoMoreServed(s: State, ops: seq<Op>, pid: Pid)
    requires Dispatched(ops) == 0
    ensures Served(s, ops, pid) == []
    decreases |ops|
  {
    if ops != [] {
      NoMoreServed(StepOf(s, ops[0]), ops[1..], pid);
    }
  }

  /** When no one's turn goes on, the turn goes to the first process of the list with work. */
  lemma {:induction false} NextInOrder(s: State, pid: Pid)
    requires Valid(s) && s.active == None && Ready(s, pid) && pid in s.roundRobin
    requires forall p :: Ready(s, p) && p in s.roundRobin ==> IndexOf(s.roundRobin, pid) <= IndexOf(s.roundRobin, p)
    ensures Next(s).1 == Some(s.queues[pid].requests[0])
    decreases |s.roundRobin|
  {
    var first := s.roundRobin[0];
    var rest := s.roundRobin[1..];
    assert s.roundRobin == [first] + rest;
    if Ready(s, first) {
      assert IndexOf(s.roundRobin, first) == 0;
    } else {
      var s' := s.(roundRobin := rest, queues := s.queues - {first});
      DropKeepsValid(s);
      forall p | Ready(s', p) && p in s'.roundRobin
        ensures IndexOf(s'.roundRobin, pid) <= IndexOf(s'.roundRobin, p)
      {
        assert Ready(s, p) && p in s.roundRobin && p != first;
      }
      NextInOrder(s', pid);
    }
  }

  // ---- The scheduler ----

  class CfqScheduler {
    var queues: map<Pid, Queue>
    var activePid: Option<Pid>
    var roundRobin: seq<Pid>
    var idleQueue: seq<Request>

    ghost function Now(): State
      reads this
    {
      State(queues, activePid, roundRobin, idleQueue)
    }

    constructor ()
      ensures Now() == EMPTY && Valid(Now())
    {
      queues, activePid, roundRobin, idleQueue := map[], None, [], [];
    }

    method AddRequest(request: Request)
      modifies this
      ensures Now() == Add(old(Now()), request)
    {
      var pid := request.pid;
      if pid == 0 {
        idleQueue := idleQueue + [request];
      } else {
        if pid !in queues {
          queues := queues[pid := Queue([], 0)];
          roundRobin := roundRobin + [pid];
        }
        var q := queues[pid];
        queues := queues[pid := q.(requests := q.requests + [request])];
        assert [] + [request] == [request];
      }
    }

    method NextRequest() returns (r: Option<Request>)
      modifies this
      ensures (Now(), r) == Next(old(Now()))
      decreases if activePid.Some? && Ready(Now(), activePid.value) then 0 else 1
    {
      if activePid.Some? {
        var pid := activePid.value;
        if pid in queues {
          var queue := queues[pid];
          if queue.requests != [] {
            var used := queue.usedTime + 1;
            if used >= TIME_SLICE {
              used := 0;
              activePid := None;
            }
            queues := queues[pid := Queue(queue.requests[1..], used)];
            return Some(queue.requests[0]);
          } else {
            activePid := None;
          }
        }
      }
      ghost var scanned := Now();
      while roundRobin != []
        invariant Scan(Now()) == Scan(scanned) && Scan(scanned) == Next(old(Now()))
        decreases |roundRobin|
      {
        var pid := roundRobin[0];
        roundRobin := roundRobin[1..];
        if pid in queues && queues[pid].requests != [] {
          roundRobin := roundRobin + [pid];
          activePid := Some(pid);
          r := NextRequest();
          return;
        }
        queues := queues - {pid};
      }
      if idleQueue == [] {
        return None;
      }
      r := Some(idleQueue[0]);
      idleQueue := idleQueue[1..];
    }

    /** Exactly when the next dispatch will return a request. */
    method HasPending() returns (r: bool)
      requires Valid(Now())
      ensures r == Next(Now()).1.Some?
    {
      NextDispatches(Now());
      r := idleQueue != [] || exists p :: p in queues && queues[p].requests != [];
      ghost var next := Next(Now()).1;
      if next.Some? {
        assert Pending(Now(), next.value.pid) != [];
      } else {
        assert Pending(Now(), 0) == [] && forall p :: p in queues ==> Pending(Now(), p) == [];
      }
    }
  }
}
