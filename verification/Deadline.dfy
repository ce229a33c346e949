// The deadline I/O scheduler: conservation, the bound on how long reads may hold writes back, and
// the elevator order.
module Deadline {
  import opened Wrappers

  datatype Request = Request(sector: nat, write: bool, submitTime: nat, deadline: Option<nat>, id: nat)

  /** One direction: the pending requests by sector, and their sectors in order of arrival. */
  datatype Side = Side(sorted: map<nat, Request>, fifo: seq<nat>)

  datatype State = State(readSide: Side, writeSide: Side, head: nat, servingReads: bool, starved: nat)

  const STARVE_LIMIT: nat := 16

  const EMPTY := State(Side(map[], []), Side(map[], []), 0, true, 0)

  // ---- The elevator ----

  predicate IsLeast(s: set<nat>, m: nat) {
    m in s && forall y :: y in s ==> m <= y
  }

  lemma {:induction false} HasLeast(s: set<nat>) returns (m: nat)
    requires s != {}
    ensures IsLeast(s, m)
    decreases |s|
  {
    var x :| x in s;
    var rest := s - {x};
    assert s == rest + {x};
    if rest == {} {
      m := x;
    } else {
      var n := HasLeast(rest);
      m := if n <= x then n else x;
    }
  }

  function Least(s: set<nat>): (m: nat)
    requires s != {}
    ensures IsLeast(s, m)
  {
    assert exists m :: IsLeast(s, m) by {
      var m := HasLeast(s);
    }
    var m :| IsLeast(s, m);
    m
  }

  function From(s: set<nat>, head: nat): set<nat> { set x | x in s && x >= head }

  function Before(s: set<nat>, head: nat): set<nat> { set x | x in s && x < head }

  /** The least sector at or after the head, or else the least of all. */
  function Nearest(s: set<nat>, head: nat): (m: nat)
    requires s != {}
    ensures m in s
  {
    if From(s, head) != {} then Least(From(s, head)) else Least(s)
  }

  // ---- The specification of the operations ----

  function Add(s: State, r: Request): State {
    if r.write then s.(writeSide := Enqueue(s.writeSide, r)) else s.(readSide := Enqueue(s.readSide, r))
  }

  function Enqueue(side: Side, r: Request): Side {
    Side(side.sorted[r.sector := r], side.fifo + [r.sector])
  }

  function Without(fifo: seq<nat>, sector: nat): seq<nat> {
    if fifo == [] then []
    else (if fifo[0] == sector then [] else [fifo[0]]) + Without(fifo[1..], sector)
  }

  /** The oldest request counts as expired when its deadline was at or before its own submission. */
  predicate Expired(side: Side) {
    side.fifo != [] && side.fifo[0] in side.sorted &&
    var r := side.sorted[side.fifo[0]];
    r.deadline.Some? && r.deadline.value <= r.submitTime
  }

  /** `dispatch_read` and `dispatch_write`: the new side, head and the request taken. */
  function Take(side: Side, head: nat): (Side, nat, Option<Request>) {
    if Expired(side) then
      var sector := side.fifo[0];
      (Side(side.sorted - {sector}, side.fifo[1..]), head, Some(side.sorted[sector]))
    else if side.sorted.Keys == {} then (side, head, None)
    else
      var sector := Nearest(side.sorted.Keys, head);
      (Side(side.sorted - {sector}, Without(side.fifo, sector)), sector, Some(side.sorted[sector]))
  }

  function TakeRead(s: State): (State, Option<Request>) {
    var (side, head, r) := Take(s.readSide, s.head);
    (s.(readSide := side, head := head), r)
  }

  function TakeWrite(s: State): (State, Option<Request>) {
    var (side, head, r) := Take(s.writeSide, s.head);
    (s.(writeSide := side, head := head, servingReads := side.sorted.Keys == {}), r)
  }

  /** Not serving reads: a write, or if there is none a read. */
  function NextOfWrites(s: State): (State, Option<Request>) {
    if s.writeSide.sorted.Keys != {} then TakeWrite(s) else TakeRead(s.(servingReads := true))
  }

  function Next(s: State): (State, Option<Request>) {
    if !s.servingReads then NextOfWrites(s)
    else if s.readSide.sorted.Keys == {} then NextOfWrites(s.(servingReads := false))
    else if s.starved + 1 >= STARVE_LIMIT && s.writeSide.sorted.Keys != {} then NextOfWrites(s.(servingReads := false, starved := 0))
    else TakeRead(s.(starved := s.starved + 1))
  }

  // ---- The invariant ----

  /** Requests are filed under their sector and in their direction: so in every state a run can reach. */
  ghost predicate Files(side: Side, write: bool) {
    forall k :: k in side.sorted ==> side.sorted[k].sector == k && side.sorted[k].write == write
  }

  ghost predicate Filed(s: State) {
    Files(s.readSide, false) && Files(s.writeSide, true)
  }

  /** The FIFO is a permutation of the sorted map's keys. */
  ghost predicate Agrees(side: Side) {
    Distinct(side.fifo) && forall k :: k in side.fifo <==> k in side.sorted
  }

  /** Filed, and the two indexes of each direction agree. */
  ghost predicate Valid(s: State) {
    Filed(s) && Agrees(s.readSide) && Agrees(s.writeSide)
  }

  lemma DistinctSplit(k: nat, rest: seq<nat>)
    ensures Distinct([k] + rest) <==> k !in rest && Distinct(rest)
  {
    var s := [k] + rest;
    assert forall i :: 0 <= i < |rest| ==> s[i + 1] == rest[i];
    if Distinct(s) {
      forall i | 0 <= i < |rest|
        ensures rest[i] != k
      {
        assert s[0] != s[i + 1];
      }
      forall i, j | 0 <= i < j < |rest|
        ensures rest[i] != rest[j]
      {
        assert s[i + 1] != s[j + 1];
      }
    }
  }

  lemma {:induction false} WithoutIs(fifo: seq<nat>, sector: nat)
    requires Distinct(fifo)
    ensures Distinct(Without(fifo, sector))
    ensures forall k :: k in Without(fifo, sector) <==> k in fifo && k != sector
  {
    if fifo != [] {
      assert fifo == [fifo[0]] + fifo[1..];
      DistinctSplit(fifo[0], fifo[1..]);
      WithoutIs(fifo[1..], sector);
      DistinctSplit(fifo[0], Without(fifo[1..], sector));
    }
  }

  /** Some request is taken exactly when there is one, and it alone is removed. */
  lemma TakeTakes(side: Side, head: nat, write: bool)
    requires Files(side, write)
    ensures var (side', _, r) := Take(side, head);
            Files(side', write) && (r.Some? <==> side.sorted.Keys != {}) &&
            (r.None? ==> side' == side) &&
            (r.Some? ==> r.value.write == write && r.value.sector in side.sorted && side.sorted[r.value.sector] == r.value &&
                         side'.sorted == side.sorted - {r.value.sector})
  {
  }

  lemma TakeAgrees(side: Side, head: nat)
    requires Agrees(side)
    ensures Agrees(Take(side, head).0)
  {
    if Expired(side) {
      assert side.fifo == [side.fifo[0]] + side.fifo[1..];
      DistinctSplit(side.fifo[0], side.fifo[1..]);
    } else if side.sorted.Keys != {} {
      WithoutIs(side.fifo, Nearest(side.sorted.Keys, head));
    }
  }

  /** A request whose sector is already pending in its direction replaces the one that was there. */
  predicate Repeats(s: State, r: Request) {
    r.sector in (if r.write then s.writeSide else s.readSide).sorted
  }

  lemma AddKeepsValid(s: State, r: Request)
    requires Valid(s)
    ensures Valid(Add(s, r)) <==> !Repeats(s, r)
  {
    var side := if r.write then s.writeSide else s.readSide;
    var side' := Enqueue(side, r);
    if Repeats(s, r) {
      var i :| 0 <= i < |side.fifo| && side.fifo[i] == r.sector;
      assert side'.fifo[i] == side'.fifo[|side.fifo|];
    } else {
      assert Agrees(side');
    }
  }

  // ---- Conservation ----

  ghost function Pending(s: State): set<Request> {
    s.readSide.sorted.Values + s.writeSide.sorted.Values
  }

  lemma RemoveValue(m: map<nat, Request>, k: nat)
    requires k in m && forall j :: j in m ==> m[j].sector == j
    ensures (m - {k}).Values == m.Values - {m[k]}
  {
    var m' := m - {k};
    forall r | r in m.Values && r != m[k]
      ensures r in m'.Values
    {
      assert r.sector in m && m[r.sector] == r;
      assert m'[r.sector] == r;
    }
    forall r | r in m'.Values
      ensures r in m.Values && r != m[k]
    {
      var j :| j in m' && m'[j] == r;
      assert m[j] == r;
    }
  }

  lemma AddValue(m: map<nat, Request>, r: Request)
    requires r.sector !in m && forall j :: j in m ==> m[j].sector == j
    ensures m[r.sector := r].Values == m.Values + {r} && r !in m.Values
  {
    var m' := m[r.sector := r];
    assert m'[r.sector] == r;
    forall x | x in m.Values
      ensures x in m'.Values
    {
      assert m'[x.sector] == m[x.sector] == x;
    }
  }

  /** Taking from one side removes exactly the request taken from what is pending. */
  lemma TakeConserves(side: Side, head: nat, write: bool, other: set<Request>)
    requires Files(side, write) && forall x :: x in other ==> x.write != write
    ensures var (side', _, r) := Take(side, head);
            (r.None? ==> side'.sorted.Values == {} == side.sorted.Values) &&
            (r.Some? ==> r.value in side.sorted.Values && side'.sorted.Values + other == side.sorted.Values + other - {r.value})
  {
    TakeTakes(side, head, write);
    var r := Take(side, head).2;
    if r.Some? {
      RemoveValue(side.sorted, r.value.sector);
    } else {
      assert side.sorted == map[] && side.sorted.Values == {};
    }
  }

  ghost predicate Dispatches(s: State, s': State, r: Option<Request>) {
    match r
    case None => Pending(s) == {} == Pending(s')
    case Some(x) => x in Pending(s) && Pending(s') == Pending(s) - {x}
  }

  lemma TakeReadDispatches(s: State)
    requires Filed(s) && (s.readSide.sorted.Keys != {} || s.writeSide.sorted.Keys == {})
    ensures Filed(TakeRead(s).0) && Dispatches(s, TakeRead(s).0, TakeRead(s).1)
    ensures Valid(s) ==> Valid(TakeRead(s).0)
  {
    TakeTakes(s.readSide, s.head, false);
    TakeConserves(s.readSide, s.head, false, s.writeSide.sorted.Values);
    if Valid(s) {
      TakeAgrees(s.readSide, s.head);
    }
    if s.writeSide.sorted.Keys == {} {
      assert s.writeSide.sorted == map[] && s.writeSide.sorted.Values == {};
    }
  }

  lemma TakeWriteDispatches(s: State)
    requires Filed(s) && s.writeSide.sorted.Keys != {}
    ensures Filed(TakeWrite(s).0) && Dispatches(s, TakeWrite(s).0, TakeWrite(s).1)
    ensures Valid(s) ==> Valid(TakeWrite(s).0)
  {
    TakeTakes(s.writeSide, s.head, true);
    TakeConserves(s.writeSide, s.head, true, s.readSide.sorted.Values);
    if Valid(s) {
      TakeAgrees(s.writeSide, s.head);
    }
  }

  /** The state a dispatch takes its request from, and whether it takes a write. */
  function Turned(s: State): (State, bool) {
    var starve := s.servingReads && s.readSide.sorted.Keys != {};
    if starve && !(s.starved + 1 >= STARVE_LIMIT && s.writeSide.sorted.Keys != {}) then (s.(starved := s.starved + 1), false)
    else
      var writes := s.writeSide.sorted.Keys != {};
      (s.(servingReads := !writes, starved := if starve then 0 else s.starved), writes)
  }

  lemma NextIsTurned(s: State)
    ensures var (s1, write) := Turned(s);
            Next(s) == (if write then TakeWrite(s1) else TakeRead(s1)) && (write ==> s1.writeSide.sorted.Keys != {}) &&
            (!write && s1.readSide.sorted.Keys == {} ==> s1.writeSide.sorted.Keys == {}) &&
            s1.readSide == s.readSide && s1.writeSide == s.writeSide
  {
  }

  /** A dispatch finds a request exactly when any is pending, in whatever state. */
  lemma NextFinds(s: State)
    ensures Next(s).1.Some? <==> s.readSide.sorted.Keys != {} || s.writeSide.sorted.Keys != {}
  {
    NextIsTurned(s);
  }

  /** Every dispatch removes exactly one pending request, and one is found whenever any is pending. */
  lemma NextDispatches(s: State)
    requires Filed(s)
    ensures Filed(Next(s).0) && Dispatches(s, Next(s).0, Next(s).1)
    ensures Valid(s) ==> Valid(Next(s).0)
  {
    NextIsTurned(s);
    var (s1, write) := Turned(s);
    if write {
      TakeWriteDispatches(s1);
    } else {
      TakeReadDispatches(s1);
    }
  }

  // ---- Runs ----

  datatype Op = Submit(r: Request) | Dispatch

  /** One operation, from state to state, with what it returned. */
  predicate Does(s: State, op: Op, s': State, out: Option<Request>) {
    match op
    case Submit(r) => s' == Add(s, r) && out == None
    case Dispatch => (s', out) == Next(s)
  }

  /** A run: any submissions and dispatches, the states between them and what each returned. */
  datatype Trace = Trace(states: seq<State>, ops: seq<Op>, outs: seq<Option<Request>>)

  ghost predicate Sized(t: Trace) { |t.states| == |t.ops| + 1 == |t.outs| + 1 }

  ghost predicate StepAt(t: Trace, i: nat)
    requires Sized(t) && i < |t.ops|
  {
    Does(t.states[i], t.ops[i], t.states[i + 1], t.outs[i])
  }

  ghost predicate IsTrace(t: Trace) {
    Sized(t) && forall i: nat {:trigger StepAt(t, i)} :: i < |t.ops| ==> StepAt(t, i)
  }

  /** No request of the run repeats a sector pending in its direction. */
  ghost predicate NoRepeats(t: Trace)
    requires Sized(t)
  {
    forall i :: 0 <= i < |t.ops| && t.ops[i].Submit? ==> !Repeats(t.states[i], t.ops[i].r)
  }

  /** What an operation adds, what it drops by replacing it, and what it returns. */
  function Arrival(op: Op): multiset<Request> {
    if op.Submit? then multiset{op.r} else multiset{}
  }

  function Replaced(s: State, op: Op): multiset<Request> {
    if op.Submit? && Repeats(s, op.r) then multiset{(if op.r.write then s.writeSide else s.readSide).sorted[op.r.sector]}
    else multiset{}
  }

  function Departure(out: Option<Request>): multiset<Request> {
    if out.Some? then multiset{out.value} else multiset{}
  }

  /** The requests submitted by the first i operations. */
  ghost function Submitted(t: Trace, i: nat): multiset<Request>
    requires i <= |t.ops|
  {
    if i == 0 then multiset{}
    else Submitted(t, i - 1) + Arrival(t.ops[i - 1])
  }

  /** The requests the first i operations replaced. */
  ghost function Lost(t: Trace, i: nat): multiset<Request>
    requires Sized(t) && i <= |t.ops|
  {
    if i == 0 then multiset{}
    else Lost(t, i - 1) + Replaced(t.states[i - 1], t.ops[i - 1])
  }

  /** The requests returned by the first i operations. */
  ghost function Served(t: Trace, i: nat): multiset<Request>
    requires i <= |t.outs|
  {
    if i == 0 then multiset{}
    else Served(t, i - 1) + Departure(t.outs[i - 1])
  }

  lemma {:induction false} AddConserves(s: State, r: Request)
    requires Filed(s)
    ensures multiset(Pending(s)) + multiset{r} == Replaced(s, Submit(r)) + multiset(Pending(Add(s, r)))
  {
    var side := if r.write then s.writeSide else s.readSide;
    var other := if r.write then s.readSide.sorted.Values else s.writeSide.sorted.Values;
    var m, k := side.sorted, r.sector;
    assert Pending(s) == m.Values + other;
    if k in m {
      var rest := m - {k};
      RemoveValue(m, k);
      AddValue(rest, r);
      assert rest[k := r] == m[k := r];
      assert m[k] in m.Values && m[k] !in other && r !in other;
      assert Pending(s) == (rest.Values + other) + {m[k]};
      assert Pending(Add(s, r)) == (rest.Values + other) + {r};
    } else {
      AddValue(m, r);
      assert Pending(Add(s, r)) == Pending(s) + {r} && r !in Pending(s);
    }
  }

  lemma {:induction false} StepConserves(s: State, op: Op, s': State, out: Option<Request>)
    requires Filed(s) && Does(s, op, s', out)
    ensures Filed(s')
    ensures multiset(Pending(s)) + Arrival(op) == Departure(out) + Replaced(s, op) + multiset(Pending(s'))
    ensures Valid(s) && Replaced(s, op) == multiset{} ==> Valid(s')
  {
    if op.Submit? {
      AddConserves(s, op.r);
      if Valid(s) {
        AddKeepsValid(s, op.r);
      }
    } else {
      NextDispatches(s);
    }
  }

  lemma {:induction false} FiledAlong(t: Trace, i: nat)
    requires IsTrace(t) && Filed(t.states[0]) && i <= |t.ops|
    ensures Filed(t.states[i])
  {
    if i > 0 {
      FiledAlong(t, i - 1);
      assert StepAt(t, i - 1);
      StepConserves(t.states[i - 1], t.ops[i - 1], t.states[i], t.outs[i - 1]);
    }
  }

  lemma Regroup(start: multiset<Request>, submitted: multiset<Request>, served: multiset<Request>, lost: multiset<Request>,
                p: multiset<Request>, a: multiset<Request>, d: multiset<Request>, l: multiset<Request>, p': multiset<Request>)
    requires start + submitted == served + lost + p && p + a == d + l + p'
    ensures start + (submitted + a) == (served + d) + (lost + l) + p'
  {
    calc {
      start + (submitted + a);
      (start + submitted) + a;
      served + lost + (p + a);
      (served + d) + (lost + l) + p';
    }
  }

  /** Over any run every request is served once, still pending, or was replaced by one of its sector. */
  lemma {:induction false} RunConserves(t: Trace, i: nat)
    requires IsTrace(t) && Filed(t.states[0]) && i <= |t.ops|
    ensures multiset(Pending(t.states[0])) + Submitted(t, i) == Served(t, i) + Lost(t, i) + multiset(Pending(t.states[i]))
  {
    if i > 0 {
      RunConserves(t, i - 1);
      FiledAlong(t, i - 1);
      assert StepAt(t, i - 1);
      StepConserves(t.states[i - 1], t.ops[i - 1], t.states[i], t.outs[i - 1]);
      Regroup(multiset(Pending(t.states[0])), Submitted(t, i - 1), Served(t, i - 1), Lost(t, i - 1), multiset(Pending(t.states[i - 1])),
              Arrival(t.ops[i - 1]), Departure(t.outs[i - 1]), Replaced(t.states[i - 1], t.ops[i - 1]), multiset(Pending(t.states[i])));
    }
  }

  lemma WithMore(a: multiset<Request>, b: multiset<Request>, more: multiset<Request>)
    requires a <= b
    ensures a <= b + more
  {
  }

  lemma {:induction false} LostGrows(t: Trace, i: nat, j: nat)
    requires Sized(t) && i <= j <= |t.ops|
    ensures Lost(t, i) <= Lost(t, j)
    decreases j
  {
    if i < j {
      LostGrows(t, i, j - 1);
      WithMore(Lost(t, i), Lost(t, j - 1), Replaced(t.states[j - 1], t.ops[j - 1]));
    }
  }

  /** A run loses a request exactly when one of its submissions repeats a pending sector; without, the
      two indexes of each direction agree all along. */
  lemma {:induction false} LosesExactlyByRepeats(t: Trace, i: nat)
    requires IsTrace(t) && i <= |t.ops|
    ensures NoRepeats(t) <==> Lost(t, |t.ops|) == multiset{}
    ensures NoRepeats(t) && Valid(t.states[0]) ==> Valid(t.states[i])
  {
    if NoRepeats(t) {
      NothingLost(t, |t.ops|);
      NothingLost(t, i);
    } else {
      var j: nat :| j < |t.ops| && t.ops[j].Submit? && Repeats(t.states[j], t.ops[j].r);
      LostGrows(t, j + 1, |t.ops|);
      assert |Replaced(t.states[j], t.ops[j])| == 1 && Replaced(t.states[j], t.ops[j]) <= Lost(t, j + 1);
    }
  }

  lemma {:induction false} NothingLost(t: Trace, i: nat)
    requires IsTrace(t) && NoRepeats(t) && i <= |t.ops|
    ensures Lost(t, i) == multiset{}
    ensures Valid(t.states[0]) ==> Valid(t.states[i])
  {
    if i > 0 {
      NothingLost(t, i - 1);
      assert StepAt(t, i - 1);
      if Valid(t.states[0]) {
        StepConserves(t.states[i - 1], t.ops[i - 1], t.states[i], t.outs[i - 1]);
      }
    }
  }

  /** With a repeat the earlier request is lost: neither pending nor served. */
  lemma RepeatLoses(s: State, r: Request, earlier: Request)
    requires Filed(s) && Repeats(s, r) && earlier == (if r.write then s.writeSide else s.readSide).sorted[r.sector] && earlier != r
    ensures earlier in Pending(s) && earlier !in Pending(Add(s, r))
  {
    var side := if r.write then s.writeSide else s.readSide;
    var m := side.sorted;
    assert m[r.sector] == earlier;
    assert forall k :: k in m ==> m[k].sector == k;
  }

  // ---- How long writes wait ----

  /** How many more reads may go before a pending write. */
  function Budget(s: State): nat {
    if s.servingReads && s.starved + 1 < STARVE_LIMIT then STARVE_LIMIT - 1 - s.starved else 0
  }

  /** How many of the first i operations are dispatches. */
  function Dispatched(ops: seq<Op>, i: nat): nat
    requires i <= |ops|
  {
    if i == 0 then 0 else Dispatched(ops, i - 1) + if ops[i - 1].Dispatch? then 1 else 0
  }

  ghost predicate OnlyReads(t: Trace) {
    forall i :: 0 <= i < |t.outs| && t.outs[i].Some? ==> !t.outs[i].value.write
  }

  lemma ReadSpendsBudget(s: State)
    requires Filed(s) && s.writeSide.sorted.Keys != {}
    ensures var (s', r) := Next(s);
            r.Some? && (!r.value.write ==> Budget(s') + 1 == Budget(s) && s'.writeSide == s.writeSide)
  {
    NextIsTurned(s);
    TakeTakes(s.readSide, s.head, false);
    TakeTakes(s.writeSide, s.head, true);
  }

  lemma ReadOrAdd(s: State, op: Op, s': State, out: Option<Request>)
    requires Filed(s) && Does(s, op, s', out) && s.writeSide.sorted.Keys != {} && (out.Some? ==> !out.value.write)
    ensures s'.writeSide.sorted.Keys != {}
    ensures Budget(s) == Budget(s') + if op.Dispatch? then 1 else 0
  {
    if op.Dispatch? {
      ReadSpendsBudget(s);
    } else {
      assert s.writeSide.sorted.Keys <= s'.writeSide.sorted.Keys;
    }
  }

  lemma {:induction false} BudgetAlong(t: Trace, i: nat)
    requires IsTrace(t) && Filed(t.states[0]) && t.states[0].writeSide.sorted.Keys != {} && OnlyReads(t)
    requires i <= |t.ops|
    ensures t.states[i].writeSide.sorted.Keys != {}
    ensures Budget(t.states[0]) == Budget(t.states[i]) + Dispatched(t.ops, i)
  {
    if i > 0 {
      BudgetAlong(t, i - 1);
      FiledAlong(t, i - 1);
      assert StepAt(t, i - 1);
      ReadOrAdd(t.states[i - 1], t.ops[i - 1], t.states[i], t.outs[i - 1]);
    }
  }

  /** While a write is pending at most 15 dispatches in a row are reads, whatever is submitted. */
  lemma WritesWaitAtMost(t: Trace)
    requires IsTrace(t) && Filed(t.states[0]) && t.states[0].writeSide.sorted.Keys != {} && OnlyReads(t)
    ensures Dispatched(t.ops, |t.ops|) <= STARVE_LIMIT - 1
  {
    BudgetAlong(t, |t.ops|);
  }

  /** A served read uses one of the fifteen, and a write taken out of turn gives reads all fifteen again. */
  lemma {:induction false} StarvedCounts(s: State)
    requires Filed(s) && s.readSide.sorted.Keys != {} && s.servingReads
    ensures var (s', r) := Next(s);
            r.Some? && s'.starved == if r.value.write then 0 else s.starved + 1
  {
    NextIsTurned(s);
    TakeTakes(s.readSide, s.head, false);
    TakeTakes(s.writeSide, s.head, true);
  }

  // ---- Arrival order ----

  /** x came before y. */
  ghost predicate Ahead(fifo: seq<nat>, x: nat, y: nat) {
    exists i, j :: 0 <= i < j < |fifo| && fifo[i] == x && fifo[j] == y
  }

  /** What arrives queues behind everything of its direction. */
  lemma ArrivesLast(s: State, r: Request, x: nat)
    requires x in (if r.write then s.writeSide else s.readSide).fifo
    ensures Ahead((if r.write then Add(s, r).writeSide else Add(s, r).readSide).fifo, x, r.sector)
  {
    var fifo := (if r.write then s.writeSide else s.readSide).fifo;
    var i :| 0 <= i < |fifo| && fifo[i] == x;
    var fifo' := (if r.write then Add(s, r).writeSide else Add(s, r).readSide).fifo;
    assert fifo'[i] == x && fifo'[|fifo|] == r.sector;
  }

  lemma {:induction false} WithoutKeepsOrder(fifo: seq<nat>, sector: nat, x: nat, y: nat)
    requires Ahead(fifo, x, y) && x != sector && y != sector
    ensures Ahead(Without(fifo, sector), x, y)
  {
    var i, j :| 0 <= i < j < |fifo| && fifo[i] == x && fifo[j] == y;
    var rest := Without(fifo[1..], sector);
    var first := if fifo[0] == sector then [] else [fifo[0]];
    if i > 0 {
      assert fifo[1..][i - 1] == x && fifo[1..][j - 1] == y;
      WithoutKeepsOrder(fifo[1..], sector, x, y);
      var i', j' :| 0 <= i' < j' < |rest| && rest[i'] == x && rest[j'] == y;
      assert (first + rest)[|first| + i'] == x && (first + rest)[|first| + j'] == y;
    } else {
      assert fifo[1..][j - 1] == y;
      StillThere(fifo[1..], sector, y);
      var j' :| 0 <= j' < |rest| && rest[j'] == y;
      assert (first + rest)[0] == x && (first + rest)[1 + j'] == y;
    }
  }

  lemma {:induction false} StillThere(fifo: seq<nat>, sector: nat, y: nat)
    requires y in fifo && y != sector
    ensures y in Without(fifo, sector)
  {
    if fifo[0] != y {
      assert y in fifo[1..];
      StillThere(fifo[1..], sector, y);
    }
  }

  /** A dispatch keeps the order of what it leaves, when the two indexes agree. */
  lemma {:induction false} OrderKept(side: Side, head: nat, write: bool, x: nat, y: nat)
    requires Files(side, write) && Agrees(side) && Ahead(side.fifo, x, y)
    requires x in Take(side, head).0.sorted && y in Take(side, head).0.sorted
    ensures Ahead(Take(side, head).0.fifo, x, y)
  {
    if Expired(side) {
      var i, j :| 0 <= i < j < |side.fifo| && side.fifo[i] == x && side.fifo[j] == y;
      assert i > 0;
      assert side.fifo[1..][i - 1] == x && side.fifo[1..][j - 1] == y;
    } else if side.sorted.Keys != {} {
      WithoutKeepsOrder(side.fifo, Nearest(side.sorted.Keys, head), x, y);
    }
  }

  // ---- How long reads wait ----

  /** While a read is pending, a dispatch takes a write exactly when one is pending and it is the writes' turn. */
  predicate WritesTurn(s: State) {
    s.writeSide.sorted.Keys != {} && (s.servingReads ==> s.starved + 1 >= STARVE_LIMIT)
  }

  lemma NextIsWrite(s: State)
    requires Filed(s) && s.readSide.sorted.Keys != {}
    ensures var (s', r) := Next(s);
            r.Some? && (r.value.write <==> WritesTurn(s)) &&
            (r.value.write ==> s'.readSide == s.readSide && r.value.sector in s.writeSide.sorted &&
                               s'.writeSide.sorted == s.writeSide.sorted - {r.value.sector} &&
                               s'.servingReads == (s'.writeSide.sorted.Keys == {}))
  {
    NextIsTurned(s);
    TakeTakes(s.readSide, s.head, false);
    TakeTakes(s.writeSide, s.head, true);
  }

  /** None of the first n operations returns a read. */
  ghost predicate NoReadBefore(t: Trace, n: nat)
    requires n <= |t.outs|
  {
    forall i :: 0 <= i < n && t.outs[i].Some? ==> t.outs[i].value.write
  }

  ghost predicate OnlyWrites(t: Trace) { NoReadBefore(t, |t.outs|) }

  /** How many of the first i operations submit a write. */
  function WritesSubmitted(ops: seq<Op>, i: nat): nat
    requires i <= |ops|
  {
    if i == 0 then 0 else WritesSubmitted(ops, i - 1) + if ops[i - 1].Submit? && ops[i - 1].r.write then 1 else 0
  }

  lemma RemovedOne(m: map<nat, Request>, k: nat)
    requires k in m
    ensures |(m - {k}).Keys| + 1 == |m.Keys|
  {
    assert (m - {k}).Keys == m.Keys - {k};
  }

  lemma AddedOne(m: map<nat, Request>, k: nat, r: Request)
    ensures |m[k := r].Keys| == |m.Keys| + if k in m then 0 else 1
  {
    assert m[k := r].Keys == m.Keys + {k};
  }

  /** With a read pending, an operation that returns no read uses up a pending write or adds at most one. */
  lemma WriteOrAdd(s: State, op: Op, s': State, out: Option<Request>)
    requires Filed(s) && Does(s, op, s', out) && s.readSide.sorted.Keys != {} && (out.Some? ==> out.value.write)
    ensures s'.readSide.sorted.Keys != {} && (op.Dispatch? ==> WritesTurn(s))
    ensures |s'.writeSide.sorted.Keys| + (if op.Dispatch? then 1 else 0) <=
            |s.writeSide.sorted.Keys| + if op.Submit? && op.r.write then 1 else 0
  {
    if op.Dispatch? {
      NextIsWrite(s);
      RemovedOne(s.writeSide.sorted, out.value.sector);
    } else {
      AddedOne(s.writeSide.sorted, op.r.sector, op.r);
      assert s.readSide.sorted.Keys <= s'.readSide.sorted.Keys;
    }
  }

  function AllDispatched(t: Trace): nat { Dispatched(t.ops, |t.ops|) }

  function AllWritesSubmitted(t: Trace): nat { WritesSubmitted(t.ops, |t.ops|) }

  ghost function WritesLeft(t: Trace, i: nat): nat
    requires i < |t.states|
  {
    |t.states[i].writeSide.sorted.Keys|
  }

  lemma {:induction false} WritesUsedUp(t: Trace, i: nat)
    requires IsTrace(t) && Filed(t.states[0]) && t.states[0].readSide.sorted.Keys != {} && i <= |t.ops| && NoReadBefore(t, i)
    ensures t.states[i].readSide.sorted.Keys != {}
    ensures WritesLeft(t, i) + Dispatched(t.ops, i) <= WritesLeft(t, 0) + WritesSubmitted(t.ops, i)
  {
    if i > 0 {
      WritesUsedUp(t, i - 1);
      FiledAlong(t, i - 1);
      assert StepAt(t, i - 1);
      WriteOrAdd(t.states[i - 1], t.ops[i - 1], t.states[i], t.outs[i - 1]);
    }
  }

  /** While a read is pending, a run without a read dispatches at most the writes there were and came. */
  lemma ReadsWaitAtMost(t: Trace)
    requires IsTrace(t) && Filed(t.states[0]) && t.states[0].readSide.sorted.Keys != {} && OnlyWrites(t)
    ensures AllDispatched(t) <= |t.states[0].writeSide.sorted.Keys| + AllWritesSubmitted(t)
  {
    WritesUsedUp(t, |t.ops|);
  }

  /** Exactly which runs serve no read while one is pending: those that find it the writes' turn at every dispatch. */
  lemma ReadsWaitExactly(t: Trace)
    requires IsTrace(t) && Filed(t.states[0]) && t.states[0].readSide.sorted.Keys != {}
    ensures OnlyWrites(t) <==> forall i :: 0 <= i < |t.ops| && t.ops[i].Dispatch? ==> WritesTurn(t.states[i])
  {
    if OnlyWrites(t) {
      forall i | 0 <= i < |t.ops| && t.ops[i].Dispatch?
        ensures WritesTurn(t.states[i])
      {
        WritesUsedUp(t, i);
        FiledAlong(t, i);
        assert StepAt(t, i);
        NextIsWrite(t.states[i]);
      }
    } else {
      var i := FirstRead(t, |t.ops|);
      WritesUsedUp(t, i);
      FiledAlong(t, i);
      assert StepAt(t, i);
      NextIsWrite(t.states[i]);
    }
  }

  lemma {:induction false} FirstRead(t: Trace, n: nat) returns (i: nat)
    requires Sized(t) && n <= |t.ops| && !NoReadBefore(t, n)
    ensures i < n && t.outs[i].Some? && !t.outs[i].value.write && NoReadBefore(t, i)
  {
    if NoReadBefore(t, n - 1) {
      i := n - 1;
    } else {
      i := FirstRead(t, n - 1);
    }
  }

  // ---- Runs in which a read waits ----

  lemma {:induction false} CountsPrefix(ops: seq<Op>, more: seq<Op>, i: nat)
    requires i <= |ops|
    ensures Dispatched(ops + more, i) == Dispatched(ops, i) && WritesSubmitted(ops + more, i) == WritesSubmitted(ops, i)
  {
    if i > 0 {
      CountsPrefix(ops, more, i - 1);
    }
  }

  lemma {:induction false} Extend(t: Trace, op: Op, s': State, out: Option<Request>) returns (t': Trace)
    requires IsTrace(t) && Does(t.states[|t.ops|], op, s', out)
    ensures IsTrace(t') && t' == Trace(t.states + [s'], t.ops + [op], t.outs + [out]) && t'.states[0] == t.states[0]
    ensures AllDispatched(t') == AllDispatched(t) + if op.Dispatch? then 1 else 0
    ensures AllWritesSubmitted(t') == AllWritesSubmitted(t) + if op.Submit? && op.r.write then 1 else 0
  {
    t' := Trace(t.states + [s'], t.ops + [op], t.outs + [out]);
    CountsPrefix(t.ops, [op], |t.ops|);
    forall i: nat {:trigger StepAt(t', i)} | i < |t'.ops|
      ensures StepAt(t', i)
    {
      if i < |t.ops| {
        assert StepAt(t, i);
      }
    }
  }

  /** A read waits, the writes are being served and n of them are pending. */
  ghost predicate Waits(s: State, n: nat) {
    Filed(s) && s.readSide.sorted.Keys != {} && |s.writeSide.sorted.Keys| == n && (n > 0 ==> !s.servingReads)
  }

  /** The run so far has served no read, and a read still waits with n writes to go. */
  ghost predicate Starves(t: Trace, s: State, n: nat) {
    IsTrace(t) && t.states[0] == s && OnlyWrites(t) && Waits(t.states[|t.ops|], n) && t.states[|t.ops|].readSide == s.readSide
  }

  lemma {:induction false} DispatchWhileWaiting(t: Trace, s: State, n: nat) returns (t': Trace)
    requires Starves(t, s, n) && n > 0
    ensures Starves(t', s, n - 1) && AllDispatched(t') == AllDispatched(t) + 1 && AllWritesSubmitted(t') == AllWritesSubmitted(t)
    ensures t'.states[|t'.ops|].writeSide.sorted.Keys <= t.states[|t.ops|].writeSide.sorted.Keys
  {
    var now := t.states[|t.ops|];
    NextIsWrite(now);
    NextDispatches(now);
    var (s', out) := Next(now);
    RemovedOne(now.writeSide.sorted, out.value.sector);
    t' := Extend(t, Dispatch, s', out);
  }

  lemma {:induction false} WriteWhileWaiting(t: Trace, s: State, n: nat, w: Request) returns (t': Trace)
    requires Starves(t, s, n) && n > 0 && w.write && !Repeats(t.states[|t.ops|], w)
    ensures Starves(t', s, n + 1) && AllDispatched(t') == AllDispatched(t) && AllWritesSubmitted(t') == AllWritesSubmitted(t) + 1
    ensures t'.states[|t'.ops|].writeSide.sorted.Keys == t.states[|t.ops|].writeSide.sorted.Keys + {w.sector}
  {
    var now := t.states[|t.ops|];
    AddedOne(now.writeSide.sorted, w.sector, w);
    t' := Extend(t, Submit(w), Add(now, w), None);
  }

  /** Rounds in each of which a write arrives and one is served. */
  lemma {:induction false} StarveRounds(s: State, k: nat, n: nat, r: Request) returns (t: Trace)
    requires Waits(s, k) && k > 0 && r.write && forall x :: x in s.writeSide.sorted.Keys ==> x < r.sector
    ensures Starves(t, s, k) && AllDispatched(t) == n == AllWritesSubmitted(t)
    ensures forall x :: x in t.states[|t.ops|].writeSide.sorted.Keys ==> x < r.sector + n
  {
    if n == 0 {
      t := Trace([s], [], []);
    } else {
      t := StarveRounds(s, k, n - 1, r);
      t := WriteWhileWaiting(t, s, k, r.(sector := r.sector + n - 1));
      t := DispatchWhileWaiting(t, s, k + 1);
    }
  }

  lemma {:induction false} StarveToTheEnd(t: Trace, s: State, k: nat) returns (t': Trace)
    requires Starves(t, s, k)
    ensures Starves(t', s, 0) && AllDispatched(t') == AllDispatched(t) + k && AllWritesSubmitted(t') == AllWritesSubmitted(t)
    decreases k
  {
    t' := t;
    if k > 0 {
      t' := DispatchWhileWaiting(t, s, k);
      t' := StarveToTheEnd(t', s, k - 1);
    }
  }

  /** The bound on reads is met, however many writes arrive: all reads wait for as long as writes keep coming. */
  lemma {:induction false} ReadsStarve(s: State, k: nat, n: nat, r: Request) returns (t: Trace)
    requires Waits(s, k) && k > 0 && r.write && forall x :: x in s.writeSide.sorted.Keys ==> x < r.sector
    ensures IsTrace(t) && t.states[0] == s && OnlyWrites(t)
    ensures AllWritesSubmitted(t) == n && AllDispatched(t) == |s.writeSide.sorted.Keys| + n
    ensures t.states[|t.ops|].readSide == s.readSide
  {
    t := StarveRounds(s, k, n, r);
    t := StarveToTheEnd(t, s, k);
  }

  /** Of two writes one is served, and the writes go on being served. */
  lemma {:induction false} WriteFirst(s: State, w0: Request, w1: Request)
    requires w0.write && w1.write && w0.sector != w1.sector && s == Add(Add(EMPTY, w0), w1)
    ensures var s' := Next(s).0; Filed(s') && s'.readSide == EMPTY.readSide && |s'.writeSide.sorted.Keys| == 1 && !s'.servingReads
  {
    NextIsTurned(s);
    TakeTakes(s.writeSide, s.head, true);
    AddedOne(map[w0.sector := w0], w1.sector, w1);
    assert map[w0.sector := w0].Keys == {w0.sector};
    RemovedOne(s.writeSide.sorted, Next(s).1.value.sector);
  }

  /** Four operations from the empty scheduler lead to a read that waits so. */
  lemma {:induction false} StarvingFromEmpty(w0: Request, w1: Request, read: Request) returns (t: Trace)
    requires w0.write && w1.write && !read.write && w0.sector != w1.sector
    ensures IsTrace(t) && t.states[0] == EMPTY && t.ops == [Submit(w0), Submit(w1), Dispatch, Submit(read)]
    ensures Waits(t.states[4], 1) && t.states[4].readSide.sorted == map[read.sector := read]
  {
    var s1 := Add(EMPTY, w0);
    var s2 := Add(s1, w1);
    var (s3, out) := Next(s2);
    var s4 := Add(s3, read);
    WriteFirst(s2, w0, w1);
    t := Trace([EMPTY], [], []);
    t := Extend(t, Submit(w0), s1, None);
    t := Extend(t, Submit(w1), s2, None);
    t := Extend(t, Dispatch, s3, out);
    t := Extend(t, Submit(read), s4, None);
  }

  // One read can also wait on other reads.

  /** The sweep from the head comes to k before it comes to x. */
  predicate Nearer(k: nat, x: nat, head: nat) {
    if x >= head then head <= k < x else k >= head || k < x
  }

  lemma {:induction false} NearestHasNoneNearer(s: set<nat>, head: nat, x: nat)
    requires x in s
    ensures Nearest(s, head) == x <==> forall k :: k in s ==> !Nearer(k, x, head)
  {
    var m := Nearest(s, head);
    if From(s, head) != {} {
      assert IsLeast(From(s, head), m);
      assert x >= head ==> x in From(s, head);
    } else {
      assert IsLeast(s, m) && forall k :: k in s ==> k !in From(s, head);
    }
    if m == x {
      forall k | k in s
        ensures !Nearer(k, x, head)
      {
        assert k >= head ==> k in From(s, head);
      }
    } else {
      assert Nearer(m, x, head);
    }
  }

  /**
   * A request that leaves because it had expired leaves the head where it was; any other moves the head
   * to its sector.
   */
  lemma {:induction false} HeadMoves(s: State)
    requires Filed(s) && Next(s).1.Some?
    ensures var (s', r) := Next(s);
            var side := if r.value.write then s.writeSide else s.readSide;
            var expired := side.fifo != [] && side.fifo[0] in side.sorted && side.sorted[side.fifo[0]].deadline.Some? &&
                           side.sorted[side.fifo[0]].deadline.value <= side.sorted[side.fifo[0]].submitTime;
            s'.head == (if expired then s.head else r.value.sector) && (expired ==> r.value == side.sorted[side.fifo[0]])
  {
    NextIsTurned(s);
    TakeTakes(s.writeSide, s.head, true);
    TakeTakes(s.readSide, s.head, false);
  }

  /** Exactly when a dispatch serves a particular pending read: not in the writes' turn, and it is the
      expired oldest or, none being expired, no other pending read is nearer. */
  lemma {:induction false} ReadServedExactly(s: State, x: nat)
    requires Filed(s) && x in s.readSide.sorted
    ensures Next(s).1 == Some(s.readSide.sorted[x]) <==>
            !WritesTurn(s) && (if Expired(s.readSide) then s.readSide.fifo[0] == x
                               else forall k :: k in s.readSide.sorted.Keys ==> !Nearer(k, x, s.head))
  {
    NextIsTurned(s);
    TakeTakes(s.writeSide, s.head, true);
    TakeTakes(s.readSide, s.head, false);
    NearestHasNoneNearer(s.readSide.sorted.Keys, s.head, x);
  }

  predicate Unexpired(r: Request) {
    r.deadline.Some? ==> r.deadline.value > r.submitTime
  }

  /** Only `read` is pending, and the head is at or before `r`. */
  predicate PassedOver(s: State, r: Request, read: Request) {
    s.readSide == Side(map[read.sector := read], [read.sector]) && s.writeSide == Side(map[], []) && s.servingReads && s.head <= r.sector
  }

  lemma {:induction false} NearerFirst(s: State, r: Request, read: Request)
    requires PassedOver(s, r, read) && !r.write && r.sector < read.sector && Unexpired(read)
    ensures var (s', out) := Next(Add(s, r)); out == Some(r) && PassedOver(s', r, read)
  {
    var s1 := Add(s, r);
    var keys := s1.readSide.sorted.Keys;
    assert keys == {r.sector, read.sector};
    assert r.sector in From(keys, s.head);
    assert s1.readSide.fifo == [read.sector, r.sector];
    assert s1.readSide.fifo[1..] == [r.sector];
    assert Without([r.sector], r.sector) == [];
    assert s1.readSide.sorted - {r.sector} == map[read.sector := read];
  }

  /** A particular read waits without a single write, as long as reads between the head and it keep coming. */
  lemma {:induction false} NearerReadsStarve(n: nat, r: Request, read: Request) returns (t: Trace)
    requires !r.write && !read.write && r.sector < read.sector && Unexpired(read)
    ensures IsTrace(t) && t.states[0] == EMPTY && |t.ops| == 2 * n + 1 && t.ops[0] == Submit(read)
    ensures AllDispatched(t) == n && AllWritesSubmitted(t) == 0
    ensures forall i :: 0 <= i < |t.outs| ==> t.outs[i] == None || t.outs[i] == Some(r)
    ensures PassedOver(t.states[|t.ops|], r, read)
  {
    if n == 0 {
      t := Trace([EMPTY], [], []);
      t := Extend(t, Submit(read), Add(EMPTY, read), None);
    } else {
      t := NearerReadsStarve(n - 1, r, read);
      var s := t.states[|t.ops|];
      NearerFirst(s, r, read);
      var (s', out) := Next(Add(s, r));
      t := Extend(t, Submit(r), Add(s, r), None);
      t := Extend(t, Dispatch, s', out);
    }
  }

  // ---- The elevator order ----

  function Ascending(s: set<nat>): seq<nat>
    decreases |s|
  {
    if s == {} then [] else [Least(s)] + Ascending(s - {Least(s)})
  }

  /** The order in which a drain visits a set: the nearest sector, then the rest from there. */
  function Elevator(s: set<nat>, head: nat): seq<nat>
    decreases |s|
  {
    if s == {} then [] else [Nearest(s, head)] + Elevator(s - {Nearest(s, head)}, Nearest(s, head))
  }

  /** It is ascending from the head, and then ascending from the bottom. */
  lemma {:induction false} ElevatorIsRotated(s: set<nat>, head: nat)
    ensures Elevator(s, head) == Ascending(From(s, head)) + Ascending(Before(s, head))
    decreases |s|
  {
    if s == {} {
      assert From(s, head) == {} && Before(s, head) == {};
    } else {
      var m := Nearest(s, head);
      var rest := s - {m};
      ElevatorIsRotated(rest, m);
      SplitAtNearest(s, head);
    }
  }

  lemma SplitAtNearest(s: set<nat>, head: nat)
    requires s != {}
    ensures var m := Nearest(s, head); var rest := s - {m};
            Ascending(From(s, head)) + Ascending(Before(s, head)) == [m] + (Ascending(From(rest, m)) + Ascending(Before(rest, m)))
  {
    var m := Nearest(s, head);
    var rest := s - {m};
    assert forall x :: x in s && x >= head ==> x in From(s, head);
    if From(s, head) != {} {
      assert From(rest, m) == From(s, head) - {m};
      assert Before(rest, m) == Before(s, head);
    } else {
      assert Before(s, head) == s;
      assert From(rest, m) == s - {m} && Before(rest, m) == {};
      assert Ascending({}) == [];
    }
  }

  /** No request of this side has a deadline at or before its submission. */
  ghost predicate NoneExpired(side: Side) {
    forall k :: k in side.sorted ==> Unexpired(side.sorted[k])
  }

  /** With only one direction pending, a dispatch takes its nearest sector. */
  lemma {:induction false} OneSideNext(s: State)
    requires Filed(s) && (s.readSide.sorted.Keys == {} || s.writeSide.sorted.Keys == {})
    requires NoneExpired(s.readSide) && NoneExpired(s.writeSide) && (s.readSide.sorted.Keys != {} || s.writeSide.sorted.Keys != {})
    ensures var (s', r) := Next(s);
            var keys := s.readSide.sorted.Keys + s.writeSide.sorted.Keys;
            Filed(s') && r.Some? && r.value.sector == Nearest(keys, s.head) && s'.head == r.value.sector &&
            s'.readSide.sorted == s.readSide.sorted - {r.value.sector} && s'.writeSide.sorted == s.writeSide.sorted - {r.value.sector}
  {
    NextDispatches(s);
    if s.writeSide.sorted.Keys == {} {
      TakeTakes(s.readSide, s.head, false);
      assert s.readSide.sorted.Keys + s.writeSide.sorted.Keys == s.readSide.sorted.Keys;
      assert s.writeSide.sorted == map[];
    } else {
      TakeTakes(s.writeSide, s.head, true);
      assert s.readSide.sorted.Keys + s.writeSide.sorted.Keys == s.writeSide.sorted.Keys;
      assert s.readSide.sorted == map[];
    }
  }

  /** The keys pending in both directions. */
  function Keys(s: State): set<nat> { s.readSide.sorted.Keys + s.writeSide.sorted.Keys }

  ghost predicate OneSided(s: State) {
    Filed(s) && (s.readSide.sorted.Keys == {} || s.writeSide.sorted.Keys == {}) && NoneExpired(s.readSide) && NoneExpired(s.writeSide)
  }

  /** A dispatch took the nearest sector. */
  ghost predicate TookNearest(s: State, s': State, out: Option<Request>) {
    Keys(s) != {} && out.Some? && out.value.sector == Nearest(Keys(s), s.head) == s'.head &&
    Keys(s') == Keys(s) - {out.value.sector}
  }

  lemma {:induction false} DrainStep(s: State, s': State, out: Option<Request>)
    requires OneSided(s) && Keys(s) != {} && Does(s, Dispatch, s', out)
    ensures TookNearest(s, s', out) && OneSided(s')
  {
    OneSideNext(s);
  }

  /** The sectors returned from operation i on. */
  ghost function SectorsFrom(t: Trace, i: nat): seq<nat>
    requires i <= |t.outs|
    decreases |t.outs| - i
  {
    if i == |t.outs| then []
    else (if t.outs[i].Some? then [t.outs[i].value.sector] else []) + SectorsFrom(t, i + 1)
  }

  ghost predicate OnlyDispatches(t: Trace) {
    forall j :: 0 <= j < |t.ops| ==> t.ops[j].Dispatch?
  }

  /** A property of states under which every dispatch takes the nearest sector, and which it keeps. */
  ghost predicate Drainable(p: State -> bool) {
    forall s, s', out {:trigger Does(s, Dispatch, s', out)} ::
      p(s) && Keys(s) != {} && Does(s, Dispatch, s', out) ==> TookNearest(s, s', out) && p(s')
  }

  lemma {:induction false} DrainFrom(t: Trace, i: nat, p: State -> bool, n: nat)
    requires IsTrace(t) && OnlyDispatches(t) && Drainable(p)
    requires i <= |t.ops| && p(t.states[i]) && n == |Keys(t.states[i])| == |t.ops| - i
    ensures SectorsFrom(t, i) == Elevator(Keys(t.states[i]), t.states[i].head)
    decreases n
  {
    if n > 0 {
      assert StepAt(t, i) && t.ops[i].Dispatch?;
      assert TookNearest(t.states[i], t.states[i + 1], t.outs[i]);
      DrainFrom(t, i + 1, p, n - 1);
    }
  }

  /** Draining one direction serves its sectors in ascending order from the head, wrapping once. */
  lemma DrainIsElevator(t: Trace)
    requires IsTrace(t) && OnlyDispatches(t) && OneSided(t.states[0]) && |Keys(t.states[0])| == |t.ops|
    ensures var keys, head := Keys(t.states[0]), t.states[0].head;
            SectorsFrom(t, 0) == Ascending(From(keys, head)) + Ascending(Before(keys, head))
  {
    var p := s => OneSided(s);
    AllDrainable(p);
    DrainFrom(t, 0, p, |t.ops|);
    ElevatorIsRotated(Keys(t.states[0]), t.states[0].head);
  }

  lemma AllDrainable(p: State -> bool)
    requires forall s :: p(s) <==> OneSided(s)
    ensures Drainable(p)
  {
    forall s, s', out {:trigger Does(s, Dispatch, s', out)} | p(s) && Keys(s) != {} && Does(s, Dispatch, s', out)
      ensures TookNearest(s, s', out) && p(s')
    {
      DrainStep(s, s', out);
    }
  }

  // ---- The scheduler ----

  class DeadlineScheduler {
    var readSorted: map<nat, Request>
    var writeSorted: map<nat, Request>
    var readFifo: seq<nat>
    var writeFifo: seq<nat>
    var headPosition: nat
    var servingReads: bool
    var writesStarved: nat

    ghost function Now(): State
      reads this
    {
      State(Side(readSorted, readFifo), Side(writeSorted, writeFifo), headPosition, servingReads, writesStarved)
    }

    constructor ()
      ensures Now() == EMPTY && Valid(Now())
    {
      readSorted, writeSorted, readFifo, writeFifo := map[], map[], [], [];
      headPosition, servingReads, writesStarved := 0, true, 0;
    }

    method AddRequest(request: Request)
      modifies this
      ensures Now() == Add(old(Now()), request)
    {
      var sector := request.sector;
      if request.write {
        writeFifo := writeFifo + [sector];
        writeSorted := writeSorted[sector := request];
      } else {
        readFifo := readFifo + [sector];
        readSorted := readSorted[sector := request];
      }
    }

    method DispatchRead() returns (r: Option<Request>)
      modifies `readSorted, `readFifo, `headPosition
      ensures (Side(readSorted, readFifo), headPosition, r) == Take(old(Side(readSorted, readFifo)), old(headPosition))
    {
      if readFifo != [] && readFifo[0] in readSorted {
        var sector := readFifo[0];
        var req := readSorted[sector];
        if req.deadline.Some? && req.deadline.value <= req.submitTime {
          readFifo := readFifo[1..];
          readSorted := readSorted - {sector};
          return Some(req);
        }
      }
      if readSorted.Keys != {} {
        var sector := Nearest(readSorted.Keys, headPosition);
        headPosition := sector;
        readFifo := Without(readFifo, sector);
        r := Some(readSorted[sector]);
        readSorted := readSorted - {sector};
        return;
      }
      return None;
    }

    method DispatchWrite() returns (r: Option<Request>)
      modifies `writeSorted, `writeFifo, `headPosition
      ensures (Side(writeSorted, writeFifo), headPosition, r) == Take(old(Side(writeSorted, writeFifo)), old(headPosition))
    {
      if writeFifo != [] && writeFifo[0] in writeSorted {
        var sector := writeFifo[0];
        var req := writeSorted[sector];
        if req.deadline.Some? && req.deadline.value <= req.submitTime {
          writeFifo := writeFifo[1..];
          writeSorted := writeSorted - {sector};
          return Some(req);
        }
      }
      if writeSorted.Keys != {} {
        var sector := Nearest(writeSorted.Keys, headPosition);
        headPosition := sector;
        writeFifo := Without(writeFifo, sector);
        r := Some(writeSorted[sector]);
        writeSorted := writeSorted - {sector};
        return;
      }
      return None;
    }

    method NextRequest() returns (r: Option<Request>)
      modifies this
      ensures (Now(), r) == Next(old(Now()))
    {
      if servingReads {
        if readSorted.Keys != {} {
          writesStarved := writesStarved + 1;
          if writesStarved >= STARVE_LIMIT && writeSorted.Keys != {} {
            servingReads := false;
            writesStarved := 0;
          } else {
            r := DispatchRead();
            return;
          }
        } else {
          servingReads := false;
        }
      }
      if writeSorted.Keys != {} {
        r := DispatchWrite();
        if writeSorted.Keys == {} {
          servingReads := true;
        }
      } else {
        servingReads := true;
        r := DispatchRead();
      }
    }

    /** Exactly when the next dispatch will return a request. */
    method HasPending() returns (r: bool)
      ensures r == Next(Now()).1.Some?
    {
      r := readSorted.Keys != {} || writeSorted.Keys != {};
      NextFinds(Now());
    }
  }
}
