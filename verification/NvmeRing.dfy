// NVMe queues: the submission ring, and the completion ring in which a phase tag tells new entries
// from old. The device is modelled as one more actor, posting at its own tail as section 4.6 of NVM
// Express 1.4 describes.
module NvmeRing {
  import opened Bits
  import opened Wrappers

  // ---- Positions in a ring ----

  /** Where item n goes in a ring of d slots. */
  function Index(d: nat, n: nat): (i: nat)
    requires d > 0
    ensures i < d
  {
    if n == 0 then 0 else if Index(d, n - 1) + 1 == d then 0 else Index(d, n - 1) + 1
  }

  /** The phase of item n: true on the first pass, and the other way on each next one. */
  function Phase(d: nat, n: nat): bool
    requires d > 0
  {
    if n == 0 then true else if Index(d, n - 1) + 1 == d then !Phase(d, n - 1) else Phase(d, n - 1)
  }

  lemma NextIndex(d: nat, i: nat)
    requires i < d
    ensures (i + 1) % d == if i + 1 == d then 0 else i + 1
  {
    if i + 1 < d {
      ModUnique(i + 1, d, 0, i + 1);
    } else {
      ModUnique(d, d, 1, 0);
    }
  }

  lemma {:induction false} Ahead(d: nat, n: nat, k: nat)
    requires 0 < d && k <= d
    ensures Index(d, n + k) == if Index(d, n) + k < d then Index(d, n) + k else Index(d, n) + k - d
    ensures Phase(d, n + k) == if Index(d, n) + k < d then Phase(d, n) else !Phase(d, n)
  {
    if k > 0 {
      Ahead(d, n, k - 1);
      assert n + k - 1 == n + (k - 1);
    }
  }

  lemma PassAround(d: nat, n: nat, q: nat, r: nat)
    requires d > 0 && n == q * d + r && r < d
    ensures (n + d) % d == r
  {
    assert n + d == (q + 1) * d + r;
    ModUnique(n + d, d, q + 1, r);
  }

  /** The index is the remainder. */
  lemma {:induction false} IndexIsRemainder(d: nat, n: nat)
    requires d > 0
    ensures Index(d, n) == n % d
  {
    if n < d {
      Ahead(d, 0, n);
      ModUnique(n, d, 0, n);
    } else {
      IndexIsRemainder(d, n - d);
      Ahead(d, n - d, d);
      PassAround(d, n - d, (n - d) / d, (n - d) % d);
    }
  }

  /** The ring holds the last d of the items. */
  ghost predicate Holds<T>(slots: seq<T>, items: seq<T>) {
    |slots| > 0 && forall j: nat {:trigger Index(|slots|, j)} :: j < |items| <= j + |slots| ==> slots[Index(|slots|, j)] == items[j]
  }

  lemma HoldsNext<T>(slots: seq<T>, items: seq<T>, x: T)
    requires Holds(slots, items)
    ensures Holds(slots[Index(|slots|, |items|) := x], items + [x])
  {
    var d := |slots|;
    forall j: nat | j < |items| + 1 <= j + d
      ensures slots[Index(d, |items|) := x][Index(d, j)] == (items + [x])[j]
    {
      if j < |items| {
        Ahead(d, j, |items| - j);
      }
    }
  }

  // ---- Entries ----

  datatype Command = Command(opcode: nat, cid: nat, lba: nat, blocks: nat)

  datatype Completion = Completion(result: nat, sqhd: nat, sqid: nat, cid: nat, status: u16)

  const BLANK := Completion(0, 0, 0, 0, 0)

  /** `phase_matches`: bit 0 of the status is the phase tag. */
  predicate PhaseMatches(e: Completion, expected: bool) {
    (And(e.status, 1) != 0) == expected
  }

  lemma PhaseIsParity(e: Completion, expected: bool)
    ensures PhaseMatches(e, expected) <==> (e.status % 2 == 1) == expected
  {
    assert And(e.status / 2, 0) == 0;
  }

  /** The entry as the device writes it, with the tag of its pass. */
  function Tagged(e: Completion, phase: bool): Completion {
    e.(status := e.status / 2 * 2 + if phase then 1 else 0)
  }

  // ---- The queue pair ----

  /** What ties the completion ring to what was posted and taken. */
  ghost predicate Agreed(slots: seq<Completion>, posted: seq<Completion>, taken: nat, head: nat, phase: bool) {
    Holds(slots, posted) && taken <= |posted| <= taken + |slots| &&
    head == Index(|slots|, taken) && phase == Phase(|slots|, taken) &&
    (forall j: nat {:trigger Phase(|slots|, j)} :: j < |posted| ==> PhaseMatches(posted[j], Phase(|slots|, j))) &&
    (forall i :: |posted| <= i < |slots| ==> slots[i] == BLANK)
  }

  /** The tag at the head matches exactly when an entry is outstanding there, and then it is the next one. */
  lemma HeadTag(slots: seq<Completion>, posted: seq<Completion>, taken: nat, head: nat, phase: bool)
    requires Agreed(slots, posted, taken, head, phase)
    ensures PhaseMatches(slots[head], phase) <==> taken < |posted|
    ensures taken < |posted| ==> slots[head] == posted[taken]
  {
    var d := |slots|;
    if taken == |posted| {
      if taken < d {
        Ahead(d, 0, taken);
        PhaseIsParity(BLANK, true);
      } else {
        Ahead(d, taken - d, d);
        assert Index(d, taken - d) == head && slots[head] == posted[taken - d];
        PhaseIsParity(posted[taken - d], phase);
        PhaseIsParity(posted[taken - d], !phase);
        assert PhaseMatches(posted[taken - d], Phase(d, taken - d));
      }
    }
  }

  lemma {:induction false} PostAgrees(slots: seq<Completion>, posted: seq<Completion>, taken: nat, head: nat, phase: bool, e: Completion)
    requires Agreed(slots, posted, taken, head, phase) && |posted| < taken + |slots|
    ensures var d, n := |slots|, |posted|;
            var x := Tagged(e, Phase(d, n));
            Agreed(slots[Index(d, n) := x], posted + [x], taken, head, phase)
  {
    var d, n := |slots|, |posted|;
    var x := Tagged(e, Phase(d, n));
    HoldsNext(slots, posted, x);
    PhaseIsParity(x, Phase(d, n));
    var slots' := slots[Index(d, n) := x];
    forall i | n + 1 <= i < d
      ensures slots'[i] == BLANK
    {
      Ahead(d, 0, n);
    }
  }

  class NvmeQueue {
    const depth: nat
    const sqEntries: array<Command>
    const cqEntries: array<Completion>
    var sqTail: nat
    var cqHead: nat
    var cqPhase: bool
    var deviceTail: nat // the device's own position and tag
    var devicePhase: bool
    ghost var submitted: seq<Command> // every command ever submitted
    ghost var posted: seq<Completion> // every completion the device has posted
    ghost var returned: seq<Completion> // every completion polling has returned

    ghost predicate Valid()
      reads this, sqEntries, cqEntries
    {
      depth > 0 && sqEntries.Length == cqEntries.Length == depth &&
      Holds(sqEntries[..], submitted) && sqTail == Index(depth, |submitted|) &&
      Agreed(cqEntries[..], posted, |returned|, cqHead, cqPhase) &&
      deviceTail == Index(depth, |posted|) && devicePhase == Phase(depth, |posted|) &&
      returned == posted[..|returned|]
    }

    constructor (depth: nat, blank: Command)
      requires 0 < depth < TWO_16
      ensures Valid() && fresh(sqEntries) && fresh(cqEntries) && this.depth == depth
      ensures submitted == [] && posted == [] && returned == []
    {
      this.depth := depth;
      sqEntries := new Command[depth](i => blank);
      cqEntries := new Completion[depth](i => BLANK);
      sqTail, cqHead, cqPhase := 0, 0, true;
      deviceTail, devicePhase := 0, true;
      submitted, posted, returned := [], [], [];
    }

    /** The command goes to the slot whose number is returned; the last `depth` commands are in place. */
    method Submit(entry: Command) returns (slot: nat)
      requires Valid()
      modifies `sqTail, `submitted, sqEntries
      ensures Valid() && submitted == old(submitted) + [entry]
      ensures slot == |old(submitted)| % depth && sqEntries[slot] == entry
    {
      HoldsNext(sqEntries[..], submitted, entry);
      IndexIsRemainder(depth, |submitted|);
      NextIndex(depth, sqTail);
      slot := sqTail;
      ghost var before := sqEntries[..];
      sqEntries[slot] := entry;
      assert sqEntries[..] == before[slot := entry];
      sqTail := (sqTail + 1) % depth;
      submitted := submitted + [entry];
    }

    /** The device completes a command: at most `depth` entries may be outstanding. */
    method Post(e: Completion)
      requires Valid() && |posted| < |returned| + depth
      modifies `deviceTail, `devicePhase, `posted, cqEntries
      ensures Valid() && posted == old(posted) + [Tagged(e, Phase(depth, |old(posted)|))]
    {
      PostAgrees(cqEntries[..], posted, |returned|, cqHead, cqPhase, e);
      ghost var before := cqEntries[..];
      var x := Tagged(e, devicePhase);
      cqEntries[deviceTail] := x;
      assert cqEntries[..] == before[deviceTail := x];
      AdvanceDevice(|posted|);
      posted := posted + [x];
    }

    /** The device's position after one more entry. */
    method AdvanceDevice(ghost n: nat)
      requires depth > 0 && deviceTail == Index(depth, n) && devicePhase == Phase(depth, n)
      modifies `deviceTail, `devicePhase
      ensures deviceTail == Index(depth, n + 1) && devicePhase == Phase(depth, n + 1)
    {
      deviceTail := deviceTail + 1;
      if deviceTail == depth {
        deviceTail := 0;
        devicePhase := !devicePhase;
      }
    }

    /** The driver's position after one more entry. */
    method AdvanceHead(ghost n: nat)
      requires depth > 0 && cqHead == Index(depth, n) && cqPhase == Phase(depth, n)
      modifies `cqHead, `cqPhase
      ensures cqHead == Index(depth, n + 1) && cqPhase == Phase(depth, n + 1)
    {
      NextIndex(depth, cqHead);
      cqHead := (cqHead + 1) % depth;
      if cqHead == 0 {
        cqPhase := !cqPhase;
      }
    }

    /** Polling returns what was posted, in order, each once; none exactly when nothing is outstanding. */
    method PollCompletion() returns (r: Option<Completion>)
      requires Valid()
      modifies `cqHead, `cqPhase, `returned
      ensures Valid()
      ensures r.Some? <==> |old(returned)| < |posted|
      ensures returned == if r.Some? then old(returned) + [r.value] else old(returned)
    {
      HeadTag(cqEntries[..], posted, |returned|, cqHead, cqPhase);
      var entry := cqEntries[cqHead];
      if PhaseMatches(entry, cqPhase) {
        AdvanceHead(|returned|);
        returned := returned + [entry];
        return Some(entry);
      }
      return None;
    }
  }
}
