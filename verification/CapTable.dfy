// The kernel's capability table: tokens, the owner index, and grant, check and revoke.
module CapTable {
  import opened Bits
  import opened Wrappers
  import opened CapTokens
  import opened CapForest

  datatype CapError = TokenNotFound | NotOwner | Revoked | Expired | OperationNotAllowed | TableFull

  datatype Result<+T> = Ok(value: T) | Err(error: CapError)

  // ---- The owner index ----

  function Owned(byOwner: map<nat, seq<Token>>, o: nat): seq<Token> {
    if o in byOwner then byOwner[o] else []
  }

  /** `byOwner` lists each owner's tokens, each exactly once. */
  ghost predicate Indexed(m: Table, byOwner: map<nat, seq<Token>>) {
    (forall o {:trigger Owned(byOwner, o)} :: Distinct(Owned(byOwner, o))) &&
    (forall o, t {:trigger t in Owned(byOwner, o)} :: t in Owned(byOwner, o) <==> t in m && m[t].owner == o)
  }

  lemma InsertedIndexed(m: Table, byOwner: map<nat, seq<Token>>, t: Token, e: Entry, byOwner': map<nat, seq<Token>>)
    requires Indexed(m, byOwner) && t !in m
    requires byOwner' == byOwner[e.owner := Owned(byOwner, e.owner) + [t]]
    ensures Indexed(m[t := e], byOwner')
  {
    forall o, x
      ensures x in Owned(byOwner', o) <==> x in m[t := e] && m[t := e][x].owner == o
    {
      assert x in Owned(byOwner, o) <==> x in m && m[x].owner == o;
    }
    assert t !in Owned(byOwner, e.owner);
    forall o
      ensures Distinct(Owned(byOwner', o))
    {
      assert Distinct(Owned(byOwner, o));
    }
  }

  // ---- The invariant ----

  /** Token t came from counter value n. */
  ghost predicate From(t: Token, n: nat, counter: nat) {
    0 < n <= counter < TWO_64 && t.w0 == Mix(n)
  }

  ghost predicate Issued(tokens: set<Token>, serial: map<Token, nat>, counter: nat) {
    tokens <= serial.Keys &&
    forall t {:trigger From(t, serial[t], counter)} :: t in tokens ==> From(t, serial[t], counter)
  }

  lemma OneSerial(t: Token, n: nat, n': nat, counter: nat, counter': nat)
    requires From(t, n, counter) && From(t, n', counter')
    ensures n == n'
  {
    MixInjective(n, n');
  }

  lemma StillFrom(t: Token, n: nat, counter: nat)
    requires From(t, n, counter) && counter < TWO_64 - 1
    ensures From(t, n, counter + 1) && n <= counter
  {
  }

  lemma StillIssued(tokens: set<Token>, serial: map<Token, nat>, counter: nat)
    requires Issued(tokens, serial, counter) && counter < TWO_64 - 1
    ensures Issued(tokens, serial, counter + 1)
  {
    forall x | x in tokens
      ensures From(x, serial[x], counter + 1)
    {
      StillFrom(x, serial[x], counter);
    }
  }

  /** A token from the next counter value is new. */
  lemma NextIsNew(tokens: set<Token>, serial: map<Token, nat>, counter: nat, t: Token)
    requires Issued(tokens, serial, counter) && From(t, counter + 1, counter + 1)
    ensures t !in tokens
    ensures Issued(tokens, serial, counter + 1)
    ensures Issued(tokens + {t}, serial[t := counter + 1], counter + 1)
  {
    StillIssued(tokens, serial, counter);
    if t in tokens {
      StillFrom(t, serial[t], counter);
      OneSerial(t, serial[t], counter + 1, counter, counter + 1);
    }
  }

  /** No entry can expire: roots have no expiry and grants copy it. */
  ghost predicate NeverExpires(m: Table) {
    forall t :: t in m ==> m[t].expires == None
  }

  ghost predicate Sound(m: Table, birth: map<Token, nat>, byOwner: map<nat, seq<Token>>) {
    Forest(m, birth) && Attenuated(m) && NeverExpires(m) && Indexed(m, byOwner)
  }

  /** What an entry must be to join the table. */
  ghost predicate Admissible(m: Table, e: Entry) {
    !e.revoked && e.expires == None &&
    (e.parent.Some? ==>
      var p := e.parent.value;
      p in m && Contains(m[p].ops, e.ops) && Contains(m[p].ops, GRANT) && e.resource == m[p].resource)
  }

  lemma InsertedForest(m: Table, birth: map<Token, nat>, t: Token, e: Entry)
    requires Forest(m, birth) && t !in m && Admissible(m, e)
    ensures Forest(m[t := e], birth[t := |m|])
  {
    var m', birth' := m[t := e], birth[t := |m|];
    assert m'.Keys == m.Keys + {t} && |m'| == |m'.Keys| == |m| + 1;
    forall x {:trigger Placed(m', birth', x)} | x in m'
      ensures Placed(m', birth', x)
    {
      if x != t {
        assert Placed(m, birth, x);
      } else if e.parent.Some? {
        assert Placed(m, birth, e.parent.value);
      }
    }
  }

  lemma InsertedSound(m: Table, birth: map<Token, nat>, byOwner: map<nat, seq<Token>>, t: Token, e: Entry,
                      byOwner': map<nat, seq<Token>>)
    requires Sound(m, birth, byOwner) && t !in m && Admissible(m, e)
    requires byOwner' == byOwner[e.owner := Owned(byOwner, e.owner) + [t]]
    ensures Sound(m[t := e], birth[t := |m|], byOwner')
  {
    var m' := m[t := e];
    InsertedForest(m, birth, t, e);
    forall x {:trigger Attenuates(m', x)} | x in m'
      ensures Attenuates(m', x)
    {
      if x != t {
        assert Attenuates(m, x);
      }
    }
    InsertedIndexed(m, byOwner, t, e, byOwner');
  }

  lemma SameButRevokedSound(m: Table, m': Table, birth: map<Token, nat>, byOwner: map<nat, seq<Token>>)
    requires Sound(m, birth, byOwner) && SameButRevoked(m, m')
    ensures Sound(m', birth, byOwner)
  {
    SameForest(m, m', birth);
    forall x {:trigger Attenuates(m', x)} | x in m'
      ensures Attenuates(m', x)
    {
      assert Attenuates(m, x);
    }
    forall o, x
      ensures x in Owned(byOwner, o) <==> x in m' && m'[x].owner == o
    {
      assert x in Owned(byOwner, o) <==> x in m && m[x].owner == o;
    }
  }

  // ---- check ----

  /** The outcome of a check at time `now`. */
  function Verdict(m: Table, process: nat, t: Token, op: Ops, now: nat): Result<()> {
    if t !in m then Err(TokenNotFound)
    else if m[t].owner != process then Err(NotOwner)
    else if m[t].revoked then Err(CapError.Revoked)
    else if m[t].expires.Some? && now > m[t].expires.value then Err(Expired)
    else if !Contains(m[t].ops, op) then Err(OperationNotAllowed)
    else Ok(())
  }

  /** The entry is its owner's, live at that time, and covers the operation. */
  predicate Permits(e: Entry, process: nat, op: Ops, now: nat) {
    e.owner == process && !e.revoked && (e.expires.Some? ==> now <= e.expires.value) && Contains(e.ops, op)
  }

  /**
   * In every reachable table a passing check means exactly: the caller owns the live token, and the
   * operation was allowed all along the derivation.
   */
  lemma PassedMeansAllowedByAncestors(m: Table, birth: map<Token, nat>, byOwner: map<nat, seq<Token>>,
                                      process: nat, a: Token, t: Token, op: Ops, now: nat)
    requires Sound(m, birth, byOwner) && t in m && Below(m, birth, a, t, false) && Verdict(m, process, t, op, now).Ok?
    ensures a in m && Contains(m[a].ops, op) && m[a].resource == m[t].resource && t in Owned(byOwner, process)
  {
    AncestorsAttenuate(m, birth, a, t);
    ContainsTransitive(m[a].ops, m[t].ops, op);
  }

  /** After a revocation in a closed table, no check on the token or any descendant passes. */
  lemma RevokedMeansDenied(m: Table, birth: map<Token, nat>, t: Token, x: Token, process: nat, op: Ops, now: nat)
    requires Forest(m, birth) && t in m && Closed(m) && x in m && (x == t || Below(m, birth, t, x, false))
    ensures !Verdict(CapForest.Revoked(m, birth, t), process, x, op, now).Ok?
  {
    ClosedStaysClosed(m, birth, t);
  }

  function LiveChildren(m: Table, p: Token): set<Token> {
    set t | t in m && m[t].parent == Some(p) && !m[t].revoked
  }

  lemma ChildIsLater(m: Table, birth: map<Token, nat>, p: Token, c: Token)
    requires Forest(m, birth) && c in LiveChildren(m, p)
    ensures Born(birth, p) < Born(birth, c) < |m|
  {
    assert Placed(m, birth, c);
  }

  function Born(birth: map<Token, nat>, t: Token): nat {
    if t in birth then birth[t] else 0
  }

  /** A check of t passes exactly for the grantee, for what was both asked for and held by the parent, in the parent's time. */
  ghost predicate UsableBy(m: Table, t: Token, parent: Entry, grantee: nat, operations: Ops) {
    forall process: nat, op: Ops, now: nat :: Verdict(m, process, t, op, now).Ok? <==>
      process == grantee && Contains(operations, op) && Contains(parent.ops, op) && (parent.expires.Some? ==> now <= parent.expires.value)
  }

  lemma GrantedUsable(m: Table, t: Token, parent: Entry, parentToken: Token, grantee: nat, operations: Ops)
    ensures UsableBy(m[t := Derived(parent, parentToken, grantee, operations)], t, parent, grantee, operations)
  {
    forall op: Ops
      ensures Contains(Intersection(operations, parent.ops), op) <==> Contains(operations, op) && Contains(parent.ops, op)
    {
      IntersectionExactly(operations, parent.ops, op);
    }
  }

  // ---- The table ----

  class CapabilityTable {
    var entries: Table
    var byOwner: map<nat, seq<Token>>
    var tokenCounter: u64
    const maxCapabilities: nat
    ghost var birth: map<Token, nat>
    ghost var serial: map<Token, nat>

    ghost predicate Valid()
      reads this
    {
      Sound(entries, birth, byOwner) && Issued(entries.Keys, serial, tokenCounter) && |entries| <= maxCapabilities
    }

    constructor (max: nat)
      ensures Valid() && entries == map[] && Closed(entries) && maxCapabilities == max
    {
      entries, byOwner, tokenCounter := map[], map[], 0;
      maxCapabilities := max;
      birth, serial := map[], map[];
    }

    /** The token of the next counter value; ts is the time stamp. The counter never returns. */
    method GenerateToken(ts: u64) returns (token: Token)
      requires tokenCounter < TWO_64 - 1
      modifies `tokenCounter
      ensures tokenCounter == old(tokenCounter) + 1 && From(token, tokenCounter, tokenCounter)
      ensures token == Make(tokenCounter, ts)
    {
      tokenCounter := tokenCounter + 1;
      XorTimeFits(tokenCounter, ts);
      token := Make(tokenCounter, ts);
    }

    /** `insert_entry`, with the ghost record of when the token came. A new admissible entry keeps the invariant. */
    method InsertEntry(token: Token, entry: Entry) returns (r: Result<()>)
      modifies `entries, `byOwner, `birth
      ensures r == if old(|entries|) >= maxCapabilities then Err(TableFull) else Ok(())
      ensures entries == if r.Ok? then old(entries)[token := entry] else old(entries)
      ensures byOwner == if r.Ok? then old(byOwner)[entry.owner := Owned(old(byOwner), entry.owner) + [token]] else old(byOwner)
      ensures old(Sound(entries, birth, byOwner) && token !in entries && Admissible(entries, entry)) ==> Sound(entries, birth, byOwner)
    {
      if |entries| >= maxCapabilities {
        return Err(TableFull);
      }
      if Sound(entries, birth, byOwner) && token !in entries && Admissible(entries, entry) {
        InsertedSound(entries, birth, byOwner, token, entry, byOwner[entry.owner := Owned(byOwner, entry.owner) + [token]]);
      }
      birth := birth[token := |entries|];
      entries := entries[token := entry];
      byOwner := byOwner[entry.owner := Owned(byOwner, entry.owner) + [token]];
      return Ok(());
    }

    /** A token is drawn and the entry inserted; the counter moves even when the table is full. */
    method AddEntry(ts: u64, entry: Entry) returns (r: Result<Token>)
      requires Valid() && tokenCounter < TWO_64 - 1 && Admissible(entries, entry)
      modifies this
      ensures Valid() && tokenCounter == old(tokenCounter) + 1
      ensures old(|entries|) >= maxCapabilities ==> r == Err(TableFull) && entries == old(entries)
      ensures old(|entries|) < maxCapabilities ==>
                r.Ok? && r.value !in old(entries) && entries == old(entries)[r.value := entry]
    {
      ghost var keys, counter := entries.Keys, tokenCounter;
      var token := GenerateToken(ts);
      NextIsNew(keys, serial, counter, token);
      var inserted := InsertEntry(token, entry);
      if inserted.Err? {
        return Err(inserted.error);
      }
      serial := serial[token := tokenCounter];
      assert entries.Keys == keys + {token};
      return Ok(token);
    }

    method CreateRoot(owner: nat, resource: Resource, operations: Ops, ts: u64) returns (r: Result<Token>)
      requires Valid() && tokenCounter < TWO_64 - 1
      modifies this
      ensures Valid() && tokenCounter == old(tokenCounter) + 1
      ensures old(|entries|) >= maxCapabilities ==> r == Err(TableFull) && entries == old(entries)
      ensures old(|entries|) < maxCapabilities ==>
                r.Ok? && r.value !in old(entries) &&
                entries == old(entries)[r.value := Entry(owner, resource, operations, None, false, None)]
    {
      r := AddEntry(ts, Entry(owner, resource, operations, None, false, None));
    }

    method Grant(granter: nat, parentToken: Token, grantee: nat, operations: Ops, ts: u64) returns (r: Result<Token>)
      requires Valid() && tokenCounter < TWO_64 - 1
      modifies this
      ensures Valid()
      ensures r == Err(TokenNotFound) <==> parentToken !in old(entries)
      ensures r == Err(NotOwner) <==> parentToken in old(entries) && old(entries)[parentToken].owner != granter
      ensures r == Err(OperationNotAllowed) <==>
                parentToken in old(entries) && old(entries)[parentToken].owner == granter && !Contains(old(entries)[parentToken].ops, GRANT)
      ensures r.Ok? <==> parentToken in old(entries) && old(entries)[parentToken].owner == granter &&
                         Contains(old(entries)[parentToken].ops, GRANT) && |old(entries)| < maxCapabilities
      ensures r.Err? ==> entries == old(entries) && r.error in {TokenNotFound, NotOwner, OperationNotAllowed, TableFull}
      ensures r.Ok? ==> r.value !in old(entries) && r.value in entries
      ensures r.Ok? ==> UsableBy(entries, r.value, old(entries)[parentToken], grantee, operations)
      ensures r.Ok? ==> entries == old(entries)[r.value := Derived(old(entries)[parentToken], parentToken, grantee, operations)]
    {
      if parentToken !in entries {
        return Err(TokenNotFound);
      }
      var parent := entries[parentToken];
      if parent.owner != granter {
        return Err(NotOwner);
      }
      if !Contains(parent.ops, GRANT) {
        return Err(OperationNotAllowed);
      }
      IntersectionContained(parent.ops, operations);
      ghost var before := entries;
      r := AddEntry(ts, Derived(parent, parentToken, grantee, operations));
      if r.Ok? {
        GrantedUsable(before, r.value, parent, parentToken, grantee, operations);
      }
    }

    method Check(process: nat, token: Token, operation: Ops, now: nat) returns (r: Result<()>)
      ensures r == Verdict(entries, process, token, operation, now)
      ensures r.Ok? <==> token in entries && Permits(entries[token], process, operation, now)
      ensures r == Err(TokenNotFound) <==> token !in entries
      ensures r == Err(NotOwner) <==> token in entries && entries[token].owner != process
      ensures r == Err(CapError.Revoked) <==> token in entries && entries[token].owner == process && entries[token].revoked
      ensures r == Err(OperationNotAllowed) <==>
                token in entries && Permits(entries[token], process, 0, now) && !Contains(entries[token].ops, operation)
    {
      if token !in entries {
        return Err(TokenNotFound);
      }
      var entry := entries[token];
      if entry.owner != process {
        return Err(NotOwner);
      }
      if entry.revoked {
        return Err(CapError.Revoked);
      }
      match entry.expires {
        case Some(expires) =>
          if now > expires {
            return Err(Expired);
          }
        case None =>
      }
      if !Contains(entry.ops, operation) {
        return Err(OperationNotAllowed);
      }
      return Ok(());
    }

    /** `revoke_derived`: the children are collected first, then each is marked and cut in turn, in any order. */
    method RevokeDerived(parentToken: Token)
      requires Forest(entries, birth) && parentToken in entries
      modifies `entries
      ensures entries == Cut(old(entries), birth, parentToken)
      decreases |entries| - Born(birth, parentToken), 0
    {
      ghost var before, done: set<Token> := entries, {};
      var todo := LiveChildren(entries, parentToken);
      while todo != {}
        invariant todo <= LiveChildren(before, parentToken) && done == LiveChildren(before, parentToken) - todo
        invariant PartlyCut(before, entries, birth, parentToken, done) && |entries| == |before|
        decreases |todo|
      {
        var child :| child in todo;
        ChildIsLater(before, birth, parentToken, child);
        RevokeChild(child, before, parentToken, done);
        done := done + {child};
        todo := todo - {child};
      }
      AllCut(before, entries, birth, parentToken, done);
    }

    /** The body of that loop. */
    method RevokeChild(child: Token, ghost before: Table, ghost parentToken: Token, ghost done: set<Token>)
      requires Forest(before, birth) && PartlyCut(before, entries, birth, parentToken, done)
      requires child in before && before[child].parent == Some(parentToken) && !before[child].revoked && child !in done
      modifies `entries
      ensures PartlyCut(before, entries, birth, parentToken, done + {child}) && |entries| == |before|
      decreases |entries| - Born(birth, child), 1
    {
      ghost var m := entries;
      entries := entries[child := entries[child].(revoked := true)];
      CutOne(before, m, birth, parentToken, done, child, entries);
      assert |entries| == |m| by { assert entries.Keys == m.Keys; }
      RevokeDerived(child);
      assert |entries.Keys| == |before.Keys|;
    }

    /** `revoke`: only the owner may, and no REVOKE right is asked for. */
    method Revoke(revoker: nat, token: Token) returns (r: Result<()>)
      requires Valid()
      modifies `entries
      ensures Valid()
      ensures token !in old(entries) ==> r == Err(TokenNotFound)
      ensures token in old(entries) ==> r == if old(entries)[token].owner == revoker then Ok(()) else Err(NotOwner)
      ensures entries == if r.Ok? then CapForest.Revoked(old(entries), birth, token) else old(entries)
    {
      if token !in entries {
        return Err(TokenNotFound);
      }
      if entries[token].owner != revoker {
        return Err(NotOwner);
      }
      ghost var before := entries;
      entries := entries[token := entries[token].(revoked := true)];
      RevokedIsCut(before, birth, token, entries);
      RevokeDerived(token);
      SameButRevokedSound(before, entries, birth, byOwner);
      return Ok(());
    }
  }
}
