// The capability forest on values: who derives from whom, what a revocation reaches, and how the
// rights shrink along every derivation.
module CapForest {
  import opened Wrappers
  import opened CapTokens

  type Ops = bv32

  const GRANT: Ops := 0x08

  /** `contains`: every operation of b is in a. */
  predicate Contains(a: Ops, b: Ops) { a & b == b }

  function Intersection(a: Ops, b: Ops): Ops { a & b }

  lemma ContainsTransitive(a: Ops, b: Ops, c: Ops)
    requires Contains(a, b) && Contains(b, c)
    ensures Contains(a, c)
  {
    assert a & c == a & (b & c) == (a & b) & c == c;
  }

  lemma IntersectionContained(a: Ops, b: Ops)
    ensures Contains(a, Intersection(b, a)) && Contains(b, Intersection(b, a))
  {
  }

  lemma HeldByBoth(a: Ops, b: Ops, c: Ops)
    requires Contains(a, c) && Contains(b, c)
    ensures Contains(Intersection(a, b), c)
  {
    assert (a & b) & c == a & (b & c) == a & c == c;
  }

  /** The intersection holds what both hold. */
  lemma IntersectionExactly(a: Ops, b: Ops, c: Ops)
    ensures Contains(Intersection(a, b), c) <==> Contains(a, c) && Contains(b, c)
  {
    if Contains(a, c) && Contains(b, c) {
      HeldByBoth(a, b, c);
    } else if Contains(Intersection(a, b), c) {
      HeldByIntersection(a, b, c, Intersection(a, b));
    }
  }

  lemma HeldByIntersection(a: Ops, b: Ops, c: Ops, i: Ops)
    requires i == Intersection(a, b) && Contains(i, c)
    ensures Contains(a, c) && Contains(b, c)
  {
    IntersectionContained(b, a);
    ContainsTransitive(a, i, c);
    ContainsTransitive(b, i, c);
  }

  datatype Resource = Resource(kind: string, id: nat)

  datatype Entry = Entry(owner: nat, resource: Resource, ops: Ops, parent: Option<Token>, revoked: bool, expires: Option<nat>)

  type Table = map<Token, Entry>

  // ---- The forest ----

  /** A parent is in the table and entered it before its child. */
  ghost predicate Placed(m: Table, birth: map<Token, nat>, t: Token)
    requires t in m
  {
    t in birth && birth[t] < |m| &&
    (m[t].parent.Some? ==> var p := m[t].parent.value; p in m && p in birth && birth[p] < birth[t])
  }

  ghost predicate Forest(m: Table, birth: map<Token, nat>) {
    forall t {:trigger Placed(m, birth, t)} :: t in m ==> Placed(m, birth, t)
  }

  /** x derives from a. With `live`, through entries none of which was revoked, x included. */
  ghost predicate Below(m: Table, birth: map<Token, nat>, a: Token, x: Token, live: bool)
    requires Forest(m, birth) && x in m
    decreases if x in birth then birth[x] else 0
  {
    assert Placed(m, birth, x);
    m[x].parent.Some? && (live ==> !m[x].revoked) &&
    (m[x].parent.value == a || Below(m, birth, a, m[x].parent.value, live))
  }

  /** The child of a through which x derives from it. */
  ghost function Branch(m: Table, birth: map<Token, nat>, a: Token, x: Token): (c: Token)
    requires Forest(m, birth) && x in m && Below(m, birth, a, x, true)
    ensures c in m && m[c].parent == Some(a) && !m[c].revoked
    ensures c == x || Below(m, birth, c, x, true)
    decreases if x in birth then birth[x] else 0
  {
    assert Placed(m, birth, x);
    if m[x].parent.value == a then x else Branch(m, birth, a, m[x].parent.value)
  }

  lemma {:induction false} BelowIsLater(m: Table, birth: map<Token, nat>, a: Token, x: Token, live: bool)
    requires Forest(m, birth) && x in m && Below(m, birth, a, x, live)
    ensures a in birth && x in birth && a in m && birth[a] < birth[x]
    decreases if x in birth then birth[x] else 0
  {
    assert Placed(m, birth, x);
    if m[x].parent.value != a {
      BelowIsLater(m, birth, a, m[x].parent.value, live);
    }
  }

  /** The subtrees of two children of a are disjoint: what is below c has c as its branch. */
  lemma {:induction false} BranchUnique(m: Table, birth: map<Token, nat>, a: Token, c: Token, x: Token)
    requires Forest(m, birth) && x in m && c in m && m[c].parent == Some(a) && !m[c].revoked
    requires x == c || Below(m, birth, c, x, true)
    ensures Below(m, birth, a, x, true) && Branch(m, birth, a, x) == c
    decreases if x in birth then birth[x] else 0
  {
    assert Placed(m, birth, x);
    if x != c {
      var p := m[x].parent.value;
      BranchUnique(m, birth, a, c, p);
      if p == a {
        assert Placed(m, birth, c);
        BelowIsLater(m, birth, a, p, true);
        assert false;
      }
    }
  }

  // ---- Revocation ----

  /** The table after t's live descendants are revoked. */
  ghost function Cut(m: Table, birth: map<Token, nat>, t: Token): (r: Table)
    requires Forest(m, birth)
    ensures r.Keys == m.Keys
  {
    map x | x in m :: if Below(m, birth, t, x, true) then m[x].(revoked := true) else m[x]
  }

  /** The table after t and its live descendants are revoked. */
  ghost function Revoked(m: Table, birth: map<Token, nat>, t: Token): (r: Table)
    requires Forest(m, birth) && t in m
    ensures r.Keys == m.Keys
  {
    map x | x in m :: if x == t || Below(m, birth, t, x, true) then m[x].(revoked := true) else m[x]
  }

  /** Two tables that differ at most in which entries are revoked. */
  ghost predicate SameButRevoked(m: Table, m': Table) {
    m'.Keys == m.Keys && forall x :: x in m ==> m'[x] == m[x].(revoked := m'[x].revoked)
  }

  lemma SameForest(m: Table, m': Table, birth: map<Token, nat>)
    requires Forest(m, birth) && SameButRevoked(m, m')
    ensures Forest(m', birth)
  {
    assert |m'| == |m| by { assert |m'.Keys| == |m.Keys|; }
    forall t | t in m'
      ensures Placed(m', birth, t)
    {
      assert Placed(m, birth, t);
    }
  }

  /** The state while the children of a are being cut off: those in `done` are, with all below them. */
  ghost predicate PartlyCut(m: Table, m': Table, birth: map<Token, nat>, a: Token, done: set<Token>)
    requires Forest(m, birth)
  {
    SameButRevoked(m, m') &&
    forall x {:trigger m'[x]} :: x in m ==>
      (m'[x].revoked <==> m[x].revoked || (Below(m, birth, a, x, true) && Branch(m, birth, a, x) in done))
  }

  /** Below a child not yet cut off, nothing has changed. */
  lemma {:induction false} UntouchedBelow(m: Table, m': Table, birth: map<Token, nat>, a: Token, done: set<Token>, c: Token,
                                          mc: Table, x: Token)
    requires Forest(m, birth) && PartlyCut(m, m', birth, a, done)
    requires c in m && m[c].parent == Some(a) && !m[c].revoked && c !in done && x in m
    requires mc == m'[c := m'[c].(revoked := true)] && Forest(mc, birth)
    ensures Below(mc, birth, c, x, true) <==> Below(m, birth, c, x, true)
    decreases if x in birth then birth[x] else 0
  {
    assert Placed(m, birth, x) && Placed(m, birth, c);
    assert mc[x].parent == m[x].parent;
    if m[x].parent.Some? {
      var p := m[x].parent.value;
      UntouchedBelow(m, m', birth, a, done, c, mc, p);
      if p == c || Below(m, birth, c, p, true) {
        if p != c {
          BelowIsLater(m, birth, c, p, true);
        }
        assert x != c;
        if !m[x].revoked {
          BranchUnique(m, birth, a, c, x);
        }
      }
    }
  }

  /** Cutting off one more child. */
  lemma {:induction false} CutOne(m: Table, m': Table, birth: map<Token, nat>, a: Token, done: set<Token>, c: Token, mc: Table)
    requires Forest(m, birth) && PartlyCut(m, m', birth, a, done)
    requires c in m && m[c].parent == Some(a) && !m[c].revoked && c !in done
    requires mc == m'[c := m'[c].(revoked := true)]
    ensures Forest(mc, birth) && PartlyCut(m, Cut(mc, birth, c), birth, a, done + {c})
  {
    assert mc.Keys == m.Keys;
    SameForest(m, mc, birth);
    var r := Cut(mc, birth, c);
    forall x | x in m
      ensures r[x] == m[x].(revoked := r[x].revoked)
      ensures r[x].revoked <==> m[x].revoked || (Below(m, birth, a, x, true) && Branch(m, birth, a, x) in done + {c})
    {
      UntouchedBelow(m, m', birth, a, done, c, mc, x);
      if x == c || Below(m, birth, c, x, true) {
        BranchUnique(m, birth, a, c, x);
      }
    }
  }

  lemma AllCut(m: Table, m': Table, birth: map<Token, nat>, a: Token, done: set<Token>)
    requires Forest(m, birth) && PartlyCut(m, m', birth, a, done)
    requires forall x :: x in m && m[x].parent == Some(a) && !m[x].revoked ==> x in done
    ensures m' == Cut(m, birth, a)
  {
    var r := Cut(m, birth, a);
    forall x | x in m
      ensures m'[x] == r[x]
    {
      assert m'[x] == m[x].(revoked := m'[x].revoked);
    }
  }

  /** Marking t and then cutting below it is revoking it. */
  lemma {:induction false} RevokedIsCut(m: Table, birth: map<Token, nat>, t: Token, mt: Table)
    requires Forest(m, birth) && t in m && mt == m[t := m[t].(revoked := true)]
    ensures Forest(mt, birth) && Cut(mt, birth, t) == Revoked(m, birth, t)
  {
    assert mt.Keys == m.Keys;
    SameForest(m, mt, birth);
    forall x | x in m
      ensures Below(mt, birth, t, x, true) <==> Below(m, birth, t, x, true) && x != t
    {
      MarkedBelow(m, birth, t, mt, x);
    }
  }

  lemma {:induction false} MarkedBelow(m: Table, birth: map<Token, nat>, t: Token, mt: Table, x: Token)
    requires Forest(m, birth) && t in m && x in m && mt == m[t := m[t].(revoked := true)] && Forest(mt, birth)
    ensures Below(mt, birth, t, x, true) <==> Below(m, birth, t, x, true)
    ensures Below(m, birth, t, x, true) ==> x != t
    decreases if x in birth then birth[x] else 0
  {
    assert Placed(m, birth, x);
    if m[x].parent.Some? {
      MarkedBelow(m, birth, t, mt, m[x].parent.value);
    }
    if Below(m, birth, t, x, true) {
      BelowIsLater(m, birth, t, x, true);
    }
    if Below(mt, birth, t, x, true) {
      BelowIsLater(mt, birth, t, x, true);
    }
  }

  /** A live entry under a revoked one. */
  ghost predicate Orphan(m: Table, x: Token) {
    x in m && !m[x].revoked && m[x].parent.Some? && m[x].parent.value in m && m[m[x].parent.value].revoked
  }

  /** Every child of a revoked entry is revoked. */
  ghost predicate Closed(m: Table) {
    forall x {:trigger Orphan(m, x)} :: !Orphan(m, x)
  }

  lemma {:induction false} LiveUnlessOrphan(m: Table, birth: map<Token, nat>, t: Token, x: Token)
    requires Forest(m, birth) && t in m && x in m && Below(m, birth, t, x, false)
    requires forall y {:trigger Orphan(m, y)} :: y in m && Below(m, birth, t, y, false) && Orphan(m, y) ==> m[y].parent == Some(t)
    ensures m[x].revoked || Below(m, birth, t, x, true)
    decreases if x in birth then birth[x] else 0
  {
    assert Placed(m, birth, x);
    var p := m[x].parent.value;
    if p != t {
      LiveUnlessOrphan(m, birth, t, p);
      assert !Orphan(m, x);
    }
  }

  /**
   * A revocation reaches every descendant exactly when no live descendant sits under a revoked
   * entry other than the one being revoked.
   */
  lemma RevocationIsComplete(m: Table, birth: map<Token, nat>, t: Token)
    requires Forest(m, birth) && t in m
    ensures (forall x :: x in m && Below(m, birth, t, x, false) ==> Revoked(m, birth, t)[x].revoked) <==>
            (forall x {:trigger Orphan(m, x)} :: x in m && Below(m, birth, t, x, false) && Orphan(m, x) ==> m[x].parent == Some(t))
  {
    var r := Revoked(m, birth, t);
    if forall x {:trigger Orphan(m, x)} :: x in m && Below(m, birth, t, x, false) && Orphan(m, x) ==> m[x].parent == Some(t) {
      forall x | x in m && Below(m, birth, t, x, false)
        ensures r[x].revoked
      {
        LiveUnlessOrphan(m, birth, t, x);
      }
    }
    if forall x :: x in m && Below(m, birth, t, x, false) ==> r[x].revoked {
      forall x {:trigger Orphan(m, x)} | x in m && Below(m, birth, t, x, false) && Orphan(m, x)
        ensures m[x].parent == Some(t)
      {
        assert Placed(m, birth, x);
        BelowIsLater(m, birth, t, x, false);
        assert r[x].revoked && Below(m, birth, t, x, true);
        var p := m[x].parent.value;
        assert p == t || Below(m, birth, t, p, true);
      }
    }
  }

  /** In a closed table a revocation reaches every descendant, and the table stays closed. */
  lemma ClosedStaysClosed(m: Table, birth: map<Token, nat>, t: Token)
    requires Forest(m, birth) && t in m && Closed(m)
    ensures Closed(Revoked(m, birth, t))
    ensures forall x :: x in m && Below(m, birth, t, x, false) ==> Revoked(m, birth, t)[x].revoked
  {
    RevocationIsComplete(m, birth, t);
    var r := Revoked(m, birth, t);
    forall x {:trigger Orphan(r, x)}
      ensures !Orphan(r, x)
    {
      if Orphan(r, x) {
        assert Placed(m, birth, x) && !Orphan(m, x);
        assert Below(m, birth, t, x, true);
      }
    }
  }

  // ---- Granting ----

  /** The entry `grant` derives from a parent for the grantee. */
  function Derived(parent: Entry, token: Token, grantee: nat, ops: Ops): Entry {
    Entry(grantee, parent.resource, Intersection(ops, parent.ops), Some(token), false, parent.expires)
  }

  /** A grant keeps the table closed exactly when the parent is not revoked; grants do not check that. */
  lemma GrantKeepsClosed(m: Table, birth: map<Token, nat>, p: Token, t: Token, grantee: nat, ops: Ops)
    requires Forest(m, birth) && Closed(m) && p in m && t !in m
    ensures Closed(m[t := Derived(m[p], p, grantee, ops)]) <==> !m[p].revoked
  {
    var m' := m[t := Derived(m[p], p, grantee, ops)];
    assert Orphan(m', t) <==> m[p].revoked;
    forall x {:trigger Orphan(m', x)} | x != t
      ensures !Orphan(m', x)
    {
      if x in m {
        assert Placed(m, birth, x) && !Orphan(m, x);
      }
    }
  }

  /** What every grant establishes between an entry and its parent. */
  ghost predicate Attenuates(m: Table, x: Token)
    requires x in m
  {
    m[x].parent.Some? ==>
      var p := m[x].parent.value;
      p in m && Contains(m[p].ops, m[x].ops) && Contains(m[p].ops, GRANT) && m[x].resource == m[p].resource
  }

  ghost predicate Attenuated(m: Table) {
    forall x {:trigger Attenuates(m, x)} :: x in m ==> Attenuates(m, x)
  }

  /** Along every derivation the resource stays, the rights only shrink, and every ancestor could grant. */
  lemma {:induction false} AncestorsAttenuate(m: Table, birth: map<Token, nat>, a: Token, x: Token)
    requires Forest(m, birth) && Attenuated(m) && x in m && Below(m, birth, a, x, false)
    ensures a in m && m[x].resource == m[a].resource
    ensures Contains(m[a].ops, m[x].ops) && Contains(m[a].ops, GRANT)
    decreases if x in birth then birth[x] else 0
  {
    assert Placed(m, birth, x) && Attenuates(m, x);
    var p := m[x].parent.value;
    if p != a {
      AncestorsAttenuate(m, birth, a, p);
      ContainsTransitive(m[a].ops, m[p].ops, m[x].ops);
    }
  }
}
