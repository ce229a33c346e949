// The revocation engine: registration, cascading revocation, and the two-stage revocation check.
module Revocation {
  import opened Wrappers
  import opened CapTokens
  import opened DelegationForest
  import opened BloomFilter

  lemma ReachGrows(r: set<Token>, s: set<Token>, bits: seq<nat>, bits': seq<nat>)
    requires Grown(bits, bits') && (forall t :: t in r ==> Covered(bits, t, HASHES)) && s <= r
    ensures forall t :: t in s ==> Covered(bits', t, HASHES)
  {
  }

  /** Registering a token after it was named as a parent can close a cycle; no cascade from it ends. */
  lemma CyclePossible(a: Token, b: Token, na: Node, nb: Node)
    requires a != b && na.token == a && nb.token == b
    ensures var chains := Registered(map[], b, Some(a), nb);
            var children := Adopted(map[], b, Some(a));
            Forest(chains, children) && a !in chains && !Registrable(chains, children, a, Some(b)) &&
            forall n :: !Ends(Adopted(children, a, Some(b)), a, n)
  {
    RegisterKeepsForest(map[], map[], b, Some(a), nb);
    var children := Adopted(Adopted(map[], b, Some(a)), a, Some(b));
    assert Kids(children, a) == [b] && Kids(children, b) == [a];
    forall n
      ensures !Ends(children, a, n)
    {
      CycleNeverEnds(children, a, b, n);
    }
  }

  lemma StageUnion(r: set<Token>, before: set<Token>, more: set<Token>)
    ensures (r + before) + more == r + (before + more)
  {
  }

  /** In a forest, exactly t's subtree was added, at one visit a token. */
  ghost predicate Swept(chains: Chains, children: Children, t: Token, before: set<Token>, after: set<Token>, visits: nat) {
    Forest(chains, children) ==> after == before + Subtree(chains, t) && visits == |Subtree(chains, t)|
  }

  lemma CascadeSweeps(chains: Chains, children: Children, t: Token, n: nat, before: set<Token>)
    requires Ends(children, t, n)
    ensures var (visited, visits) := Cascade(children, t, n); Swept(chains, children, t, before, before + visited, visits)
  {
    if Forest(chains, children) {
      CascadeIsSubtree(chains, children, t, n);
    }
  }

  class RevocationEngine {
    const useBloom: bool
    const defaultCascade: bool
    var revoked: set<Token>
    var chains: Chains
    var children: Children
    const bloom: RevocationBloomFilter

    /** With the filter in use, it covers every revoked token. */
    ghost predicate FilterAgrees()
      reads this, bloom.bits
    {
      bloom.Valid() && (useBloom ==> forall t :: t in revoked ==> Covered(bloom.bits[..], t, HASHES))
    }

    ghost predicate Valid()
      reads this, bloom.bits
    {
      FilterAgrees() && Forest(chains, children)
    }

    constructor (useBloom: bool, defaultCascade: bool)
      ensures Valid() && revoked == {} && chains == map[] && children == map[]
      ensures fresh(bloom) && fresh(bloom.bits) && this.useBloom == useBloom && this.defaultCascade == defaultCascade
    {
      this.useBloom, this.defaultCascade := useBloom, defaultCascade;
      revoked, chains, children := {}, map[], map[];
      bloom := new RevocationBloomFilter();
    }

    /** Registration checks nothing: the forest survives exactly when the token can be registered there. */
    method Register(token: Token, parent: Option<Token>, node: Node)
      requires node.token == token
      modifies `chains, `children
      ensures chains == Registered(old(chains), token, parent, node) && children == Adopted(old(children), token, parent)
      ensures parent.Some? && parent.value in old(chains) ==> chains[token].nodes == old(chains)[parent.value].nodes + [node]
      ensures old(FilterAgrees()) ==> FilterAgrees()
      ensures old(Valid()) ==> (Valid() <==> Registrable(old(chains), old(children), token, parent))
    {
      if Forest(chains, children) {
        RegisterKeepsForest(chains, children, token, parent, node);
      }
      var chain: Chain;
      if parent.Some? {
        chain := Push(ChainOf(chains, parent.value), node);
        children := children[parent.value := Kids(children, parent.value) + [token]];
      } else {
        chain := NewChain(token);
      }
      chains := chains[token := chain];
    }

    method MarkRevoked(token: Token)
      requires FilterAgrees()
      modifies `revoked, bloom.bits
      ensures FilterAgrees() && revoked == old(revoked) + {token}
    {
      ghost var before, bits := revoked, bloom.bits[..];
      if useBloom {
        bloom.Insert(token);
        ReachGrows(before, before, bits, bloom.bits[..]);
      }
      revoked := revoked + {token};
    }

    /**
     * `revoke`: adds exactly the token, or what a cascade visits, and returns how many visits that
     * took. A cascade must end, within n levels; in a forest it does, and visits the subtree once.
     */
    method Revoke(token: Token, cascade: bool, ghost n: nat) returns (total: nat)
      requires FilterAgrees() && (cascade || defaultCascade ==> Ends(children, token, n))
      modifies `revoked, bloom.bits
      ensures FilterAgrees()
      ensures !(cascade || defaultCascade) ==> revoked == old(revoked) + {token} && total == 1
      ensures cascade || defaultCascade ==>
                var (visited, visits) := Cascade(children, token, n); revoked == old(revoked) + visited && total == visits
      ensures cascade || defaultCascade ==> Swept(chains, children, token, old(revoked), revoked, total)
      decreases n, 1
    {
      ghost var before := revoked;
      MarkRevoked(token);
      total := 1;
      if cascade || defaultCascade {
        CascadeSweeps(chains, children, token, n, before);
        var childrenRevoked := RevokeChildren(token, n);
        total := total + childrenRevoked;
      }
    }

    /** The children in order, each with its own cascade. */
    method RevokeChildren(parent: Token, ghost n: nat) returns (total: nat)
      requires FilterAgrees() && Ends(children, parent, n)
      modifies `revoked, bloom.bits
      ensures FilterAgrees()
      ensures var (visited, visits) := Cascades(children, Kids(children, parent), |Kids(children, parent)|, n - 1);
              revoked == old(revoked) + visited && total == visits
      decreases n, 0
    {
      var kids := Kids(children, parent);
      total := 0;
      var i := 0;
      while i < |kids|
        invariant i <= |kids| && FilterAgrees()
        invariant revoked == old(revoked) + Cascades(children, kids, i, n - 1).0 && total == Cascades(children, kids, i, n - 1).1
      {
        ghost var before := Cascades(children, kids, i, n - 1).0;
        StageUnion(old(revoked), before, Cascade(children, kids[i], n - 1).0);
        var visits := Revoke(kids[i], true, n - 1);
        total := total + visits;
        i := i + 1;
      }
    }

    /** With the filter or without, the check is membership in the revoked set. */
    method IsRevoked(token: Token) returns (r: bool)
      requires FilterAgrees()
      ensures r == (token in revoked)
    {
      if useBloom {
        var maybe := bloom.MayContain(token);
        if !maybe {
          return false;
        }
      }
      return token in revoked;
    }

    /** The chain of a registered token is the path to it, of the recorded depth. */
    method GetChain(token: Token) returns (r: Option<Chain>)
      requires Forest(chains, children)
      ensures r.Some? <==> token in chains
      ensures r.Some? ==> Current(r.value) == token && r.value.depth == |r.value.nodes|
      ensures r.Some? ==> forall a :: a == r.value.root || a in Tokens(r.value.nodes) <==> Under(chains, a, token)
    {
      if token in chains {
        assert Chained(chains, children, token);
        forall a
          ensures a in Path(chains, token) <==> Under(chains, a, token)
        {
          UnderIsOnChain(chains, children, a, token);
        }
        return Some(chains[token]);
      }
      return None;
    }
  }
}
