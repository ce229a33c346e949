// Delegation chains and the children map of the revocation engine, on values: the forest they keep,
// and what lies below a token.
module DelegationForest {
  import opened Wrappers
  import opened CapTokens
  import opened CapForest

  datatype Node = Node(token: Token, granter: nat, grantee: nat, operations: Ops, maxDepth: Option<nat>)

  datatype Chain = Chain(root: Token, nodes: seq<Node>, depth: nat)

  type Chains = map<Token, Chain>
  type Children = map<Token, seq<Token>>

  function NewChain(root: Token): Chain { Chain(root, [], 0) }

  function Push(c: Chain, node: Node): Chain { Chain(c.root, c.nodes + [node], c.depth + 1) }

  function Current(c: Chain): Token {
    if c.nodes == [] then c.root else c.nodes[|c.nodes| - 1].token
  }

  // ---- Validation ----

  datatype ChainError = DepthExceeded | AttenuationViolation

  /** What is wrong with node i, if anything. */
  function Fault(nodes: seq<Node>, i: nat): Option<ChainError>
    requires i < |nodes|
  {
    if nodes[i].maxDepth.Some? && i >= nodes[i].maxDepth.value then Some(DepthExceeded)
    else if i > 0 && !Contains(nodes[i - 1].operations, nodes[i].operations) then Some(AttenuationViolation)
    else None
  }

  ghost predicate FaultFree(nodes: seq<Node>, n: nat)
    requires n <= |nodes|
  {
    forall i: nat :: i < n ==> Fault(nodes, i) == None
  }

  /** `validate`: the first fault, if there is one. */
  method Validate(chain: Chain) returns (fault: Option<ChainError>)
    ensures fault == None ==> FaultFree(chain.nodes, |chain.nodes|)
    ensures fault.Some? ==> exists i: nat :: i < |chain.nodes| && FaultFree(chain.nodes, i) && Fault(chain.nodes, i) == fault
  {
    var i := 0;
    while i < |chain.nodes|
      invariant i <= |chain.nodes| && FaultFree(chain.nodes, i)
    {
      var node := chain.nodes[i];
      if node.maxDepth.Some? && i >= node.maxDepth.value {
        return Some(DepthExceeded);
      }
      if i > 0 && !Contains(chain.nodes[i - 1].operations, node.operations) {
        return Some(AttenuationViolation);
      }
      i := i + 1;
    }
    return None;
  }

  /** In a valid chain the rights shrink between any two nodes, not only neighbours. */
  lemma {:induction false} ValidAttenuates(nodes: seq<Node>, i: nat, j: nat)
    requires FaultFree(nodes, |nodes|) && i <= j < |nodes|
    ensures Contains(nodes[i].operations, nodes[j].operations)
    decreases j
  {
    if i < j {
      ValidAttenuates(nodes, i, j - 1);
      assert Fault(nodes, j) == None;
      ContainsTransitive(nodes[i].operations, nodes[j - 1].operations, nodes[j].operations);
    }
  }

  /** Exactly which chains validate: every node lies within its depth limit, and the rights shrink from node to node. */
  lemma {:induction false} ValidExactly(nodes: seq<Node>)
    ensures FaultFree(nodes, |nodes|) <==>
            (forall i: nat :: i < |nodes| && nodes[i].maxDepth.Some? ==> i < nodes[i].maxDepth.value) &&
            (forall i: nat :: 0 < i < |nodes| ==> Contains(nodes[i - 1].operations, nodes[i].operations))
  {
    if FaultFree(nodes, |nodes|) {
      forall i: nat | i < |nodes|
        ensures nodes[i].maxDepth.Some? ==> i < nodes[i].maxDepth.value
        ensures i > 0 ==> Contains(nodes[i - 1].operations, nodes[i].operations)
      {
        assert Fault(nodes, i) == None;
      }
    }
  }

  // ---- Paths ----

  function ChainOf(chains: Chains, t: Token): Chain {
    if t in chains then chains[t] else NewChain(t)
  }

  function Kids(children: Children, t: Token): seq<Token> {
    if t in children then children[t] else []
  }

  function Tokens(nodes: seq<Node>): (r: seq<Token>)
    ensures |r| == |nodes| && forall i :: 0 <= i < |r| ==> r[i] == nodes[i].token
  {
    seq(|nodes|, i requires 0 <= i < |nodes| => nodes[i].token)
  }

  /** The tokens from the root of t's chain down to t. */
  function Path(chains: Chains, t: Token): (r: seq<Token>)
    ensures |r| == |ChainOf(chains, t).nodes| + 1
  {
    [ChainOf(chains, t).root] + Tokens(ChainOf(chains, t).nodes)
  }

  function Depth(chains: Chains, t: Token): nat { |Path(chains, t)| - 1 }

  /** A registered token's chain ends in it and extends its parent's chain; the parent lists it. */
  ghost predicate Chained(chains: Chains, children: Children, t: Token)
    requires t in chains
  {
    var c := chains[t];
    c.depth == |c.nodes| && Current(c) == t &&
    (c.nodes != [] ==>
      var n := |c.nodes| - 1;
      var p := Path(chains, t)[n];
      p != t && t in Kids(children, p) && ChainOf(chains, p) == Chain(c.root, c.nodes[..n], n))
  }

  /** A listed child is registered under that parent. */
  ghost predicate Listed(chains: Chains, p: Token, c: Token) {
    c in chains && chains[c].nodes != [] && Path(chains, c)[|chains[c].nodes| - 1] == p
  }

  ghost predicate AllChained(chains: Chains, children: Children) {
    forall t {:trigger Chained(chains, children, t)} :: t in chains ==> Chained(chains, children, t)
  }

  ghost predicate AllListed(chains: Chains, children: Children) {
    forall p, c {:trigger Listed(chains, p, c)} :: c in Kids(children, p) ==> Listed(chains, p, c)
  }

  ghost predicate AllDistinct(children: Children) {
    forall p {:trigger Kids(children, p)} :: Distinct(Kids(children, p))
  }

  ghost predicate Forest(chains: Chains, children: Children) {
    AllChained(chains, children) && AllListed(chains, children) && AllDistinct(children)
  }

  lemma ParentPath(chains: Chains, children: Children, t: Token)
    requires Forest(chains, children) && Depth(chains, t) > 0
    ensures var p := Path(chains, t); Path(chains, p[|p| - 2]) == p[..|p| - 1] && t == p[|p| - 1]
  {
    assert t in chains && Chained(chains, children, t);
    var p := Path(chains, t);
    var q := Path(chains, p[|p| - 2]);
    forall i | 0 <= i < |q|
      ensures q[i] == p[i]
    {
      if i > 0 {
        assert ChainOf(chains, p[|p| - 2]).nodes[i - 1] == chains[t].nodes[i - 1];
      }
    }
  }

  lemma Shorter(p: seq<Token>, n: nat, k: nat)
    requires k < n <= |p|
    ensures p[..n][k] == p[k] && p[..n][..k + 1] == p[..k + 1]
  {
  }

  /** Every token on t's path has for its own path the part up to it. */
  lemma {:induction false} PathPrefix(chains: Chains, children: Children, t: Token, k: nat)
    requires Forest(chains, children) && k < |Path(chains, t)|
    ensures Path(chains, Path(chains, t)[k]) == Path(chains, t)[..k + 1]
    decreases |Path(chains, t)|
  {
    var p := Path(chains, t);
    if |p| == 1 {
      PathEndsIn(chains, children, t);
      assert p[..1] == p;
    } else {
      ParentPath(chains, children, t);
      if k == |p| - 1 {
        assert p[..k + 1] == p;
      } else {
        PathPrefix(chains, children, p[|p| - 2], k);
        Shorter(p, |p| - 1, k);
      }
    }
  }

  lemma PathEndsIn(chains: Chains, children: Children, t: Token)
    requires Forest(chains, children)
    ensures Path(chains, t)[Depth(chains, t)] == t
  {
    if t in chains {
      assert Chained(chains, children, t);
    }
  }

  /** `a` is on x's chain: x is a or derives from it. */
  ghost predicate Under(chains: Chains, a: Token, x: Token) {
    Depth(chains, a) <= Depth(chains, x) && Path(chains, x)[Depth(chains, a)] == a
  }

  /** Being on the chain anywhere is being on it at one's own depth. */
  lemma UnderIsOnChain(chains: Chains, children: Children, a: Token, x: Token)
    requires Forest(chains, children)
    ensures Under(chains, a, x) <==> a in Path(chains, x)
  {
    if a in Path(chains, x) {
      var k :| 0 <= k < |Path(chains, x)| && Path(chains, x)[k] == a;
      PathPrefix(chains, children, x, k);
    }
  }

  /** a and every registered token that derives from it. */
  ghost function Subtree(chains: Chains, a: Token): set<Token> {
    {a} + set x | x in chains && Under(chains, a, x)
  }

  /** Below a, through its child c. */
  ghost predicate Through(chains: Chains, a: Token, c: Token, x: Token) {
    Under(chains, a, x) && Depth(chains, a) < Depth(chains, x) && Path(chains, x)[Depth(chains, a) + 1] == c
  }

  lemma KidDepth(chains: Chains, children: Children, a: Token, c: Token)
    requires Forest(chains, children) && c in Kids(children, a)
    ensures c in chains && chains[c].depth == Depth(chains, c) == Depth(chains, a) + 1
    ensures Path(chains, c)[Depth(chains, a)] == a && Path(chains, c)[Depth(chains, c)] == c
  {
    assert Listed(chains, a, c) && Chained(chains, children, c);
  }

  /** What lies under a child is what lies below its parent through that child. */
  lemma UnderChild(chains: Chains, children: Children, a: Token, c: Token, x: Token)
    requires Forest(chains, children) && c in Kids(children, a)
    ensures Under(chains, c, x) <==> Through(chains, a, c, x)
  {
    KidDepth(chains, children, a, c);
    var d := Depth(chains, a);
    if d + 1 <= Depth(chains, x) && Path(chains, x)[d + 1] == c {
      PathPrefix(chains, children, x, d + 1);
      assert Path(chains, c) == Path(chains, x)[..d + 2];
    }
  }

  /** The token after a on the chain of something strictly below it is a listed child of a. */
  lemma StepIsKid(chains: Chains, children: Children, a: Token, x: Token)
    requires Forest(chains, children) && Under(chains, a, x) && Depth(chains, a) < Depth(chains, x)
    ensures Path(chains, x)[Depth(chains, a) + 1] in Kids(children, a)
  {
    var d := Depth(chains, a);
    var c := Path(chains, x)[d + 1];
    PathPrefix(chains, children, x, d + 1);
    assert Path(chains, c) == Path(chains, x)[..d + 2];
    assert |Path(chains, c)| > 1;
    assert Chained(chains, children, c);
  }

  /** a and everything below it through its first n children. */
  ghost function Reached(chains: Chains, children: Children, a: Token, n: nat): set<Token>
    requires n <= |Kids(children, a)|
  {
    {a} + set x | x in chains && Under(chains, a, x) && Depth(chains, a) < Depth(chains, x) &&
                  Path(chains, x)[Depth(chains, a) + 1] in Kids(children, a)[..n]
  }

  lemma {:induction false} ReachedMember(chains: Chains, children: Children, a: Token, n: nat, x: Token)
    requires Forest(chains, children) && n < |Kids(children, a)|
    ensures var r, s := Reached(chains, children, a, n), Subtree(chains, Kids(children, a)[n]);
            (x in Reached(chains, children, a, n + 1) <==> x in r || x in s) && !(x in r && x in s)
  {
    var kids := Kids(children, a);
    var c := kids[n];
    assert Distinct(kids);
    KidDepth(chains, children, a, c);
    UnderChild(chains, children, a, c, x);
    UnderChild(chains, children, a, c, c);
    assert kids[..n + 1] == kids[..n] + [c] && c !in kids[..n];
  }

  lemma ReachedNext(chains: Chains, children: Children, a: Token, n: nat)
    requires Forest(chains, children) && n < |Kids(children, a)|
    ensures var r, s := Reached(chains, children, a, n), Subtree(chains, Kids(children, a)[n]);
            Reached(chains, children, a, n + 1) == r + s && |Reached(chains, children, a, n + 1)| == |r| + |s|
  {
    var r, s := Reached(chains, children, a, n), Subtree(chains, Kids(children, a)[n]);
    forall x
      ensures x in Reached(chains, children, a, n + 1) <==> x in r || x in s
      ensures !(x in r && x in s)
    {
      ReachedMember(chains, children, a, n, x);
    }
    assert Reached(chains, children, a, n + 1) == r + s && r !! s;
  }

  lemma ReachedAll(chains: Chains, children: Children, a: Token)
    requires Forest(chains, children)
    ensures Reached(chains, children, a, |Kids(children, a)|) == Subtree(chains, a)
    ensures Reached(chains, children, a, 0) == {a}
  {
    var kids := Kids(children, a);
    assert kids[..|kids|] == kids;
    forall x | x in chains && Under(chains, a, x)
      ensures x in Reached(chains, children, a, |kids|)
    {
      if Depth(chains, a) < Depth(chains, x) {
        StepIsKid(chains, children, a, x);
      } else {
        PathEndsIn(chains, children, x);
      }
    }
  }

  /** One more child's subtree, disjoint from what came before. */
  ghost predicate Stage(before: set<Token>, after: set<Token>, subtree: set<Token>) {
    after == before + subtree && |after| == |before| + |subtree|
  }

  ghost predicate StageAt(chains: Chains, children: Children, a: Token, stages: seq<set<Token>>, i: nat)
    requires i < |Kids(children, a)| && |stages| == |Kids(children, a)| + 1
  {
    Stage(stages[i], stages[i + 1], Subtree(chains, Kids(children, a)[i]))
  }

  /** A subtree assembled child by child. */
  lemma {:induction false} Stages(chains: Chains, children: Children, a: Token) returns (stages: seq<set<Token>>)
    requires Forest(chains, children)
    ensures |stages| == |Kids(children, a)| + 1 && stages[0] == {a} && stages[|stages| - 1] == Subtree(chains, a)
    ensures forall i: nat {:trigger StageAt(chains, children, a, stages, i)} :: i < |Kids(children, a)| ==> StageAt(chains, children, a, stages, i)
  {
    var n := |Kids(children, a)|;
    stages := seq(n + 1, i requires 0 <= i <= n => Reached(chains, children, a, i));
    ReachedAll(chains, children, a);
    forall i: nat {:trigger StageAt(chains, children, a, stages, i)} | i < n
      ensures StageAt(chains, children, a, stages, i)
    {
      ReachedStage(chains, children, a, stages, i);
    }
  }

  lemma {:induction false} ReachedStage(chains: Chains, children: Children, a: Token, stages: seq<set<Token>>, i: nat)
    requires Forest(chains, children) && i < |Kids(children, a)| && |stages| == |Kids(children, a)| + 1
    requires stages[i] == Reached(chains, children, a, i) && stages[i + 1] == Reached(chains, children, a, i + 1)
    ensures StageAt(chains, children, a, stages, i)
  {
    ReachedNext(chains, children, a, i);
  }

  // ---- Registration ----

  function Registered(chains: Chains, token: Token, parent: Option<Token>, node: Node): Chains {
    chains[token := if parent.Some? then Push(ChainOf(chains, parent.value), node) else NewChain(token)]
  }

  function Adopted(children: Children, token: Token, parent: Option<Token>): Children {
    if parent.Some? then children[parent.value := Kids(children, parent.value) + [token]] else children
  }

  /** The token is no one's child yet; and to get a parent, not itself, it must have no children. */
  ghost predicate Registrable(chains: Chains, children: Children, token: Token, parent: Option<Token>) {
    Depth(chains, token) == 0 && (parent.Some? ==> parent != Some(token) && Kids(children, token) == [])
  }

  lemma ParentDepth(chains: Chains, children: Children, p: Token)
    requires Forest(chains, children)
    ensures ChainOf(chains, p).depth == |ChainOf(chains, p).nodes| == Depth(chains, p) && Current(ChainOf(chains, p)) == p
  {
    if p in chains {
      assert Chained(chains, children, p);
    }
  }

  lemma OthersStayChained(chains: Chains, children: Children, token: Token, parent: Option<Token>, node: Node, t: Token)
    requires Forest(chains, children) && Registrable(chains, children, token, parent) && node.token == token
    requires t in chains && t != token
    ensures Chained(Registered(chains, token, parent, node), Adopted(children, token, parent), t)
  {
    assert Chained(chains, children, t);
    ParentDepth(chains, children, token);
  }

  lemma NewIsChained(chains: Chains, children: Children, token: Token, parent: Option<Token>, node: Node)
    requires Forest(chains, children) && Registrable(chains, children, token, parent) && node.token == token
    ensures Chained(Registered(chains, token, parent, node), Adopted(children, token, parent), token)
  {
    if parent.Some? {
      var c := ChainOf(chains, parent.value);
      ParentDepth(chains, children, parent.value);
      assert (c.nodes + [node])[..|c.nodes|] == c.nodes;
    }
  }

  lemma {:induction false} StillListed(chains: Chains, children: Children, token: Token, parent: Option<Token>, node: Node, p: Token, c: Token)
    requires Forest(chains, children) && Registrable(chains, children, token, parent) && node.token == token
    requires c in Kids(Adopted(children, token, parent), p)
    ensures Listed(Registered(chains, token, parent, node), p, c)
  {
    if c in Kids(children, p) {
      assert Listed(chains, p, c);
    } else {
      ParentDepth(chains, children, p);
    }
  }

  lemma StillDistinct(chains: Chains, children: Children, token: Token, parent: Option<Token>, p: Token)
    requires Forest(chains, children) && Registrable(chains, children, token, parent)
    ensures Distinct(Kids(Adopted(children, token, parent), p))
  {
    assert Distinct(Kids(children, p));
    assert !Listed(chains, p, token);
  }

  lemma {:induction false} RegistrableKeepsForest(chains: Chains, children: Children, token: Token, parent: Option<Token>, node: Node)
    requires Forest(chains, children) && Registrable(chains, children, token, parent) && node.token == token
    ensures Forest(Registered(chains, token, parent, node), Adopted(children, token, parent))
  {
    assert AllChained(Registered(chains, token, parent, node), Adopted(children, token, parent)) by {
      forall t | t in Registered(chains, token, parent, node)
        ensures Chained(Registered(chains, token, parent, node), Adopted(children, token, parent), t)
      {
        if t == token {
          NewIsChained(chains, children, token, parent, node);
        } else {
          OthersStayChained(chains, children, token, parent, node, t);
        }
      }
    }
    assert AllListed(Registered(chains, token, parent, node), Adopted(children, token, parent)) by {
      forall p, c {:trigger Listed(Registered(chains, token, parent, node), p, c)} | c in Kids(Adopted(children, token, parent), p)
        ensures Listed(Registered(chains, token, parent, node), p, c)
      {
        StillListed(chains, children, token, parent, node, p, c);
      }
    }
    assert AllDistinct(Adopted(children, token, parent)) by {
      forall p {:trigger Kids(Adopted(children, token, parent), p)}
        ensures Distinct(Kids(Adopted(children, token, parent), p))
      {
        StillDistinct(chains, children, token, parent, p);
      }
    }
  }

  /** A token that already has a parent cannot get another, nor become a root. */
  lemma {:induction false} SecondParent(chains: Chains, children: Children, token: Token, parent: Option<Token>, node: Node)
    requires Forest(chains, children) && Depth(chains, token) > 0 && node.token == token
    ensures !Forest(Registered(chains, token, parent, node), Adopted(children, token, parent))
  {
    var chains', children' := Registered(chains, token, parent, node), Adopted(children, token, parent);
    assert Chained(chains, children, token);
    var q := Path(chains, token)[Depth(chains, token) - 1];
    var kids := Kids(children, q);
    var i :| 0 <= i < |kids| && kids[i] == token;
    if parent == Some(q) {
      assert Kids(children', q)[i] == Kids(children', q)[|kids|];
      assert !Distinct(Kids(children', q));
    } else {
      assert Kids(children', q) == kids && token in kids;
      if parent.Some? {
        ParentDepth(chains, children, parent.value);
      }
      assert !Listed(chains', q, token);
    }
  }

  /** The children's chains do not follow when a root moves under a parent. */
  lemma {:induction false} ChildrenLeftBehind(chains: Chains, children: Children, token: Token, parent: Token, node: Node)
    requires Forest(chains, children) && Depth(chains, token) == 0 && node.token == token
    requires parent == token || Kids(children, token) != []
    ensures !Forest(Registered(chains, token, Some(parent), node), Adopted(children, token, Some(parent)))
  {
    var chains', children' := Registered(chains, token, Some(parent), node), Adopted(children, token, Some(parent));
    if parent == token {
      ParentDepth(chains, children, token);
      assert !Chained(chains', children', token);
    } else {
      var k := Kids(children, token)[0];
      assert k in Kids(children, token) && Listed(chains, token, k);
      KidDepth(chains, children, token, k);
      assert !Chained(chains', children', k);
    }
  }

  /** Exactly which registrations keep the forest. */
  lemma {:induction false} RegisterKeepsForest(chains: Chains, children: Children, token: Token, parent: Option<Token>, node: Node)
    requires Forest(chains, children) && node.token == token
    ensures Forest(Registered(chains, token, parent, node), Adopted(children, token, parent)) <==>
            Registrable(chains, children, token, parent)
  {
    if Registrable(chains, children, token, parent) {
      RegistrableKeepsForest(chains, children, token, parent, node);
    } else if Depth(chains, token) > 0 {
      SecondParent(chains, children, token, parent, node);
    } else {
      ChildrenLeftBehind(chains, children, token, parent.value, node);
    }
  }

  // ---- Cascades ----

  /** A cascade from t ends, within n levels. */
  ghost predicate Ends(children: Children, t: Token, n: nat)
    decreases n, 0
  {
    n > 0 && AllEnd(children, Kids(children, t), n - 1)
  }

  ghost predicate AllEnd(children: Children, kids: seq<Token>, n: nat)
    decreases n, 1
  {
    forall i :: 0 <= i < |kids| ==> Ends(children, kids[i], n)
  }

  /** The tokens a cascade from t visits, and how many visits it makes. */
  ghost function Cascade(children: Children, t: Token, n: nat): (set<Token>, nat)
    requires Ends(children, t, n)
    decreases n, 0
  {
    var (below, visits) := Cascades(children, Kids(children, t), |Kids(children, t)|, n - 1);
    ({t} + below, 1 + visits)
  }

  /** The same over the first i of several tokens. */
  ghost function Cascades(children: Children, kids: seq<Token>, i: nat, n: nat): (set<Token>, nat)
    requires i <= |kids| && AllEnd(children, kids, n)
    decreases n, i
  {
    if i == 0 then ({}, 0)
    else
      var (s, v) := Cascades(children, kids, i - 1, n);
      var (s', v') := Cascade(children, kids[i - 1], n);
      (s + s', v + v')
  }

  /** With each of its tokens the set holds that token's children. */
  ghost predicate ChildClosed(children: Children, s: set<Token>) {
    forall t, i {:trigger Kids(children, t)[i]} :: t in s && 0 <= i < |Kids(children, t)| ==> Kids(children, t)[i] in s
  }

  /** What a cascade visits is the least set that holds the token and is closed under children. */
  lemma {:induction false} CascadeIsLeast(children: Children, t: Token, n: nat, s: set<Token>)
    requires Ends(children, t, n)
    ensures t in Cascade(children, t, n).0 && ChildClosed(children, Cascade(children, t, n).0)
    ensures t in s && ChildClosed(children, s) ==> Cascade(children, t, n).0 <= s
    decreases n, 1, 0
  {
    var kids := Kids(children, t);
    CascadesAreLeast(children, kids, |kids|, n - 1, s);
  }

  lemma {:induction false} CascadesAreLeast(children: Children, kids: seq<Token>, i: nat, n: nat, s: set<Token>)
    requires i <= |kids| && AllEnd(children, kids, n)
    ensures ChildClosed(children, Cascades(children, kids, i, n).0)
    ensures forall j :: 0 <= j < i ==> kids[j] in Cascades(children, kids, i, n).0
    ensures (forall j :: 0 <= j < i ==> kids[j] in s) && ChildClosed(children, s) ==> Cascades(children, kids, i, n).0 <= s
    decreases n, 2, i
  {
    if i > 0 {
      CascadesAreLeast(children, kids, i - 1, n, s);
      CascadeIsLeast(children, kids[i - 1], n, s);
    }
  }

  /** In a forest a cascade visits the subtree, each token once. */
  lemma {:induction false} CascadeIsSubtree(chains: Chains, children: Children, t: Token, n: nat)
    requires Forest(chains, children) && Ends(children, t, n)
    ensures Cascade(children, t, n) == (Subtree(chains, t), |Subtree(chains, t)|)
    decreases n, 1, 0
  {
    var stages := Stages(chains, children, t);
    CascadeStages(chains, children, t, n, stages, |Kids(children, t)|);
  }

  /** The stage is t with what cascades from its first i children visit. */
  ghost predicate StageVisited(children: Children, kids: seq<Token>, i: nat, n: nat, t: Token, stage: set<Token>)
    requires i <= |kids| && AllEnd(children, kids, n)
  {
    var (below, visits) := Cascades(children, kids, i, n);
    stage == {t} + below && |stage| == 1 + visits
  }

  lemma {:induction false} NextCascade(children: Children, kids: seq<Token>, i: nat, n: nat, t: Token, before: set<Token>, after: set<Token>)
    requires i < |kids| && AllEnd(children, kids, n)
    requires var (s, v) := Cascade(children, kids[i], n); Stage(before, after, s) && v == |s|
    requires StageVisited(children, kids, i, n, t, before)
    ensures StageVisited(children, kids, i + 1, n, t, after)
  {
  }

  lemma {:induction false} CascadeStages(chains: Chains, children: Children, t: Token, n: nat, stages: seq<set<Token>>, i: nat)
    requires Forest(chains, children) && Ends(children, t, n) && i <= |Kids(children, t)|
    requires |stages| == |Kids(children, t)| + 1 && stages[0] == {t}
    requires forall j: nat {:trigger StageAt(chains, children, t, stages, j)} :: j < |Kids(children, t)| ==> StageAt(chains, children, t, stages, j)
    ensures StageVisited(children, Kids(children, t), i, n - 1, t, stages[i])
    decreases n, 0, i
  {
    if i > 0 {
      CascadeStages(chains, children, t, n, stages, i - 1);
      CascadeIsSubtree(chains, children, Kids(children, t)[i - 1], n - 1);
      assert StageAt(chains, children, t, stages, i - 1);
      NextCascade(children, Kids(children, t), i - 1, n - 1, t, stages[i - 1], stages[i]);
    }
  }

  lemma {:induction false} DepthBound(chains: Chains, keys: set<Token>) returns (h: nat)
    ensures forall t :: t in keys ==> Depth(chains, t) <= h
    decreases |keys|
  {
    h := 0;
    if keys != {} {
      var x :| x in keys;
      var rest := keys - {x};
      assert keys == rest + {x};
      var below := DepthBound(chains, rest);
      h := if below < Depth(chains, x) then Depth(chains, x) else below;
    }
  }

  lemma {:induction false} EndsBelow(chains: Chains, children: Children, t: Token, h: nat)
    requires Forest(chains, children) && (forall x :: x in chains ==> Depth(chains, x) <= h) && Depth(chains, t) <= h
    ensures Ends(children, t, h - Depth(chains, t) + 1)
    decreases h - Depth(chains, t)
  {
    var kids := Kids(children, t);
    forall i | 0 <= i < |kids|
      ensures Ends(children, kids[i], h - Depth(chains, t))
    {
      KidDepth(chains, children, t, kids[i]);
      EndsBelow(chains, children, kids[i], h);
    }
  }

  /** In a forest every cascade ends. */
  lemma {:induction false} ForestEnds(chains: Chains, children: Children, t: Token) returns (n: nat)
    requires Forest(chains, children)
    ensures Ends(children, t, n)
  {
    var h := DepthBound(chains, chains.Keys + {t});
    EndsBelow(chains, children, t, h);
    n := h - Depth(chains, t) + 1;
  }

  /** No cascade ends at tokens that are each other's children. */
  lemma {:induction false} CycleNeverEnds(children: Children, a: Token, b: Token, n: nat)
    requires a in Kids(children, b) && b in Kids(children, a)
    ensures !Ends(children, a, n) && !Ends(children, b, n)
  {
    if n > 0 {
      CycleNeverEnds(children, a, b, n - 1);
    }
  }
}
