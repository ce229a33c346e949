// The in-memory filesystem: an inode vector with a free list, a directory tree threaded through
// the inodes, and a byte counter. Proved to refine the location map of module PathMap.
module RamFs {
  import opened Wrappers
  import opened Paths
  import opened PathMap

  datatype Inode = Inode(isDir: bool, content: seq<byte>, children: map<Name, nat>)

  const NEW_FILE := Inode(false, [], map[])
  const NEW_DIRECTORY := Inode(true, [], map[])

  // ---- The invariant on values ----

  /** `at` places every live inode index at one location; `names` is its inverse. */
  datatype Places = Places(at: map<Key, nat>, names: map<nat, Key>)

  /** The live indices are those not on the free list, each has one location, the edges of the tree
      are exactly the directory entries, and free inodes are reset. */
  ghost predicate Tree(inodes: seq<Inode>, free: seq<nat>, p: Places) {
    && Located(inodes, p)
    && Edges(inodes, p)
    && FreeList(inodes, free)
    && (forall i :: 0 <= i < |inodes| ==> (i in free <==> i !in p.names))
    && (forall i :: 0 <= i < |inodes| ==> Clean(inodes[i]))
  }

  ghost predicate Located(inodes: seq<Inode>, p: Places) {
    && 0 < |inodes| && inodes[0].isDir
    && Root in p.at && p.at[Root] == 0
    && (forall k :: k in p.at ==> p.at[k] < |inodes| && p.at[k] in p.names && p.names[p.at[k]] == k)
    && (forall i :: i in p.names ==> p.names[i] in p.at && p.at[p.names[i]] == i)
  }

  ghost predicate Edges(inodes: seq<Inode>, p: Places)
    requires forall k :: k in p.at ==> p.at[k] < |inodes|
  {
    && (forall k, n {:trigger Sub(k, n)} :: Sub(k, n) in p.at ==>
          k in p.at && n in inodes[p.at[k]].children && p.at[Sub(k, n)] == inodes[p.at[k]].children[n])
    && (forall k, n {:trigger Sub(k, n)} :: k in p.at && n in inodes[p.at[k]].children ==> Sub(k, n) in p.at)
  }

  ghost predicate FreeList(inodes: seq<Inode>, free: seq<nat>) {
    && (forall a, b :: 0 <= a < b < |free| ==> free[a] != free[b])
    && (forall i :: i in free ==> 0 < i < |inodes| && inodes[i] == NEW_FILE)
  }

  ghost predicate Clean(i: Inode) {
    && (i.isDir ==> i.content == [])
    && (forall n :: n in i.children ==> i.isDir)
    && |i.content| <= MAX_FILE_SIZE
  }

  function Abs(i: Inode): Entry {
    if i.isDir then Directory else File(i.content)
  }

  ghost function ViewOf(inodes: seq<Inode>, p: Places): View
    requires forall k :: k in p.at ==> p.at[k] < |inodes|
  {
    map k | k in p.at :: Abs(inodes[p.at[k]])
  }

  /** Total content length of the first `n` inodes. */
  function Total(inodes: seq<Inode>, n: nat): nat
    requires n <= |inodes|
  {
    if n == 0 then 0 else Total(inodes, n - 1) + |inodes[n - 1].content|
  }

  lemma {:induction false} TotalUpdate(inodes: seq<Inode>, n: nat, idx: nat, i: Inode)
    requires idx < |inodes| && n <= |inodes|
    ensures Total(inodes[idx := i], n) ==
            Total(inodes, n) + (if idx < n then |i.content| - |inodes[idx].content| else 0)
    ensures idx < n ==> |inodes[idx].content| <= Total(inodes, n)
  {
    if n > 0 {
      TotalUpdate(inodes, n - 1, idx, i);
    }
  }

  lemma ContentInTotal(inodes: seq<Inode>, idx: nat)
    requires idx < |inodes|
    ensures |inodes[idx].content| <= Total(inodes, |inodes|)
  {
    TotalUpdate(inodes, |inodes|, idx, inodes[idx]);
  }

  lemma {:induction false} TotalExtend(inodes: seq<Inode>, n: nat, i: Inode)
    requires n <= |inodes|
    ensures Total(inodes + [i], n) == Total(inodes, n)
  {
    if n > 0 {
      TotalExtend(inodes, n - 1, i);
    }
  }

  // ---- Resolution over inodes ----

  lemma LookupFirst(inodes: seq<Inode>, current: nat, c: Name, rest: seq<Name>)
    requires current < |inodes|
    ensures Lookup(inodes, current, [c] + rest) ==
            if !inodes[current].isDir then Err(NotADirectory)
            else if c !in inodes[current].children then Err(NotFound)
            else Lookup(inodes, inodes[current].children[c], rest)
  {
    assert ([c] + rest)[1..] == rest;
  }

  function Lookup(inodes: seq<Inode>, current: nat, comps: seq<Name>): Result<nat>
    decreases |comps|
  {
    if comps == [] then Ok(current)
    else if current >= |inodes| || !inodes[current].isDir then Err(NotADirectory)
    else if comps[0] !in inodes[current].children then Err(NotFound)
    else Lookup(inodes, inodes[current].children[comps[0]], comps[1..])
  }

  /** Following directory entries through the inode vector is walking the location map. */
  lemma {:induction false} LookupIsWalk(inodes: seq<Inode>, free: seq<nat>, p: Places, at: Key, comps: seq<Name>)
    requires Tree(inodes, free, p) && at in p.at
    ensures var w := Walk(ViewOf(inodes, p), at, comps);
            var l := Lookup(inodes, p.at[at], comps);
            && (w.Ok? ==> w.value in p.at && l == Ok(p.at[w.value]))
            && (w.Err? ==> l == Err(w.error))
    decreases |comps|
  {
    if comps != [] && inodes[p.at[at]].isDir {
      if Sub(at, comps[0]) in p.at {
        LookupIsWalk(inodes, free, p, Sub(at, comps[0]), comps[1..]);
      }
    }
  }

  lemma ViewIsWellFormed(inodes: seq<Inode>, free: seq<nat>, p: Places)
    requires Tree(inodes, free, p)
    ensures WellFormed(ViewOf(inodes, p))
  {
    var v := ViewOf(inodes, p);
    forall k, n | Sub(k, n) in v
      ensures k in v && v[k].Directory?
    {
      assert n in inodes[p.at[k]].children;
      assert Clean(inodes[p.at[k]]);
    }
  }

  // ---- What the invariant means for the inode graph ----

  /** The indices split exactly into the free list and those some component list reaches. */
  lemma FreeOrReachable(inodes: seq<Inode>, free: seq<nat>, p: Places, i: nat)
    requires Tree(inodes, free, p) && i < |inodes|
    ensures i !in free <==> exists comps :: Lookup(inodes, 0, comps) == Ok(i)
  {
    if i !in free {
      var k := p.names[i];
      DescendComponents(k);
      ViewIsWellFormed(inodes, free, p);
      WalkFinds(ViewOf(inodes, p), Root, Components(k));
      LookupIsWalk(inodes, free, p, Root, Components(k));
      assert Lookup(inodes, 0, Components(k)) == Ok(i);
    }
    forall comps | Lookup(inodes, 0, comps) == Ok(i)
      ensures i !in free
    {
      LookupIsWalk(inodes, free, p, Root, comps);
    }
  }

  /** A component list that resolves ends at the inode placed at that very location. */
  lemma LookupEndsAt(inodes: seq<Inode>, free: seq<nat>, p: Places, comps: seq<Name>)
    requires Tree(inodes, free, p) && Lookup(inodes, 0, comps).Ok?
    ensures Lookup(inodes, 0, comps).value in p.names
    ensures Components(p.names[Lookup(inodes, 0, comps).value]) == comps
  {
    var v := ViewOf(inodes, p);
    ViewIsWellFormed(inodes, free, p);
    LookupIsWalk(inodes, free, p, Root, comps);
    WalkFinds(v, Root, comps);
    ComponentsDescend(Root, comps);
  }

  /** Distinct component lists lead to distinct inodes; in particular there are no cycles. */
  lemma DistinctPathsDistinctInodes(inodes: seq<Inode>, free: seq<nat>, p: Places, a: seq<Name>, b: seq<Name>)
    requires Tree(inodes, free, p)
    requires Lookup(inodes, 0, a).Ok? && Lookup(inodes, 0, a) == Lookup(inodes, 0, b)
    ensures a == b
  {
    LookupEndsAt(inodes, free, p, a);
    LookupEndsAt(inodes, free, p, b);
  }

  /** A directory entry of a live inode. */
  ghost predicate Edge(inodes: seq<Inode>, free: seq<nat>, parent: nat, n: Name, child: nat) {
    && parent < |inodes| && parent !in free
    && n in inodes[parent].children && inodes[parent].children[n] == child
  }

  /** Every live index but the root is the target of a directory entry. */
  lemma EdgeInto(inodes: seq<Inode>, free: seq<nat>, p: Places, i: nat)
    requires Tree(inodes, free, p) && 0 < i < |inodes| && i !in free
    ensures exists q, n :: Edge(inodes, free, q, n, i)
  {
    var k := p.names[i];
    assert k.Child? && k == Sub(k.parent, k.name);
    assert Edge(inodes, free, p.at[k.parent], k.name, i);
  }

  /** No index is the target of two directory entries, and the root is the target of none. */
  lemma OneEdgeIn(inodes: seq<Inode>, free: seq<nat>, p: Places, q: nat, n: Name, r: nat, m: Name, i: nat)
    requires Tree(inodes, free, p)
    requires Edge(inodes, free, q, n, i) && Edge(inodes, free, r, m, i)
    ensures i != 0 && i < |inodes| && i !in free && q == r && n == m
  {
    assert Sub(p.names[q], n) in p.at;
    assert Sub(p.names[r], m) in p.at;
  }

  // ---- Steps on the tree ----

  function Insert(inodes: seq<Inode>, parent: nat, name: Name, idx: nat): seq<Inode>
    requires parent < |inodes|
  {
    inodes[parent := inodes[parent].(children := inodes[parent].children[name := idx])]
  }

  function Delete(inodes: seq<Inode>, parent: nat, name: Name): seq<Inode>
    requires parent < |inodes|
  {
    inodes[parent := inodes[parent].(children := inodes[parent].children - {name})]
  }

  ghost function Place(p: Places, k: Key, idx: nat): Places {
    Places(p.at[k := idx], p.names[idx := k])
  }

  ghost function Unplace(p: Places, k: Key): Places
    requires k in p.at
  {
    Places(p.at - {k}, p.names - {p.at[k]})
  }

  /** `alloc_inode`: the top of the free list if there is one, otherwise a new last index. */
  function Alloc(inodes: seq<Inode>, free: seq<nat>, i: Inode): (r: (seq<Inode>, seq<nat>, nat))
    requires FreeList(inodes, free)
    ensures r.2 < |r.0|
  {
    if free == [] then (inodes + [i], free, |inodes|)
    else
      assert free[|free| - 1] in free;
      (inodes[free[|free| - 1] := i], free[..|free| - 1], free[|free| - 1])
  }

  /** What allocation leaves behind: `i` at an index that was not live, all else as before. */
  ghost predicate Allocated(inodes: seq<Inode>, free: seq<nat>, inodes': seq<Inode>, free': seq<nat>, idx: nat, i: Inode) {
    && |inodes'| == (if idx in free then |inodes| else |inodes| + 1)
    && idx < |inodes'| && inodes'[idx] == i
    && (forall j :: 0 <= j < |inodes'| && j != idx ==> j < |inodes| && inodes'[j] == inodes[j])
    && (idx in free || idx == |inodes|) && idx !in free'
    && (forall f :: f in free' ==> f in free)
    && (forall f :: f in free && f != idx ==> f in free')
    && (forall a, b :: 0 <= a < b < |free'| ==> free'[a] != free'[b])
  }

  lemma PoppedStack(free: seq<nat>)
    requires free != [] && (forall a, b :: 0 <= a < b < |free| ==> free[a] != free[b])
    ensures var last := |free| - 1;
            && free[last] in free && free[last] !in free[..last]
            && (forall f :: f in free[..last] ==> f in free)
            && (forall f :: f in free && f != free[last] ==> f in free[..last])
  {
    assert free == free[..|free| - 1] + [free[|free| - 1]];
  }

  lemma ReusedIsAllocated(inodes: seq<Inode>, free: seq<nat>, idx: nat, i: Inode)
    requires FreeList(inodes, free) && free != [] && idx == free[|free| - 1] && idx < |inodes|
    ensures Allocated(inodes, free, inodes[idx := i], free[..|free| - 1], idx, i)
  {
    PoppedStack(free);
  }

  lemma {:induction false} AllocIsAllocated(inodes: seq<Inode>, free: seq<nat>, i: Inode)
    requires FreeList(inodes, free) && i.content == []
    ensures var (inodes', free', idx) := Alloc(inodes, free, i);
            && Allocated(inodes, free, inodes', free', idx, i)
            && Total(inodes', |inodes'|) == Total(inodes, |inodes|)
  {
    if free == [] {
      TotalExtend(inodes, |inodes|, i);
    } else {
      var idx := free[|free| - 1];
      assert idx in free;
      ReusedIsAllocated(inodes, free, idx, i);
      TotalUpdate(inodes, |inodes|, idx, i);
    }
  }

  lemma AttachPlaces(inodes: seq<Inode>, free: seq<nat>, p: Places, inodes': seq<Inode>, free': seq<nat>,
                     at: Key, name: Name, idx: nat, i: Inode)
    requires Tree(inodes, free, p)
    requires at in p.at && Sub(at, name) !in p.at
    requires Allocated(inodes, free, inodes', free', idx, i)
    ensures idx !in p.names
    ensures Located(Insert(inodes', p.at[at], name, idx), Place(p, Sub(at, name), idx))
  {
  }

  lemma AttachFree(inodes: seq<Inode>, free: seq<nat>, p: Places, inodes': seq<Inode>, free': seq<nat>,
                   at: Key, name: Name, idx: nat, i: Inode)
    requires Tree(inodes, free, p)
    requires at in p.at && inodes[p.at[at]].isDir && Sub(at, name) !in p.at
    requires i == NEW_FILE || i == NEW_DIRECTORY
    requires Allocated(inodes, free, inodes', free', idx, i)
    ensures var inodes'' := Insert(inodes', p.at[at], name, idx);
            && FreeList(inodes'', free')
            && (forall j :: 0 <= j < |inodes''| ==> (j in free' <==> j !in Place(p, Sub(at, name), idx).names))
            && (forall j :: 0 <= j < |inodes''| ==> Clean(inodes''[j]))
  {
  }

  /** Allocating a fresh object and entering it in a directory keeps the tree, adds exactly one
      location, and moves no content. */
  lemma {:induction false} Attach(inodes: seq<Inode>, free: seq<nat>, p: Places, at: Key, name: Name, i: Inode)
    requires Tree(inodes, free, p)
    requires at in p.at && inodes[p.at[at]].isDir && Sub(at, name) !in p.at
    requires i == NEW_FILE || i == NEW_DIRECTORY
    ensures var (inodes', free', idx) := Alloc(inodes, free, i);
            && p.at[at] < |inodes'|
            && Tree(Insert(inodes', p.at[at], name, idx), free', Place(p, Sub(at, name), idx))
            && ViewOf(Insert(inodes', p.at[at], name, idx), Place(p, Sub(at, name), idx)) ==
               ViewOf(inodes, p)[Sub(at, name) := Abs(i)]
            && Total(Insert(inodes', p.at[at], name, idx), |inodes'|) == Total(inodes, |inodes|)
  {
    var (inodes', free', idx) := Alloc(inodes, free, i);
    AllocIsAllocated(inodes, free, i);
    AttachPlaces(inodes, free, p, inodes', free', at, name, idx, i);
    AttachFree(inodes, free, p, inodes', free', at, name, idx, i);
    AttachEdges(inodes, free, p, inodes', free', at, name, idx, i);
    AttachView(inodes, free, p, inodes', free', at, name, idx, i);
    var parent := inodes'[p.at[at]];
    TotalUpdate(inodes', |inodes'|, p.at[at], parent.(children := parent.children[name := idx]));
  }

  lemma {:induction false} AttachView(inodes: seq<Inode>, free: seq<nat>, p: Places, inodes': seq<Inode>, free': seq<nat>,
                   at: Key, name: Name, idx: nat, i: Inode)
    requires Tree(inodes, free, p)
    requires at in p.at && inodes[p.at[at]].isDir && Sub(at, name) !in p.at
    requires Allocated(inodes, free, inodes', free', idx, i)
    ensures forall k :: k in p.at ==> p.at[k] < |inodes'|
    ensures ViewOf(Insert(inodes', p.at[at], name, idx), Place(p, Sub(at, name), idx)) ==
            ViewOf(inodes, p)[Sub(at, name) := Abs(i)]
  {
    assert idx !in p.names;
  }

  lemma {:induction false} AttachEdges(inodes: seq<Inode>, free: seq<nat>, p: Places, inodes': seq<Inode>, free': seq<nat>,
                    at: Key, name: Name, idx: nat, i: Inode)
    requires Tree(inodes, free, p)
    requires at in p.at && inodes[p.at[at]].isDir && Sub(at, name) !in p.at
    requires i == NEW_FILE || i == NEW_DIRECTORY
    requires Allocated(inodes, free, inodes', free', idx, i)
    requires idx !in p.names
    requires Located(Insert(inodes', p.at[at], name, idx), Place(p, Sub(at, name), idx))
    ensures Edges(Insert(inodes', p.at[at], name, idx), Place(p, Sub(at, name), idx))
  {
    var key := Sub(at, name);
    var inodes'' := Insert(inodes', p.at[at], name, idx);
    var p' := Place(p, key, idx);
    forall k, n | k in p'.at && n in inodes''[p'.at[k]].children
      ensures Sub(k, n) in p'.at
    {
      if k != key && k != at {
        assert inodes''[p.at[k]] == inodes[p.at[k]];
      }
    }
    forall k, n | Sub(k, n) in p'.at
      ensures k in p'.at && n in inodes''[p'.at[k]].children && p'.at[Sub(k, n)] == inodes''[p'.at[k]].children[n]
    {
      if Sub(k, n) != key {
        assert Sub(k, n) in p.at && k in p.at && k != key;
      }
    }
  }

  /** Detaching a childless object and resetting its index keeps the tree and drops one location. */
  lemma {:induction false} Detach(inodes: seq<Inode>, free: seq<nat>, p: Places, at: Key, name: Name)
    requires Tree(inodes, free, p)
    requires Sub(at, name) in p.at && at in p.at
    requires inodes[p.at[Sub(at, name)]].children == map[]
    ensures p.at[Sub(at, name)] > 0 && p.at[Sub(at, name)] != p.at[at]
    ensures var key := Sub(at, name);
            var inodes' := Delete(inodes, p.at[at], name)[p.at[key] := NEW_FILE];
            Tree(inodes', free + [p.at[key]], Unplace(p, key))
  {
    var key := Sub(at, name);
    var idx := p.at[key];
    var inodes' := Delete(inodes, p.at[at], name)[idx := NEW_FILE];
    var p' := Unplace(p, key);
    assert FreeList(inodes', free + [idx]);
    assert Located(inodes', p');
    DetachEdges(inodes, free, p, at, name);
  }

  lemma {:induction false} DetachView(inodes: seq<Inode>, free: seq<nat>, p: Places, at: Key, name: Name)
    requires Tree(inodes, free, p)
    requires Sub(at, name) in p.at && at in p.at
    ensures var key := Sub(at, name);
            ViewOf(Delete(inodes, p.at[at], name)[p.at[key] := NEW_FILE], Unplace(p, key)) == ViewOf(inodes, p) - {key}
  {
  }

  lemma {:induction false} DetachEdges(inodes: seq<Inode>, free: seq<nat>, p: Places, at: Key, name: Name)
    requires Tree(inodes, free, p)
    requires Sub(at, name) in p.at && at in p.at
    requires inodes[p.at[Sub(at, name)]].children == map[]
    ensures Edges(Delete(inodes, p.at[at], name)[p.at[Sub(at, name)] := NEW_FILE], Unplace(p, Sub(at, name)))
  {
    var key := Sub(at, name);
    var idx := p.at[key];
    var inodes' := Delete(inodes, p.at[at], name)[idx := NEW_FILE];
    var p' := Unplace(p, key);
    forall k, n | Sub(k, n) in p'.at
      ensures k in p'.at && n in inodes'[p'.at[k]].children && p'.at[Sub(k, n)] == inodes'[p'.at[k]].children[n]
    {
      assert Sub(k, n) in p.at && k in p.at && n in inodes[p.at[k]].children;
      assert k != key;
    }
    forall k, n | k in p'.at && n in inodes'[p'.at[k]].children
      ensures Sub(k, n) in p'.at
    {
      assert p.at[k] != idx;
    }
  }

  /** Changing only a file's content keeps the tree. */
  lemma Rewrite(inodes: seq<Inode>, free: seq<nat>, p: Places, k: Key, data: seq<byte>)
    requires Tree(inodes, free, p) && k in p.at && !inodes[p.at[k]].isDir && |data| <= MAX_FILE_SIZE
    ensures Tree(inodes[p.at[k] := inodes[p.at[k]].(content := data)], free, p)
  {
    var inodes' := inodes[p.at[k] := inodes[p.at[k]].(content := data)];
    assert FreeList(inodes', free);
    assert Edges(inodes', p);
  }

  lemma RewriteView(inodes: seq<Inode>, free: seq<nat>, p: Places, k: Key, data: seq<byte>)
    requires Tree(inodes, free, p) && k in p.at && !inodes[p.at[k]].isDir
    ensures ViewOf(inodes[p.at[k] := inodes[p.at[k]].(content := data)], p) == ViewOf(inodes, p)[k := File(data)]
  {
  }

  /** Every directory entry names an index of the vector. */
  ghost predicate InRange(inodes: seq<Inode>) {
    && 0 < |inodes|
    && forall i, n :: 0 <= i < |inodes| && n in inodes[i].children ==> inodes[i].children[n] < |inodes|
  }

  lemma EntriesInRange(inodes: seq<Inode>, free: seq<nat>, p: Places)
    requires Tree(inodes, free, p)
    ensures InRange(inodes)
  {
    forall i, n | 0 <= i < |inodes| && n in inodes[i].children
      ensures inodes[i].children[n] < |inodes|
    {
      assert i !in free;
      assert Sub(p.names[i], n) in p.at;
    }
  }

  /** The walk of `resolve_path`: skipped components leave `current` alone, others descend. */
  method ResolveIn(inodes: seq<Inode>, path: Name) returns (r: Result<nat>)
    requires InRange(inodes)
    ensures |path| > MAX_PATH_LEN ==> r == Err(PathTooLong)
    ensures |path| <= MAX_PATH_LEN ==> r == Lookup(inodes, 0, Keep(Split(path), SKIPPED))
    ensures r.Ok? ==> r.value < |inodes|
  {
    if |path| > MAX_PATH_LEN {
      return Err(PathTooLong);
    }
    TrimStartKeeps(path, SKIPPED);
    var trimmed := TrimStart(path);
    if trimmed == [] {
      assert Split(trimmed) == [[]];
      return Ok(0);
    }
    var current: nat := 0;
    var pieces := Split(trimmed);
    var i := 0;
    while i < |pieces|
      invariant 0 <= i <= |pieces|
      invariant current < |inodes|
      invariant Lookup(inodes, current, Keep(pieces[i..], SKIPPED)) == Lookup(inodes, 0, Keep(pieces, SKIPPED))
    {
      var component := pieces[i];
      KeepFirst(pieces, i, SKIPPED);
      i := i + 1;
      if component == [] || component == DOT {
        assert component in SKIPPED;
        continue;
      }
      if component == DOT_DOT {
        assert component in SKIPPED;
        continue;
      }
      assert component !in SKIPPED;
      LookupFirst(inodes, current, component, Keep(pieces[i..], SKIPPED));
      if !inodes[current].isDir {
        return Err(NotADirectory);
      }
      if component !in inodes[current].children {
        return Err(NotFound);
      }
      current := inodes[current].children[component];
    }
    return Ok(current);
  }

  // ---- The filesystem object ----

  lemma IndexStays(inodes: seq<Inode>, free: seq<nat>, p: Places, at: Key, i: Inode)
    requires Tree(inodes, free, p) && at in p.at
    ensures p.at[at] < |inodes| <= |Alloc(inodes, free, i).0|
  {
  }

  /** The outcome of attaching, with each new value named. */
  lemma Attached(inodes: seq<Inode>, free: seq<nat>, p: Places, at: Key, name: Name, i: Inode,
                 inodes': seq<Inode>, free': seq<nat>, p': Places, idx: nat)
    requires Tree(inodes, free, p) && at in p.at && inodes[p.at[at]].isDir && Sub(at, name) !in p.at
    requires i == NEW_FILE || i == NEW_DIRECTORY
    requires var a := Alloc(inodes, free, i);
             p.at[at] < |a.0| && inodes' == Insert(a.0, p.at[at], name, a.2) && free' == a.1 && idx == a.2
    requires p' == Place(p, Sub(at, name), idx)
    ensures Tree(inodes', free', p') && ViewOf(inodes', p') == ViewOf(inodes, p)[Sub(at, name) := Abs(i)]
    ensures Total(inodes', |inodes'|) == Total(inodes, |inodes|)
  {
    Attach(inodes, free, p, at, name, i);
  }


  class RamFs {
    var inodes: seq<Inode>
    var freeInodes: seq<nat>
    var bytesUsed: nat
    var maxSize: nat
    ghost var places: Places

    ghost predicate Valid()
      reads this
    {
      && Tree(inodes, freeInodes, places)
      && bytesUsed == Total(inodes, |inodes|)
      && bytesUsed <= maxSize
    }

    ghost function View(): (v: View)
      requires Valid()
      reads this
      ensures Root in v
    {
      ViewOf(inodes, places)
    }

    lemma ViewWellFormed()
      requires Valid()
      ensures WellFormed(View())
    {
      ViewIsWellFormed(inodes, freeInodes, places);
    }

    constructor (maxSize: nat)
      ensures Valid() && View() == map[Root := Directory]
      ensures this.maxSize == maxSize && bytesUsed == 0
    {
      inodes := [NEW_DIRECTORY];
      freeInodes := [];
      bytesUsed := 0;
      this.maxSize := maxSize;
      places := Places(map[Root := 0], map[0 := Root]);
    }

    // The source wraps the result in an Option that is never empty.
    method AllocInode(inode: Inode) returns (idx: nat)
      requires FreeList(inodes, freeInodes)
      modifies this`inodes, this`freeInodes
      ensures (inodes, freeInodes, idx) == Alloc(old(inodes), old(freeInodes), inode)
    {
      if |freeInodes| > 0 {
        idx := freeInodes[|freeInodes| - 1];
        assert idx in freeInodes;
        freeInodes := freeInodes[..|freeInodes| - 1];
        inodes := inodes[idx := inode];
      } else {
        idx := |inodes|;
        inodes := inodes + [inode];
      }
    }

    method FreeInode(idx: nat)
      modifies this`inodes, this`freeInodes, this`bytesUsed
      ensures 0 < idx < |old(inodes)| ==>
        && inodes == old(inodes)[idx := NEW_FILE]
        && freeInodes == old(freeInodes) + [idx]
        && bytesUsed == (if old(bytesUsed) >= |old(inodes)[idx].content| then old(bytesUsed) - |old(inodes)[idx].content| else 0)
      ensures !(0 < idx < |old(inodes)|) ==>
        inodes == old(inodes) && freeInodes == old(freeInodes) && bytesUsed == old(bytesUsed)
    {
      if idx > 0 && idx < |inodes| {
        bytesUsed := if bytesUsed >= |inodes[idx].content| then bytesUsed - |inodes[idx].content| else 0;
        inodes := inodes[idx := NEW_FILE];
        freeInodes := freeInodes + [idx];
      }
    }

    /** Path resolution, tied to the location map: the index of the location found, or its error. */
    method ResolvePath(path: Name) returns (r: Result<nat>)
      requires Valid()
      ensures Locate(View(), path).Err? ==> r == Err(Locate(View(), path).error)
      ensures Locate(View(), path).Ok? ==> Locate(View(), path).value in places.at && r == Ok(places.at[Locate(View(), path).value])
    {
      EntriesInRange(inodes, freeInodes, places);
      LookupIsWalk(inodes, freeInodes, places, Root, Keep(Split(path), SKIPPED));
      r := ResolveIn(inodes, path);
    }

    method ResolveParent(path: Name) returns (r: Result<(nat, Name)>)
      requires Valid()
      ensures LocateTarget(View(), path).Err? ==> r == Err(LocateTarget(View(), path).error)
      ensures LocateTarget(View(), path).Ok? ==>
        var k := LocateTarget(View(), path).value;
        k.parent in places.at && inodes[places.at[k.parent]].isDir && r == Ok((places.at[k.parent], k.name))
    {
      var last := SplitLast(path);
      if last.None? {
        return Err(InvalidPath);
      }
      var (parentPath, name) := last.value;
      if |name| > MAX_NAME_LEN {
        return Err(NameTooLong);
      }
      var parent := ResolvePath(if parentPath == [] then [SLASH] else parentPath);
      SlashIsEmpty();
      if parent.Err? {
        return Err(parent.error);
      }
      if !inodes[parent.value].isDir {
        return Err(NotADirectory);
      }
      return Ok((parent.value, name));
    }

    lemma SlashIsEmpty()
      requires Valid()
      ensures Locate(View(), [SLASH]) == Locate(View(), [])
    {
      TrimStartKeeps([SLASH], SKIPPED);
    }

    method CreateObject(path: Name, inode: Inode) returns (r: Result<()>)
      requires Valid() && (inode == NEW_FILE || inode == NEW_DIRECTORY)
      modifies this
      ensures Valid() && maxSize == old(maxSize) && bytesUsed == old(bytesUsed)
      ensures (r, View()) == Create(old(View()), path, Abs(inode))
    {
      var target := ResolveParent(path);
      if target.Err? {
        return Err(target.error);
      }
      var (parentIdx, name) := target.value;
      ghost var at := LocateTarget(View(), path).value.parent;
      if name in inodes[parentIdx].children {
        assert Sub(at, name) in places.at;
        return Err(AlreadyExists);
      }
      assert Sub(at, name) !in places.at;
      Link(parentIdx, name, inode, at);
      return Ok(());
    }

    /** Allocates an inode for a fresh object and enters it in its parent. */
    method Link(parentIdx: nat, name: Name, inode: Inode, ghost at: Key)
      requires Valid() && (inode == NEW_FILE || inode == NEW_DIRECTORY)
      requires at in places.at && parentIdx == places.at[at] && inodes[parentIdx].isDir && Sub(at, name) !in places.at
      modifies this
      ensures Valid() && maxSize == old(maxSize) && bytesUsed == old(bytesUsed)
      ensures View() == old(View())[Sub(at, name) := Abs(inode)]
    {
      ghost var before, free, p := inodes, freeInodes, places;
      IndexStays(before, free, p, at, inode);
      var idx := AllocInode(inode);
      inodes := Insert(inodes, parentIdx, name, idx);
      places := Place(places, Sub(at, name), idx);
      Attached(before, free, p, at, name, inode, inodes, freeInodes, places, idx);
    }

    /** Replaces a file's content, moving the counter by the difference. */
    method SetContent(i: nat, data: seq<byte>, ghost k: Key)
      requires Valid() && k in places.at && i == places.at[k] && !inodes[i].isDir && |data| <= MAX_FILE_SIZE
      requires bytesUsed - |inodes[i].content| + |data| <= maxSize
      modifies this
      ensures Valid() && maxSize == old(maxSize)
      ensures View() == old(View())[k := File(data)]
      ensures bytesUsed == old(bytesUsed) - |old(inodes)[i].content| + |data|
    {
      Rewrite(inodes, freeInodes, places, k, data);
      RewriteView(inodes, freeInodes, places, k, data);
      TotalUpdate(inodes, |inodes|, i, inodes[i].(content := data));
      bytesUsed := bytesUsed - |inodes[i].content| + |data|;
      inodes := inodes[i := inodes[i].(content := data)];
    }

    /** The same for the file at a path, told what the outcome should be. */
    method SetContentOf(path: Name, i: nat, data: seq<byte>, ghost outcome: (Result<()>, map<Key, Entry>, int))
      requires Valid() && i < |inodes| && !inodes[i].isDir && |data| <= MAX_FILE_SIZE
      requires Locate(View(), path).Ok? && Locate(View(), path).value in places.at && places.at[Locate(View(), path).value] == i
      requires bytesUsed - |inodes[i].content| + |data| <= maxSize
      requires outcome == (Ok(()), View()[Locate(View(), path).value := File(data)], bytesUsed - |inodes[i].content| + |data|)
      modifies this
      ensures Valid() && maxSize == old(maxSize)
      ensures (Ok(()), View(), bytesUsed as int) == outcome
    {
      SetContent(i, data, Locate(View(), path).value);
    }

    method CreateFile(path: Name) returns (r: Result<()>)
      requires Valid()
      modifies this
      ensures Valid() && maxSize == old(maxSize) && bytesUsed == old(bytesUsed)
      ensures (r, View()) == Create(old(View()), path, File([]))
    {
      r := CreateObject(path, NEW_FILE);
    }

    method CreateDir(path: Name) returns (r: Result<()>)
      requires Valid()
      modifies this
      ensures Valid() && maxSize == old(maxSize) && bytesUsed == old(bytesUsed)
      ensures (r, View()) == Create(old(View()), path, Directory)
    {
      r := CreateObject(path, NEW_DIRECTORY);
    }

    method ReadFile(path: Name) returns (r: Result<seq<byte>>)
      requires Valid()
      ensures r == Read(View(), path)
    {
      var idx := ResolvePath(path);
      if idx.Err? {
        return Err(idx.error);
      }
      if inodes[idx.value].isDir {
        return Err(NotAFile);
      }
      return Ok(inodes[idx.value].content);
    }

    /** The first steps of writing and appending: the path must lead to a file. */
    method ResolveFile(path: Name) returns (r: Result<nat>)
      requires Valid()
      ensures Locate(View(), path).Err? ==> r == Err(Locate(View(), path).error)
      ensures Locate(View(), path).Ok? ==>
        var k := Locate(View(), path).value;
        && k in places.at && k in View() && r == (if View()[k].Directory? then Err(NotAFile) else Ok(places.at[k]))
        && (r.Ok? ==> r.value < |inodes| && !inodes[r.value].isDir && View()[k] == File(inodes[r.value].content))
    {
      r := ResolvePath(path);
      if r.Ok? && inodes[r.value].isDir {
        return Err(NotAFile);
      }
    }

    /** What the counter would be. Its subtraction cannot go below zero: every content length is part of its sum. */
    method Rewritten(i: nat, data: seq<byte>) returns (newBytes: nat)
      requires Valid() && i < |inodes|
      ensures newBytes == bytesUsed - |inodes[i].content| + |data|
    {
      ContentInTotal(inodes, i);
      newBytes := bytesUsed - |inodes[i].content| + |data|;
    }

    method WriteFile(path: Name, data: seq<byte>) returns (r: Result<()>)
      requires Valid()
      modifies this
      ensures Valid() && maxSize == old(maxSize)
      ensures (r, View(), bytesUsed as int) == Write(old(View()), old(bytesUsed), maxSize, path, data)
    {
      if |data| > MAX_FILE_SIZE {
        return Err(FileTooLarge);
      }
      var idx := ResolveFile(path);
      if idx.Err? {
        return Err(idx.error);
      }
      var i := idx.value;
      var newBytes := Rewritten(i, data);
      if newBytes > maxSize {
        return Err(NoSpace);
      }
      SetContentOf(path, i, data, Write(View(), bytesUsed, maxSize, path, data));
      return Ok(());
    }

    method AppendFile(path: Name, data: seq<byte>) returns (r: Result<()>)
      requires Valid()
      modifies this
      ensures Valid() && maxSize == old(maxSize)
      ensures (r, View(), bytesUsed as int) == Append(old(View()), old(bytesUsed), maxSize, path, data)
    {
      var idx := ResolveFile(path);
      if idx.Err? {
        return Err(idx.error);
      }
      var i := idx.value;
      var newSize := |inodes[i].content| + |data|;
      if newSize > MAX_FILE_SIZE {
        return Err(FileTooLarge);
      }
      var newBytes := bytesUsed + |data|;
      if newBytes > maxSize {
        return Err(NoSpace);
      }
      SetContentOf(path, i, inodes[i].content + data, Append(View(), bytesUsed, maxSize, path, data));
      return Ok(());
    }

    method Unlink(parentIdx: nat, name: Name, ghost at: Key)
      requires Valid() && Sub(at, name) in places.at && at in places.at && parentIdx == places.at[at]
      requires inodes[places.at[Sub(at, name)]].children == map[]
      modifies this
      ensures Valid() && maxSize == old(maxSize)
      ensures View() == old(View()) - {Sub(at, name)}
      ensures bytesUsed == old(bytesUsed) - |old(inodes)[old(places).at[Sub(at, name)]].content|
    {
      Detach(inodes, freeInodes, places, at, name);
      DetachView(inodes, freeInodes, places, at, name);
      var childIdx := inodes[parentIdx].children[name];
      ghost var detached := inodes[parentIdx].(children := inodes[parentIdx].children - {name});
      assert parentIdx != childIdx;
      TotalUpdate(inodes, |inodes|, parentIdx, detached);
      inodes := Delete(inodes, parentIdx, name);
      TotalUpdate(inodes, |inodes|, childIdx, NEW_FILE);
      FreeInode(childIdx);
      places := Unplace(places, Sub(at, name));
    }

    method RemoveFile(path: Name) returns (r: Result<()>)
      requires Valid()
      modifies this
      ensures Valid() && maxSize == old(maxSize)
      ensures (r, View(), bytesUsed as int) == PathMap.RemoveFile(old(View()), old(bytesUsed), path)
    {
      var target := ResolveParent(path);
      if target.Err? {
        return Err(target.error);
      }
      var (parentIdx, name) := target.value;
      ghost var at := LocateTarget(View(), path).value.parent;
      if name !in inodes[parentIdx].children {
        assert Sub(at, name) !in places.at;
        return Err(NotFound);
      }
      assert Sub(at, name) in places.at;
      var childIdx := inodes[parentIdx].children[name];
      if inodes[childIdx].isDir {
        return Err(NotAFile);
      }
      assert Clean(inodes[childIdx]);
      Unlink(parentIdx, name, at);
      return Ok(());
    }

    /** `Unlink` for an empty directory, told what the outcome should be. */
    method UnlinkDir(parentIdx: nat, name: Name, ghost at: Key, ghost outcome: (Result<()>, map<Key, Entry>))
      requires Valid() && Sub(at, name) in places.at && at in places.at && parentIdx == places.at[at]
      requires inodes[places.at[Sub(at, name)]].children == map[] && inodes[places.at[Sub(at, name)]].content == []
      requires outcome == (Ok(()), View() - {Sub(at, name)})
      modifies this
      ensures Valid() && maxSize == old(maxSize) && bytesUsed == old(bytesUsed)
      ensures (Ok(()), View()) == outcome
    {
      Unlink(parentIdx, name, at);
    }

    method RemoveDir(path: Name) returns (r: Result<()>)
      requires Valid()
      modifies this
      ensures Valid() && maxSize == old(maxSize) && bytesUsed == old(bytesUsed)
      ensures (r, View()) == PathMap.RemoveDir(old(View()), path)
    {
      if path == [SLASH] {
        return Err(PermissionDenied);
      }
      var target := ResolveParent(path);
      if target.Err? {
        return Err(target.error);
      }
      var (parentIdx, name) := target.value;
      ghost var at := LocateTarget(View(), path).value.parent;
      if name !in inodes[parentIdx].children {
        assert Sub(at, name) !in places.at;
        return Err(NotFound);
      }
      ghost var key := Sub(at, name);
      assert key in places.at;
      var childIdx := inodes[parentIdx].children[name];
      if !inodes[childIdx].isDir {
        return Err(NotADirectory);
      }
      assert Clean(inodes[childIdx]);
      if inodes[childIdx].children != map[] {
        ghost var n :| n in inodes[childIdx].children;
        assert Sub(key, n) in places.at;
        assert HasChild(View(), key);
        return Err(NotEmpty);
      }
      assert !HasChild(View(), key);
      UnlinkDir(parentIdx, name, at, PathMap.RemoveDir(View(), path));
      r := Ok(());
    }
  }
}
