// From inodes to paths: what creating a name and rewriting a file mean for every path.
module SplaxPaths {
  import opened Wrappers
  import opened Paths
  import opened Bitmap
  import opened SplaxDisk

  /** Every path behaves exactly as before, errors included. */
  ghost predicate PathsSame(d: seq<Block>, d': seq<Block>)
    requires Layout(d) && Layout(d')
  {
    forall q :: Lookup(d', q) == Lookup(d, q) && ReadPath(d', q) == ReadPath(d, q)
  }

  /** Allocated directories answer alike, and allocated inodes read alike. */
  ghost predicate AllocatedSame(d: seq<Block>, d': seq<Block>, ib: seq<bv8>)
    requires Layout(d) && Layout(d')
  {
    forall m: nat :: InodeNumber(m) && Marked(ib, m - 1) ==> SameDir(d, d', m) && ReadInode(d', m) == ReadInode(d, m)
  }

  lemma {:induction false} AllocatedSameLookup(d: seq<Block>, bb: seq<bv8>, ib: seq<bv8>, ow: Owners, d': seq<Block>, cur: nat, comps: seq<Name>)
    requires Consistent(d, bb, ib, ow) && Layout(d') && AllocatedSame(d, d', ib)
    requires InodeNumber(cur) && Marked(ib, cur - 1)
    ensures LookupFrom(d', cur, comps) == LookupFrom(d, cur, comps)
    decreases |comps|
  {
    assert SameDir(d, d', cur);
    if comps != [] && IsDir(Node(d, cur)) {
      SearchWithin(d, bb, ib, ow, cur, comps[0]);
      var s := Search(d, Node(d, cur), comps[0]);
      if s.Some? {
        AllocatedSameLookup(d, bb, ib, ow, d', s.value, comps[1..]);
      }
    }
  }

  lemma AllocatedSamePaths(d: seq<Block>, bb: seq<bv8>, ib: seq<bv8>, ow: Owners, d': seq<Block>)
    requires Consistent(d, bb, ib, ow) && Layout(d') && AllocatedSame(d, d', ib)
    ensures PathsSame(d, d')
  {
    forall q
      ensures Lookup(d', q) == Lookup(d, q) && ReadPath(d', q) == ReadPath(d, q)
    {
      AllocatedSameLookup(d, bb, ib, ow, d', ROOT_INODE, Keep(Split(q), SKIPPED));
      LookupWithin(d, bb, ib, ow, ROOT_INODE, Keep(Split(q), SKIPPED));
    }
  }

  /** A new name in one directory: `child` was not allocated, nothing allocated reads differently,
      and only the search for `name` in `parent` may answer differently, from nothing to `child`. */
  ghost predicate NameAdded(d: seq<Block>, d': seq<Block>, ib: seq<bv8>, parent: nat, name: Name, child: nat)
    requires Layout(d) && Layout(d') && InodeNumber(parent)
  {
    && InodeNumber(child) && !Marked(ib, child - 1)
    && (forall m: nat :: InodeNumber(m) && Marked(ib, m - 1) ==> ReadInode(d', m) == ReadInode(d, m))
    && (forall m: nat :: InodeNumber(m) && Marked(ib, m - 1) && m != parent ==> SameDir(d, d', m))
    && IsDir(Node(d, parent)) && IsDir(Node(d', parent))
    && (forall n :: Search(d', Node(d', parent), n) ==
          (if Search(d, Node(d, parent), n).Some? then Search(d, Node(d, parent), n)
           else if n == name then Some(child) else None))
  }

  /** What is left of a walk when it first asks `parent` for `name`, if it ever does. */
  ghost function Asked(d: seq<Block>, cur: nat, comps: seq<Name>, parent: nat, name: Name): Option<seq<Name>>
    requires Layout(d) && InodeNumber(cur)
    decreases |comps|
  {
    if comps == [] || !IsDir(Node(d, cur)) then None
    else if cur == parent && comps[0] == name then Some(comps[1..])
    else
      match Search(d, Node(d, cur), comps[0])
      case None => None
      case Some(n) => if n <= TOTAL_INODES then Asked(d, n, comps[1..], parent, name) else None
  }

  /** A new name changes the walks that ask for it, when there was none: those go on from the child. */
  lemma {:induction false} NameAddedLookup(d: seq<Block>, bb: seq<bv8>, ib: seq<bv8>, ow: Owners, d': seq<Block>,
                                           parent: nat, name: Name, child: nat, cur: nat, comps: seq<Name>)
    requires Consistent(d, bb, ib, ow) && Layout(d') && InodeNumber(parent) && NameAdded(d, d', ib, parent, name, child)
    requires InodeNumber(cur) && Marked(ib, cur - 1)
    ensures var asked := Asked(d, cur, comps, parent, name);
            if asked.Some? && Search(d, Node(d, parent), name) == None
            then LookupFrom(d, cur, comps) == Err(NotFound) && LookupFrom(d', cur, comps) == LookupFrom(d', child, asked.value)
            else LookupFrom(d', cur, comps) == LookupFrom(d, cur, comps)
    decreases |comps|
  {
    assert cur != parent ==> SameDir(d, d', cur);
    if comps != [] && IsDir(Node(d, cur)) {
      SearchWithin(d, bb, ib, ow, cur, comps[0]);
      var s := Search(d, Node(d, cur), comps[0]);
      if s.Some? {
        NameAddedLookup(d, bb, ib, ow, d', parent, name, child, s.value, comps[1..]);
      }
    }
  }

  ghost predicate SamePath(d: seq<Block>, d': seq<Block>, q: Name)
    requires Layout(d) && Layout(d')
  {
    Lookup(d', q) == Lookup(d, q) && ReadPath(d', q) == ReadPath(d, q)
  }

  /** How `q` fares when `child` is entered as `name` in `parent`: as before, errors included, unless it
      asks for that name and there was none. */
  ghost predicate Fares(d: seq<Block>, d': seq<Block>, parent: nat, name: Name, child: nat, q: Name)
    requires Layout(d) && Layout(d') && InodeNumber(parent) && InodeNumber(child)
  {
    var asked := Asked(d, ROOT_INODE, Keep(Split(q), SKIPPED), parent, name);
    if asked.Some? && Search(d, Node(d, parent), name) == None
    then Lookup(d, q) == Err(NotFound) && Lookup(d', q) == LookupFrom(d', child, asked.value)
    else SamePath(d, d', q)
  }

  lemma {:induction false} NameAddedFares(d: seq<Block>, bb: seq<bv8>, ib: seq<bv8>, ow: Owners, d': seq<Block>, parent: nat, name: Name, child: nat, q: Name)
    requires Consistent(d, bb, ib, ow) && Layout(d') && InodeNumber(parent) && NameAdded(d, d', ib, parent, name, child)
    ensures Fares(d, d', parent, name, child, q)
    ensures Lookup(d, q) != Ok(child)
  {
    var comps := Keep(Split(q), SKIPPED);
    LookupWithin(d, bb, ib, ow, ROOT_INODE, comps);
    NameAddedLookup(d, bb, ib, ow, d', parent, name, child, ROOT_INODE, comps);
  }

  /** The parent part is looked up with a leading slash, which changes nothing. */
  lemma LeadingSlash(d: seq<Block>, p: Name)
    requires Layout(d)
    ensures Lookup(d, [SLASH] + p) == Lookup(d, p)
  {
    SplitAtSlash([], p);
    assert [] + [SLASH] + p == [SLASH] + p;
    KeepConcat([[]], Split(p), SKIPPED);
    assert Keep([[]], SKIPPED) == [];
    assert Keep(Split([SLASH] + p), SKIPPED) == Keep(Split(p), SKIPPED);
  }

  /** A slash, or a slash and a dot, at the end of a path changes nothing. */
  lemma SlashOrDot(d: seq<Block>, path: Name)
    requires Layout(d)
    ensures Lookup(d, path + [SLASH]) == Lookup(d, path)
    ensures Lookup(d, path + [SLASH] + DOT) == Lookup(d, path)
  {
    KeepSkippedName(path, [], SKIPPED);
    assert path + [SLASH] + [] == path + [SLASH];
    KeepSkippedName(path, DOT, SKIPPED);
  }

  /** Looking up one more name searches the directory reached. */
  lemma {:induction false} LookupName(d: seq<Block>, bb: seq<bv8>, ib: seq<bv8>, ow: Owners, n: nat, name: Name)
    requires Consistent(d, bb, ib, ow) && InodeNumber(n)
    ensures LookupFrom(d, n, [name]) ==
            if !IsDir(Node(d, n)) then Err(NotDirectory)
            else match Search(d, Node(d, n), name)
                 case None => Err(NotFound)
                 case Some(m) => Ok(m)
  {
    assert [name][1..] == [];
    if IsDir(Node(d, n)) {
      SearchWithin(d, bb, ib, ow, n, name);
    }
  }

  /** Two dots are followed: they lead where the directory's own ".." entry points. */
  lemma {:induction false} DotDotFollowed(d: seq<Block>, bb: seq<bv8>, ib: seq<bv8>, ow: Owners, path: Name, n: nat)
    requires Consistent(d, bb, ib, ow) && Lookup(d, path) == Ok(n)
    ensures InodeNumber(n)
    ensures Lookup(d, path + [SLASH] + DOT_DOT) ==
            if !IsDir(Node(d, n)) then Err(NotDirectory)
            else match Search(d, Node(d, n), DOT_DOT)
                 case None => Err(NotFound)
                 case Some(up) => Ok(up)
  {
    var comps := Keep(Split(path), SKIPPED);
    KeepParentAndName(path, DOT_DOT, SKIPPED);
    LookupSnoc(d, ROOT_INODE, comps, DOT_DOT);
    LookupName(d, bb, ib, ow, n, DOT_DOT);
  }

  /** The new name's own path: it resolved to nothing before and resolves to the new inode now, or
      it resolved already and still does. */
  lemma {:induction false} NewNameResolves(d: seq<Block>, bb: seq<bv8>, ib: seq<bv8>, ow: Owners, d': seq<Block>, path: Name, parent: nat, child: nat)
    requires Consistent(d, bb, ib, ow) && Layout(d') && InodeNumber(parent)
    requires SplitLast(path).Some? && Lookup(d, SplitLast(path).value.0) == Ok(parent)
    requires NameAdded(d, d', ib, parent, SplitLast(path).value.1, child)
    ensures Lookup(d, path).Ok? || Lookup(d, path) == Err(NotFound)
    ensures Lookup(d, path) == Err(NotFound) ==> Lookup(d', path) == Ok(child)
  {
    var (pp, name) := SplitLast(path).value;
    var comps := Keep(Split(pp), SKIPPED);
    SplitLastComponents(path, SKIPPED);
    if name in SKIPPED {
      assert Keep(Split(path), SKIPPED) == comps;
    } else {
      NameAddedLookup(d, bb, ib, ow, d', parent, name, child, ROOT_INODE, comps);
      SearchWithin(d, bb, ib, ow, parent, name);
      LookupSnoc(d, ROOT_INODE, comps, name);
      LookupSnoc(d', ROOT_INODE, comps, name);
    }
  }

  /** Rewriting the file at `path`: that file holds the data, names do not move, and every path that
      leads to a different inode reads as before. */
  lemma StorePaths(d: seq<Block>, d': seq<Block>, path: Name, n: nat, data: seq<byte>)
    requires Layout(d) && Layout(d') && Lookup(d, path) == Ok(n) && SameDirs(d, d')
    requires ReadInode(d', n) == Ok(data)
    requires forall m :: InodeNumber(m) && m != n ==> ReadInode(d', m) == ReadInode(d, m)
    ensures ReadPath(d', path) == Ok(data)
    ensures forall q :: Lookup(d', q) == Lookup(d, q)
    ensures forall q :: Lookup(d, q) != Lookup(d, path) ==> ReadPath(d', q) == ReadPath(d, q)
  {
    forall q
      ensures Lookup(d', q) == Lookup(d, q)
      ensures Lookup(d, q) != Ok(n) ==> ReadPath(d', q) == ReadPath(d, q)
    {
      SameDirsLookup(d, d', ROOT_INODE, Keep(Split(q), SKIPPED));
    }
  }

  // ---- Lookup as the code runs it ----

  /** `lookup_path_static`: walk the components, searching one directory block at a time. */
  method LookupPath(disk: seq<Block>, path: Name, ghost bb: seq<bv8>, ghost ib: seq<bv8>, ghost ow: Owners) returns (r: Result<nat>)
    requires Consistent(disk, bb, ib, ow)
    ensures r == Lookup(disk, path)
    ensures r.Ok? ==> InodeNumber(r.value) && Marked(ib, r.value - 1)
  {
    LookupWithin(disk, bb, ib, ow, ROOT_INODE, Keep(Split(path), SKIPPED));
    TrimStartKeeps(path, SKIPPED);
    var trimmed := TrimStart(path);
    if trimmed == [] {
      assert Keep(Split(trimmed), SKIPPED) == [];
      return Ok(ROOT_INODE);
    }
    SearchesStayInTable(disk, bb, ib, ow);
    r := WalkPieces(disk, Split(trimmed));
  }

  ghost predicate SearchesInTable(disk: seq<Block>)
    requires Layout(disk)
  {
    forall n, name :: InodeNumber(n) && IsDir(Node(disk, n)) && Search(disk, Node(disk, n), name).Some? ==>
      Search(disk, Node(disk, n), name).value <= TOTAL_INODES
  }

  lemma SearchesStayInTable(disk: seq<Block>, bb: seq<bv8>, ib: seq<bv8>, ow: Owners)
    requires Consistent(disk, bb, ib, ow)
    ensures SearchesInTable(disk)
  {
    forall n, name | InodeNumber(n) && IsDir(Node(disk, n)) && Search(disk, Node(disk, n), name).Some?
      ensures Search(disk, Node(disk, n), name).value <= TOTAL_INODES
    {
      SearchWithin(disk, bb, ib, ow, n, name);
    }
  }

  method WalkPieces(disk: seq<Block>, pieces: seq<Name>) returns (r: Result<nat>)
    requires Layout(disk) && SearchesInTable(disk)
    ensures r == LookupFrom(disk, ROOT_INODE, Keep(pieces, SKIPPED))
  {
    var current: nat := ROOT_INODE;
    var i := 0;
    while i < |pieces|
      invariant 0 <= i <= |pieces|
      invariant InodeNumber(current)
      invariant LookupFrom(disk, current, Keep(pieces[i..], SKIPPED)) == LookupFrom(disk, ROOT_INODE, Keep(pieces, SKIPPED))
    {
      var component := pieces[i];
      KeepFirst(pieces, i, SKIPPED);
      i := i + 1;
      if component == [] || component == DOT {
        assert component in SKIPPED;
        continue;
      }
      assert component !in SKIPPED;
      LookupFirst(disk, current, component, Keep(pieces[i..], SKIPPED));
      var inode := Node(disk, current);
      if !IsDir(inode) {
        return Err(NotDirectory);
      }
      var found := SearchBlock(disk, inode, component);
      if found.None? {
        return Err(NotFound);
      }
      current := found.value;
    }
    return Ok(current);
  }

  lemma LookupFirst(disk: seq<Block>, cur: nat, c: Name, rest: seq<Name>)
    requires Layout(disk) && InodeNumber(cur)
    ensures LookupFrom(disk, cur, [c] + rest) ==
            if !IsDir(Node(disk, cur)) then Err(NotDirectory)
            else match Search(disk, Node(disk, cur), c)
                 case None => Err(NotFound)
                 case Some(n) => if n <= TOTAL_INODES then LookupFrom(disk, n, rest) else Err(Corrupted)
  {
    assert ([c] + rest)[1..] == rest;
  }

  /** The scan over one directory block. */
  method SearchBlock(disk: seq<Block>, inode: DiskInode, component: Name) returns (r: Option<nat>)
    requires |inode.direct| == DIRECT_BLOCKS
    ensures r == Search(disk, inode, component)
  {
    if inode.direct[0] == 0 || inode.direct[0] >= |disk| || !disk[inode.direct[0]].Dir? {
      return None;
    }
    var entries := disk[inode.direct[0]].entries;
    var i := 0;
    while i < |entries|
      invariant 0 <= i <= |entries|
      invariant Find(entries, 0, component) == Find(entries, i, component)
    {
      if entries[i].inode != 0 && entries[i].name == component {
        return Some(entries[i].inode);
      }
      i := i + 1;
    }
    return None;
  }
}
