// What each disk update of SplaxFS does to the invariant, to path lookup and to file contents.
module SplaxSteps {
  import opened Wrappers
  import opened Paths
  import opened Bitmap
  import opened SplaxDisk

  // ---- Frames: what an inode does not depend on ----

  ghost predicate BlocksKept(d: seq<Block>, d': seq<Block>, x: DiskInode)
    requires |x.direct| == DIRECT_BLOCKS
  {
    forall i :: 0 <= i < DIRECT_BLOCKS && 0 < x.direct[i] < |d| ==> x.direct[i] < |d'| && d'[x.direct[i]] == d[x.direct[i]]
  }

  ghost predicate OwnersKept(ow: Owners, ow': Owners, n: nat) {
    forall p :: p in ow && ow[p].inode == n ==> p in ow' && ow'[p] == ow[p]
  }

  ghost predicate BitsGrow(bm: seq<bv8>, bm': seq<bv8>) {
    forall j :: Marked(bm, j) ==> Marked(bm', j)
  }

  lemma FrameInode(d: seq<Block>, d': seq<Block>, ib: seq<bv8>, ib': seq<bv8>, ow: Owners, ow': Owners, m: nat)
    requires Layout(d) && Layout(d') && InodeNumber(m) && |d| == |d'|
    requires InodeOk(d, ib, ow, m) && Node(d', m) == Node(d, m)
    requires BlocksKept(d, d', Node(d, m)) && OwnersKept(ow, ow', m)
    requires BitsGrow(ib, ib') && (Marked(ib', m - 1) && !Marked(ib, m - 1) ==> Unused(Node(d, m)))
    ensures InodeOk(d', ib', ow', m)
  {
    var x := Node(d, m);
    assert PointersOk(d', ow', m, x);
    if IsDir(x) {
      assert EntriesOk(ib', d'[x.direct[0]].entries);
    }
  }

  lemma FrameRead(d: seq<Block>, d': seq<Block>, m: nat)
    requires Layout(d) && Layout(d') && InodeNumber(m) && |d| == |d'|
    requires Node(d', m) == Node(d, m) && BlocksKept(d, d', Node(d, m))
    requires IsFile(Node(d, m)) ==> FileOk(d, Node(d, m))
    ensures ReadInode(d', m) == ReadInode(d, m)
  {
    var x := Node(d, m);
    if IsFile(x) {
      assert FileOk(d', x);
      forall k | 0 <= k < x.size
        ensures ByteAt(d', x, k) == ByteAt(d, x, k)
      {
        assert (k / BLOCK_SIZE) * BLOCK_SIZE < x.size;
        assert FullData(d[x.direct[k / BLOCK_SIZE]]);
      }
      assert FileBytes(d', x) == FileBytes(d, x);
    }
  }

  lemma FrameSearch(d: seq<Block>, d': seq<Block>, m: nat)
    requires Layout(d) && Layout(d') && InodeNumber(m) && |d| == |d'|
    requires Node(d', m) == Node(d, m) && BlocksKept(d, d', Node(d, m))
    ensures SameDir(d, d', m)
  {
  }

  /** Inode `m` and all its blocks are as they were, so it reads and searches as before. */
  ghost predicate Untouched(d: seq<Block>, d': seq<Block>, m: nat)
    requires Layout(d) && Layout(d') && InodeNumber(m)
  {
    && Node(d', m) == Node(d, m) && BlocksKept(d, d', Node(d, m))
    && ReadInode(d', m) == ReadInode(d, m) && SameDir(d, d', m)
  }

  /** Only blocks outside the inode's own pointers changed. */
  lemma OtherBlocksKept(d: seq<Block>, bb: seq<bv8>, ib: seq<bv8>, ow: Owners, d': seq<Block>, m: nat)
    requires Consistent(d, bb, ib, ow) && InodeNumber(m) && |d'| == |d|
    requires forall p :: p in ow && ow[p].inode == m ==> d'[p] == d[p]
    ensures BlocksKept(d, d', Node(d, m))
  {
    assert InodeOk(d, ib, ow, m);
  }

  // ---- Bitmaps ----

  lemma MarkBlockKeeps(d: seq<Block>, bb: seq<bv8>, ib: seq<bv8>, ow: Owners, p: nat)
    requires Consistent(d, bb, ib, ow) && Available(bb, p)
    ensures Consistent(d, Mark(bb, p), ib, ow) && Marked(Mark(bb, p), p) && p !in ow
  {
    MarkIsOneMore(bb, p);
  }

  lemma {:induction false} MoreMarked(d: seq<Block>, bb: seq<bv8>, ib: seq<bv8>, ow: Owners, n: nat, ib': seq<bv8>, m: nat)
    requires Consistent(d, bb, ib, ow) && InodeNumber(n) && InodeNumber(m) && !Marked(ib, n - 1) && OneMore(ib, ib', n - 1)
    ensures InodeOk(d, ib', ow, m)
  {
    assert InodeOk(d, ib, ow, m);
    FrameInode(d, d, ib, ib', ow, ow, m);
  }

  lemma {:induction false} OneMoreMarked(d: seq<Block>, bb: seq<bv8>, ib: seq<bv8>, ow: Owners, n: nat, ib': seq<bv8>)
    requires Consistent(d, bb, ib, ow) && InodeNumber(n) && !Marked(ib, n - 1) && OneMore(ib, ib', n - 1)
    ensures Consistent(d, bb, ib', ow) && Unused(Node(d, n))
  {
    assert InodeOk(d, ib, ow, n);
    forall m | InodeNumber(m)
      ensures InodeOk(d, ib', ow, m)
    {
      MoreMarked(d, bb, ib, ow, n, ib', m);
    }
  }

  lemma {:induction false} MarkInodeKeeps(d: seq<Block>, bb: seq<bv8>, ib: seq<bv8>, ow: Owners, n: nat)
    requires Consistent(d, bb, ib, ow) && InodeNumber(n) && Available(ib, n - 1)
    ensures Consistent(d, bb, Mark(ib, n - 1), ow) && Marked(Mark(ib, n - 1), n - 1) && Unused(Node(d, n))
  {
    MarkIsOneMore(ib, n - 1);
    OneMoreMarked(d, bb, ib, ow, n, Mark(ib, n - 1));
  }

  // ---- Creating an inode in an unused slot ----

  /** Writing inode `n`, which owns no block, touches no other inode. */
  lemma {:induction false} OtherUntouched(d: seq<Block>, bb: seq<bv8>, ib: seq<bv8>, ow: Owners, n: nat, x: DiskInode, m: nat)
    requires Consistent(d, bb, ib, ow) && InodeNumber(n) && InodeNumber(m) && m != n && |x.direct| == DIRECT_BLOCKS
    ensures var d' := WriteInode(d, n, x);
            Layout(d') && |d'| == |d| && InodeOk(d', ib, ow, m) && Untouched(d, d', m)
  {
    var d' := WriteInode(d, n, x);
    NodeAfterWrite(d, n, x, m);
    assert InodeOk(d, ib, ow, m);
    OtherBlocksKept(d, bb, ib, ow, d', m);
    FrameInode(d, d', ib, ib, ow, ow, m);
    FrameRead(d, d', m);
    FrameSearch(d, d', m);
  }

  /** The first half of `create_file`: an empty file inode nobody points at yet. */
  lemma {:induction false} NewFileKeeps(d: seq<Block>, bb: seq<bv8>, ib: seq<bv8>, ow: Owners, n: nat)
    requires Consistent(d, bb, ib, ow) && InodeNumber(n) && Unused(Node(d, n)) && Marked(ib, n - 1)
    ensures var d' := WriteInode(d, n, NEW_FILE);
            && Consistent(d', bb, ib, ow)
            && ReadInode(d', n) == Ok([])
            && (forall m: nat :: InodeNumber(m) && m != n ==> Untouched(d, d', m))
  {
    var d' := WriteInode(d, n, NEW_FILE);
    NodeAfterWrite(d, n, NEW_FILE, n);
    assert FileOk(d', NEW_FILE);
    assert FileBytes(d', NEW_FILE) == [];
    forall m | InodeNumber(m)
      ensures InodeOk(d', ib, ow, m)
      ensures m != n ==> Untouched(d, d', m)
    {
      if m != n {
        OtherUntouched(d, bb, ib, ow, n, NEW_FILE, m);
      }
    }
    NodeAfterWrite(d, n, NEW_FILE, ROOT_INODE);
  }

  /** The first half of `create_dir`: a directory inode and its block. */
  lemma {:induction false} NewDirectoryKeeps(d: seq<Block>, bb: seq<bv8>, ib: seq<bv8>, ow: Owners, n: nat, b: nat, parent: nat)
    requires Consistent(d, bb, ib, ow) && InodeNumber(n) && Unused(Node(d, n)) && Marked(ib, n - 1)
    requires FIRST_DATA <= b < |d| && b !in ow && Marked(bb, b)
    requires InodeNumber(parent) && Marked(ib, parent - 1)
    ensures var d' := WriteInode(d, n, NewDirectory(b))[b := Dir(NewEntries(n, parent))];
            && Consistent(d', bb, ib, ow[b := Slot(n, 0)])
            && IsDir(Node(d', n)) && Search(d', Node(d', n), DOT) == Some(n) && Search(d', Node(d', n), DOT_DOT) == Some(parent)
            && (forall name :: name != DOT && name != DOT_DOT ==> Search(d', Node(d', n), name) == None)
            && (forall m: nat :: InodeNumber(m) && m != n ==> Untouched(d, d', m))
  {
    var x := NewDirectory(b);
    var d1 := WriteInode(d, n, x);
    var d' := d1[b := Dir(NewEntries(n, parent))];
    var ow' := ow[b := Slot(n, 0)];
    NodeAfterWrite(d, n, x, n);
    NodeAfterBlock(d1, b, Dir(NewEntries(n, parent)), n);
    NewDirectoryOk(d', ib, ow', n, b, parent);
    forall m | InodeNumber(m)
      ensures InodeOk(d', ib, ow', m)
      ensures m != n ==> Untouched(d, d', m)
    {
      NodeAfterWrite(d, n, x, m);
      NodeAfterBlock(d1, b, Dir(NewEntries(n, parent)), m);
      assert InodeOk(d, ib, ow, m);
      if m != n {
        OtherBlocksKept(d, bb, ib, ow, d', m);
        FrameInode(d, d', ib, ib, ow, ow', m);
        FrameRead(d, d', m);
        FrameSearch(d, d', m);
      }
    }
    NodeAfterWrite(d, n, x, ROOT_INODE);
    NodeAfterBlock(d1, b, Dir(NewEntries(n, parent)), ROOT_INODE);
  }

  lemma {:induction false} NewDirectoryOk(d: seq<Block>, ib: seq<bv8>, ow: Owners, n: nat, b: nat, parent: nat)
    requires Layout(d) && InodeNumber(n) && Node(d, n) == NewDirectory(b)
    requires FIRST_DATA <= b < |d| && d[b] == Dir(NewEntries(n, parent)) && b in ow && ow[b] == Slot(n, 0)
    requires Marked(ib, n - 1) && InodeNumber(parent) && Marked(ib, parent - 1)
    ensures InodeOk(d, ib, ow, n) && IsDir(Node(d, n))
    ensures Search(d, Node(d, n), DOT) == Some(n) && Search(d, Node(d, n), DOT_DOT) == Some(parent)
    ensures forall name :: name != DOT && name != DOT_DOT ==> Search(d, Node(d, n), name) == None
  {
    var es := NewEntries(n, parent);
    forall name | name != DOT && name != DOT_DOT
      ensures Find(es, 0, name) == None
    {
      FindNothing(es, 2, name);
      assert Find(es, 1, name) == None;
    }
    assert es[0].name == DOT && es[1].name == DOT_DOT;
    assert Find(es, 1, DOT_DOT) == Some(parent);
    assert EntriesOk(ib, es);
  }

  // ---- Adding a directory entry ----

  /** The first unused entry. */
  function FreeEntry(entries: seq<DirEntry>, i: nat): (r: Option<nat>)
    ensures r.Some? ==> i <= r.value < |entries| && entries[r.value].inode == 0
    ensures r.Some? ==> forall j :: i <= j < r.value ==> entries[j].inode != 0
    ensures r.None? ==> forall j :: i <= j < |entries| ==> entries[j].inode != 0
    decreases |entries| - i
  {
    if i >= |entries| then None
    else if entries[i].inode == 0 then Some(i)
    else FreeEntry(entries, i + 1)
  }

  /** Filling the first unused entry adds one name and hides none. */
  lemma {:induction false} FindAfterAdd(entries: seq<DirEntry>, slot: nat, e: DirEntry, i: nat, name: Name)
    requires i <= slot < |entries| && e.inode != 0
    requires forall j :: slot <= j < |entries| ==> entries[j].inode == 0
    ensures Find(entries[slot := e], i, name) ==
            if Find(entries, i, name).Some? then Find(entries, i, name)
            else if name == e.name then Some(e.inode) else None
    decreases slot - i
  {
    if i < slot {
      FindAfterAdd(entries, slot, e, i + 1, name);
    } else {
      FindNothing(entries, slot, name);
      FindNothing(entries[slot := e], slot + 1, name);
    }
  }

  lemma {:induction false} FindNothing(entries: seq<DirEntry>, i: nat, name: Name)
    requires forall j :: i <= j < |entries| ==> entries[j].inode == 0
    ensures Find(entries, i, name) == None
    decreases |entries| - i
  {
    if i < |entries| {
      FindNothing(entries, i + 1, name);
    }
  }

  function AddEntry(d: seq<Block>, p: nat, slot: nat, e: DirEntry): seq<Block>
    requires p < |d| && d[p].Dir? && slot < |d[p].entries|
  {
    d[p := Dir(d[p].entries[slot := e])]
  }

  /** Rewriting a block of one inode touches no other inode. */
  lemma {:induction false} BlockOfAnother(d: seq<Block>, bb: seq<bv8>, ib: seq<bv8>, ow: Owners, n: nat, p: nat, b: Block, m: nat)
    requires Consistent(d, bb, ib, ow) && InodeNumber(m) && m != n && p in ow && ow[p].inode == n
    ensures Layout(d[p := b]) && InodeOk(d[p := b], ib, ow, m) && Untouched(d, d[p := b], m)
  {
    NodeAfterBlock(d, p, b, m);
    assert InodeOk(d, ib, ow, m);
    OtherBlocksKept(d, bb, ib, ow, d[p := b], m);
    FrameInode(d, d[p := b], ib, ib, ow, ow, m);
    FrameRead(d, d[p := b], m);
    FrameSearch(d, d[p := b], m);
  }

  /** Entering `child` as `name`: one directory answers one more search, and nothing else moves. */
  lemma {:induction false} AddEntryKeeps(d: seq<Block>, bb: seq<bv8>, ib: seq<bv8>, ow: Owners, parent: nat, slot: nat, e: DirEntry)
    requires Consistent(d, bb, ib, ow) && InodeNumber(parent) && IsDir(Node(d, parent))
    requires InodeNumber(e.inode) && Marked(ib, e.inode - 1)
    requires DirOk(d, ib, Node(d, parent)) && FreeEntry(d[Node(d, parent).direct[0]].entries, 0) == Some(slot)
    ensures var d' := AddEntry(d, Node(d, parent).direct[0], slot, e);
            && Consistent(d', bb, ib, ow)
            && (forall m :: InodeNumber(m) ==> ReadInode(d', m) == ReadInode(d, m) && Node(d', m) == Node(d, m))
            && (forall m :: InodeNumber(m) && m != parent ==> SameDir(d, d', m))
            && (forall name :: Search(d', Node(d, parent), name) ==
                  (if Search(d, Node(d, parent), name).Some? then Search(d, Node(d, parent), name)
                   else if name == e.name then Some(e.inode) else None))
  {
    var x := Node(d, parent);
    var p := x.direct[0];
    var es := d[p].entries;
    var d' := AddEntry(d, p, slot, e);
    assert InodeOk(d, ib, ow, parent);
    assert ow[p] == Slot(parent, 0);
    assert EntriesOk(ib, es[slot := e]);
    forall m | InodeNumber(m)
      ensures InodeOk(d', ib, ow, m) && ReadInode(d', m) == ReadInode(d, m) && Node(d', m) == Node(d, m)
      ensures m != parent ==> SameDir(d, d', m)
    {
      NodeAfterBlock(d, p, Dir(es[slot := e]), m);
      assert InodeOk(d, ib, ow, m);
      if m != parent {
        BlockOfAnother(d, bb, ib, ow, parent, p, Dir(es[slot := e]), m);
      } else {
        assert !IsFile(x);
      }
    }
    forall name
      ensures Search(d', x, name) ==
              (if Search(d, x, name).Some? then Search(d, x, name) else if name == e.name then Some(e.inode) else None)
    {
      FindAfterAdd(es, slot, e, 0, name);
    }
    NodeAfterBlock(d, p, Dir(es[slot := e]), ROOT_INODE);
  }
}
