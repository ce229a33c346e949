// The block-storing step of SplaxFS `write_file`: existing blocks are overwritten in place, missing
// ones come from the pre-allocated list, and the inode is rewritten last.
module SplaxStore {
  import opened Wrappers
  import opened Paths
  import opened Bitmap
  import opened SplaxDisk
  import opened SplaxSteps

  function BlocksNeeded(len: nat): nat {
    if len == 0 then 0 else (len + BLOCK_SIZE - 1) / BLOCK_SIZE
  }

  /** Block `j` of the data, zero-padded. */
  function Chunk(data: seq<byte>, j: nat): (r: seq<byte>)
    requires j * BLOCK_SIZE <= |data|
    ensures |r| == BLOCK_SIZE
  {
    var lo := j * BLOCK_SIZE;
    var hi := if lo + BLOCK_SIZE <= |data| then lo + BLOCK_SIZE else |data|;
    data[lo..hi] + seq(BLOCK_SIZE - (hi - lo), i => 0)
  }

  /** The number of leading nonzero pointers. */
  function Held(direct: seq<nat>): (k: nat)
    ensures k <= |direct|
    ensures forall i :: 0 <= i < k ==> direct[i] != 0
    ensures k < |direct| ==> direct[k] == 0
  {
    if direct == [] || direct[0] == 0 then 0
    else
      assert forall i :: 1 <= i < |direct| ==> direct[i] == direct[1..][i - 1];
      1 + Held(direct[1..])
  }

  /** The pointers after a write of `needed` blocks: old ones stay, holes below `needed` are filled
      from `extra` in order. */
  function Filled(direct: seq<nat>, extra: seq<nat>, needed: nat): (r: seq<nat>)
    requires |extra| == needed <= |direct|
    ensures |r| == |direct|
  {
    var k := Held(direct);
    seq(|direct|, i requires 0 <= i < |direct| =>
      if direct[i] != 0 || i >= needed || i < k then direct[i] else extra[i - k])
  }

  /** The disk after the first `i` blocks went to their pointers. */
  function Stored(d: seq<Block>, direct: seq<nat>, data: seq<byte>, i: nat): (r: seq<Block>)
    requires i <= |direct| && i <= BlocksNeeded(|data|)
    requires forall j :: 0 <= j < i ==> direct[j] < |d|
    ensures |r| == |d|
  {
    if i == 0 then d else Stored(d, direct, data, i - 1)[direct[i - 1] := Data(Chunk(data, i - 1))]
  }

  lemma {:induction false} StoredAt(d: seq<Block>, direct: seq<nat>, data: seq<byte>, i: nat)
    requires i <= |direct| && i <= BlocksNeeded(|data|)
    requires DistinctBelow(direct, i) && forall j :: 0 <= j < i ==> direct[j] < |d|
    ensures forall j :: 0 <= j < i ==> Stored(d, direct, data, i)[direct[j]] == Data(Chunk(data, j))
    ensures forall p :: 0 <= p < |d| && (forall j :: 0 <= j < i ==> direct[j] != p) ==> Stored(d, direct, data, i)[p] == d[p]
  {
    if i > 0 {
      StoredAt(d, direct, data, i - 1);
    }
  }

  /** The owners once the first `i` pointers belong to inode `n`. */
  ghost function Claim(ow: Owners, direct: seq<nat>, n: nat, i: nat): Owners
    requires i <= |direct|
  {
    if i == 0 then ow else Claim(ow, direct, n, i - 1)[direct[i - 1] := Slot(n, i - 1)]
  }

  lemma {:induction false} ClaimAt(ow: Owners, direct: seq<nat>, n: nat, i: nat)
    requires i <= |direct| && DistinctBelow(direct, i)
    ensures forall j :: 0 <= j < i ==> direct[j] in Claim(ow, direct, n, i) && Claim(ow, direct, n, i)[direct[j]] == Slot(n, j)
    ensures forall p :: (forall j :: 0 <= j < i ==> direct[j] != p) ==>
      (p in Claim(ow, direct, n, i) <==> p in ow) && (p in ow ==> Claim(ow, direct, n, i)[p] == ow[p])
    ensures forall p :: p in ow ==> p in Claim(ow, direct, n, i)
    ensures forall p :: p in Claim(ow, direct, n, i) ==> p in ow || exists j :: 0 <= j < i && direct[j] == p
  {
    if i > 0 {
      ClaimAt(ow, direct, n, i - 1);
    }
  }

  /** Blocks an allocator handed out: in the data area, marked, owned by nobody, all different. */
  ghost predicate Fresh(d: seq<Block>, bb: seq<bv8>, ow: Owners, extra: seq<nat>) {
    && (forall i :: 0 <= i < |extra| ==> FIRST_DATA <= extra[i] < |d| && Marked(bb, extra[i]) && extra[i] !in ow)
    && (forall i, j :: 0 <= i < j < |extra| ==> extra[i] != extra[j])
  }

  /** What the filled pointer list looks like. */
  lemma {:induction false} FilledOk(d: seq<Block>, bb: seq<bv8>, ib: seq<bv8>, ow: Owners, n: nat, extra: seq<nat>)
    requires Consistent(d, bb, ib, ow) && InodeNumber(n) && IsFile(Node(d, n))
    requires |extra| <= DIRECT_BLOCKS && Fresh(d, bb, ow, extra)
    ensures var direct := Node(d, n).direct;
            var r := Filled(direct, extra, |extra|);
            && (forall i :: 0 <= i < DIRECT_BLOCKS && direct[i] != 0 ==> r[i] == direct[i])
            && (forall i :: 0 <= i < |extra| ==> r[i] != 0 && FIRST_DATA <= r[i] < |d| && Marked(bb, r[i]))
            && (forall i :: |extra| <= i < DIRECT_BLOCKS ==> r[i] == direct[i])
            && (forall i :: 0 <= i < DIRECT_BLOCKS && direct[i] == 0 && r[i] != 0 ==> r[i] in extra && i < |extra|)
            && (forall a, b :: 0 <= a < b < DIRECT_BLOCKS && r[a] != 0 ==> r[a] != r[b])
            && (forall a, b :: 0 <= a < b < DIRECT_BLOCKS && r[a] == 0 ==> r[b] == 0)
  {
    var x := Node(d, n);
    assert InodeOk(d, ib, ow, n);
    var k := Held(x.direct);
    var r := Filled(x.direct, extra, |extra|);
    assert forall i :: 0 <= i < DIRECT_BLOCKS ==> (x.direct[i] != 0 <==> i < k);
    assert forall i :: k <= i < |extra| ==> r[i] == extra[i - k];
    assert forall i :: 0 <= i < k ==> r[i] in ow && ow[r[i]] == Slot(n, i);
  }

  ghost function NewInode(x: DiskInode, extra: seq<nat>, data: seq<byte>): DiskInode
    requires |x.direct| == DIRECT_BLOCKS && |extra| <= DIRECT_BLOCKS
  {
    x.(size := |data|, direct := Filled(x.direct, extra, |extra|))
  }

  /** After the blocks are stored and the inode rewritten, the file reads back exactly the data. */
  lemma StoredReadsBack(d': seq<Block>, x: DiskInode, data: seq<byte>)
    requires |x.direct| == DIRECT_BLOCKS && x.size == |data| && BlocksNeeded(|data|) <= DIRECT_BLOCKS
    requires forall i :: 0 <= i < BlocksNeeded(|data|) ==>
      0 < x.direct[i] < |d'| && d'[x.direct[i]] == Data(Chunk(data, i))
    requires FileOk(d', x)
    ensures FileBytes(d', x) == data
  {
    forall k | 0 <= k < |data|
      ensures ByteAt(d', x, k) == data[k]
    {
      var j := k / BLOCK_SIZE;
      assert j < BlocksNeeded(|data|);
      assert Chunk(data, j)[k % BLOCK_SIZE] == data[k];
    }
  }

  /** The written inode satisfies its invariant and holds the data. */
  lemma {:induction false} WrittenInodeOk(d: seq<Block>, bb: seq<bv8>, ib: seq<bv8>, ow: Owners, n: nat, extra: seq<nat>, data: seq<byte>, d': seq<Block>, ow': Owners)
    requires Consistent(d, bb, ib, ow) && InodeNumber(n) && IsFile(Node(d, n))
    requires |extra| == BlocksNeeded(|data|) <= DIRECT_BLOCKS && Fresh(d, bb, ow, extra)
    requires Layout(d') && |d'| == |d| && Node(d', n) == NewInode(Node(d, n), extra, data)
    requires var r := Filled(Node(d, n).direct, extra, |extra|);
             && (forall i :: 0 <= i < |extra| ==> r[i] < |d| && d'[r[i]] == Data(Chunk(data, i)))
             && (forall i :: |extra| <= i < DIRECT_BLOCKS && 0 < r[i] < |d| ==> d'[r[i]] == d[r[i]])
             && (forall i :: 0 <= i < DIRECT_BLOCKS && r[i] != 0 ==> r[i] in ow' && ow'[r[i]] == Slot(n, i))
    ensures InodeOk(d', ib, ow', n) && ReadInode(d', n) == Ok(data)
  {
    FilledOk(d, bb, ib, ow, n, extra);
    assert InodeOk(d, ib, ow, n);
    var x := NewInode(Node(d, n), extra, data);
    assert FileOk(d', x);
    StoredReadsBack(d', x, data);
  }

  lemma {:induction false} StoredKeepsTable(d: seq<Block>, direct: seq<nat>, data: seq<byte>, i: nat)
    requires i <= |direct| && i <= BlocksNeeded(|data|)
    requires Layout(d) && forall j :: 0 <= j < i ==> FIRST_DATA <= direct[j] < |d|
    ensures Layout(Stored(d, direct, data, i))
    ensures forall m :: InodeNumber(m) ==> Node(Stored(d, direct, data, i), m) == Node(d, m)
  {
    if i > 0 {
      StoredKeepsTable(d, direct, data, i - 1);
      forall m | InodeNumber(m)
        ensures Node(Stored(d, direct, data, i), m) == Node(d, m)
      {
        NodeAfterBlock(Stored(d, direct, data, i - 1), direct[i - 1], Data(Chunk(data, i - 1)), m);
      }
    }
  }

  /** The disk after the step, block by block and inode by inode. */
  ghost predicate AfterStore(d: seq<Block>, n: nat, extra: seq<nat>, data: seq<byte>, d': seq<Block>)
    requires Layout(d) && InodeNumber(n) && |extra| == BlocksNeeded(|data|) <= DIRECT_BLOCKS
  {
    var r := Filled(Node(d, n).direct, extra, |extra|);
    && Layout(d') && |d'| == |d|
    && Node(d', n) == NewInode(Node(d, n), extra, data)
    && (forall m :: InodeNumber(m) && m != n ==> Node(d', m) == Node(d, m))
    && (forall i :: 0 <= i < |extra| ==> r[i] < |d| && d'[r[i]] == Data(Chunk(data, i)))
    && (forall p :: FIRST_DATA <= p < |d| && (forall j :: 0 <= j < |extra| ==> r[j] != p) ==> d'[p] == d[p])
  }

  /** The first `|extra|` pointers are places in the data area, all different. */
  ghost predicate Placeable(d: seq<Block>, n: nat, extra: seq<nat>)
    requires Layout(d) && InodeNumber(n) && |extra| <= DIRECT_BLOCKS
  {
    var r := Filled(Node(d, n).direct, extra, |extra|);
    DistinctBelow(r, |extra|) && forall i :: 0 <= i < |extra| ==> FIRST_DATA <= r[i] < |d|
  }

  lemma FilledIsPlaceable(d: seq<Block>, bb: seq<bv8>, ib: seq<bv8>, ow: Owners, n: nat, extra: seq<nat>)
    requires Consistent(d, bb, ib, ow) && InodeNumber(n) && IsFile(Node(d, n))
    requires |extra| <= DIRECT_BLOCKS && Fresh(d, bb, ow, extra)
    ensures Placeable(d, n, extra)
  {
    FilledOk(d, bb, ib, ow, n, extra);
  }

  lemma StoreEffect(d: seq<Block>, n: nat, extra: seq<nat>, data: seq<byte>)
    requires Layout(d) && InodeNumber(n) && |extra| == BlocksNeeded(|data|) <= DIRECT_BLOCKS
    requires Placeable(d, n, extra)
    ensures var r := Filled(Node(d, n).direct, extra, |extra|);
            && Layout(Stored(d, r, data, |extra|))
            && AfterStore(d, n, extra, data, WriteInode(Stored(d, r, data, |extra|), n, NewInode(Node(d, n), extra, data)))
  {
    var r := Filled(Node(d, n).direct, extra, |extra|);
    StoreBlocks(d, r, data, |extra|);
    StoreInode(d, Stored(d, r, data, |extra|), n, extra, data);
  }

  /** Storing `k` blocks at distinct data-area pointers: the table is untouched, each pointer holds
      its block, everything else is as before. */
  ghost predicate BlocksPlaced(d: seq<Block>, r: seq<nat>, data: seq<byte>, k: nat, d1: seq<Block>)
    requires Layout(d) && k <= |r| && k <= BlocksNeeded(|data|)
  {
    && Layout(d1) && |d1| == |d|
    && (forall m :: InodeNumber(m) ==> Node(d1, m) == Node(d, m))
    && (forall i :: 0 <= i < k ==> FIRST_DATA <= r[i] < |d| && d1[r[i]] == Data(Chunk(data, i)))
    && (forall p :: 0 <= p < |d| && (forall j :: 0 <= j < k ==> r[j] != p) ==> d1[p] == d[p])
  }

  lemma StoreBlocks(d: seq<Block>, r: seq<nat>, data: seq<byte>, k: nat)
    requires Layout(d) && k <= |r| && k <= BlocksNeeded(|data|)
    requires DistinctBelow(r, k) && forall i :: 0 <= i < k ==> FIRST_DATA <= r[i] < |d|
    ensures BlocksPlaced(d, r, data, k, Stored(d, r, data, k))
  {
    StoredAt(d, r, data, k);
    StoredKeepsTable(d, r, data, k);
  }

  lemma StoreInode(d: seq<Block>, d1: seq<Block>, n: nat, extra: seq<nat>, data: seq<byte>)
    requires Layout(d) && InodeNumber(n) && |extra| == BlocksNeeded(|data|) <= DIRECT_BLOCKS
    requires BlocksPlaced(d, Filled(Node(d, n).direct, extra, |extra|), data, |extra|, d1)
    ensures AfterStore(d, n, extra, data, WriteInode(d1, n, NewInode(Node(d, n), extra, data)))
  {
    var x := NewInode(Node(d, n), extra, data);
    BlocksAfterWrite(d1, n, x);
    NodeAfterWrite(d1, n, x, n);
    forall m | InodeNumber(m) && m != n
      ensures Node(WriteInode(d1, n, x), m) == Node(d, m)
    {
      NodeAfterWrite(d1, n, x, m);
    }
  }

  /** An inode other than the written one keeps its blocks: they are owned, the new ones are not. */
  lemma OtherInodeKept(d: seq<Block>, bb: seq<bv8>, ib: seq<bv8>, ow: Owners, n: nat, extra: seq<nat>, data: seq<byte>, d': seq<Block>, m: nat)
    requires Consistent(d, bb, ib, ow) && InodeNumber(n) && IsFile(Node(d, n)) && InodeNumber(m) && m != n
    requires |extra| == BlocksNeeded(|data|) <= DIRECT_BLOCKS && Fresh(d, bb, ow, extra)
    requires Layout(d') && |d'| == |d| && Node(d', m) == Node(d, m)
    requires var r := Filled(Node(d, n).direct, extra, |extra|);
             forall p :: FIRST_DATA <= p < |d| && (forall j :: 0 <= j < |extra| ==> r[j] != p) ==> d'[p] == d[p]
    ensures var ow' := Claim(ow, Filled(Node(d, n).direct, extra, |extra|), n, |extra|);
            InodeOk(d', ib, ow', m) && ReadInode(d', m) == ReadInode(d, m) && SameDir(d, d', m)
  {
    var r := Filled(Node(d, n).direct, extra, |extra|);
    FilledOk(d, bb, ib, ow, n, extra);
    assert InodeOk(d, ib, ow, n) && InodeOk(d, ib, ow, m);
    var ow' := Claim(ow, r, n, |extra|);
    ClaimAt(ow, r, n, |extra|);
    forall p | p in ow && ow[p].inode == m
      ensures d'[p] == d[p] && p in ow' && ow'[p] == ow[p]
    {
      forall j | 0 <= j < |extra|
        ensures r[j] != p
      {
        if Node(d, n).direct[j] == 0 {
          assert r[j] in extra;
        }
      }
    }
    OtherBlocksKept(d, bb, ib, ow, d', m);
    FrameInode(d, d', ib, ib, ow, ow', m);
    FrameRead(d, d', m);
    FrameSearch(d, d', m);
  }

  /** The written inode is in order and reads back exactly the data. */
  lemma {:induction false} WrittenInodeKept(d: seq<Block>, bb: seq<bv8>, ib: seq<bv8>, ow: Owners, n: nat, extra: seq<nat>, data: seq<byte>, d': seq<Block>)
    requires Consistent(d, bb, ib, ow) && InodeNumber(n) && IsFile(Node(d, n))
    requires |extra| == BlocksNeeded(|data|) <= DIRECT_BLOCKS && Fresh(d, bb, ow, extra)
    requires AfterStore(d, n, extra, data, d')
    ensures InodeOk(d', ib, Claim(ow, Filled(Node(d, n).direct, extra, |extra|), n, |extra|), n)
    ensures ReadInode(d', n) == Ok(data) && SameDir(d, d', n)
  {
    var r := Filled(Node(d, n).direct, extra, |extra|);
    FilledOk(d, bb, ib, ow, n, extra);
    ClaimAt(ow, r, n, |extra|);
    assert InodeOk(d, ib, ow, n);
    WrittenInodeOk(d, bb, ib, ow, n, extra, data, d', Claim(ow, r, n, |extra|));
  }

  lemma OwnersAfterStore(d: seq<Block>, bb: seq<bv8>, ib: seq<bv8>, ow: Owners, n: nat, extra: seq<nat>)
    requires Consistent(d, bb, ib, ow) && InodeNumber(n) && IsFile(Node(d, n))
    requires |extra| <= DIRECT_BLOCKS && Fresh(d, bb, ow, extra)
    ensures var ow' := Claim(ow, Filled(Node(d, n).direct, extra, |extra|), n, |extra|);
            forall p :: p in ow' ==> FIRST_DATA <= p < |d| && Marked(bb, p)
  {
    FilledOk(d, bb, ib, ow, n, extra);
    ClaimAt(ow, Filled(Node(d, n).direct, extra, |extra|), n, |extra|);
  }

  /** The whole step: the invariant is kept, the file holds exactly the data, every other inode
      reads as before, and no directory answers differently. */
  lemma StoreKeeps(d: seq<Block>, bb: seq<bv8>, ib: seq<bv8>, ow: Owners, n: nat, extra: seq<nat>, data: seq<byte>, d': seq<Block>)
    requires Consistent(d, bb, ib, ow) && InodeNumber(n) && IsFile(Node(d, n))
    requires |extra| == BlocksNeeded(|data|) <= DIRECT_BLOCKS && Fresh(d, bb, ow, extra)
    requires AfterStore(d, n, extra, data, d')
    ensures Consistent(d', bb, ib, Claim(ow, Filled(Node(d, n).direct, extra, |extra|), n, |extra|))
    ensures ReadInode(d', n) == Ok(data)
    ensures forall m :: InodeNumber(m) && m != n ==> ReadInode(d', m) == ReadInode(d, m)
    ensures SameDirs(d, d')
  {
    OwnersAfterStore(d, bb, ib, ow, n, extra);
    WrittenInodeKept(d, bb, ib, ow, n, extra, data, d');
    forall m | InodeNumber(m) && m != n
      ensures InodeOk(d', ib, Claim(ow, Filled(Node(d, n).direct, extra, |extra|), n, |extra|), m)
      ensures ReadInode(d', m) == ReadInode(d, m) && SameDir(d, d', m)
    {
      OtherInodeKept(d, bb, ib, ow, n, extra, data, d', m);
    }
    assert SameDir(d, d', ROOT_INODE);
  }
}
