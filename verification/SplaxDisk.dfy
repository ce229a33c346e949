// The on-disk side of SplaxFS: typed blocks, the inode table, directory search, path lookup, and
// the invariant that ties inode pointers to the block bitmap.
module SplaxDisk {
  import opened Wrappers
  import opened Paths
  import opened Bitmap

  const BLOCK_SIZE: nat := 4096
  const INODES_PER_BLOCK: nat := 32
  const DIRECT_BLOCKS: nat := 12
  const DIRENTS_PER_BLOCK: nat := 15
  const ROOT_INODE: nat := 2
  const TABLE_START: nat := 3
  const FIRST_DATA: nat := 11
  const TOTAL_INODES: nat := 256
  const MAX_FILENAME: nat := 255

  // Components the lookup walks past; ".." is an ordinary directory entry here.
  const SKIPPED: set<Name> := {[], DOT}

  datatype SplaxFsError = NotFound | NotDirectory | IsDirectory | NoSpace | NameTooLong | Corrupted | InvalidArg

  datatype Result<+T> = Ok(value: T) | Err(error: SplaxFsError)

  datatype DiskInode = DiskInode(mode: nat, size: nat, direct: seq<nat>)

  datatype FileType = Regular | Directory

  datatype DirEntry = DirEntry(inode: nat, fileType: FileType, name: Name)

  datatype Superblock = Superblock(totalBlocks: nat, totalInodes: nat, freeBlocks: nat, freeInodes: nat, firstDataBlock: nat)

  datatype Block =
    | Super(sb: Superblock)
    | Bits(bitmap: seq<bv8>)
    | Inodes(table: seq<DiskInode>)
    | Dir(entries: seq<DirEntry>)
    | Data(bytes: seq<byte>)

  const NO_POINTERS: seq<nat> := [0, 0, 0, 0, 0, 0, 0, 0, 0, 0, 0, 0]
  const ZERO_INODE := DiskInode(0, 0, NO_POINTERS)
  const NEW_FILE := DiskInode(0x81A4, 0, NO_POINTERS)
  const NO_ENTRY := DirEntry(0, Regular, [])

  function NewDirectory(block: nat): DiskInode {
    DiskInode(0x41ED, BLOCK_SIZE, NO_POINTERS[0 := block])
  }

  /** A directory block holding only "." and "..". */
  function NewEntries(self: nat, parent: nat): seq<DirEntry> {
    [DirEntry(self, Directory, DOT), DirEntry(parent, Directory, DOT_DOT)] + seq(DIRENTS_PER_BLOCK - 2, i => NO_ENTRY)
  }

  predicate IsDir(x: DiskInode) { (x.mode / 4096) % 16 == 4 }

  predicate IsFile(x: DiskInode) { (x.mode / 4096) % 16 == 8 }

  // ---- The inode table ----

  ghost predicate Layout(disk: seq<Block>) {
    && |disk| >= 16
    && forall b :: TABLE_START <= b < FIRST_DATA ==> TableBlock(disk[b])
  }

  ghost predicate TableBlock(b: Block) {
    && b.Inodes? && |b.table| == INODES_PER_BLOCK
    && forall s :: 0 <= s < INODES_PER_BLOCK ==> |b.table[s].direct| == DIRECT_BLOCKS
  }

  ghost predicate InodeNumber(n: nat) { 1 <= n <= TOTAL_INODES }

  function Node(disk: seq<Block>, n: nat): (x: DiskInode)
    requires Layout(disk) && InodeNumber(n)
    ensures |x.direct| == DIRECT_BLOCKS
  {
    assert TableBlock(disk[TABLE_START + (n - 1) / INODES_PER_BLOCK]);
    disk[TABLE_START + (n - 1) / INODES_PER_BLOCK].table[(n - 1) % INODES_PER_BLOCK]
  }

  function WriteInode(disk: seq<Block>, n: nat, x: DiskInode): seq<Block>
    requires Layout(disk) && InodeNumber(n) && |x.direct| == DIRECT_BLOCKS
  {
    var b := TABLE_START + (n - 1) / INODES_PER_BLOCK;
    assert TableBlock(disk[b]);
    disk[b := Inodes(disk[b].table[(n - 1) % INODES_PER_BLOCK := x])]
  }

  /** Writing one inode changes that inode and no other, and no block outside the table. */
  lemma NodeAfterWrite(disk: seq<Block>, n: nat, x: DiskInode, m: nat)
    requires Layout(disk) && InodeNumber(n) && InodeNumber(m) && |x.direct| == DIRECT_BLOCKS
    ensures Layout(WriteInode(disk, n, x))
    ensures Node(WriteInode(disk, n, x), m) == if m == n then x else Node(disk, m)
  {
    var d' := WriteInode(disk, n, x);
    assert TableBlock(disk[TABLE_START + (n - 1) / INODES_PER_BLOCK]);
    forall b | TABLE_START <= b < FIRST_DATA
      ensures TableBlock(d'[b])
    {
      assert TableBlock(disk[b]);
    }
  }

  lemma BlocksAfterWrite(disk: seq<Block>, n: nat, x: DiskInode)
    requires Layout(disk) && InodeNumber(n) && |x.direct| == DIRECT_BLOCKS
    ensures |WriteInode(disk, n, x)| == |disk|
    ensures forall p :: FIRST_DATA <= p < |disk| ==> WriteInode(disk, n, x)[p] == disk[p]
  {
  }

  lemma NodeAfterBlock(disk: seq<Block>, p: nat, b: Block, m: nat)
    requires Layout(disk) && InodeNumber(m) && p < |disk| && !(TABLE_START <= p < FIRST_DATA)
    ensures Layout(disk[p := b]) && Node(disk[p := b], m) == Node(disk, m)
  {
  }

  // ---- The invariant ----

  /** Which inode's pointer slot holds a data block. */
  datatype Slot = Slot(inode: nat, index: nat)

  type Owners = map<nat, Slot>

  /** Every nonzero direct pointer of every inode lies in the data area, is marked in the bitmap,
      and is the pointer of exactly one (inode, slot): `owner` records which. */
  ghost predicate Consistent(disk: seq<Block>, bb: seq<bv8>, ib: seq<bv8>, owner: Owners) {
    && Layout(disk)
    && |bb| == BLOCK_SIZE && |ib| == BLOCK_SIZE
    && (forall p :: p in owner ==> FIRST_DATA <= p < |disk| && Marked(bb, p))
    && (forall n :: InodeNumber(n) ==> InodeOk(disk, ib, owner, n))
    && IsDir(Node(disk, ROOT_INODE)) && Marked(ib, ROOT_INODE - 1)
  }

  ghost predicate InodeOk(disk: seq<Block>, ib: seq<bv8>, owner: Owners, n: nat)
    requires Layout(disk) && InodeNumber(n)
  {
    var x := Node(disk, n);
    && PointersOk(disk, owner, n, x)
    && (IsDir(x) ==> DirOk(disk, ib, x))
    && (IsFile(x) ==> FileOk(disk, x))
    && (!Marked(ib, n - 1) ==> Unused(x))
  }

  ghost predicate PointersOk(disk: seq<Block>, owner: Owners, n: nat, x: DiskInode)
    requires |x.direct| == DIRECT_BLOCKS
  {
    forall i :: 0 <= i < DIRECT_BLOCKS && x.direct[i] != 0 ==>
      x.direct[i] < |disk| && x.direct[i] in owner && owner[x.direct[i]] == Slot(n, i)
  }

  ghost predicate Unused(x: DiskInode)
    requires |x.direct| == DIRECT_BLOCKS
  {
    !IsDir(x) && !IsFile(x) && forall i :: 0 <= i < DIRECT_BLOCKS ==> x.direct[i] == 0
  }

  ghost predicate DirOk(disk: seq<Block>, ib: seq<bv8>, x: DiskInode)
    requires |x.direct| == DIRECT_BLOCKS
  {
    && 0 < x.direct[0] < |disk| && disk[x.direct[0]].Dir?
    && EntriesOk(ib, disk[x.direct[0]].entries)
  }

  /** Used entries come first and name allocated inodes. */
  ghost predicate EntriesOk(ib: seq<bv8>, entries: seq<DirEntry>) {
    && |entries| == DIRENTS_PER_BLOCK
    && (forall i :: 0 <= i < |entries| && entries[i].inode != 0 ==>
          entries[i].inode <= TOTAL_INODES && Marked(ib, entries[i].inode - 1))
    && (forall i, j :: 0 <= i < j < |entries| && entries[i].inode == 0 ==> entries[j].inode == 0)
  }

  /** A file's blocks come first among its pointers and cover its size. */
  ghost predicate FileOk(disk: seq<Block>, x: DiskInode)
    requires |x.direct| == DIRECT_BLOCKS
  {
    && x.size <= DIRECT_BLOCKS * BLOCK_SIZE
    && (forall i :: 0 <= i < DIRECT_BLOCKS && x.direct[i] != 0 ==> x.direct[i] < |disk| && FullData(disk[x.direct[i]]))
    && (forall i, j :: 0 <= i < j < DIRECT_BLOCKS && x.direct[i] == 0 ==> x.direct[j] == 0)
    && (forall i :: 0 <= i < DIRECT_BLOCKS && i * BLOCK_SIZE < x.size ==> x.direct[i] != 0)
  }

  ghost predicate FullData(b: Block) { b.Data? && |b.bytes| == BLOCK_SIZE }

  /** The pointers the invariant speaks of are pairwise distinct across all inodes. */
  lemma PointersDistinct(disk: seq<Block>, bb: seq<bv8>, ib: seq<bv8>, owner: Owners, n: nat, i: nat, m: nat, j: nat)
    requires Consistent(disk, bb, ib, owner)
    requires InodeNumber(n) && InodeNumber(m) && i < DIRECT_BLOCKS && j < DIRECT_BLOCKS
    requires Node(disk, n).direct[i] != 0 && Node(disk, n).direct[i] == Node(disk, m).direct[j]
    ensures n == m && i == j
    ensures FIRST_DATA <= Node(disk, n).direct[i] < |disk| && Marked(bb, Node(disk, n).direct[i])
  {
    assert InodeOk(disk, ib, owner, n) && InodeOk(disk, ib, owner, m);
  }

  // ---- Contents ----

  /** The bytes of a file. */
  ghost function FileBytes(disk: seq<Block>, x: DiskInode): (r: seq<byte>)
    requires |x.direct| == DIRECT_BLOCKS && FileOk(disk, x)
    ensures |r| == x.size
  {
    seq(x.size, k requires 0 <= k < x.size => ByteAt(disk, x, k))
  }

  ghost function ByteAt(disk: seq<Block>, x: DiskInode, k: nat): byte
    requires |x.direct| == DIRECT_BLOCKS && FileOk(disk, x) && k < x.size
  {
    assert (k / BLOCK_SIZE) * BLOCK_SIZE < x.size;
    assert FullData(disk[x.direct[k / BLOCK_SIZE]]);
    disk[x.direct[k / BLOCK_SIZE]].bytes[k % BLOCK_SIZE]
  }

  // ---- Directory search and path lookup ----

  /** The inode of the first used entry called `name`, from index `i` on. */
  function Find(entries: seq<DirEntry>, i: nat, name: Name): (r: Option<nat>)
    ensures r.Some? ==> r.value != 0
    decreases |entries| - i
  {
    if i >= |entries| then None
    else if entries[i].inode != 0 && entries[i].name == name then Some(entries[i].inode)
    else Find(entries, i + 1, name)
  }

  function Search(disk: seq<Block>, x: DiskInode, name: Name): Option<nat>
    requires |x.direct| == DIRECT_BLOCKS
  {
    if x.direct[0] == 0 || x.direct[0] >= |disk| || !disk[x.direct[0]].Dir? then None
    else Find(disk[x.direct[0]].entries, 0, name)
  }

  ghost function LookupFrom(disk: seq<Block>, cur: nat, comps: seq<Name>): Result<nat>
    requires Layout(disk) && InodeNumber(cur)
    decreases |comps|
  {
    if comps == [] then Ok(cur)
    else if !IsDir(Node(disk, cur)) then Err(NotDirectory)
    else
      match Search(disk, Node(disk, cur), comps[0])
      case None => Err(NotFound)
      case Some(n) => if n <= TOTAL_INODES then LookupFrom(disk, n, comps[1..]) else Err(Corrupted)
  }

  ghost function Lookup(disk: seq<Block>, path: Name): Result<nat>
    requires Layout(disk)
  {
    LookupFrom(disk, ROOT_INODE, Keep(Split(path), SKIPPED))
  }

  /** What reading `path` yields. */
  ghost function ReadPath(disk: seq<Block>, path: Name): Result<seq<byte>>
    requires Layout(disk)
  {
    match Lookup(disk, path)
    case Err(e) => Err(e)
    case Ok(n) => ReadInode(disk, n)
  }

  ghost function ReadInode(disk: seq<Block>, n: nat): Result<seq<byte>>
    requires Layout(disk)
  {
    if InodeNumber(n) && IsFile(Node(disk, n)) && FileOk(disk, Node(disk, n)) then Ok(FileBytes(disk, Node(disk, n)))
    else Err(IsDirectory)
  }

  lemma {:induction false} FindWithin(ib: seq<bv8>, entries: seq<DirEntry>, i: nat, name: Name)
    requires EntriesOk(ib, entries)
    ensures Find(entries, i, name).Some? ==>
      Find(entries, i, name).value <= TOTAL_INODES && Marked(ib, Find(entries, i, name).value - 1)
    decreases |entries| - i
  {
    if i < |entries| {
      FindWithin(ib, entries, i + 1, name);
    }
  }

  lemma SearchWithin(disk: seq<Block>, bb: seq<bv8>, ib: seq<bv8>, owner: Owners, n: nat, name: Name)
    requires Consistent(disk, bb, ib, owner) && InodeNumber(n) && IsDir(Node(disk, n))
    ensures var r := Search(disk, Node(disk, n), name);
            r.Some? ==> r.value <= TOTAL_INODES && Marked(ib, r.value - 1)
  {
    assert InodeOk(disk, ib, owner, n);
    FindWithin(ib, disk[Node(disk, n).direct[0]].entries, 0, name);
  }

  /** A lookup only ever ends at an allocated inode. */
  lemma {:induction false} LookupWithin(disk: seq<Block>, bb: seq<bv8>, ib: seq<bv8>, owner: Owners, cur: nat, comps: seq<Name>)
    requires Consistent(disk, bb, ib, owner) && InodeNumber(cur) && Marked(ib, cur - 1)
    ensures var r := LookupFrom(disk, cur, comps);
            r.Ok? ==> InodeNumber(r.value) && Marked(ib, r.value - 1)
    decreases |comps|
  {
    if comps != [] && IsDir(Node(disk, cur)) {
      SearchWithin(disk, bb, ib, owner, cur, comps[0]);
      var s := Search(disk, Node(disk, cur), comps[0]);
      if s.Some? {
        LookupWithin(disk, bb, ib, owner, s.value, comps[1..]);
      }
    }
  }

  lemma {:induction false} LookupSnoc(disk: seq<Block>, cur: nat, comps: seq<Name>, name: Name)
    requires Layout(disk) && InodeNumber(cur) && LookupFrom(disk, cur, comps).Ok?
    ensures InodeNumber(LookupFrom(disk, cur, comps).value)
    ensures LookupFrom(disk, cur, comps + [name]) == LookupFrom(disk, LookupFrom(disk, cur, comps).value, [name])
    decreases |comps|
  {
    if comps == [] {
      assert comps + [name] == [name];
    } else {
      assert (comps + [name])[1..] == comps[1..] + [name];
      LookupSnoc(disk, Search(disk, Node(disk, cur), comps[0]).value, comps[1..], name);
    }
  }

  // ---- How lookups move between two disks ----

  /** The directories of two disks answer every search alike. */
  ghost predicate SameDirs(d: seq<Block>, d': seq<Block>)
    requires Layout(d) && Layout(d')
  {
    forall n :: InodeNumber(n) ==> SameDir(d, d', n)
  }

  ghost predicate SameDir(d: seq<Block>, d': seq<Block>, n: nat)
    requires Layout(d) && Layout(d') && InodeNumber(n)
  {
    && IsDir(Node(d, n)) == IsDir(Node(d', n))
    && (IsDir(Node(d, n)) ==> forall name :: Search(d', Node(d', n), name) == Search(d, Node(d, n), name))
  }

  lemma {:induction false} SameDirsLookup(d: seq<Block>, d': seq<Block>, cur: nat, comps: seq<Name>)
    requires Layout(d) && Layout(d') && SameDirs(d, d') && InodeNumber(cur)
    ensures LookupFrom(d', cur, comps) == LookupFrom(d, cur, comps)
    decreases |comps|
  {
    assert SameDir(d, d', cur);
    if comps != [] && IsDir(Node(d, cur)) {
      var s := Search(d, Node(d, cur), comps[0]);
      if s.Some? && s.value <= TOTAL_INODES {
        SameDirsLookup(d, d', s.value, comps[1..]);
      }
    }
  }
}
