// The mounted filesystem object: cached bitmaps and counters over a block device.
module SplaxFs {
  import opened Wrappers
  import opened Paths
  import opened Bitmap
  import opened SplaxDisk
  import opened SplaxSteps
  import opened SplaxStore
  import opened SplaxPaths
  import opened SplaxFormat

  // ---- Creation on values ----

  /** The new inode's slot is filled and nothing else has moved yet. */
  ghost predicate Populated(d: seq<Block>, d1: seq<Block>, n: nat) {
    && Layout(d) && Layout(d1) && |d1| == |d| && InodeNumber(n)
    && forall m: nat :: InodeNumber(m) && m != n ==> Untouched(d, d1, m)
  }

  lemma PopulatedPaths(d: seq<Block>, bb: seq<bv8>, ib: seq<bv8>, ow: Owners, d1: seq<Block>, n: nat)
    requires Consistent(d, bb, ib, ow) && Populated(d, d1, n) && !Marked(ib, n - 1)
    ensures PathsSame(d, d1)
  {
    AllocatedSamePaths(d, bb, ib, ow, d1);
  }

  /** Entering the new inode in its parent adds exactly that name. */
  lemma {:induction false} EnteredName(d: seq<Block>, bb: seq<bv8>, ib: seq<bv8>, ow: Owners, d1: seq<Block>, bb1: seq<bv8>, ib1: seq<bv8>, ow1: Owners,
                    parent: nat, slot: nat, e: DirEntry)
    requires Consistent(d, bb, ib, ow) && Consistent(d1, bb1, ib1, ow1)
    requires InodeNumber(e.inode) && Populated(d, d1, e.inode) && !Marked(ib, e.inode - 1) && Marked(ib1, e.inode - 1)
    requires InodeNumber(parent) && parent != e.inode && IsDir(Node(d, parent))
    requires DirOk(d1, ib1, Node(d1, parent)) && FreeEntry(d1[Node(d1, parent).direct[0]].entries, 0) == Some(slot)
    ensures var d2 := AddEntry(d1, Node(d1, parent).direct[0], slot, e);
            && Consistent(d2, bb1, ib1, ow1) && NameAdded(d, d2, ib, parent, e.name, e.inode)
            && ReadInode(d2, e.inode) == ReadInode(d1, e.inode) && SameDir(d1, d2, e.inode)
  {
    assert Untouched(d, d1, parent);
    AddEntryKeeps(d1, bb1, ib1, ow1, parent, slot, e);
    var d2 := AddEntry(d1, Node(d1, parent).direct[0], slot, e);
    forall m: nat | InodeNumber(m) && Marked(ib, m - 1)
      ensures ReadInode(d2, m) == ReadInode(d, m)
      ensures m != parent ==> SameDir(d, d2, m)
    {
      if m != parent {
        assert Untouched(d, d1, m) && SameDir(d1, d2, m);
      }
    }
  }

  /** Writing the superblock and the two bitmaps touches no inode and no data block. */
  lemma SyncKeeps(d: seq<Block>, bb: seq<bv8>, ib: seq<bv8>, ow: Owners, b0: Block, b1: Block, b2: Block)
    requires Consistent(d, bb, ib, ow)
    ensures var d' := d[1 := b1][2 := b2][0 := b0];
            && Consistent(d', bb, ib, ow)
            && SameDirs(d, d')
            && (forall m: nat :: InodeNumber(m) ==> ReadInode(d', m) == ReadInode(d, m) && Node(d', m) == Node(d, m))
  {
    var d' := d[1 := b1][2 := b2][0 := b0];
    forall m: nat | InodeNumber(m)
      ensures Layout(d') && Node(d', m) == Node(d, m)
      ensures InodeOk(d', ib, ow, m) && ReadInode(d', m) == ReadInode(d, m) && SameDir(d, d', m)
    {
      NodeAfterBlock(d, 1, b1, m);
      NodeAfterBlock(d[1 := b1], 2, b2, m);
      NodeAfterBlock(d[1 := b1][2 := b2], 0, b0, m);
      assert InodeOk(d, ib, ow, m);
      OtherBlocksKept(d, bb, ib, ow, d', m);
      FrameInode(d, d', ib, ib, ow, ow, m);
      FrameRead(d, d', m);
      FrameSearch(d, d', m);
    }
    NodeAfterBlock(d, 1, b1, ROOT_INODE);
    NodeAfterBlock(d[1 := b1], 2, b2, ROOT_INODE);
    NodeAfterBlock(d[1 := b1][2 := b2], 0, b0, ROOT_INODE);
  }

  lemma SameDirsPaths(d: seq<Block>, d': seq<Block>)
    requires Layout(d) && Layout(d') && SameDirs(d, d')
    requires forall m: nat :: InodeNumber(m) ==> ReadInode(d', m) == ReadInode(d, m)
    ensures PathsSame(d, d')
  {
    forall q
      ensures Lookup(d', q) == Lookup(d, q) && ReadPath(d', q) == ReadPath(d, q)
    {
      SameDirsLookup(d, d', ROOT_INODE, Keep(Split(q), SKIPPED));
    }
  }

  // ---- The object ----

  class SplaxFs {
    var disk: seq<Block>
    var superblock: Superblock
    var blockBitmap: seq<bv8>
    var inodeBitmap: seq<bv8>
    ghost var owner: Owners

    ghost predicate Valid()
      reads this
    {
      && Consistent(disk, blockBitmap, inodeBitmap, owner)
      && superblock.totalBlocks == |disk| && superblock.totalInodes == TOTAL_INODES && superblock.firstDataBlock == FIRST_DATA
      && Counted(superblock, blockBitmap, inodeBitmap)
    }

    /** The device holds what the cached superblock and bitmaps say, so mounting again loses nothing. */
    ghost predicate Synced()
      reads this
    {
      |disk| >= 3 && disk[0] == Super(superblock) && disk[1] == Bits(blockBitmap) && disk[2] == Bits(inodeBitmap)
    }

    /** `mount` takes the first three blocks as they are, and checks nothing more about them. */
    constructor Mount(device: seq<Block>, ghost ow: Owners)
      requires |device| >= 3 && device[0].Super? && device[1].Bits? && device[2].Bits?
      ensures Synced() && disk == device && owner == ow
      ensures Valid() <==> Mountable(device, ow)
    {
      disk := device;
      superblock := device[0].sb;
      blockBitmap := device[1].bitmap;
      inodeBitmap := device[2].bitmap;
      owner := ow;
    }

    lemma SyncedIsMountable()
      requires Valid() && Synced()
      ensures Mountable(disk, owner)
    {
    }

    /** How many data blocks the allocator can still hand out. */
    ghost function FreeBlocks(): nat
      requires Valid()
      reads this
    {
      Clear(blockBitmap, FIRST_DATA, |disk|)
    }

    ghost function FreeInodes(): nat
      requires Valid()
      reads this
    {
      Clear(inodeBitmap, 0, TOTAL_INODES)
    }

    method AllocInode() returns (r: Result<nat>)
      requires Valid()
      modifies this`inodeBitmap, this`superblock
      ensures Valid()
      ensures r.Ok? <==> old(FreeInodes()) > 0
      ensures r.Err? ==> r == Err(NoSpace) && inodeBitmap == old(inodeBitmap) && superblock == old(superblock)
      ensures r.Ok? ==>
        && InodeNumber(r.value) && Available(old(inodeBitmap), r.value - 1) && Unused(Node(disk, r.value))
        && inodeBitmap == Mark(old(inodeBitmap), r.value - 1) && Marked(inodeBitmap, r.value - 1)
        && old(superblock).freeInodes > 0
        && superblock == old(superblock).(freeInodes := old(superblock).freeInodes - 1)
    {
      var i, bm := AllocFirst(inodeBitmap, 0, superblock.totalInodes);
      if i.None? {
        return Err(NoSpace);
      }
      MarkCounts(inodeBitmap, 0, superblock.totalInodes, i.value);
      ClearAndCount(inodeBitmap, 0, superblock.totalInodes);
      MarkInodeKeeps(disk, blockBitmap, inodeBitmap, owner, i.value + 1);
      inodeBitmap := bm;
      superblock := superblock.(freeInodes := superblock.freeInodes - 1);
      return Ok(i.value + 1);
    }

    method AllocBlock() returns (r: Result<nat>)
      requires Valid()
      modifies this`blockBitmap, this`superblock
      ensures Valid()
      ensures r.Ok? <==> old(FreeBlocks()) > 0
      ensures r.Err? ==> r == Err(NoSpace) && blockBitmap == old(blockBitmap) && superblock == old(superblock)
      ensures r.Ok? ==>
        && FIRST_DATA <= r.value < |disk| && Available(old(blockBitmap), r.value) && r.value !in owner
        && blockBitmap == Mark(old(blockBitmap), r.value) && Marked(blockBitmap, r.value)
        && FreeBlocks() == old(FreeBlocks()) - 1
        && old(superblock).freeBlocks > 0
        && superblock == old(superblock).(freeBlocks := old(superblock).freeBlocks - 1)
    {
      var i, bm := AllocFirst(blockBitmap, superblock.firstDataBlock, superblock.totalBlocks);
      if i.None? {
        return Err(NoSpace);
      }
      MarkCounts(blockBitmap, superblock.firstDataBlock, superblock.totalBlocks, i.value);
      ClearAndCount(blockBitmap, superblock.firstDataBlock, superblock.totalBlocks);
      MarkBlockKeeps(disk, blockBitmap, inodeBitmap, owner, i.value);
      blockBitmap := bm;
      superblock := superblock.(freeBlocks := superblock.freeBlocks - 1);
      return Ok(i.value);
    }

    method SyncBitmaps()
      requires Valid()
      modifies this`disk
      ensures Valid() && Synced() && |disk| == |old(disk)|
      ensures SameDirs(old(disk), disk)
      ensures forall m: nat :: InodeNumber(m) ==> ReadInode(disk, m) == ReadInode(old(disk), m)
    {
      SyncKeeps(disk, blockBitmap, inodeBitmap, owner, Super(superblock), Bits(blockBitmap), Bits(inodeBitmap));
      disk := disk[1 := Bits(blockBitmap)];
      disk := disk[2 := Bits(inodeBitmap)];
      disk := disk[0 := Super(superblock)];
    }

    // ---- Creating ----

    ghost predicate CanCreate(path: Name, blocks: nat)
      requires Valid()
      reads this
    {
      && SplitLast(path).Some? && |SplitLast(path).value.1| <= MAX_FILENAME
      && FreeInodes() > 0 && FreeBlocks() >= blocks
      && HasRoom(disk, path)
    }

    method FindParent(path: Name) returns (r: Result<nat>)
      requires Valid() && SplitLast(path).Some?
      ensures r.Ok? ==>
        && Lookup(disk, SplitLast(path).value.0) == r && InodeNumber(r.value) && Marked(inodeBitmap, r.value - 1)
        && IsDir(Node(disk, r.value)) && DirOk(disk, inodeBitmap, Node(disk, r.value))
      ensures r.Err? ==> !HasRoom(disk, path)
    {
      var (parentPath, name) := SplitLast(path).value;
      LeadingSlash(disk, parentPath);
      r := LookupPath(disk, [SLASH] + parentPath, blockBitmap, inodeBitmap, owner);
      if r.Ok? {
        assert InodeOk(disk, inodeBitmap, owner, r.value);
        var parentInode := Node(disk, r.value);
        if !IsDir(parentInode) {
          return Err(NotDirectory);
        }
      }
    }

    /** `add_dirent_static`: the first unused entry of the parent's block takes the new name. */
    method AddDirent(parent: nat, e: DirEntry) returns (r: Result<()>)
      requires Valid() && InodeNumber(parent) && IsDir(Node(disk, parent)) && DirOk(disk, inodeBitmap, Node(disk, parent))
      requires InodeNumber(e.inode) && Marked(inodeBitmap, e.inode - 1)
      modifies this`disk
      ensures Valid()
      ensures var slot := FreeEntry(old(disk)[Node(old(disk), parent).direct[0]].entries, 0);
        && (slot.None? ==> r == Err(NoSpace) && disk == old(disk))
        && (slot.Some? ==> r == Ok(()) && disk == AddEntry(old(disk), Node(old(disk), parent).direct[0], slot.value, e))
    {
      var p := Node(disk, parent).direct[0];
      var entries := disk[p].entries;
      var i := 0;
      while i < |entries|
        invariant 0 <= i <= |entries|
        invariant FreeEntry(entries, 0) == FreeEntry(entries, i)
      {
        if entries[i].inode == 0 {
          AddEntryKeeps(disk, blockBitmap, inodeBitmap, owner, parent, i, e);
          disk := AddEntry(disk, p, i, e);
          return Ok(());
        }
        i := i + 1;
      }
      return Err(NoSpace);
    }

    /** The shared tail of the two creates: enter the populated inode in its parent and sync. `d`,
        `bb`, `ib` and `ow` are the state before the create began. */
    method Enter(path: Name, parent: nat, e: DirEntry, ghost d: seq<Block>, ghost bb: seq<bv8>, ghost ib: seq<bv8>, ghost ow: Owners)
      returns (r: Result<()>)
      requires Valid() && SplitLast(path).Some? && e.name == SplitLast(path).value.1
      requires Consistent(d, bb, ib, ow) && InodeNumber(e.inode) && Populated(d, disk, e.inode)
      requires !Marked(ib, e.inode - 1) && Marked(inodeBitmap, e.inode - 1)
      requires InodeNumber(parent) && Marked(ib, parent - 1) && Lookup(d, SplitLast(path).value.0) == Ok(parent)
      requires IsDir(Node(d, parent))
      modifies this`disk
      ensures Valid() && (r.Ok? ==> Synced())
      ensures r.Ok? <==> HasRoom(d, path)
      ensures r.Ok? ==> Created(d, disk, path, e.inode) && SameInode(old(disk), disk, e.inode)
      ensures r.Err? ==> PathsSame(d, disk)
    {
      ghost var d1 := disk;
      RoomIsKept(d, bb, ib, ow, d1, blockBitmap, inodeBitmap, owner, path, parent, e.inode);
      r := EnterName(path, parent, e, d, bb, ib, ow);
      if r.Ok? {
        SyncCreated(path, e.inode, d, d1);
      }
    }

    /** The entry alone. */
    method EnterName(path: Name, parent: nat, e: DirEntry, ghost d: seq<Block>, ghost bb: seq<bv8>, ghost ib: seq<bv8>, ghost ow: Owners)
      returns (r: Result<()>)
      requires Valid() && SplitLast(path).Some? && e.name == SplitLast(path).value.1
      requires Consistent(d, bb, ib, ow) && InodeNumber(e.inode) && Populated(d, disk, e.inode)
      requires !Marked(ib, e.inode - 1) && Marked(inodeBitmap, e.inode - 1)
      requires InodeNumber(parent) && parent != e.inode && Lookup(d, SplitLast(path).value.0) == Ok(parent) && IsDir(Node(d, parent))
      requires IsDir(Node(disk, parent)) && DirOk(disk, inodeBitmap, Node(disk, parent))
      modifies this`disk
      ensures Valid()
      ensures r.Ok? <==> FreeEntry(old(disk)[Node(old(disk), parent).direct[0]].entries, 0).Some?
      ensures r.Ok? ==> Created(d, disk, path, e.inode) && SameInode(old(disk), disk, e.inode)
      ensures r.Err? ==> disk == old(disk)
    {
      ghost var slot := FreeEntry(disk[Node(disk, parent).direct[0]].entries, 0);
      if slot.Some? {
        EnteredIsCreated(d, bb, ib, ow, disk, blockBitmap, inodeBitmap, owner, path, parent, slot.value, e);
      }
      r := AddDirent(parent, e);
    }

    /** Syncing after the name was entered. */
    method SyncCreated(path: Name, child: nat, ghost d: seq<Block>, ghost d1: seq<Block>)
      requires Valid() && Layout(d) && Layout(d1) && InodeNumber(child)
      requires Created(d, disk, path, child) && SameInode(d1, disk, child)
      modifies this`disk
      ensures Valid() && Synced() && Created(d, disk, path, child) && SameInode(d1, disk, child)
    {
      ghost var d2 := disk;
      SyncBitmaps();
      SyncedIsCreated(d, d1, d2, disk, path, child);
    }

    /** Writes the empty file inode into its slot. */
    method PopulateFile(n: nat)
      requires Valid() && InodeNumber(n) && Unused(Node(disk, n)) && Marked(inodeBitmap, n - 1)
      modifies this`disk
      ensures Valid() && Populated(old(disk), disk, n) && ReadInode(disk, n) == Ok([])
    {
      NewFileKeeps(disk, blockBitmap, inodeBitmap, owner, n);
      disk := WriteInode(disk, n, NEW_FILE);
    }

    /** Writes the directory inode and its block with "." and "..". */
    method PopulateDir(n: nat, b: nat, parent: nat)
      requires Valid() && InodeNumber(n) && Unused(Node(disk, n)) && Marked(inodeBitmap, n - 1)
      requires FIRST_DATA <= b < |disk| && b !in owner && Marked(blockBitmap, b)
      requires InodeNumber(parent) && Marked(inodeBitmap, parent - 1)
      modifies this`disk, this`owner
      ensures Valid() && Populated(old(disk), disk, n) && EmptyDir(disk, n, parent)
    {
      NewDirectoryKeeps(disk, blockBitmap, inodeBitmap, owner, n, b, parent);
      disk := WriteInode(disk, n, NewDirectory(b));
      disk := disk[b := Dir(NewEntries(n, parent))];
      owner := owner[b := Slot(n, 0)];
    }

    method CreateFile(path: Name) returns (r: Result<()>)
      requires Valid()
      modifies this
      ensures Valid() && (r.Ok? ==> Synced())
      ensures r.Ok? <==> old(CanCreate(path, 0))
      ensures r.Ok? ==> FileCreated(old(disk), disk, path)
      ensures r.Err? ==> PathsSame(old(disk), disk)
      ensures blockBitmap == old(blockBitmap)
    {
      var last := SplitLast(path);
      if last.None? {
        return Err(InvalidArg);
      }
      var (parentPath, name) := last.value;
      if |name| > MAX_FILENAME {
        return Err(NameTooLong);
      }
      ghost var ib := inodeBitmap;
      var n := AllocInode();
      if n.Err? {
        return Err(n.error);
      }
      r := FillFile(path, n.value, ib);
    }

    /** The part of `create_file` that runs with its inode number in hand. */
    method FillFile(path: Name, n: nat, ghost ib: seq<bv8>) returns (r: Result<()>)
      requires Valid() && Reserved(path, n, ib)
      modifies this`disk
      ensures Valid() && (r.Ok? ==> Synced())
      ensures r.Ok? <==> HasRoom(old(disk), path)
      ensures r.Ok? ==> FileCreated(old(disk), disk, path)
      ensures r.Err? ==> PathsSame(old(disk), disk)
    {
      var parent := FindParent(path);
      if parent.Err? {
        return Err(parent.error);
      }
      ParentIsAllocated(disk, blockBitmap, ib, owner, path, parent.value);
      PopulateFile(n);
      r := Enter(path, parent.value, DirEntry(n, Regular, SplitLast(path).value.1), old(disk), blockBitmap, ib, owner);
    }

    /** `n` was just allocated: the disk was consistent with the bitmap `ib` that did not have it. */
    ghost predicate Reserved(path: Name, n: nat, ib: seq<bv8>)
      requires Valid()
      reads this
    {
      && SplitLast(path).Some? && InodeNumber(n) && Unused(Node(disk, n))
      && Consistent(disk, blockBitmap, ib, owner) && !Marked(ib, n - 1) && Marked(inodeBitmap, n - 1)
    }

    /** As `create_file`, with a block for the directory's own entries. */
    method CreateDir(path: Name) returns (r: Result<()>)
      requires Valid()
      modifies this
      ensures Valid() && (r.Ok? ==> Synced())
      ensures r.Ok? <==> old(CanCreate(path, 1))
      ensures r.Ok? ==> DirCreated(old(disk), disk, path)
      ensures r.Err? ==> PathsSame(old(disk), disk)
    {
      var last := SplitLast(path);
      if last.None? {
        return Err(InvalidArg);
      }
      var (parentPath, name) := last.value;
      if |name| > MAX_FILENAME {
        return Err(NameTooLong);
      }
      ghost var ib := inodeBitmap;
      var n := AllocInode();
      if n.Err? {
        return Err(n.error);
      }
      r := AllocAndFillDir(path, n.value, ib);
    }

    /** The part of `create_dir` that runs with its inode number in hand. */
    method AllocAndFillDir(path: Name, n: nat, ghost ib: seq<bv8>) returns (r: Result<()>)
      requires Valid() && Reserved(path, n, ib)
      modifies this
      ensures Valid() && (r.Ok? ==> Synced())
      ensures r.Ok? <==> old(FreeBlocks()) >= 1 && HasRoom(old(disk), path)
      ensures r.Ok? ==> DirCreated(old(disk), disk, path)
      ensures r.Err? ==> PathsSame(old(disk), disk)
    {
      ghost var bb := blockBitmap;
      var b := AllocBlock();
      if b.Err? {
        return Err(b.error);
      }
      MarkBlockKeeps(disk, bb, ib, owner, b.value);
      r := FillDir(path, n, b.value, ib);
    }

    method FillDir(path: Name, n: nat, b: nat, ghost ib: seq<bv8>) returns (r: Result<()>)
      requires Valid() && Reserved(path, n, ib)
      requires FIRST_DATA <= b < |disk| && b !in owner && Marked(blockBitmap, b)
      modifies this`disk, this`owner
      ensures Valid() && (r.Ok? ==> Synced())
      ensures r.Ok? <==> HasRoom(old(disk), path)
      ensures r.Ok? ==> DirCreated(old(disk), disk, path)
      ensures r.Err? ==> PathsSame(old(disk), disk)
    {
      var parent := FindParent(path);
      if parent.Err? {
        return Err(parent.error);
      }
      ParentIsAllocated(disk, blockBitmap, ib, owner, path, parent.value);
      r := PlaceDir(path, n, b, parent.value, ib);
    }

    /** With the parent found. */
    method PlaceDir(path: Name, n: nat, b: nat, parent: nat, ghost ib: seq<bv8>) returns (r: Result<()>)
      requires Valid() && Reserved(path, n, ib)
      requires FIRST_DATA <= b < |disk| && b !in owner && Marked(blockBitmap, b)
      requires InodeNumber(parent) && Marked(ib, parent - 1) && Marked(inodeBitmap, parent - 1)
      requires Lookup(disk, SplitLast(path).value.0) == Ok(parent) && IsDir(Node(disk, parent))
      modifies this`disk, this`owner
      ensures Valid() && (r.Ok? ==> Synced())
      ensures r.Ok? <==> HasRoom(old(disk), path)
      ensures r.Ok? ==> DirCreated(old(disk), disk, path)
      ensures r.Err? ==> PathsSame(old(disk), disk)
    {
      ghost var d, ow := disk, owner;
      PopulateDir(n, b, parent);
      r := Enter(path, parent, DirEntry(n, Directory, SplitLast(path).value.1), d, blockBitmap, ib, ow);
    }

    // ---- Reading and writing ----

    method ReadFile(path: Name) returns (r: Result<seq<byte>>)
      requires Valid()
      ensures r == ReadPath(disk, path)
    {
      var n := LookupPath(disk, path, blockBitmap, inodeBitmap, owner);
      if n.Err? {
        return Err(n.error);
      }
      assert InodeOk(disk, inodeBitmap, owner, n.value);
      var inode := Node(disk, n.value);
      if !IsFile(inode) {
        return Err(IsDirectory);
      }
      var data := ReadBlocks(disk, inode);
      return Ok(data);
    }

    /** Takes `needed` blocks one by one. On failure the ones already taken stay marked. */
    method AllocBlocks(needed: nat) returns (r: Result<seq<nat>>)
      requires Valid()
      modifies this`blockBitmap, this`superblock
      ensures Valid()
      ensures r.Ok? <==> old(FreeBlocks()) >= needed
      ensures r.Err? ==> FreeBlocks() == 0
      ensures r.Ok? ==> |r.value| == needed && Fresh(disk, blockBitmap, owner, r.value) && FreeBlocks() == old(FreeBlocks()) - needed
    {
      var blocks: seq<nat> := [];
      while |blocks| < needed
        invariant Valid() && |blocks| <= needed && Fresh(disk, blockBitmap, owner, blocks)
        invariant FreeBlocks() == old(FreeBlocks()) - |blocks|
        modifies this`blockBitmap, this`superblock
      {
        ghost var bb := blockBitmap;
        var b := AllocBlock();
        if b.Err? {
          return Err(b.error);
        }
        StillFresh(disk, bb, owner, blocks, b.value);
        blocks := blocks + [b.value];
      }
      return Ok(blocks);
    }

    /** Succeeds exactly when the data fits twelve blocks, that many blocks are free (even for a
        rewrite that needs none of them) and `path` leads to a file. Then the file holds the data,
        every path leads where it led, and every path to another inode reads as before. The blocks
        taken stay taken. */
    method WriteFile(path: Name, data: seq<byte>) returns (r: Result<()>)
      requires Valid()
      modifies this
      ensures Valid() && (r.Ok? ==> Synced())
      ensures r.Ok? <==> BlocksNeeded(|data|) <= DIRECT_BLOCKS && old(FreeBlocks()) >= BlocksNeeded(|data|) && ReadPath(old(disk), path).Ok?
      ensures r.Err? ==> disk == old(disk)
      ensures r.Ok? ==> Rewritten(old(disk), disk, path, data)
      ensures r.Ok? ==> FreeBlocks() == old(FreeBlocks()) - BlocksNeeded(|data|)
    {
      var needed := BlocksNeeded(|data|);
      if needed > DIRECT_BLOCKS {
        return Err(NoSpace);
      }
      var blocks := AllocBlocks(needed);
      if blocks.Err? {
        return Err(blocks.error);
      }
      r := StoreFile(path, data, blocks.value);
    }

    method StoreFile(path: Name, data: seq<byte>, newBlocks: seq<nat>) returns (r: Result<()>)
      requires Valid() && |newBlocks| == BlocksNeeded(|data|) <= DIRECT_BLOCKS && Fresh(disk, blockBitmap, owner, newBlocks)
      modifies this`disk, this`owner
      ensures Valid() && (r.Ok? ==> Synced()) && |disk| == |old(disk)|
      ensures r.Ok? <==> ReadPath(old(disk), path).Ok?
      ensures r.Err? ==> disk == old(disk)
      ensures r.Ok? ==> Rewritten(old(disk), disk, path, data)
    {
      var n := LookupPath(disk, path, blockBitmap, inodeBitmap, owner);
      if n.Err? {
        return Err(n.error);
      }
      assert InodeOk(disk, inodeBitmap, owner, n.value);
      var inode := Node(disk, n.value);
      if !IsFile(inode) {
        return Err(IsDirectory);
      }
      FilledIsPlaceable(disk, blockBitmap, inodeBitmap, owner, n.value, newBlocks);
      var disk' := StoreData(disk, n.value, newBlocks, data);
      StoreKeeps(disk, blockBitmap, inodeBitmap, owner, n.value, newBlocks, data, disk');
      StorePaths(disk, disk', path, n.value, data);
      owner := Claim(owner, Filled(inode.direct, newBlocks, |newBlocks|), n.value, |newBlocks|);
      disk := disk';
      SyncBitmaps();
      SameDirsPaths(disk', disk);
      return Ok(());
    }
  }

  lemma StillFresh(d: seq<Block>, bb: seq<bv8>, ow: Owners, blocks: seq<nat>, b: nat)
    requires Fresh(d, bb, ow, blocks) && Available(bb, b) && FIRST_DATA <= b < |d| && b !in ow
    ensures Fresh(d, Mark(bb, b), ow, blocks + [b])
  {
    forall j
      ensures Marked(Mark(bb, b), j) <==> j == b || Marked(bb, j)
    {
      MarkSetsOne(bb, b, j);
    }
  }

  /** The read loop: whole blocks in pointer order, up to the size. */
  method ReadBlocks(disk: seq<Block>, inode: DiskInode) returns (data: seq<byte>)
    requires |inode.direct| == DIRECT_BLOCKS && FileOk(disk, inode)
    ensures data == FileBytes(disk, inode)
  {
    var fileSize := inode.size;
    data := seq(fileSize, i => 0);
    var offset := 0;
    var i := 0;
    while i < DIRECT_BLOCKS
      invariant 0 <= i <= DIRECT_BLOCKS && |data| == fileSize
      invariant offset == (if i * BLOCK_SIZE <= fileSize then i * BLOCK_SIZE else fileSize)
      invariant forall k :: 0 <= k < offset ==> data[k] == ByteAt(disk, inode, k)
    {
      if inode.direct[i] == 0 || offset >= fileSize {
        break;
      }
      assert FullData(disk[inode.direct[i]]);
      var block := disk[inode.direct[i]].bytes;
      var end := if offset + BLOCK_SIZE <= fileSize then offset + BLOCK_SIZE else fileSize;
      data := data[..offset] + block[..end - offset] + data[end..];
      forall k | 0 <= k < end
        ensures data[k] == ByteAt(disk, inode, k)
      {
        if offset <= k {
          assert k / BLOCK_SIZE == i && k % BLOCK_SIZE == k - offset;
        }
      }
      offset := end;
      i := i + 1;
    }
    assert offset == fileSize;
  }

  /** The first i pointers are as they will be, the others as they were. */
  ghost predicate FilledBelow(direct: seq<nat>, r: seq<nat>, was: seq<nat>, i: nat)
    requires |direct| == |r| == |was| && i <= |r|
  {
    (forall j :: 0 <= j < i ==> direct[j] == r[j]) && forall j :: i <= j < |r| ==> direct[j] == was[j]
  }

  lemma HeldBelow(direct: seq<nat>, extra: seq<nat>, i: nat)
    requires i < |extra| <= |direct|
    requires forall i, j :: 0 <= i < j < |direct| && direct[i] == 0 ==> direct[j] == 0
    ensures direct[i] == 0 <==> Held(direct) <= i
    ensures Filled(direct, extra, |extra|)[i] == if direct[i] == 0 then extra[i - Held(direct)] else direct[i]
  {
  }

  /** One block of the data, the last one padded with zeros. */
  method Padded(data: seq<byte>, offset: nat, end: nat, ghost i: nat) returns (block: seq<byte>)
    requires offset == i * BLOCK_SIZE < |data|
    requires end == if offset + BLOCK_SIZE <= |data| then offset + BLOCK_SIZE else |data|
    ensures block == Chunk(data, i)
  {
    block := data[offset..end] + seq(BLOCK_SIZE - (end - offset), z => 0);
  }

  /** The write loop. Its own "no block left" exit cannot be taken: at most one block is used per
      round. */
  method StoreLoop(d: seq<Block>, inode: DiskInode, newBlocks: seq<nat>, data: seq<byte>) returns (d': seq<Block>, direct: seq<nat>)
    requires |inode.direct| == DIRECT_BLOCKS && |newBlocks| == BlocksNeeded(|data|) <= DIRECT_BLOCKS
    requires forall i :: 0 <= i < |newBlocks| ==> Filled(inode.direct, newBlocks, |newBlocks|)[i] < |d|
    requires forall i, j :: 0 <= i < j < DIRECT_BLOCKS && inode.direct[i] == 0 ==> inode.direct[j] == 0
    ensures direct == Filled(inode.direct, newBlocks, |newBlocks|)
    ensures d' == Stored(d, direct, data, |newBlocks|)
  {
    direct := inode.direct;
    ghost var r := Filled(inode.direct, newBlocks, |newBlocks|);
    ghost var k := Held(inode.direct);
    d' := d;
    var offset, blockIdx := 0, 0;
    var i := 0;
    while i < |newBlocks|
      invariant 0 <= i <= |newBlocks| && |direct| == DIRECT_BLOCKS
      invariant offset == (if i * BLOCK_SIZE <= |data| then i * BLOCK_SIZE else |data|)
      invariant blockIdx == (if i <= k then 0 else i - k)
      invariant FilledBelow(direct, r, inode.direct, i)
      invariant d' == Stored(d, r, data, i)
    {
      HeldBelow(inode.direct, newBlocks, i);
      if direct[i] == 0 {
        direct := direct[i := newBlocks[blockIdx]];
        blockIdx := blockIdx + 1;
      }
      assert direct[i] == r[i];
      var end := if offset + BLOCK_SIZE <= |data| then offset + BLOCK_SIZE else |data|;
      var block := Padded(data, offset, end, i);
      d' := d'[direct[i] := Data(block)];
      offset := end;
      i := i + 1;
    }
    assert direct == r;
  }

  method StoreData(d: seq<Block>, n: nat, newBlocks: seq<nat>, data: seq<byte>) returns (d': seq<Block>)
    requires Layout(d) && InodeNumber(n) && |newBlocks| == BlocksNeeded(|data|) <= DIRECT_BLOCKS
    requires Placeable(d, n, newBlocks)
    requires forall i, j :: 0 <= i < j < DIRECT_BLOCKS && Node(d, n).direct[i] == 0 ==> Node(d, n).direct[j] == 0
    ensures AfterStore(d, n, newBlocks, data, d')
  {
    var inode := Node(d, n);
    var d1, direct := StoreLoop(d, inode, newBlocks, data);
    StoreEffect(d, n, newBlocks, data);
    d' := WriteInode(d1, n, inode.(size := |data|, direct := direct));
  }

  /** After `write_file`: the path reads back the data, no path moved, and paths to other inodes read
      as before. */
  ghost predicate Rewritten(d: seq<Block>, d': seq<Block>, path: Name, data: seq<byte>)
    requires Layout(d) && Layout(d')
  {
    && ReadPath(d', path) == Ok(data)
    && (forall q :: Lookup(d', q) == Lookup(d, q))
    && (forall q :: Lookup(d, q) != Lookup(d, path) ==> ReadPath(d', q) == ReadPath(d, q))
  }

  // ---- Outcomes of a create, over the disk before and after ----

  ghost predicate HasRoom(d: seq<Block>, path: Name)
    requires Layout(d) && SplitLast(path).Some?
  {
    var p := Lookup(d, SplitLast(path).value.0);
    && p.Ok? && InodeNumber(p.value) && IsDir(Node(d, p.value))
    && var b := Node(d, p.value).direct[0];
    && b < |d| && d[b].Dir? && FreeEntry(d[b].entries, 0).Some?
  }

  /** `child` was unreachable and is now entered in the parent part's directory under the last component.
      `path` leads to it exactly when `path` led nowhere before: the source does not check for an
      existing name. Every path fares accordingly. */
  ghost predicate Created(d: seq<Block>, d': seq<Block>, path: Name, child: nat)
    requires Layout(d) && Layout(d')
  {
    && SplitLast(path).Some? && InodeNumber(child)
    && (Lookup(d, path).Ok? || Lookup(d, path) == Err(NotFound))
    && (Lookup(d, path) == Err(NotFound) ==> Lookup(d', path) == Ok(child))
    && (forall q :: Lookup(d, q) != Ok(child))
    && var parent := Lookup(d, SplitLast(path).value.0);
    && parent.Ok? && InodeNumber(parent.value)
    && forall q :: Fares(d, d', parent.value, SplitLast(path).value.1, child, q)
  }

  /** After `create_file`: a path that led nowhere now leads to a new, empty file. */
  ghost predicate FileCreated(d: seq<Block>, d': seq<Block>, path: Name)
    requires Layout(d) && Layout(d')
  {
    exists child: nat :: Created(d, d', path, child) && ReadInode(d', child) == Ok([])
  }

  /** After `create_dir`: a path that led nowhere now leads to a new directory with only its two
      standing entries, the second naming the directory the parent part leads to. */
  ghost predicate DirCreated(d: seq<Block>, d': seq<Block>, path: Name)
    requires Layout(d) && Layout(d')
  {
    && SplitLast(path).Some? && Lookup(d, SplitLast(path).value.0).Ok?
    && exists child: nat :: Created(d, d', path, child) &&
                            EmptyDir(d', child, Lookup(d, SplitLast(path).value.0).value)
  }

  /** From a directory just created, two dots lead back to the directory it was created in. */
  lemma {:induction false} CreatedDirLeadsBack(d: seq<Block>, d': seq<Block>, path: Name)
    requires Layout(d) && Layout(d') && DirCreated(d, d', path) && Lookup(d, path) == Err(NotFound)
    ensures Lookup(d', path + [SLASH] + DOT_DOT) == Lookup(d, SplitLast(path).value.0)
  {
    var parent := Lookup(d, SplitLast(path).value.0).value;
    var child: nat :| Created(d, d', path, child) && EmptyDir(d', child, parent);
    var comps := Keep(Split(path), SKIPPED);
    KeepParentAndName(path, DOT_DOT, SKIPPED);
    LookupSnoc(d', ROOT_INODE, comps, DOT_DOT);
    assert [DOT_DOT][1..] == [];
  }

  lemma {:induction false} ParentIsAllocated(d: seq<Block>, bb: seq<bv8>, ib: seq<bv8>, ow: Owners, path: Name, parent: nat)
    requires Consistent(d, bb, ib, ow) && SplitLast(path).Some? && Lookup(d, SplitLast(path).value.0) == Ok(parent)
    ensures InodeNumber(parent) && Marked(ib, parent - 1)
  {
    LookupWithin(d, bb, ib, ow, ROOT_INODE, Keep(Split(SplitLast(path).value.0), SKIPPED));
  }

  ghost predicate EmptyDir(d: seq<Block>, n: nat, parent: nat)
    requires Layout(d) && InodeNumber(n)
  {
    && IsDir(Node(d, n)) && Search(d, Node(d, n), DOT) == Some(n) && Search(d, Node(d, n), DOT_DOT) == Some(parent)
    && forall name :: name != DOT && name != DOT_DOT ==> Search(d, Node(d, n), name) == None
  }

  ghost predicate SameInode(d: seq<Block>, d': seq<Block>, n: nat)
    requires Layout(d) && Layout(d') && InodeNumber(n)
  {
    ReadInode(d', n) == ReadInode(d, n) && SameDir(d, d', n)
  }

  /** Populating the child leaves the parent's directory block alone. */
  lemma RoomIsKept(d: seq<Block>, bb: seq<bv8>, ib: seq<bv8>, ow: Owners, d1: seq<Block>, bb1: seq<bv8>, ib1: seq<bv8>, ow1: Owners,
                   path: Name, parent: nat, child: nat)
    requires Consistent(d, bb, ib, ow) && Consistent(d1, bb1, ib1, ow1) && Populated(d, d1, child) && !Marked(ib, child - 1)
    requires SplitLast(path).Some? && InodeNumber(parent) && parent != child
    requires Lookup(d, SplitLast(path).value.0) == Ok(parent) && IsDir(Node(d, parent))
    ensures IsDir(Node(d1, parent)) && DirOk(d1, ib1, Node(d1, parent))
    ensures HasRoom(d, path) <==> FreeEntry(d1[Node(d1, parent).direct[0]].entries, 0).Some?
    ensures PathsSame(d, d1)
  {
    assert InodeOk(d, ib, ow, parent) && InodeOk(d1, ib1, ow1, parent);
    assert Untouched(d, d1, parent);
    PopulatedPaths(d, bb, ib, ow, d1, child);
  }

  lemma EnteredIsCreated(d: seq<Block>, bb: seq<bv8>, ib: seq<bv8>, ow: Owners, d1: seq<Block>, bb1: seq<bv8>, ib1: seq<bv8>, ow1: Owners,
                         path: Name, parent: nat, slot: nat, e: DirEntry)
    requires Consistent(d, bb, ib, ow) && Consistent(d1, bb1, ib1, ow1)
    requires InodeNumber(e.inode) && Populated(d, d1, e.inode) && !Marked(ib, e.inode - 1) && Marked(ib1, e.inode - 1)
    requires SplitLast(path).Some? && e.name == SplitLast(path).value.1
    requires InodeNumber(parent) && parent != e.inode && Lookup(d, SplitLast(path).value.0) == Ok(parent) && IsDir(Node(d, parent))
    requires DirOk(d1, ib1, Node(d1, parent)) && FreeEntry(d1[Node(d1, parent).direct[0]].entries, 0) == Some(slot)
    ensures var d2 := AddEntry(d1, Node(d1, parent).direct[0], slot, e);
            Layout(d2) && Created(d, d2, path, e.inode) && SameInode(d1, d2, e.inode)
  {
    EnteredName(d, bb, ib, ow, d1, bb1, ib1, ow1, parent, slot, e);
    var d2 := AddEntry(d1, Node(d1, parent).direct[0], slot, e);
    forall q
      ensures Fares(d, d2, parent, e.name, e.inode, q) && Lookup(d, q) != Ok(e.inode)
    {
      NameAddedFares(d, bb, ib, ow, d2, parent, e.name, e.inode, q);
    }
    NewNameResolves(d, bb, ib, ow, d2, path, parent, e.inode);
  }

  lemma SyncedIsCreated(d: seq<Block>, d1: seq<Block>, d2: seq<Block>, d3: seq<Block>, path: Name, child: nat)
    requires Layout(d) && Layout(d1) && Layout(d2) && Layout(d3) && InodeNumber(child)
    requires Created(d, d2, path, child) && SameInode(d1, d2, child)
    requires SameDirs(d2, d3) && forall m: nat :: InodeNumber(m) ==> ReadInode(d3, m) == ReadInode(d2, m)
    ensures Created(d, d3, path, child) && SameInode(d1, d3, child)
  {
    SameDirsPaths(d2, d3);
    assert SameDir(d2, d3, child);
    var parent := Lookup(d, SplitLast(path).value.0).value;
    forall q
      ensures Fares(d, d3, parent, SplitLast(path).value.1, child, q)
    {
      var asked := Asked(d, ROOT_INODE, Keep(Split(q), SKIPPED), parent, SplitLast(path).value.1);
      assert Fares(d, d2, parent, SplitLast(path).value.1, child, q);
      if asked.Some? {
        SameDirsLookup(d2, d3, child, asked.value);
      }
    }
  }
}
