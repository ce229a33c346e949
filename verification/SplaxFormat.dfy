// Formatting: the disk it leaves, and that it can be mounted.
module SplaxFormat {
  import opened Bitmap
  import opened SplaxDisk
  import opened SplaxSteps

  ghost predicate Mountable(disk: seq<Block>, ow: Owners) {
    && |disk| >= 16 && disk[0].Super? && disk[1].Bits? && disk[2].Bits?
    && Consistent(disk, disk[1].bitmap, disk[2].bitmap, ow)
    && disk[0].sb.totalBlocks == |disk| && disk[0].sb.totalInodes == TOTAL_INODES && disk[0].sb.firstDataBlock == FIRST_DATA
    && Counted(disk[0].sb, disk[1].bitmap, disk[2].bitmap)
  }

  /** Each free counter plus the marked bits of its range is constant: format leaves both counters
      one above the number of clear bits, and every allocation moves both by one. */
  ghost predicate Counted(sb: Superblock, bb: seq<bv8>, ib: seq<bv8>) {
    && sb.firstDataBlock <= sb.totalBlocks
    && sb.freeBlocks + Count(bb, sb.firstDataBlock, sb.totalBlocks) == sb.totalBlocks - sb.firstDataBlock + 1
    && sb.freeInodes + Count(ib, 0, sb.totalInodes) == sb.totalInodes + 1
  }

  /** The first `k` bits are marked and no others. */
  ghost predicate MarkedBelow(bm: seq<bv8>, k: nat) {
    |bm| == BLOCK_SIZE && forall i: nat :: Marked(bm, i) <==> i < k
  }

  lemma MarkNext(bm: seq<bv8>, k: nat)
    requires MarkedBelow(bm, k) && k < BLOCK_SIZE
    ensures MarkedBelow(Mark(bm, k), k + 1)
  {
    forall i: nat
      ensures Marked(Mark(bm, k), i) <==> i < k + 1
    {
      MarkSetsOne(bm, k, i);
    }
  }

  lemma {:induction false} CountPrefix(bm: seq<bv8>, k: nat, lo: nat, hi: nat)
    requires lo <= k && lo <= hi && MarkedBelow(bm, k)
    ensures Count(bm, lo, hi) == (if hi <= k then hi else k) - lo
  {
    if lo < hi {
      CountPrefix(bm, k, lo, hi - 1);
    }
  }

  /** A disk whose only object is the root directory. */
  ghost predicate RootOnly(d: seq<Block>) {
    && Layout(d)
    && d[0] == Super(Superblock(|d|, TOTAL_INODES, |d| - FIRST_DATA, TOTAL_INODES - 2, FIRST_DATA))
    && d[1].Bits? && MarkedBelow(d[1].bitmap, FIRST_DATA + 1)
    && d[2].Bits? && MarkedBelow(d[2].bitmap, 3)
    && (forall n: nat :: InodeNumber(n) ==> Node(d, n) == if n == ROOT_INODE then NewDirectory(FIRST_DATA) else ZERO_INODE)
    && d[FIRST_DATA] == Dir(NewEntries(ROOT_INODE, ROOT_INODE))
  }

  const ROOT_OWNER: Owners := map[FIRST_DATA := Slot(ROOT_INODE, 0)]

  lemma {:induction false} RootOnlyIsMountable(d: seq<Block>)
    requires RootOnly(d)
    ensures Mountable(d, ROOT_OWNER)
  {
    CountPrefix(d[1].bitmap, FIRST_DATA + 1, FIRST_DATA, |d|);
    CountPrefix(d[2].bitmap, 3, 0, TOTAL_INODES);
    NewDirectoryOk(d, d[2].bitmap, ROOT_OWNER, ROOT_INODE, FIRST_DATA, ROOT_INODE);
    forall n: nat | InodeNumber(n)
      ensures InodeOk(d, d[2].bitmap, ROOT_OWNER, n)
    {
      if n != ROOT_INODE {
        assert Node(d, n) == ZERO_INODE;
      }
    }
  }

  method FreshBitmap(k: nat) returns (bits: seq<bv8>)
    requires k <= BLOCK_SIZE
    ensures MarkedBelow(bits, k)
  {
    bits := seq(BLOCK_SIZE, i => 0);
    var i := 0;
    while i < k
      invariant 0 <= i <= k && MarkedBelow(bits, i)
    {
      MarkNext(bits, i);
      bits := Mark(bits, i);
      i := i + 1;
    }
  }

  /** `format`: refuses a device below 16 blocks, otherwise leaves exactly a root directory. */
  method Format(device: seq<Block>) returns (r: Result<seq<Block>>)
    ensures |device| < 16 ==> r == Err(NoSpace)
    ensures |device| >= 16 ==> r.Ok? && |r.value| == |device| && RootOnly(r.value) && Mountable(r.value, ROOT_OWNER)
  {
    if |device| < 16 {
      return Err(NoSpace);
    }
    var sb := Superblock(|device|, TOTAL_INODES, |device| - FIRST_DATA, TOTAL_INODES - 2, FIRST_DATA);
    var blockBits := FreshBitmap(FIRST_DATA);
    var inodeBits := FreshBitmap(3);
    var disk := device[0 := Super(sb)][1 := Bits(blockBits)][2 := Bits(inodeBits)];
    var i := 0;
    while i < FIRST_DATA - TABLE_START
      invariant 0 <= i <= FIRST_DATA - TABLE_START
      invariant |disk| == |device| && disk[0] == Super(sb) && disk[2] == Bits(inodeBits)
      invariant forall b :: TABLE_START <= b < TABLE_START + i ==> disk[b] == Inodes(seq(INODES_PER_BLOCK, k => ZERO_INODE))
    {
      disk := disk[TABLE_START + i := Inodes(seq(INODES_PER_BLOCK, k => ZERO_INODE))];
      i := i + 1;
    }
    ghost var zeroed := disk;
    disk := WriteInode(disk, ROOT_INODE, NewDirectory(FIRST_DATA));
    MarkNext(blockBits, FIRST_DATA);
    disk := disk[1 := Bits(Mark(blockBits, FIRST_DATA))];
    disk := disk[FIRST_DATA := Dir(NewEntries(ROOT_INODE, ROOT_INODE))];
    forall n: nat | InodeNumber(n)
      ensures Node(zeroed, n) == ZERO_INODE
      ensures Layout(disk) && Node(disk, n) == if n == ROOT_INODE then NewDirectory(FIRST_DATA) else ZERO_INODE
    {
      NodeAfterWrite(zeroed, ROOT_INODE, NewDirectory(FIRST_DATA), n);
    }
    RootOnlyIsMountable(disk);
    return Ok(disk);
  }
}
