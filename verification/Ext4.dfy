// The ext4 extent tree: descending the tree finds what a linear search of all its extents finds.
module Ext4 {
  import opened Bits
  import opened Wrappers

  /** A 12-byte entry as three little-endian words; what they mean depends on the node's depth. */
  datatype Raw = Raw(w0: u32, w1: u32, w2: u32)

  /** A node as read from a block: the entries its header counts. */
  type Node = seq<Raw>

  datatype Extent = Extent(block: nat, len: nat, startHi: nat, startLo: nat)

  datatype ExtentIndex = ExtentIndex(block: nat, leafLo: nat, leafHi: nat)

  function ExtentAt(node: Node, i: nat): Extent
    requires i < |node|
  {
    Extent(node[i].w0, node[i].w1 % TWO_16, node[i].w1 / TWO_16, node[i].w2)
  }

  function IndexAt(node: Node, i: nat): ExtentIndex
    requires i < |node|
  {
    ExtentIndex(node[i].w0, node[i].w1, node[i].w2 % TWO_16)
  }

  /** A 48-bit block number from its two parts. */
  function Join(hi: nat, lo: nat): nat { hi * TWO_32 + lo }

  function Start(e: Extent): nat { Join(e.startHi, e.startLo) }

  function Leaf(x: ExtentIndex): nat { Join(x.leafHi, x.leafLo) }

  /** The source's `hi << 32 | lo`. */
  lemma JoinIsShiftOr(hi: nat, lo: nat)
    requires lo < TWO_32
    ensures Or(hi * Pow2(32), lo) == Join(hi, lo)
  {
    PowDouble(8, TWO_8, TWO_16);
    PowDouble(16, TWO_16, TWO_32);
    ModUnique(hi * Pow2(32), Pow2(32), hi, 0);
    OrDisjoint(lo, hi * Pow2(32), 32);
    OrCommutes(lo, hi * Pow2(32));
  }

  /** The top bit of the length is a flag. */
  function Length(e: Extent): nat { e.len % 0x8000 }

  /** The source's `len & 0x7FFF`. */
  lemma LengthIsMask(e: Extent, mask: nat)
    requires mask == 0x7FFF
    ensures And(e.len, mask) == Length(e)
  {
    assert Pow2(15) == 0x8000;
    AndMask(e.len, 15);
  }

  /** An entry covers nothing exactly when the other bits are zero, so one of 0x8000 blocks reads as a hole. */
  lemma CoversNothing(e: Extent)
    requires e.len < TWO_16
    ensures (forall k: nat :: !Covers(e, k)) <==> e.len == 0 || e.len == 0x8000
  {
    assert Length(e) > 0 ==> Covers(e, e.block);
  }

  // ---- The search ----

  predicate Covers(e: Extent, fileBlock: nat) {
    e.block <= fileBlock < e.block + Length(e)
  }

  function Target(e: Extent, fileBlock: nat): nat
    requires Covers(e, fileBlock)
  {
    Start(e) + (fileBlock - e.block)
  }

  function FindInLeaf(node: Node, fileBlock: nat, i: nat): nat
    requires i <= |node|
    decreases |node| - i
  {
    if i == |node| then 0
    else if Covers(ExtentAt(node, i), fileBlock) then Target(ExtentAt(node, i), fileBlock)
    else FindInLeaf(node, fileBlock, i + 1)
  }

  /** The entry's range goes up to the next entry; the last one's has no end. */
  predicate InRange(node: Node, fileBlock: nat, i: nat)
    requires i < |node|
  {
    fileBlock >= IndexAt(node, i).block && (i + 1 < |node| ==> fileBlock < IndexAt(node, i + 1).block)
  }

  function FindChild(node: Node, fileBlock: nat, i: nat): (r: Option<nat>)
    requires i <= |node|
    ensures r.Some? ==> i <= r.value < |node| && InRange(node, fileBlock, r.value)
    ensures r == None ==> forall k :: i <= k < |node| ==> !InRange(node, fileBlock, k)
    decreases |node| - i
  {
    if i == |node| then None
    else if InRange(node, fileBlock, i) then Some(i)
    else FindChild(node, fileBlock, i + 1)
  }

  /** The nodes that can be read. */
  type Disk = map<nat, Node>

  /** `find_extent_block`: none stands for a failed read, 0 for a hole. */
  function Find(disk: Disk, node: Node, fileBlock: nat, depth: nat): Option<nat>
    decreases depth
  {
    if depth == 0 then Some(FindInLeaf(node, fileBlock, 0))
    else
      match FindChild(node, fileBlock, 0)
      case None => Some(0)
      case Some(i) =>
        var b := Leaf(IndexAt(node, i));
        if b in disk then Find(disk, disk[b], fileBlock, depth - 1) else None
  }

  /**
   * What a leaf search finds, from the fields of the entry: of the first extent to cover the block, its
   * physical start moved by the block's distance from its first.
   */
  lemma {:induction false} LeafFinds(node: Node, fileBlock: nat, k: nat, first: nat, len: nat, hi: nat, lo: nat)
    requires k < |node| && len < TWO_16 && hi < TWO_16 && first < TWO_32 && lo < TWO_32
    requires node[k] == Raw(first, len + TWO_16 * hi, lo)
    requires first <= fileBlock < first + if len < 0x8000 then len else len - 0x8000
    requires forall j :: 0 <= j < k ==> !Covers(ExtentAt(node, j), fileBlock)
    ensures FindInLeaf(node, fileBlock, 0) == TWO_32 * hi + lo + (fileBlock - first)
  {
    assert ExtentAt(node, k) == Extent(first, len, hi, lo);
    SearchSkips(node, fileBlock, 0, k);
  }

  lemma {:induction false} SearchSkips(node: Node, fileBlock: nat, i: nat, k: nat)
    requires i <= k <= |node| && forall j :: i <= j < k ==> !Covers(ExtentAt(node, j), fileBlock)
    ensures FindInLeaf(node, fileBlock, i) == FindInLeaf(node, fileBlock, k)
    decreases k - i
  {
    if i < k {
      SearchSkips(node, fileBlock, i + 1, k);
    }
  }

  /**
   * Where an inner search goes on, from the fields of the entry: of the first entry from whose block on
   * the file block lies and before whose successor's, the node its 48-bit leaf number names.
   */
  lemma {:induction false} IndexDescends(disk: Disk, node: Node, fileBlock: nat, depth: nat, k: nat, first: nat, lo: nat, hi: nat, unused: nat)
    requires depth > 0 && k < |node| && first < TWO_32 && lo < TWO_32 && hi < TWO_16 && unused < TWO_16
    requires node[k] == Raw(first, lo, hi + TWO_16 * unused)
    requires first <= fileBlock && (k + 1 < |node| ==> fileBlock < node[k + 1].w0)
    requires forall j :: 0 <= j < k ==> !(node[j].w0 <= fileBlock < node[j + 1].w0)
    ensures Find(disk, node, fileBlock, depth) ==
            if TWO_32 * hi + lo in disk then Find(disk, disk[TWO_32 * hi + lo], fileBlock, depth - 1) else None
  {
    assert IndexAt(node, k) == ExtentIndex(first, lo, hi);
    assert InRange(node, fileBlock, k);
    assert forall j :: 0 <= j < k ==> !InRange(node, fileBlock, j);
    ChildSkips(node, fileBlock, 0, k);
  }

  lemma {:induction false} ChildSkips(node: Node, fileBlock: nat, i: nat, k: nat)
    requires i <= k <= |node| && forall j :: i <= j < k ==> !InRange(node, fileBlock, j)
    ensures FindChild(node, fileBlock, i) == FindChild(node, fileBlock, k)
    decreases k - i
  {
    if i < k {
      ChildSkips(node, fileBlock, i + 1, k);
    }
  }

  // ---- The reference ----

  /** All extents of a tree, left to right, from entry i of its root on. */
  function Flatten(disk: Disk, node: Node, depth: nat, i: nat): seq<Extent>
    requires i <= |node|
    decreases depth, |node| - i
  {
    if i == |node| then []
    else if depth == 0 then [ExtentAt(node, i)] + Flatten(disk, node, depth, i + 1)
    else
      var b := Leaf(IndexAt(node, i));
      (if b in disk then Flatten(disk, disk[b], depth - 1, 0) else [])
      + Flatten(disk, node, depth, i + 1)
  }

  /** Linear search: where the first extent covering the block puts it, 0 if none does. */
  function Lookup(es: seq<Extent>, fileBlock: nat): nat {
    if es == [] then 0
    else if Covers(es[0], fileBlock) then Target(es[0], fileBlock)
    else Lookup(es[1..], fileBlock)
  }

  // ---- Well-formed trees ----

  predicate ExtentWithin(e: Extent, lo: nat, hi: nat) {
    lo <= e.block && e.block + Length(e) <= hi
  }

  /** Where entry i's range ends. */
  function End(node: Node, hi: nat, i: nat): nat
    requires i < |node|
  {
    if i + 1 < |node| then IndexAt(node, i + 1).block else hi
  }

  function ChildOf(disk: Disk, node: Node, i: nat): Node
    requires i < |node|
  {
    if Leaf(IndexAt(node, i)) in disk then disk[Leaf(IndexAt(node, i))] else []
  }

  /** Entry i's child can be read, and its extents stay within the entry's range. */
  ghost predicate ChildOk(disk: Disk, node: Node, depth: nat, lo: nat, hi: nat, i: nat)
    requires depth > 0 && i < |node|
    decreases depth, 0
  {
    lo <= IndexAt(node, i).block <= End(node, hi, i) <= hi && Leaf(IndexAt(node, i)) in disk &&
    WellFormed(disk, disk[Leaf(IndexAt(node, i))], depth - 1, IndexAt(node, i).block, End(node, hi, i))
  }

  /** Keys ascend, and so for every entry. */
  ghost predicate WellFormed(disk: Disk, node: Node, depth: nat, lo: nat, hi: nat)
    decreases depth, 1
  {
    if depth == 0 then forall i: nat :: i < |node| ==> ExtentWithin(ExtentAt(node, i), lo, hi)
    else forall i: nat {:trigger ChildOk(disk, node, depth, lo, hi, i)} :: i < |node| ==> ChildOk(disk, node, depth, lo, hi, i)
  }

  predicate AllWithin(es: seq<Extent>, lo: nat, hi: nat) {
    forall k :: 0 <= k < |es| ==> ExtentWithin(es[k], lo, hi)
  }

  /** Everything from entry i on lies from that entry's key up. */
  lemma {:induction false} FlattenWithin(disk: Disk, node: Node, depth: nat, lo: nat, hi: nat, i: nat)
    requires WellFormed(disk, node, depth, lo, hi) && i <= |node|
    ensures AllWithin(Flatten(disk, node, depth, i), if depth > 0 && i < |node| then IndexAt(node, i).block else lo, hi)
    decreases depth, |node| - i
  {
    if i < |node| {
      FlattenWithin(disk, node, depth, lo, hi, i + 1);
      if depth > 0 {
        assert ChildOk(disk, node, depth, lo, hi, i);
        var x := IndexAt(node, i);
        var b := disk[Leaf(x)];
        WholeWithin(disk, b, depth - 1, x.block, End(node, hi, i));
        if i + 1 < |node| {
          assert ChildOk(disk, node, depth, lo, hi, i + 1);
          assert IndexAt(node, i + 1).block == End(node, hi, i);
        }
      }
    }
  }

  /** All extents of a tree lie within its range. */
  lemma {:induction false} WholeWithin(disk: Disk, node: Node, depth: nat, lo: nat, hi: nat)
    requires WellFormed(disk, node, depth, lo, hi)
    ensures AllWithin(Flatten(disk, node, depth, 0), lo, hi)
    decreases depth, |node| + 1
  {
    FlattenWithin(disk, node, depth, lo, hi, 0);
    if depth > 0 && |node| > 0 {
      assert ChildOk(disk, node, depth, lo, hi, 0);
    }
  }

  lemma {:induction false} LookupConcat(a: seq<Extent>, b: seq<Extent>, fileBlock: nat)
    ensures Lookup(a + b, fileBlock) == if exists k :: 0 <= k < |a| && Covers(a[k], fileBlock) then Lookup(a, fileBlock) else Lookup(b, fileBlock)
  {
    if a == [] {
      assert a + b == b;
    } else {
      assert (a + b)[1..] == a[1..] + b && (a + b)[0] == a[0];
      LookupConcat(a[1..], b, fileBlock);
      assert forall k :: 1 <= k < |a| ==> a[k] == a[1..][k - 1];
      assert forall k :: 0 <= k < |a| - 1 ==> a[1..][k] == a[k + 1];
    }
  }

  lemma {:induction false} LookupMisses(es: seq<Extent>, fileBlock: nat)
    requires forall k :: 0 <= k < |es| ==> !Covers(es[k], fileBlock)
    ensures Lookup(es, fileBlock) == 0
  {
    if es != [] {
      LookupMisses(es[1..], fileBlock);
    }
  }

  /** Outside the bounds of its extents a lookup misses. */
  lemma LookupOutside(es: seq<Extent>, lo: nat, hi: nat, fileBlock: nat)
    requires AllWithin(es, lo, hi) && (fileBlock < lo || hi <= fileBlock)
    ensures Lookup(es, fileBlock) == 0 && forall k :: 0 <= k < |es| ==> !Covers(es[k], fileBlock)
  {
    forall k | 0 <= k < |es|
      ensures !Covers(es[k], fileBlock)
    {
      assert ExtentWithin(es[k], lo, hi);
    }
    LookupMisses(es, fileBlock);
  }

  lemma {:induction false} LeafIsLookup(disk: Disk, node: Node, fileBlock: nat, i: nat)
    requires i <= |node|
    ensures FindInLeaf(node, fileBlock, i) == Lookup(Flatten(disk, node, 0, i), fileBlock)
    decreases |node| - i
  {
    if i < |node| {
      LeafIsLookup(disk, node, fileBlock, i + 1);
      var rest := Flatten(disk, node, 0, i + 1);
      assert ([ExtentAt(node, i)] + rest)[1..] == rest;
    }
  }

  /** The lookup over all children from entry i on is the lookup in the child found from i on. */
  lemma {:induction false} ChildrenLookup(disk: Disk, node: Node, depth: nat, lo: nat, hi: nat, fileBlock: nat, i: nat)
    requires depth > 0 && WellFormed(disk, node, depth, lo, hi) && i <= |node|
    ensures Lookup(Flatten(disk, node, depth, i), fileBlock) ==
            match FindChild(node, fileBlock, i)
            case None => 0
            case Some(k) =>
              Lookup(Flatten(disk, ChildOf(disk, node, k), depth - 1, 0), fileBlock)
    decreases |node| - i
  {
    if i < |node| {
      ChildrenLookup(disk, node, depth, lo, hi, fileBlock, i + 1);
      if InRange(node, fileBlock, i) {
        MineOnly(disk, node, depth, lo, hi, fileBlock, i);
      } else {
        NotMine(disk, node, depth, lo, hi, fileBlock, i);
      }
    }
  }

  /** In entry i's range, what its child says decides. */
  lemma {:induction false} MineOnly(disk: Disk, node: Node, depth: nat, lo: nat, hi: nat, fileBlock: nat, i: nat)
    requires depth > 0 && WellFormed(disk, node, depth, lo, hi) && i < |node| && InRange(node, fileBlock, i)
    ensures Lookup(Flatten(disk, node, depth, i), fileBlock) ==
            Lookup(Flatten(disk, ChildOf(disk, node, i), depth - 1, 0), fileBlock)
  {
    assert ChildOk(disk, node, depth, lo, hi, i);
    var mine, rest := Flatten(disk, ChildOf(disk, node, i), depth - 1, 0), Flatten(disk, node, depth, i + 1);
    FlattenWithin(disk, node, depth, lo, hi, i + 1);
    LookupConcat(mine, rest, fileBlock);
    if i + 1 < |node| {
      LookupOutside(rest, IndexAt(node, i + 1).block, hi, fileBlock);
    }
    if !exists k :: 0 <= k < |mine| && Covers(mine[k], fileBlock) {
      LookupMisses(mine, fileBlock);
    }
  }

  /** Outside it, its child says nothing. */
  lemma {:induction false} NotMine(disk: Disk, node: Node, depth: nat, lo: nat, hi: nat, fileBlock: nat, i: nat)
    requires depth > 0 && WellFormed(disk, node, depth, lo, hi) && i < |node| && !InRange(node, fileBlock, i)
    ensures Lookup(Flatten(disk, node, depth, i), fileBlock) == Lookup(Flatten(disk, node, depth, i + 1), fileBlock)
  {
    assert ChildOk(disk, node, depth, lo, hi, i);
    var x := IndexAt(node, i);
    var mine, rest := Flatten(disk, disk[Leaf(x)], depth - 1, 0), Flatten(disk, node, depth, i + 1);
    WholeWithin(disk, disk[Leaf(x)], depth - 1, x.block, End(node, hi, i));
    LookupConcat(mine, rest, fileBlock);
    LookupOutside(mine, x.block, End(node, hi, i), fileBlock);
  }

  /** On a well-formed tree of any depth, descending is linear search over all its extents. */
  lemma {:induction false} FindIsLookup(disk: Disk, node: Node, fileBlock: nat, depth: nat, lo: nat, hi: nat)
    requires WellFormed(disk, node, depth, lo, hi)
    ensures Find(disk, node, fileBlock, depth) == Some(Lookup(Flatten(disk, node, depth, 0), fileBlock))
    decreases depth
  {
    if depth == 0 {
      LeafIsLookup(disk, node, fileBlock, 0);
    } else {
      ChildrenLookup(disk, node, depth, lo, hi, fileBlock, 0);
      match FindChild(node, fileBlock, 0)
      case None =>
      case Some(i) =>
        assert ChildOk(disk, node, depth, lo, hi, i);
        var b := disk[Leaf(IndexAt(node, i))];
        FindIsLookup(disk, b, fileBlock, depth - 1, IndexAt(node, i).block, End(node, hi, i));
    }
  }

  ghost predicate Disjoint(es: seq<Extent>) {
    forall i, j, b: nat {:trigger Covers(es[i], b), Covers(es[j], b)} ::
      0 <= i < j < |es| ==> !(Covers(es[i], b) && Covers(es[j], b))
  }

  /** With disjoint extents the lookup is what any extent covering the block says; there is only one. */
  lemma {:induction false} LookupIsTheExtent(es: seq<Extent>, fileBlock: nat, k: nat)
    requires Disjoint(es) && k < |es| && Covers(es[k], fileBlock)
    ensures Lookup(es, fileBlock) == Target(es[k], fileBlock)
  {
    if k > 0 {
      assert !Covers(es[0], fileBlock);
      var rest := es[1..];
      forall i, j, b: nat {:trigger Covers(rest[i], b), Covers(rest[j], b)} | 0 <= i < j < |rest|
        ensures !(Covers(rest[i], b) && Covers(rest[j], b))
      {
        assert rest[i] == es[i + 1] && rest[j] == es[j + 1];
      }
      LookupIsTheExtent(rest, fileBlock, k - 1);
    }
  }

  /** The result of a search tells a hole from a block whenever no extent starts at physical block 0. */
  lemma {:induction false} ZeroIsHole(es: seq<Extent>, fileBlock: nat)
    requires forall k :: 0 <= k < |es| ==> Start(es[k]) > 0
    ensures Lookup(es, fileBlock) == 0 <==> forall k :: 0 <= k < |es| ==> !Covers(es[k], fileBlock)
  {
    if es != [] {
      ZeroIsHole(es[1..], fileBlock);
      assert forall k :: 1 <= k < |es| ==> es[k] == es[1..][k - 1];
      assert forall k :: 0 <= k < |es| - 1 ==> es[1..][k] == es[k + 1];
    }
  }
}
