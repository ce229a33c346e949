// Block I/O requests: scatter-gather segments as the byte addresses they denote, under splitting,
// merging and advancing.
module Bio {
  import opened Wrappers

  const SECTOR_SIZE: nat := 512

  datatype BioOp = Read | Write | Flush | Discard

  datatype BioVec = BioVec(page: nat, offset: nat, len: nat)

  // ---- What segments denote ----

  /** The addresses of n bytes from `at`. */
  function Span(at: nat, n: nat): (r: seq<nat>)
    ensures |r| == n && forall k :: 0 <= k < n ==> r[k] == at + k
  {
    seq(n, k requires 0 <= k < n => at + k)
  }

  function Bytes(vs: seq<BioVec>): seq<nat> {
    if vs == [] then [] else Span(vs[0].page + vs[0].offset, vs[0].len) + Bytes(vs[1..])
  }

  function Sum(vs: seq<BioVec>): nat {
    if vs == [] then 0 else vs[0].len + Sum(vs[1..])
  }

  lemma {:induction false} BytesLength(vs: seq<BioVec>)
    ensures |Bytes(vs)| == Sum(vs)
  {
    if vs != [] {
      BytesLength(vs[1..]);
    }
  }

  lemma {:induction false} BytesConcat(a: seq<BioVec>, b: seq<BioVec>)
    ensures Bytes(a + b) == Bytes(a) + Bytes(b)
  {
    if a == [] {
      assert a + b == b;
    } else {
      BytesConcat(a[1..], b);
      assert (a + b)[0] == a[0] && (a + b)[1..] == a[1..] + b;
      Associate(Span(a[0].page + a[0].offset, a[0].len), Bytes(a[1..]), Bytes(b));
    }
  }

  lemma {:induction false} Associate(x: seq<nat>, y: seq<nat>, z: seq<nat>)
    ensures x + (y + z) == (x + y) + z
  {
  }

  lemma {:induction false} SumConcat(a: seq<BioVec>, b: seq<BioVec>)
    ensures Sum(a + b) == Sum(a) + Sum(b)
  {
    if a == [] {
      assert a + b == b;
    } else {
      SumConcat(a[1..], b);
      assert (a + b)[0] == a[0] && (a + b)[1..] == a[1..] + b;
    }
  }

  lemma {:induction false} Concat(a: seq<BioVec>, b: seq<BioVec>)
    ensures Bytes(a + b) == Bytes(a) + Bytes(b) && Sum(a + b) == Sum(a) + Sum(b)
  {
    BytesConcat(a, b);
    SumConcat(a, b);
  }

  lemma {:induction false} Single(v: BioVec)
    ensures Bytes([v]) == Span(v.page + v.offset, v.len) && Sum([v]) == v.len
  {
    assert [v][1..] == [];
  }

  lemma {:induction false} AddLast(p: seq<BioVec>, a: BioVec, x: seq<BioVec>)
    requires x == p + [a]
    ensures Bytes(x) == Bytes(p) + Span(a.page + a.offset, a.len) && Sum(x) == Sum(p) + a.len
  {
    Concat(p, [a]);
    Single(a);
  }

  lemma {:induction false} AddFirst(b: BioVec, t: seq<BioVec>, y: seq<BioVec>)
    requires y == [b] + t
    ensures Bytes(y) == Span(b.page + b.offset, b.len) + Bytes(t) && Sum(y) == b.len + Sum(t)
  {
    assert y[1..] == t;
  }

  lemma {:induction false} AddBetween(p: seq<BioVec>, v: BioVec, t: seq<BioVec>, u: seq<BioVec>, vs: seq<BioVec>)
    requires vs == p + u && u == [v] + t
    ensures Bytes(vs) == Bytes(p) + (Span(v.page + v.offset, v.len) + Bytes(t)) && Sum(vs) == Sum(p) + v.len + Sum(t)
  {
    Concat(p, u);
    AddFirst(v, t, u);
  }

  /** A run of addresses cut in two. */
  lemma {:induction false} CutSpan(at: nat, n: nat, len: nat)
    requires n <= len
    ensures Span(at, n) + Span(at + n, len - n) == Span(at, len)
  {
  }

  lemma {:induction false} SumTake(vs: seq<BioVec>, i: nat)
    requires i < |vs|
    ensures Sum(vs[..i + 1]) == Sum(vs[..i]) + vs[i].len
    ensures Sum(vs[..i]) + Sum(vs[i..]) == Sum(vs)
  {
    assert vs[..i + 1] == vs[..i] + [vs[i]] && vs == vs[..i] + vs[i..];
    Concat(vs[..i], [vs[i]]);
    Concat(vs[..i], vs[i..]);
    Single(vs[i]);
  }

  // ---- The cursor ----

  datatype Cursor = Cursor(idx: nat, off: nat)

  /** The offset lies within the current segment, so what is left of it is not negative. */
  predicate InBounds(vs: seq<BioVec>, c: Cursor) {
    c.idx < |vs| ==> c.off <= vs[c.idx].len
  }

  /** How many bytes lie before the cursor. */
  function Position(vs: seq<BioVec>, c: Cursor): nat
    requires InBounds(vs, c)
  {
    if c.idx < |vs| then Sum(vs[..c.idx]) + c.off else Sum(vs)
  }

  /** The bytes still to transfer. */
  function Rest(vs: seq<BioVec>, c: Cursor): seq<nat>
    requires InBounds(vs, c)
  {
    BytesLength(vs);
    SumBefore(vs, c);
    Bytes(vs)[Position(vs, c)..]
  }

  lemma {:induction false} SumBefore(vs: seq<BioVec>, c: Cursor)
    requires InBounds(vs, c)
    ensures Position(vs, c) <= Sum(vs)
  {
    if c.idx < |vs| {
      SumTake(vs, c.idx);
    }
  }

  /** `advance` by n bytes. */
  function Moved(vs: seq<BioVec>, c: Cursor, n: nat): (r: Cursor)
    requires InBounds(vs, c)
    ensures InBounds(vs, r)
    decreases |vs| - c.idx
  {
    if n == 0 || c.idx >= |vs| then c
    else
      var available := vs[c.idx].len - c.off;
      if n >= available then Moved(vs, Cursor(c.idx + 1, 0), n - available)
      else Cursor(c.idx, c.off + n)
  }

  /** Advancing by a and then by b is advancing by a + b. */
  lemma {:induction false} MovedTwice(vs: seq<BioVec>, c: Cursor, a: nat, b: nat)
    requires InBounds(vs, c)
    ensures Moved(vs, Moved(vs, c, a), b) == Moved(vs, c, a + b)
    decreases |vs| - c.idx
  {
    if a != 0 && c.idx < |vs| {
      var available := vs[c.idx].len - c.off;
      if a >= available {
        MovedTwice(vs, Cursor(c.idx + 1, 0), a - available, b);
      }
    }
  }

  /** Advancing moves past exactly n bytes, or to the end when fewer remain. */
  lemma {:induction false} MovedPosition(vs: seq<BioVec>, c: Cursor, n: nat)
    requires InBounds(vs, c)
    ensures Position(vs, Moved(vs, c, n)) == if Position(vs, c) + n <= Sum(vs) then Position(vs, c) + n else Sum(vs)
    decreases |vs| - c.idx
  {
    SumBefore(vs, c);
    if n > 0 && c.idx < |vs| {
      SumTake(vs, c.idx);
      var available := vs[c.idx].len - c.off;
      if n >= available {
        assert c.idx + 1 == |vs| ==> vs[..c.idx + 1] == vs;
        MovedPosition(vs, Cursor(c.idx + 1, 0), n - available);
      } else {
        assert Sum(vs[c.idx..]) >= vs[c.idx].len;
      }
    }
  }

  lemma {:induction false} MovedRest(vs: seq<BioVec>, c: Cursor, n: nat)
    requires InBounds(vs, c)
    ensures Rest(vs, Moved(vs, c, n)) == if n <= |Rest(vs, c)| then Rest(vs, c)[n..] else []
  {
    MovedPosition(vs, c, n);
    SumBefore(vs, c);
    BytesLength(vs);
  }

  // ---- Splitting ----

  /** Where a split at n bytes falls: before segment idx, or inside it when off is not zero. */
  ghost predicate SplitsAt(vs: seq<BioVec>, n: nat, idx: nat, off: nat) {
    idx <= |vs| && Sum(vs[..idx]) + off == n && (off > 0 ==> idx < |vs| && off < vs[idx].len)
  }

  method FindSplit(bvecs: seq<BioVec>, splitBytes: nat) returns (splitIdx: nat, splitOffset: nat)
    requires splitBytes > 0
    ensures splitBytes <= Sum(bvecs) ==> SplitsAt(bvecs, splitBytes, splitIdx, splitOffset)
    ensures splitBytes > Sum(bvecs) ==> splitIdx == 0 && splitOffset == 0
  {
    var accumulated, i := 0, 0;
    splitIdx, splitOffset := 0, 0;
    while i < |bvecs|
      invariant i <= |bvecs| && accumulated == Sum(bvecs[..i]) < splitBytes
    {
      SumTake(bvecs, i);
      if accumulated + bvecs[i].len > splitBytes {
        return i, splitBytes - accumulated;
      }
      accumulated := accumulated + bvecs[i].len;
      if accumulated == splitBytes {
        return i + 1, 0;
      }
      i := i + 1;
    }
    assert bvecs[..i] == bvecs;
  }

  /** The segments before and after a split. */
  function First(vs: seq<BioVec>, idx: nat, off: nat): seq<BioVec>
    requires idx <= |vs| && (off > 0 ==> idx < |vs| && off < vs[idx].len)
  {
    if off == 0 then vs[..idx] else vs[..idx] + [BioVec(vs[idx].page, vs[idx].offset, off)]
  }

  function Second(vs: seq<BioVec>, idx: nat, off: nat): seq<BioVec>
    requires idx <= |vs| && (off > 0 ==> idx < |vs| && off < vs[idx].len)
  {
    if off == 0 then vs[idx..]
    else [BioVec(vs[idx].page, vs[idx].offset + off, vs[idx].len - off)] + vs[idx + 1..]
  }

  lemma {:induction false} Regroup(p: seq<nat>, a: seq<nat>, b: seq<nat>, v: seq<nat>, t: seq<nat>)
    requires a + b == v
    ensures (p + a) + (b + t) == p + (v + t)
  {
    assert (p + a) + (b + t) == p + ((a + b) + t);
  }

  lemma {:induction false} SplitBetween(p: seq<BioVec>, u: seq<BioVec>, vs: seq<BioVec>)
    requires vs == p + u
    ensures Bytes(p) + Bytes(u) == Bytes(vs) && Sum(p) + Sum(u) == Sum(vs)
  {
    Concat(p, u);
  }

  /** Wherever the split falls, the two parts denote the original bytes, in order. */
  lemma {:induction false} SplitBytes(vs: seq<BioVec>, idx: nat, off: nat, x: seq<BioVec>, y: seq<BioVec>)
    requires idx <= |vs| && (off > 0 ==> idx < |vs| && off < vs[idx].len) && x == First(vs, idx, off) && y == Second(vs, idx, off)
    ensures Bytes(x) + Bytes(y) == Bytes(vs) && Sum(x) == Sum(vs[..idx]) + off && Sum(x) + Sum(y) == Sum(vs)
  {
    if off > 0 {
      assert vs == vs[..idx] + ([vs[idx]] + vs[idx + 1..]);
      SplitInside(vs[..idx], vs[idx], vs[idx + 1..], off, vs, x, y);
    } else {
      SplitBetween(x, y, vs);
    }
  }

  lemma {:induction false} SplitInside(p: seq<BioVec>, v: BioVec, t: seq<BioVec>, off: nat, vs: seq<BioVec>, x: seq<BioVec>, y: seq<BioVec>)
    requires 0 < off < v.len && vs == p + ([v] + t)
    requires x == p + [BioVec(v.page, v.offset, off)] && y == [BioVec(v.page, v.offset + off, v.len - off)] + t
    ensures Bytes(x) + Bytes(y) == Bytes(vs) && Sum(x) == Sum(p) + off && Sum(x) + Sum(y) == Sum(vs)
  {
    var at := v.page + v.offset;
    AddLast(p, BioVec(v.page, v.offset, off), x);
    AddFirst(BioVec(v.page, v.offset + off, v.len - off), t, y);
    AddBetween(p, v, t, [v] + t, vs);
    CutSpan(at, off, v.len);
    Regroup(Bytes(p), Span(at, off), Span(at + off, v.len - off), Span(at, v.len), Bytes(t));
  }

  lemma {:induction false} SumMonotone(vs: seq<BioVec>, i: nat, j: nat)
    requires i <= j <= |vs|
    ensures Sum(vs[..i]) <= Sum(vs[..j])
  {
    if i < j {
      SumTake(vs, j - 1);
      SumMonotone(vs, i, j - 1);
    }
  }

  /** The cursor is inside the segment that n bytes end in, beyond that point. */
  ghost predicate CursorLost(vs: seq<BioVec>, c: Cursor, n: nat) {
    c.idx < |vs| && Sum(vs[..c.idx]) < n < Sum(vs[..c.idx]) + c.off
  }

  /** After a split the cursor is out of bounds exactly when it had gone beyond the cut in the segment cut. */
  lemma {:induction false} CursorAfter(vs: seq<BioVec>, c: Cursor, idx: nat, off: nat, n: nat)
    requires InBounds(vs, c) && SplitsAt(vs, n, idx, off)
    ensures InBounds(First(vs, idx, off), c) <==> !CursorLost(vs, c, n)
  {
    if c.idx < idx {
      SumTake(vs, c.idx);
      SumMonotone(vs, c.idx + 1, idx);
    } else if c.idx > idx && c.idx < |vs| {
      SumMonotone(vs, idx + 1, c.idx);
      SumTake(vs, idx);
    }
  }

  /** One segment of two sectors, advanced by 600 bytes and split after the first sector, loses its cursor. */
  lemma {:induction false} CursorCanBeLost(page: nat)
    ensures var v := BioVec(page, 0, 1024);
            SplitsAt([v], 512, 0, 512) && CursorLost([v], Cursor(0, 600), 512) && !InBounds(First([v], 0, 512), Cursor(0, 600))
  {
    var v := BioVec(page, 0, 1024);
    assert [v][..0] == [];
    Single(v);
    CursorAfter([v], Cursor(0, 600), 0, 512, 512);
  }

  function Sectors(size: nat): nat { (size + SECTOR_SIZE - 1) / SECTOR_SIZE }

  class Bio {
    var op: BioOp
    var sector: nat
    var size: nat
    var bvecs: seq<BioVec>
    var bvecIdx: nat
    var bvecOffset: nat
    var device: Option<nat>

    /** The recorded size is that of the segments; discards have a size and no segments. */
    predicate Balanced()
      reads this
    {
      size == Sum(bvecs)
    }

    function At(): Cursor
      reads this
    {
      Cursor(bvecIdx, bvecOffset)
    }

    constructor (op: BioOp, sector: nat)
      ensures this.op == op && this.sector == sector && size == 0 && bvecs == [] && At() == Cursor(0, 0) && device == None
    {
      this.op, this.sector, size, bvecs, bvecIdx, bvecOffset, device := op, sector, 0, [], 0, 0, None;
    }

    method AddPage(page: nat, offset: nat, len: nat)
      modifies `bvecs, `size
      ensures Bytes(bvecs) == old(Bytes(bvecs)) + Span(page + offset, len) && size == old(size) + len
      ensures old(Balanced()) ==> Balanced()
    {
      Concat(bvecs, [BioVec(page, offset, len)]);
      Single(BioVec(page, offset, len));
      bvecs := bvecs + [BioVec(page, offset, len)];
      size := size + len;
    }

    function EndSector(): nat
      reads this
    {
      sector + Sectors(size)
    }

    predicate CanMerge(other: Bio)
      reads this, other
    {
      op == other.op && EndSector() == other.sector && device == other.device
    }

    method Merge(other: Bio)
      modifies `bvecs, `size
      ensures Bytes(bvecs) == old(Bytes(bvecs)) + old(Bytes(other.bvecs)) && size == old(size) + old(other.size)
      ensures old(Balanced() && other.Balanced()) && this != other ==> Balanced()
    {
      Concat(bvecs, other.bvecs);
      bvecs := bvecs + other.bvecs;
      size := size + other.size;
    }

    method Advance(bytes: nat)
      requires InBounds(bvecs, At())
      modifies `bvecIdx, `bvecOffset
      ensures InBounds(bvecs, At()) && At() == Moved(bvecs, old(At()), bytes)
      ensures Rest(bvecs, At()) == if bytes <= |old(Rest(bvecs, At()))| then old(Rest(bvecs, At()))[bytes..] else []
    {
      MovedRest(bvecs, At(), bytes);
      var remaining: nat := bytes;
      while remaining > 0 && bvecIdx < |bvecs|
        invariant InBounds(bvecs, At()) && Moved(bvecs, At(), remaining) == Moved(bvecs, old(At()), bytes)
        decreases |bvecs| - bvecIdx, remaining
      {
        var available := bvecs[bvecIdx].len - bvecOffset;
        if remaining >= available {
          remaining := remaining - available;
          bvecIdx := bvecIdx + 1;
          bvecOffset := 0;
        } else {
          bvecOffset := bvecOffset + remaining;
          remaining := 0;
        }
      }
    }
  }

  /** Exactly requests of one operation and device whose sectors adjoin can merge; the last sector may be partly filled. */
  lemma CanMergeExactly(a: Bio, b: Bio)
    ensures a.CanMerge(b) <==>
            a.op == b.op && a.device == b.device && a.sector <= b.sector &&
            a.size <= SECTOR_SIZE * (b.sector - a.sector) < a.size + SECTOR_SIZE
  {
  }

  lemma {:induction false} TailStep(vs: seq<BioVec>, at: nat, m: nat, kept: seq<BioVec>)
    requires at + m < |vs| && kept == vs[..at] + vs[at + m..]
    ensures kept[at] == vs[at + m] && kept[..at] + kept[at + 1..] == vs[..at] + vs[at + m + 1..]
    ensures vs[at..at + m] + [vs[at + m]] == vs[at..at + m + 1]
  {
  }

  /** The part moved to the new bio, one segment at a time from the split point. */
  method MoveTail(bvecs: seq<BioVec>, splitIdx: nat) returns (kept: seq<BioVec>, moved: seq<BioVec>)
    requires splitIdx <= |bvecs|
    ensures kept == bvecs[..splitIdx] && moved == bvecs[splitIdx..]
  {
    kept, moved := bvecs, [];
    while splitIdx < |kept|
      invariant splitIdx <= |kept| <= |bvecs| && |moved| == |bvecs| - |kept|
      invariant kept == bvecs[..splitIdx] + bvecs[splitIdx + |moved|..] && moved == bvecs[splitIdx..splitIdx + |moved|]
      decreases |kept|
    {
      TailStep(bvecs, splitIdx, |moved|, kept);
      moved := moved + [kept[splitIdx]];
      kept := kept[..splitIdx] + kept[splitIdx + 1..];
    }
  }

  /** The segments rearranged around a split point. */
  method SplitSegments(bvecs: seq<BioVec>, splitIdx: nat, splitOffset: nat) returns (kept: seq<BioVec>, moved: seq<BioVec>)
    requires splitIdx <= |bvecs| && (splitOffset > 0 ==> splitIdx < |bvecs| && splitOffset < bvecs[splitIdx].len)
    ensures kept == First(bvecs, splitIdx, splitOffset) && moved == Second(bvecs, splitIdx, splitOffset)
  {
    if splitOffset > 0 {
      var v := bvecs[splitIdx];
      var cut := [BioVec(v.page, v.offset + splitOffset, v.len - splitOffset)];
      kept, moved := MoveTail(bvecs[splitIdx := BioVec(v.page, v.offset, splitOffset)], splitIdx + 1);
      moved := cut + moved;
    } else {
      kept, moved := MoveTail(bvecs, splitIdx);
    }
  }

  /**
   * `bio_split`: none for an empty or whole-bio split; otherwise the two parts' bytes concatenate to
   * the original, the first has exactly the sectors asked for, and the parts can merge again.
   */
  method Split(bio: Bio, sectors: nat) returns (r: Option<Bio>)
    modifies bio
    ensures r.None? <==> sectors == 0 || sectors * SECTOR_SIZE >= old(bio.size)
    ensures r.None? ==> bio.bvecs == old(bio.bvecs) && bio.size == old(bio.size)
    ensures bio.sector == old(bio.sector) && bio.op == old(bio.op) && bio.device == old(bio.device) && bio.At() == old(bio.At())
    ensures r.Some? ==> fresh(r.value) && bio.size == sectors * SECTOR_SIZE && r.value.size == old(bio.size) - bio.size
    ensures r.Some? ==> Bytes(bio.bvecs) + Bytes(r.value.bvecs) == old(Bytes(bio.bvecs))
    ensures r.Some? && old(bio.Balanced()) ==> bio.Balanced() && r.value.Balanced()
    ensures r.Some? ==> r.value.sector == bio.sector + sectors && bio.CanMerge(r.value)
    ensures r.Some? && old(bio.Balanced() && InBounds(bio.bvecs, bio.At())) ==>
      (InBounds(bio.bvecs, bio.At()) <==> !old(CursorLost(bio.bvecs, bio.At(), sectors * SECTOR_SIZE)))
  {
    var splitBytes := sectors * SECTOR_SIZE;
    if splitBytes >= bio.size || splitBytes == 0 {
      return None;
    }
    var splitIdx, splitOffset := FindSplit(bio.bvecs, splitBytes);
    var newBio := new Bio(bio.op, bio.sector + sectors);
    newBio.device := bio.device;
    if splitBytes <= Sum(bio.bvecs) && InBounds(bio.bvecs, bio.At()) {
      CursorAfter(bio.bvecs, bio.At(), splitIdx, splitOffset, splitBytes);
    }
    var kept, moved := SplitSegments(bio.bvecs, splitIdx, splitOffset);
    SplitBytes(bio.bvecs, splitIdx, splitOffset, kept, moved);
    bio.bvecs := kept;
    newBio.bvecs := moved;
    newBio.size := bio.size - splitBytes;
    bio.size := splitBytes;
    return Some(newBio);
  }

  /** Splitting and merging the parts again restores sector, size and bytes. */
  method SplitAndMerge(bio: Bio, sectors: nat)
    modifies bio
    ensures bio.sector == old(bio.sector) && bio.size == old(bio.size) && Bytes(bio.bvecs) == old(Bytes(bio.bvecs))
  {
    var rest := Split(bio, sectors);
    if rest.Some? {
      bio.Merge(rest.value);
    }
  }
}
