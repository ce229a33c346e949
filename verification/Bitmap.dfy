// Allocation bitmaps as byte vectors, with the source's byte/bit addressing.
module Bitmap {
  import opened Wrappers

  /** `1 << bit` on a byte. */
  function BitMask(bit: nat): bv8
    requires bit < 8
  {
    if bit == 0 then 1 else if bit == 1 then 2 else if bit == 2 then 4 else if bit == 3 then 8
    else if bit == 4 then 16 else if bit == 5 then 32 else if bit == 6 then 64 else 128
  }

  predicate Bit(x: bv8, bit: nat)
    requires bit < 8
  {
    x & BitMask(bit) != 0
  }

  predicate Marked(bm: seq<bv8>, i: nat) {
    i / 8 < |bm| && Bit(bm[i / 8], i % 8)
  }

  function Mark(bm: seq<bv8>, i: nat): seq<bv8>
    requires i / 8 < |bm|
  {
    bm[i / 8 := bm[i / 8] | BitMask(i % 8)]
  }

  lemma BitOr(x: bv8, a: nat, b: nat)
    requires a < 8 && b < 8
    ensures Bit(x | BitMask(a), b) <==> a == b || Bit(x, b)
  {
  }

  /** Marking sets one bit and leaves every other as it was. */
  lemma MarkSetsOne(bm: seq<bv8>, i: nat, j: nat)
    requires i / 8 < |bm|
    ensures Marked(Mark(bm, i), j) <==> j == i || Marked(bm, j)
  {
    var a, b := i % 8, j % 8;
    BitOr(bm[i / 8], a, b);
    assert j / 8 == i / 8 && a == b ==> j == i;
  }

  /** The number of marked bits in [lo, hi). */
  function Count(bm: seq<bv8>, lo: nat, hi: nat): nat
    requires lo <= hi
  {
    if lo == hi then 0 else Count(bm, lo, hi - 1) + (if Marked(bm, hi - 1) then 1 else 0)
  }

  /** The number of bits in [lo, hi) an allocator can still take. */
  function Clear(bm: seq<bv8>, lo: nat, hi: nat): nat
    requires lo <= hi
  {
    if lo == hi then 0
    else Clear(bm, lo, hi - 1) + (if Available(bm, hi - 1) then 1 else 0)
  }

  predicate Available(bm: seq<bv8>, i: nat) {
    i / 8 < |bm| && !Marked(bm, i)
  }

  /** One more bit is marked, and no other changes. */
  ghost predicate OneMore(bm: seq<bv8>, bm': seq<bv8>, i: nat) {
    |bm'| == |bm| && forall j: nat :: Marked(bm', j) <==> j == i || Marked(bm, j)
  }

  lemma {:induction false} MarkIsOneMore(bm: seq<bv8>, i: nat)
    requires i / 8 < |bm|
    ensures OneMore(bm, Mark(bm, i), i) && Marked(Mark(bm, i), i)
  {
    forall j: nat
      ensures Marked(Mark(bm, i), j) <==> j == i || Marked(bm, j)
    {
      MarkSetsOne(bm, i, j);
    }
  }

  lemma {:induction false} OneMoreCounts(bm: seq<bv8>, bm': seq<bv8>, lo: nat, hi: nat, i: nat)
    requires lo <= hi && Available(bm, i) && OneMore(bm, bm', i)
    ensures Count(bm', lo, hi) == Count(bm, lo, hi) + (if lo <= i < hi then 1 else 0)
    ensures Clear(bm', lo, hi) == Clear(bm, lo, hi) - (if lo <= i < hi then 1 else 0)
  {
    if lo < hi {
      OneMoreCounts(bm, bm', lo, hi - 1, i);
      assert Marked(bm', hi - 1) <==> hi - 1 == i || Marked(bm, hi - 1);
    }
  }

  lemma {:induction false} MarkCounts(bm: seq<bv8>, lo: nat, hi: nat, i: nat)
    requires lo <= hi && Available(bm, i)
    ensures Count(Mark(bm, i), lo, hi) == Count(bm, lo, hi) + (if lo <= i < hi then 1 else 0)
    ensures Clear(Mark(bm, i), lo, hi) == Clear(bm, lo, hi) - (if lo <= i < hi then 1 else 0)
    ensures lo <= i < hi ==> Clear(bm, lo, hi) > 0
  {
    MarkIsOneMore(bm, i);
    OneMoreCounts(bm, Mark(bm, i), lo, hi, i);
  }

  lemma {:induction false} NothingAvailable(bm: seq<bv8>, lo: nat, hi: nat)
    requires lo <= hi
    requires forall i :: lo <= i < hi ==> !Available(bm, i)
    ensures Clear(bm, lo, hi) == 0
  {
    if lo < hi {
      NothingAvailable(bm, lo, hi - 1);
    }
  }

  lemma {:induction false} ClearAndCount(bm: seq<bv8>, lo: nat, hi: nat)
    requires lo <= hi
    ensures Clear(bm, lo, hi) + Count(bm, lo, hi) <= hi - lo
  {
    if lo < hi {
      ClearAndCount(bm, lo, hi - 1);
    }
  }

  /** The allocators' scan: the lowest available bit in the range, which it marks. */
  method AllocFirst(bm: seq<bv8>, lo: nat, hi: nat) returns (r: Option<nat>, bm': seq<bv8>)
    requires lo <= hi
    ensures r.Some? <==> Clear(bm, lo, hi) > 0
    ensures r.None? ==> bm' == bm
    ensures r.Some? ==>
      && lo <= r.value < hi && Available(bm, r.value)
      && (forall j :: lo <= j < r.value ==> !Available(bm, j))
      && bm' == Mark(bm, r.value)
  {
    var i := lo;
    while i < hi
      invariant lo <= i <= hi
      invariant forall j :: lo <= j < i ==> !Available(bm, j)
    {
      var byteIdx, bit := i / 8, i % 8;
      if byteIdx < |bm| && !Bit(bm[byteIdx], bit) {
        MarkCounts(bm, lo, hi, i);
        return Some(i), Mark(bm, i);
      }
      i := i + 1;
    }
    NothingAvailable(bm, lo, hi);
    return None, bm;
  }
}
