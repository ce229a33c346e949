// The Poly1305 accumulator on five 26-bit limbs, against the accumulator of section 2.5 of RFC 8439.
module Poly1305 {
  import opened Bits
  import opened Congruence

  const PRIME: nat := 0x3_ffff_ffff_ffff_ffff_ffff_ffff_ffff_fffb // 2^130 - 5
  const LIMB: nat := 0x400_0000 // 2^26
  const TWO_130: nat := 0x4_0000_0000_0000_0000_0000_0000_0000_0000

  type Limbs = s: seq<nat> | |s| == 5 witness [0, 0, 0, 0, 0]

  /** 2^(26 i). */
  function Weight(i: nat): nat {
    if i == 0 then 1 else LIMB * Weight(i - 1)
  }

  function Value(l: Limbs): nat {
    l[0] + 0x400_0000 * l[1] + 0x10_0000_0000_0000 * l[2] +
    0x4000_0000_0000_0000_0000 * l[3] + 0x100_0000_0000_0000_0000_0000_0000 * l[4]
  }

  // ---- The reference ----

  /** One message block as a number: the bytes with a one bit set beyond them. */
  function BlockNumber(chunk: seq<u8>): nat {
    LittleEndian(chunk + [1])
  }

  /** The accumulator after the whole message, one block of up to 16 bytes at a time. */
  function Accumulator(acc: nat, r: nat, msg: seq<u8>): nat
    decreases |msg|
  {
    if msg == [] then acc
    else
      var n := if |msg| < 16 then |msg| else 16;
      Accumulator(((acc + BlockNumber(msg[..n])) * r) % PRIME, r, msg[n..])
  }

  /** A block's number is its little-endian value with one bit set just beyond its bytes. */
  lemma {:induction false} BlockNumberIs(chunk: seq<u8>)
    ensures BlockNumber(chunk) == LittleEndian(chunk) + Pow2(8 * |chunk|)
  {
    LittleEndianConcat(chunk, [1], Pow2(8 * |chunk|));
    assert [1][1..] == [] && LittleEndian([1]) == 1;
  }

  function FirstBlock(msg: seq<u8>): (n: nat)
    ensures n <= |msg| && (msg != [] ==> n > 0)
  {
    if |msg| < 16 then |msg| else 16
  }

  /** How many blocks of up to 16 bytes a message has. */
  function Blocks(msg: seq<u8>): nat
    decreases |msg|
  {
    if msg == [] then 0 else 1 + Blocks(msg[FirstBlock(msg)..])
  }

  /** The blocks' numbers as the coefficients of a polynomial in r, the first block's of the highest power. */
  function Polynomial(msg: seq<u8>, r: nat): int
    decreases |msg|
  {
    if msg == [] then 0
    else BlockNumber(msg[..FirstBlock(msg)]) * Power(r, Blocks(msg)) + Polynomial(msg[FirstBlock(msg)..], r)
  }

  lemma {:induction false} OneBlockOn(acc: int, n: int, r: int, k: nat, acc': int, rest: int, total: int, p: nat)
    requires p > 0 && k > 0 && Cong(acc', (acc + n) * r, p) && Cong(total, acc' * Power(r, k - 1) + rest, p)
    ensures Cong(total, acc * Power(r, k) + (n * Power(r, k) + rest), p)
  {
    var w := Power(r, k - 1);
    CongMul(acc', (acc + n) * r, w, w, p);
    CongAdd(acc' * w, ((acc + n) * r) * w, rest, rest, p);
    ShiftPower(acc, n, r, w, Power(r, k));
  }

  lemma {:induction false} ShiftPower(acc: int, n: int, r: int, w: int, v: int)
    requires v == r * w
    ensures ((acc + n) * r) * w == acc * v + n * v
  {
    calc {
      ((acc + n) * r) * w;
      (acc + n) * (r * w);
      acc * v + n * v;
    }
  }

  /** The accumulator is that polynomial's value modulo the prime. */
  lemma {:induction false} AccumulatorIsPolynomial(acc: nat, r: nat, msg: seq<u8>, k: nat)
    requires k == Blocks(msg)
    ensures Cong(Accumulator(acc, r, msg), acc * Power(r, k) + Polynomial(msg, r), PRIME)
    decreases |msg|
  {
    if msg == [] {
      assert acc * Power(r, 0) == acc;
    } else {
      var n := FirstBlock(msg);
      var number := BlockNumber(msg[..n]);
      var acc' := ((acc + number) * r) % PRIME;
      AccumulatorIsPolynomial(acc', r, msg[n..], k - 1);
      CongMod((acc + number) * r, PRIME);
      OneBlockOn(acc, number, r, k, acc', Polynomial(msg[n..], r), Accumulator(acc, r, msg), PRIME);
    }
  }

  // ---- Limb decoding ----

  function Shl(a: nat, k: nat): nat { a * Pow2(k) }

  /** Byte `i`, as a number. */
  function At(b: seq<u8>, i: nat): (r: nat)
    requires i < |b|
    ensures r < 256
  {
    b[i]
  }

  /** `a | b << i | c << j | d << k`. */
  function Fields(a: nat, b: nat, i: nat, c: nat, j: nat, d: nat, k: nat): nat {
    Or(Or(Or(a, Shl(b, i)), Shl(c, j)), Shl(d, k))
  }

  /** The first two of the five limbs of 17 little-endian bytes, with the source's shifts and masks. */
  function LowLimbs(b: seq<u8>): (nat, nat)
    requires |b| == 17
  {
    (Fields(At(b, 0), At(b, 1), 8, At(b, 2), 16, And(At(b, 3), 0x03), 24),
     Fields(At(b, 3) / 4, At(b, 4), 6, At(b, 5), 14, And(At(b, 6), 0x0f), 22))
  }

  function HighLimbs(b: seq<u8>): (nat, nat, nat)
    requires |b| == 17
  {
    (Fields(At(b, 6) / 16, At(b, 7), 4, At(b, 8), 12, And(At(b, 9), 0x3f), 20),
     Fields(At(b, 9) / 64, At(b, 10), 2, At(b, 11), 10, At(b, 12), 18),
     Fields(At(b, 13), At(b, 14), 8, At(b, 15), 16, At(b, 16), 24))
  }

  function DecodeLimbs(b: seq<u8>): Limbs
    requires |b| == 17
  {
    [LowLimbs(b).0, LowLimbs(b).1, HighLimbs(b).0, HighLimbs(b).1, HighLimbs(b).2]
  }

  lemma {:induction false} Pow2Values()
    ensures Pow2(0) == 1 && Pow2(2) == 4 && Pow2(4) == 16 && Pow2(6) == 64 && Pow2(8) == 256
    ensures Pow2(10) == 1024 && Pow2(12) == 4096 && Pow2(14) == 0x4000 && Pow2(16) == 0x1_0000
    ensures Pow2(18) == 0x4_0000 && Pow2(20) == 0x10_0000 && Pow2(22) == 0x40_0000 && Pow2(24) == 0x100_0000
  {
    PowAdd(2, 2);
    PowAdd(4, 2);
    PowAdd(4, 4);
    PowAdd(8, 2);
    PowAdd(8, 4);
    PowAdd(8, 6);
    PowAdd(8, 8);
    PowAdd(16, 2);
    PowAdd(16, 4);
    PowAdd(16, 6);
    PowAdd(16, 8);
  }

  lemma {:induction false} OrShifted(a: nat, q: nat, k: nat)
    requires a < Pow2(k)
    ensures Or(a, Shl(q, k)) == a + Shl(q, k)
  {
    ModUnique(Shl(q, k), Pow2(k), q, 0);
    OrDisjoint(a, Shl(q, k), k);
  }

  lemma {:induction false} Masks(x: nat)
    ensures And(x, 0x03) == x % 4 && And(x, 0x0f) == x % 16 && And(x, 0x3f) == x % 64
  {
    Pow2Values();
    AndMask(x, 2);
    AndMask(x, 4);
    AndMask(x, 6);
  }

  /** Fields that do not overlap combine to their sum. */
  lemma {:induction false} LimbSum(a: nat, b: nat, c: nat, d: nat, i: nat, j: nat, k: nat, mi: nat, mj: nat, mk: nat)
    requires mi == Pow2(i) && mj == Pow2(j) && mk == Pow2(k)
    requires a < mi && a + b * mi < mj && a + b * mi + c * mj < mk
    ensures Fields(a, b, i, c, j, d, k) == a + b * mi + c * mj + d * mk
  {
    OrShifted(a, b, i);
    OrShifted(a + b * mi, c, j);
    OrShifted(a + b * mi + c * mj, d, k);
  }

  lemma {:induction false} DecodedLow(b: seq<u8>)
    requires |b| == 17
    ensures DecodeLimbs(b)[0] == At(b, 0) + 0x100 * At(b, 1) + 0x1_0000 * At(b, 2) + 0x100_0000 * (At(b, 3) % 4)
    ensures DecodeLimbs(b)[1] == At(b, 3) / 4 + 0x40 * At(b, 4) + 0x4000 * At(b, 5) + 0x40_0000 * (At(b, 6) % 16)
  {
    Pow2Values();
    Masks(At(b, 3));
    Masks(At(b, 6));
    LimbSum(At(b, 0), At(b, 1), At(b, 2), At(b, 3) % 4, 8, 16, 24, 0x100, 0x1_0000, 0x100_0000);
    LimbSum(At(b, 3) / 4, At(b, 4), At(b, 5), At(b, 6) % 16, 6, 14, 22, 0x40, 0x4000, 0x40_0000);
  }

  lemma {:induction false} DecodedHigh(b: seq<u8>)
    requires |b| == 17
    ensures DecodeLimbs(b)[2] == At(b, 6) / 16 + 0x10 * At(b, 7) + 0x1000 * At(b, 8) + 0x10_0000 * (At(b, 9) % 64)
    ensures DecodeLimbs(b)[3] == At(b, 9) / 64 + 0x4 * At(b, 10) + 0x400 * At(b, 11) + 0x4_0000 * At(b, 12)
    ensures DecodeLimbs(b)[4] == At(b, 13) + 0x100 * At(b, 14) + 0x1_0000 * At(b, 15) + 0x100_0000 * At(b, 16)
  {
    Pow2Values();
    Masks(At(b, 9));
    LimbSum(At(b, 6) / 16, At(b, 7), At(b, 8), At(b, 9) % 64, 4, 12, 20, 0x10, 0x1000, 0x10_0000);
    LimbSum(At(b, 9) / 64, At(b, 10), At(b, 11), At(b, 12), 2, 10, 18, 0x4, 0x400, 0x4_0000);
    LimbSum(At(b, 13), At(b, 14), At(b, 15), At(b, 16), 8, 16, 24, 0x100, 0x1_0000, 0x100_0000);
  }

  /** Decoding loses nothing: the limbs are in range and denote the little-endian number. */
  lemma {:induction false} DecodeIsLittleEndian(b: seq<u8>)
    requires |b| == 17
    ensures Value(DecodeLimbs(b)) == LittleEndian(b)
    ensures forall i :: 0 <= i < 4 ==> DecodeLimbs(b)[i] < LIMB
    ensures DecodeLimbs(b)[4] < 0x100_0000 * (At(b, 16) + 1)
  {
    DecodedLow(b);
    DecodedHigh(b);
    LittleEndian17(b);
  }

  lemma {:induction false} LittleEndianDrop(b: seq<u8>, i: nat)
    requires i < |b|
    ensures LittleEndian(b[i..]) == At(b, i) + 256 * LittleEndian(b[i + 1..])
  {
    assert b[i..][1..] == b[i + 1..];
  }

  lemma {:induction false} LittleEndian17(b: seq<u8>)
    requires |b| == 17
    ensures LittleEndian(b) ==
      At(b, 0) + 0x100 * (At(b, 1) + 0x100 * (At(b, 2) + 0x100 * (At(b, 3) + 0x100 * (At(b, 4) + 0x100 * (At(b, 5) + 0x100 *
      (At(b, 6) + 0x100 * (At(b, 7) + 0x100 * (At(b, 8) + 0x100 * (At(b, 9) + 0x100 * (At(b, 10) + 0x100 * (At(b, 11) + 0x100 *
      (At(b, 12) + 0x100 * (At(b, 13) + 0x100 * (At(b, 14) + 0x100 * (At(b, 15) + 0x100 * At(b, 16))))))))))))))))
  {
    assert b[0..] == b && b[17..] == [];
    forall i: nat | i < 17
      ensures LittleEndian(b[i..]) == At(b, i) + 256 * LittleEndian(b[i + 1..])
    {
      LittleEndianDrop(b, i);
    }
  }

  // ---- Multiplying by r ----

  /** The value of the first n limbs. */
  function Partial(l: Limbs, n: nat): nat
    requires n <= 5
  {
    if n == 0 then 0 else Partial(l, n - 1) + Weight(n - 1) * l[n - 1]
  }

  lemma {:induction false} WeightValues()
    ensures Weight(0) == 1 && Weight(1) == 0x400_0000 && Weight(2) == 0x10_0000_0000_0000
    ensures Weight(3) == 0x4000_0000_0000_0000_0000 && Weight(4) == 0x100_0000_0000_0000_0000_0000_0000
    ensures Weight(5) == TWO_130
  {
    assert Weight(5) == LIMB * Weight(4);
    assert Weight(3) == LIMB * Weight(2);
  }

  lemma {:induction false} PartialIsValue(l: Limbs)
    ensures Partial(l, 5) == Value(l)
  {
    WeightValues();
    assert Partial(l, 5) == Partial(l, 3) + Weight(3) * l[3] + Weight(4) * l[4];
    assert Partial(l, 3) == Partial(l, 1) + Weight(1) * l[1] + Weight(2) * l[2];
  }

  lemma {:induction false} WeightAdd(i: nat, j: nat)
    ensures Weight(i + j) == Weight(i) * Weight(j)
  {
    if i > 0 {
      WeightAdd(i - 1, j);
      assert LIMB * (Weight(i - 1) * Weight(j)) == (LIMB * Weight(i - 1)) * Weight(j);
    }
  }

  lemma {:induction false} AddToLimb(d: Limbs, k: nat, v: nat)
    requires k < 5
    ensures Value(d[k := d[k] + v]) == Value(d) + Weight(k) * v
  {
    WeightValues();
    if k == 0 {
    } else if k == 1 {
    } else if k == 2 {
    } else if k == 3 {
    } else {
    }
  }

  lemma {:induction false} Regroup(a: nat, x: nat, b: nat, y: nat)
    ensures (a * x) * (b * y) == (a * b) * (x * y)
  {
    calc {
      (a * x) * (b * y);
      a * (x * (b * y));
      { assert x * (b * y) == b * (x * y); }
      a * (b * (x * y));
      (a * b) * (x * y);
    }
  }

  /** Where a product of limb i and limb j goes, and with which factor. */
  function Place(i: nat, j: nat): nat { (i + j) % 5 }

  function Factor(i: nat, j: nat): nat { if i + j >= 5 then 5 else 1 }

  /** The multiple of the prime dropped by placing m there. */
  ghost function Dropped(i: nat, j: nat, m: nat): nat {
    if i + j >= 5 then Weight(Place(i, j)) * m else 0
  }

  lemma {:induction false} PlacedProduct(i: nat, j: nat, m: nat)
    requires i < 5 && j < 5
    ensures Weight(Place(i, j)) * (m * Factor(i, j)) + PRIME * Dropped(i, j, m) == Weight(i + j) * m
  {
    var w := Weight(Place(i, j));
    if i + j >= 5 {
      WeightAdd(5, Place(i, j));
      WeightValues();
      assert i + j == 5 + Place(i, j);
      assert (TWO_130 * w) * m == TWO_130 * (w * m);
      assert w * (m * 5) == 5 * (w * m);
    } else {
      assert Place(i, j) == i + j;
      assert m * 1 == m;
    }
  }

  /** One inner step: adding the product at its reduced place changes the value by the exact product,
      up to a multiple of the prime. */
  lemma {:induction false} StepValue(d: Limbs, i: nat, j: nat, x: nat, y: nat)
    requires i < 5 && j < 5
    ensures var k := Place(i, j);
            Value(d[k := d[k] + x * y * Factor(i, j)]) + PRIME * Dropped(i, j, x * y) ==
            Value(d) + (Weight(i) * x) * (Weight(j) * y)
  {
    var k := Place(i, j);
    AddToLimb(d, k, x * y * Factor(i, j));
    PlacedProduct(i, j, x * y);
    WeightAdd(i, j);
    Regroup(Weight(i), x, Weight(j), y);
  }

  const ACC_BOUND: nat := 0xC00_0000 // what a limb can hold before the multiplication
  const STEP: nat := 0xF0_0000_0000_0000 // 5 * ACC_BOUND * LIMB

  lemma {:induction false} ProductFits(x: nat, y: nat, i: nat, j: nat)
    requires x <= ACC_BOUND && y < LIMB
    ensures x * y * Factor(i, j) <= STEP
  {
    ProductBound(x, y, ACC_BOUND, LIMB);
  }

  function Term(x: nat, y: nat, f: nat): nat { x * y * f }

  /** What holds after the first `j` products of a row have been added to `d0`. */
  ghost predicate RowInvariant(d0: Limbs, d: Limbs, i: nat, j: nat, x: nat, r: Limbs, q: nat)
    requires i < 5 && j <= 5
  {
    && Value(d) + PRIME * q == Value(d0) + (Weight(i) * x) * Partial(r, j)
    && forall k :: 0 <= k < 5 ==> d[k] <= (5 * i + j) * STEP
  }

  lemma {:induction false} RowStep(d0: Limbs, d: Limbs, i: nat, j: nat, x: nat, r: Limbs, q: nat)
    requires i < 5 && j < 5 && x <= ACC_BOUND && r[j] < LIMB
    requires RowInvariant(d0, d, i, j, x, r, q)
    ensures var k := Place(i, j);
            && d[k] + Term(x, r[j], Factor(i, j)) <= 25 * STEP
            && RowInvariant(d0, d[k := d[k] + Term(x, r[j], Factor(i, j))], i, j + 1, x, r, q + Dropped(i, j, Term(x, r[j], 1)))
  {
    StepValue(d, i, j, x, r[j]);
    ProductFits(x, r[j], i, j);
    Distribute(Weight(i) * x, Partial(r, j), Weight(j) * r[j]);
  }

  /** The inner loop: the five products of one accumulator limb. */
  method AddRow(d0: Limbs, i: nat, x: nat, r: Limbs) returns (d: Limbs, ghost q: nat)
    requires i < 5 && x <= ACC_BOUND && forall k :: 0 <= k < 5 ==> r[k] < LIMB
    requires forall k :: 0 <= k < 5 ==> d0[k] <= 5 * i * STEP
    ensures Value(d) + PRIME * q == Value(d0) + (Weight(i) * x) * Value(r)
    ensures forall k :: 0 <= k < 5 ==> d[k] <= 5 * (i + 1) * STEP
  {
    d, q := d0, 0;
    var j := 0;
    while j < 5
      invariant 0 <= j <= 5
      invariant RowInvariant(d0, d, i, j, x, r, q)
    {
      var idx, factor := Place(i, j), Factor(i, j);
      RowStep(d0, d, i, j, x, r, q);
      q := q + Dropped(i, j, Term(x, r[j], 1));
      var sum: u128 := d[idx] + Term(x, r[j], factor);
      d := d[idx := sum];
      j := j + 1;
    }
    PartialIsValue(r);
  }

  /** The double loop: 25 products, each at its place modulo 5 with factor 5 when it wraps. */
  method MultiplyLimbs(acc: Limbs, r: Limbs) returns (d: Limbs)
    requires forall i :: 0 <= i < 5 ==> acc[i] <= ACC_BOUND && r[i] < LIMB
    ensures Cong(Value(d), Value(acc) * Value(r), PRIME)
    ensures forall k :: 0 <= k < 5 ==> d[k] <= 25 * STEP
  {
    d := [0, 0, 0, 0, 0];
    ghost var q: nat := 0;
    var i := 0;
    while i < 5
      invariant 0 <= i <= 5
      invariant Value(d) + PRIME * q == Partial(acc, i) * Value(r)
      invariant forall k :: 0 <= k < 5 ==> d[k] <= 5 * i * STEP
    {
      ghost var dropped;
      d, dropped := AddRow(d, i, acc[i], r);
      q := q + dropped;
      Distribute(Value(r), Partial(acc, i), Weight(i) * acc[i]);
      i := i + 1;
    }
    PartialIsValue(acc);
    AddMultiple(Value(d), q, PRIME);
  }

  // ---- Carrying ----

  lemma {:induction false} NoWrap(a: nat, b: nat)
    requires a + b < TWO_64
    ensures WrappingAdd(a, b) == a + b
  {
  }

  lemma {:induction false} LimbPower()
    ensures Pow2(26) == LIMB
  {
    Pow2Values();
    PowAdd(24, 2);
  }

  lemma {:induction false} LowBits(x: nat)
    ensures (x % TWO_64) % LIMB == x % LIMB
  {
  }

  lemma {:induction false} LimbMask(x: nat, mask: nat)
    requires mask == LIMB - 1
    ensures And(x % TWO_64, mask) == x % LIMB
  {
    LimbPower();
    AndMask(x % TWO_64, 26);
    LowBits(x);
  }

  /** `(x as u64) & mask`, the limb kept, and `x >> 26`, the carry. */
  method TakeLimb(x: nat) returns (limb: nat, carry: nat)
    ensures limb == x % LIMB && carry == x / LIMB && x == limb + LIMB * carry
  {
    LimbMask(x, LIMB - 1);
    limb, carry := And(x % TWO_64, LIMB - 1), x / LIMB;
  }

  ghost predicate Reduced(acc: Limbs) {
    forall i :: 0 <= i < 5 ==> acc[i] < (if i == 1 then 2 * LIMB else LIMB)
  }

  /** Four carries up the chain. */
  method CarryUp(d: Limbs) returns (acc: Limbs, top: nat)
    requires forall k :: 0 <= k < 5 ==> d[k] <= 25 * STEP
    ensures forall k :: 0 <= k < 5 ==> acc[k] < LIMB
    ensures Value(acc) + TWO_130 * top == Value(d)
    ensures top <= 0x100_0000_0000
  {
    var a0, c0 := TakeLimb(d[0]);
    var d1: u128 := d[1] + c0;
    var a1, c1 := TakeLimb(d1);
    var d2: u128 := d[2] + c1;
    var a2, c2 := TakeLimb(d2);
    var d3: u128 := d[3] + c2;
    var a3, c3 := TakeLimb(d3);
    var d4: u128 := d[4] + c3;
    var a4, c4 := TakeLimb(d4);
    CarriedUp(d, [a0, a1, a2, a3, a4], c0, c1, c2, c3, c4);
    return [a0, a1, a2, a3, a4], c4;
  }

  /** The top carry folded back times five, and one more carry into limb 1. */
  lemma {:induction false} Folded(a: Limbs, top: nat, b0: nat, c: nat)
    requires (forall k :: 0 <= k < 5 ==> a[k] < LIMB) && top <= 0x100_0000_0000
    requires a[0] + 5 * top == b0 + LIMB * c && b0 < LIMB
    ensures a[1] + c < 2 * LIMB && Reduced(a[0 := b0][1 := a[1] + c])
    ensures Value(a[0 := b0][1 := a[1] + c]) == Value(a) + 5 * top
  {
  }

  lemma {:induction false} TopDropped(v: nat, w: nat, d: nat, top: nat)
    requires v == w + 5 * top && w + TWO_130 * top == d
    ensures Cong(v, d, PRIME)
  {
    AddMultiple(v, top, PRIME);
  }

  /** The carry chain. Nothing wraps. */
  method Carry(d: Limbs) returns (acc: Limbs)
    requires forall k :: 0 <= k < 5 ==> d[k] <= 25 * STEP
    ensures Cong(Value(acc), Value(d), PRIME)
    ensures Reduced(acc)
  {
    var a, top := CarryUp(d);
    var folded: u64 := (top % TWO_64) * 5;
    NoWrap(a[0], folded);
    var b0, c := TakeLimb(WrappingAdd(a[0], folded));
    Folded(a, top, b0, c);
    NoWrap(a[1], c);
    acc := a[0 := b0][1 := WrappingAdd(a[1], c)];
    TopDropped(Value(acc), Value(a), Value(d), top);
  }

  lemma {:induction false} CarriedUp(d: Limbs, a: Limbs, c0: nat, c1: nat, c2: nat, c3: nat, c4: nat)
    requires d[0] == a[0] + LIMB * c0 && d[1] + c0 == a[1] + LIMB * c1 && d[2] + c1 == a[2] + LIMB * c2
    requires d[3] + c2 == a[3] + LIMB * c3 && d[4] + c3 == a[4] + LIMB * c4
    ensures Value(a) + TWO_130 * c4 == Value(d)
  {
  }

  // ---- The key ----

  /** The clamped first half of the key, byte by byte as the source masks it. */
  function Clamp(key: seq<u8>): (r: seq<u8>)
    requires |key| == 16
    ensures |r| == 16
  {
    key[3 := Masked(key[3], 15)][7 := Masked(key[7], 15)][11 := Masked(key[11], 15)][15 := Masked(key[15], 15)]
       [4 := Masked(key[4], 252)][8 := Masked(key[8], 252)][12 := Masked(key[12], 252)]
  }

  function Masked(x: u8, mask: nat): (r: u8)
    ensures r == And(x, mask)
  {
    AndBelow(x, mask);
    And(x, mask)
  }

  lemma {:induction false} AndBelow(a: nat, b: nat)
    ensures And(a, b) <= a
  {
    if a > 0 && b > 0 {
      AndBelow(a / 2, b / 2);
    }
  }

  const CLAMP_MASK: seq<u8> := [255, 255, 255, 15, 252, 255, 255, 15, 252, 255, 255, 15, 252, 255, 255, 15]

  lemma {:induction false} Halves(a: nat, t: nat)
    ensures (a + 2 * t) % 2 == a % 2 && (a + 2 * t) / 2 == a / 2 + t
  {
  }

  lemma {:induction false} AndDigits(a: nat, b: nat)
    ensures And(a, b) == (if a % 2 == 1 && b % 2 == 1 then 1 else 0) + 2 * And(a / 2, b / 2)
  {
  }

  /** `x << k`. */
  function Scale(x: nat, k: nat): nat {
    if k == 0 then x else 2 * Scale(x, k - 1)
  }

  /** And of two numbers is And of their low and high parts. */
  lemma {:induction false} AndSplit(a: nat, x: nat, m: nat, y: nat, k: nat)
    requires a < Pow2(k) && m < Pow2(k)
    ensures And(a + Scale(x, k), m + Scale(y, k)) == And(a, m) + Scale(And(x, y), k)
  {
    if k > 0 {
      var t, u := Scale(x, k - 1), Scale(y, k - 1);
      AndDigits(a + 2 * t, m + 2 * u);
      Halves(a, t);
      Halves(m, u);
      AndSplit(a / 2, x, m / 2, y, k - 1);
      AndDigits(a, m);
    }
  }

  lemma {:induction false} ScaleByte(x: nat, k: nat)
    requires k == 8
    ensures Scale(x, k) == 256 * x
  {
    assert Scale(x, 1) == 2 * x;
    assert Scale(x, 2) == 4 * x;
    assert Scale(x, 3) == 8 * x;
    assert Scale(x, 4) == 16 * x;
    assert Scale(x, 5) == 32 * x;
    assert Scale(x, 6) == 64 * x;
    assert Scale(x, 7) == 128 * x;
  }

  lemma {:induction false} LittleEndianAnd(b: seq<u8>, m: seq<u8>, c: seq<u8>)
    requires |b| == |m| == |c| && forall i :: 0 <= i < |b| ==> c[i] == And(b[i], m[i])
    ensures LittleEndian(c) == And(LittleEndian(b), LittleEndian(m))
  {
    if b != [] {
      LittleEndianAnd(b[1..], m[1..], c[1..]);
      Pow2Values();
      var x, y := LittleEndian(b[1..]), LittleEndian(m[1..]);
      AndSplit(b[0], x, m[0], y, 8);
      ScaleByte(x, 8);
      ScaleByte(y, 8);
      ScaleByte(And(x, y), 8);
    }
  }

  lemma {:induction false} AndOnes(x: nat, k: nat)
    requires x < Pow2(k)
    ensures And(x, Pow2(k) - 1) == x
  {
    AndMask(x, k);
    ModUnique(x, Pow2(k), 0, x);
  }

  lemma {:induction false} AllOnes(x: u8, ones: nat)
    requires ones == 255
    ensures And(x, ones) == x
  {
    Pow2Values();
    AndOnes(x, 8);
  }

  lemma {:induction false} FourBytes(m: seq<u8>, i: nat)
    requires i + 4 <= |m|
    ensures LittleEndian(m[i..]) ==
            At(m, i) + 0x100 * At(m, i + 1) + 0x1_0000 * At(m, i + 2) + 0x100_0000 * At(m, i + 3) + TWO_32 * LittleEndian(m[i + 4..])
  {
    LittleEndianDrop(m, i);
    LittleEndianDrop(m, i + 1);
    LittleEndianDrop(m, i + 2);
    LittleEndianDrop(m, i + 3);
  }

  /** The mask pattern from byte 12 down to byte 0, four bytes at a time. */
  lemma {:induction false} MaskBytes(m: seq<u8>)
    requires |m| == 16
    requires At(m, 0) == 255 && At(m, 1) == 255 && At(m, 2) == 255 && At(m, 3) == 15
    requires At(m, 4) == 252 && At(m, 5) == 255 && At(m, 6) == 255 && At(m, 7) == 15
    requires At(m, 8) == 252 && At(m, 9) == 255 && At(m, 10) == 255 && At(m, 11) == 15
    requires At(m, 12) == 252 && At(m, 13) == 255 && At(m, 14) == 255 && At(m, 15) == 15
    ensures LittleEndian(m) == 0x0ffffffc_0ffffffc_0ffffffc_0fffffff
  {
    FourBytes(m, 12);
    FourBytes(m, 8);
    FourBytes(m, 4);
    FourBytes(m, 0);
    assert m[16..] == [] && m[0..] == m;
  }

  lemma {:induction false} ClampMaskValue()
    ensures LittleEndian(CLAMP_MASK) == 0x0ffffffc_0ffffffc_0ffffffc_0fffffff
  {
    MaskBytes(CLAMP_MASK);
  }

  lemma {:induction false} ClampAt(key: seq<u8>, i: nat)
    requires |key| == 16 && i < 16
    ensures Clamp(key)[i] == And(key[i], CLAMP_MASK[i])
  {
    if i == 3 || i == 7 || i == 11 || i == 15 {
      assert CLAMP_MASK[i] == 15 && Clamp(key)[i] == Masked(key[i], 15);
    } else if i == 4 || i == 8 || i == 12 {
      assert CLAMP_MASK[i] == 252 && Clamp(key)[i] == Masked(key[i], 252);
    } else {
      assert CLAMP_MASK[i] == 255 && Clamp(key)[i] == key[i];
      AllOnes(key[i], CLAMP_MASK[i]);
    }
  }

  /** Clamping byte by byte is the mask of section 2.5 applied to the whole number. */
  lemma {:induction false} ClampIsMask(key: seq<u8>, mask: nat)
    requires |key| == 16 && mask == 0x0ffffffc_0ffffffc_0ffffffc_0fffffff
    ensures LittleEndian(Clamp(key)) == And(LittleEndian(key), mask)
  {
    forall i: nat | i < 16
      ensures Clamp(key)[i] == And(key[i], CLAMP_MASK[i])
    {
      ClampAt(key, i);
    }
    LittleEndianAnd(key, CLAMP_MASK, Clamp(key));
    ClampMaskValue();
  }

  // ---- The whole accumulator ----

  lemma {:induction false} LittleEndianZeros(b: seq<u8>, n: nat)
    ensures LittleEndian(b + seq(n, i => 0)) == LittleEndian(b)
    decreases |b|, n
  {
    var z: seq<u8> := seq(n, i => 0);
    if b == [] {
      assert b + z == z;
      if n > 0 {
        LittleEndianZeros([], n - 1);
        assert z[1..] == [] + seq(n - 1, i => 0);
      }
    } else {
      LittleEndianZeros(b[1..], n);
      assert (b + z)[1..] == b[1..] + z;
    }
  }

  /** The 17-byte block: the chunk, a one, and zeros. */
  function Block(chunk: seq<u8>): seq<u8>
    requires |chunk| <= 16
  {
    chunk + [1] + seq(16 - |chunk|, i => 0)
  }

  lemma {:induction false} BlockLimbs(chunk: seq<u8>)
    requires |chunk| <= 16
    ensures Value(DecodeLimbs(Block(chunk))) == BlockNumber(chunk)
    ensures forall i :: 0 <= i < 5 ==> DecodeLimbs(Block(chunk))[i] < LIMB
  {
    DecodeIsLittleEndian(Block(chunk));
    LittleEndianZeros(chunk + [1], 16 - |chunk|);
    assert At(Block(chunk), 16) <= 1;
  }

  /** The five limb additions. None wraps. */
  method AddLimbs(a: Limbs, n: Limbs) returns (sum: Limbs)
    requires Reduced(a) && forall i :: 0 <= i < 5 ==> n[i] < LIMB
    ensures Value(sum) == Value(a) + Value(n)
    ensures forall i :: 0 <= i < 5 ==> sum[i] <= ACC_BOUND
  {
    NoWrap(a[0], n[0]);
    NoWrap(a[1], n[1]);
    NoWrap(a[2], n[2]);
    NoWrap(a[3], n[3]);
    NoWrap(a[4], n[4]);
    sum := [WrappingAdd(a[0], n[0]), WrappingAdd(a[1], n[1]), WrappingAdd(a[2], n[2]),
            WrappingAdd(a[3], n[3]), WrappingAdd(a[4], n[4])];
  }

  /** One block: add its number, multiply by r, reduce to limbs. */
  method AbsorbBlock(acc0: Limbs, r: Limbs, chunk: seq<u8>) returns (acc: Limbs)
    requires Reduced(acc0) && |chunk| <= 16 && forall i :: 0 <= i < 5 ==> r[i] < LIMB
    ensures Reduced(acc)
    ensures Cong(Value(acc), (Value(acc0) + BlockNumber(chunk)) * Value(r), PRIME)
  {
    BlockLimbs(chunk);
    var n := DecodeLimbs(Block(chunk));
    var sum := AddLimbs(acc0, n);
    var d := MultiplyLimbs(sum, r);
    acc := Carry(d);
  }

  lemma {:induction false} KeyLimbs(key: seq<u8>)
    requires |key| == 16
    ensures Value(DecodeLimbs(key + [0])) == LittleEndian(key)
    ensures forall i :: 0 <= i < 5 ==> DecodeLimbs(key + [0])[i] < LIMB
  {
    DecodeIsLittleEndian(key + [0]);
    LittleEndianZeros(key, 1);
    assert key + seq(1, i => 0) == key + [0];
    assert At(key + [0], 16) == 0;
  }

  /** The block loop of `poly1305_mac`: over any key and message the limbs end congruent to the
      accumulator of the RFC. */
  method Accumulate(key: seq<u8>, msg: seq<u8>) returns (acc: Limbs)
    requires |key| == 16
    ensures Reduced(acc)
    ensures Cong(Value(acc), Accumulator(0, LittleEndian(Clamp(key)), msg), PRIME)
  {
    ghost var rn := LittleEndian(Clamp(key));
    KeyLimbs(Clamp(key));
    var r := DecodeLimbs(Clamp(key) + [0]);
    acc := [0, 0, 0, 0, 0];
    ghost var s: nat := 0;
    var offset := 0;
    while offset < |msg|
      invariant Reduced(acc) && Cong(Value(acc), s, PRIME)
      invariant Accumulator(s, rn, msg[(if offset < |msg| then offset else |msg|)..]) == Accumulator(0, rn, msg)
    {
      var n := if |msg| - offset < 16 then |msg| - offset else 16;
      var chunk := msg[offset..offset + n];
      AccumulatorStep(s, rn, msg, offset, n);
      ghost var before := acc;
      acc := AbsorbBlock(acc, r, chunk);
      NextAccumulator(Value(before), s, BlockNumber(chunk), rn, Value(acc), PRIME);
      s := ((s + BlockNumber(chunk)) * rn) % PRIME;
      offset := offset + 16;
    }
  }

  lemma {:induction false} AccumulatorStep(s: nat, r: nat, msg: seq<u8>, offset: nat, n: nat)
    requires offset < |msg| && n == (if |msg| - offset < 16 then |msg| - offset else 16)
    ensures Accumulator(s, r, msg[offset..]) ==
            Accumulator(((s + BlockNumber(msg[offset..offset + n])) * r) % PRIME, r, msg[offset + n..])
  {
    assert msg[offset..][..n] == msg[offset..offset + n];
    assert msg[offset..][n..] == msg[offset + n..];
  }

  lemma {:induction false} NextAccumulator(v: int, s: nat, n: nat, r: nat, w: int, p: nat)
    requires p > 0 && Cong(v, s, p) && Cong(w, (v + n) * r, p)
    ensures Cong(w, ((s + n) * r) % p, p)
  {
    CongAdd(v, s, n, n, p);
    CongMul(v + n, s + n, r, r, p);
    CongMod((s + n) * r, p);
  }
}
