// GF(2^255 - 19) on five 51-bit limbs: each operation against exact integer arithmetic modulo the
// prime, with the machine-word bounds under which it does not wrap.
module Field25519 {
  import opened Bits
  import opened Congruence

  const PRIME: nat := 0x7fff_ffff_ffff_ffff_ffff_ffff_ffff_ffff_ffff_ffff_ffff_ffff_ffff_ffff_ffff_ffed // 2^255 - 19
  const LIMB: nat := 0x8_0000_0000_0000 // 2^51

  type Fe = s: seq<nat> | |s| == 5 witness [0, 0, 0, 0, 0]

  const ZERO: Fe := [0, 0, 0, 0, 0]
  const ONE: Fe := [1, 0, 0, 0, 0]

  // Powers of the limb base.
  const B2: nat := 0x40_0000_0000_0000_0000_0000_0000
  const B3: nat := 0x200_0000_0000_0000_0000_0000_0000_0000_0000_0000
  const B4: nat := 0x1000_0000_0000_0000_0000_0000_0000_0000_0000_0000_0000_0000_0000
  const B5: nat := 0x8000_0000_0000_0000_0000_0000_0000_0000_0000_0000_0000_0000_0000_0000_0000_0000

  function Value(a: Fe): nat {
    a[0] + LIMB * a[1] + B2 * a[2] + B3 * a[3] + B4 * a[4]
  }

  /** All limbs are at most `bound`. */
  predicate Within(a: Fe, bound: nat) {
    a[0] <= bound && a[1] <= bound && a[2] <= bound && a[3] <= bound && a[4] <= bound
  }

  // What a multiplication leaves, what one addition or subtraction of such values leaves, and what
  // a multiplication accepts.
  const REDUCED: nat := 0x8_0000_0000_4000
  const SUMMED: nat := 0x18_0000_0000_4000
  const MUL_BOUND: nat := 0x3f_ffff_ffff_ffff // 2^54 - 1

  // ---- Addition and subtraction ----

  function Add(a: Fe, b: Fe): (r: Fe)
    requires Within(a, REDUCED) && Within(b, REDUCED)
    ensures Within(r, SUMMED) && Value(r) == Value(a) + Value(b)
  {
    [a[0] + b[0], a[1] + b[1], a[2] + b[2], a[3] + b[3], a[4] + b[4]]
  }

  /** The added constants are the limbs of exactly twice the prime, so no limb goes below zero. */
  function Sub(a: Fe, b: Fe): (r: Fe)
    requires Within(a, REDUCED) && Within(b, REDUCED)
    ensures Within(r, SUMMED) && Value(r) == Value(a) + 2 * PRIME - Value(b)
  {
    [a[0] + 0xf_ffff_ffff_ffda - b[0], a[1] + 0xf_ffff_ffff_fffe - b[1], a[2] + 0xf_ffff_ffff_fffe - b[2],
     a[3] + 0xf_ffff_ffff_fffe - b[3], a[4] + 0xf_ffff_ffff_fffe - b[4]]
  }

  lemma SubCong(a: Fe, b: Fe)
    requires Within(a, REDUCED) && Within(b, REDUCED)
    ensures Cong(Value(Sub(a, b)), Value(a) - Value(b), PRIME)
  {
    AddMultiple(Value(a) - Value(b), 2, PRIME);
  }

  // ---- Multiplication ----

  /** The five column sums, the part of the schoolbook product above 2^255 folded back times 19. */
  function Columns(a: Fe, b: Fe): Fe {
    [ a[0] * b[0] + 19 * (a[1] * b[4] + a[2] * b[3] + a[3] * b[2] + a[4] * b[1]),
      a[0] * b[1] + a[1] * b[0] + 19 * (a[2] * b[4] + a[3] * b[3] + a[4] * b[2]),
      a[0] * b[2] + a[1] * b[1] + a[2] * b[0] + 19 * (a[3] * b[4] + a[4] * b[3]),
      a[0] * b[3] + a[1] * b[2] + a[2] * b[1] + a[3] * b[0] + 19 * (a[4] * b[4]),
      a[0] * b[4] + a[1] * b[3] + a[2] * b[2] + a[3] * b[1] + a[4] * b[0] ]
  }

  lemma MulScaled(x: nat, c: nat, y: nat)
    ensures x * (c * y) == c * (x * y) && (c * x) * y == c * (x * y)
  {
  }

  lemma DistributeFive(x: nat, p: nat, q: nat, r: nat, s: nat, t: nat)
    ensures x * (p + q + r + s + t) == x * p + x * q + x * r + x * s + x * t
    ensures (p + q + r + s + t) * x == p * x + q * x + r * x + s * x + t * x
  {
  }

  /** One limb times a whole element. */
  lemma RowProduct(x: nat, b: Fe)
    ensures x * Value(b) == x * b[0] + LIMB * (x * b[1]) + B2 * (x * b[2]) + B3 * (x * b[3]) + B4 * (x * b[4])
  {
    DistributeFive(x, b[0], LIMB * b[1], B2 * b[2], B3 * b[3], B4 * b[4]);
    MulScaled(x, LIMB, b[1]);
    MulScaled(x, B2, b[2]);
    MulScaled(x, B3, b[3]);
    MulScaled(x, B4, b[4]);
  }

  lemma ProductByRows(a: Fe, b: Fe)
    ensures Value(a) * Value(b) == a[0] * Value(b) + LIMB * (a[1] * Value(b)) + B2 * (a[2] * Value(b)) +
                                   B3 * (a[3] * Value(b)) + B4 * (a[4] * Value(b))
  {
    var v := Value(b);
    DistributeFive(v, a[0], LIMB * a[1], B2 * a[2], B3 * a[3], B4 * a[4]);
    MulScaled(a[1], LIMB, v);
    MulScaled(a[2], B2, v);
    MulScaled(a[3], B3, v);
    MulScaled(a[4], B4, v);
  }

  /** The part of the product that the folding replaced: congruent to nothing. */
  ghost function Overflow(a: Fe, b: Fe): nat {
    (a[1] * b[4] + a[2] * b[3] + a[3] * b[2] + a[4] * b[1])
    + LIMB * (a[2] * b[4] + a[3] * b[3] + a[4] * b[2])
    + B2 * (a[3] * b[4] + a[4] * b[3])
    + B3 * (a[4] * b[4])
  }

  /** Twenty-five products, gathered by weight: the identity is linear in them. */
  lemma Gather(a: Fe, b: Fe)
    ensures Value(Columns(a, b)) + PRIME * Overflow(a, b) ==
      (a[0] * b[0] + LIMB * (a[0] * b[1]) + B2 * (a[0] * b[2]) + B3 * (a[0] * b[3]) + B4 * (a[0] * b[4]))
      + LIMB * (a[1] * b[0] + LIMB * (a[1] * b[1]) + B2 * (a[1] * b[2]) + B3 * (a[1] * b[3]) + B4 * (a[1] * b[4]))
      + B2 * (a[2] * b[0] + LIMB * (a[2] * b[1]) + B2 * (a[2] * b[2]) + B3 * (a[2] * b[3]) + B4 * (a[2] * b[4]))
      + B3 * (a[3] * b[0] + LIMB * (a[3] * b[1]) + B2 * (a[3] * b[2]) + B3 * (a[3] * b[3]) + B4 * (a[3] * b[4]))
      + B4 * (a[4] * b[0] + LIMB * (a[4] * b[1]) + B2 * (a[4] * b[2]) + B3 * (a[4] * b[3]) + B4 * (a[4] * b[4]))
  {
  }

  /** The column sums denote the exact product, up to a multiple of the prime. */
  lemma ColumnsValue(a: Fe, b: Fe)
    ensures Value(Columns(a, b)) + PRIME * Overflow(a, b) == Value(a) * Value(b)
  {
    var v := Value(b);
    calc {
      Value(a) * v;
      { ProductByRows(a, b); }
      a[0] * v + LIMB * (a[1] * v) + B2 * (a[2] * v) + B3 * (a[3] * v) + B4 * (a[4] * v);
      { RowProduct(a[0], b); RowProduct(a[1], b); RowProduct(a[2], b); RowProduct(a[3], b); RowProduct(a[4], b); Gather(a, b); }
      Value(Columns(a, b)) + PRIME * Overflow(a, b);
    }
  }

  const SQUARE_BOUND: nat := 0xfff_ffff_ffff_ff80_0000_0000_0001 // MUL_BOUND * MUL_BOUND

  /** Every column sum fits 128 bits with room for a carry; the last one is smaller. */
  lemma ColumnsFit(a: Fe, b: Fe)
    requires Within(a, MUL_BOUND) && Within(b, MUL_BOUND)
    ensures Within(Columns(a, b), 77 * SQUARE_BOUND) && Columns(a, b)[4] <= 5 * SQUARE_BOUND
  {
    forall i, j | 0 <= i < 5 && 0 <= j < 5
      ensures a[i] * b[j] <= SQUARE_BOUND
    {
      ProductBound(a[i], b[j], MUL_BOUND, MUL_BOUND);
    }
  }

  lemma LowBits(x: nat)
    ensures (x % TWO_64) % LIMB == x % LIMB
  {
  }

  /** The source's `x as u64 & 0x7ffffffffffff` is the remainder the model takes. */
  lemma {:induction false} MaskIsRemainder(x: nat, mask: nat)
    requires mask == LIMB - 1
    ensures And(x % TWO_64, mask) == x % LIMB
  {
    LimbIsPower();
    AndMask(x % TWO_64, 51);
    LowBits(x);
  }

  lemma {:induction false} LimbIsPower()
    ensures Pow2(51) == LIMB
  {
    PowAdd(8, 9);
    PowAdd(17, 17);
    PowAdd(17, 34);
  }

  /** Four carries up the columns, and what leaves the top. The typed lets are the source's words. */
  function CarryUp(t: Fe): (r: (Fe, nat))
    requires Within(t, 77 * SQUARE_BOUND) && t[4] <= 5 * SQUARE_BOUND
    ensures Within(r.0, LIMB - 1) && Value(r.0) + B5 * r.1 == Value(t)
    ensures r.1 <= 0xa40_0000_0000_0000
  {
    var t1: u128 := t[1] + t[0] / LIMB;
    var t2: u128 := t[2] + t1 / LIMB;
    var t3: u128 := t[3] + t2 / LIMB;
    var t4: u128 := t[4] + t3 / LIMB;
    ([t[0] % LIMB, t1 % LIMB, t2 % LIMB, t3 % LIMB, t4 % LIMB], t4 / LIMB)
  }

  /** The top carry folded back times 19, and one more carry into limb 1. */
  function Fold(h: Fe, carry: nat): (r: Fe)
    requires Within(h, LIMB - 1) && carry <= 0xa40_0000_0000_0000
    ensures Within(r, REDUCED) && Value(r) == Value(h) + 19 * carry
  {
    var top: u64 := (carry % TWO_64) * 19;
    var low: u64 := h[0] + top;
    var l1: u64 := h[1] + low / LIMB;
    [low % LIMB, l1, h[2], h[3], h[4]]
  }

  /** The carry chain keeps the value modulo the prime. */
  function Reduce(t: Fe): (r: Fe)
    requires Within(t, 77 * SQUARE_BOUND) && t[4] <= 5 * SQUARE_BOUND
    ensures Within(r, REDUCED) && Cong(Value(r), Value(t), PRIME)
  {
    var (h, carry) := CarryUp(t);
    AddMultiple(Value(Fold(h, carry)), carry, PRIME);
    Fold(h, carry)
  }

  /** `a * b` for limbs below 2^54: no step wraps, the result has limbs close to 51 bits, and it is exact
      modulo the prime. */
  function Mul(a: Fe, b: Fe): (r: Fe)
    requires Within(a, MUL_BOUND) && Within(b, MUL_BOUND)
    ensures Within(r, REDUCED) && Cong(Value(r), Value(a) * Value(b), PRIME)
  {
    ColumnsFit(a, b);
    ColumnsValue(a, b);
    AddMultiple(Value(Columns(a, b)), Overflow(a, b), PRIME);
    Reduce(Columns(a, b))
  }
}
