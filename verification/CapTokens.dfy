// Capability tokens without hardware randomness: four mixes of a counter and a time stamp.
module CapTokens {
  import opened Bits
  import opened Congruence

  datatype Token = Token(w0: u64, w1: u64, w2: u64, w3: u64)

  /** `x ^ (x >> k)`. */
  function XorShift(x: nat, k: nat): nat { Xor(x, ShiftRight(x, k)) }

  lemma XorShiftFits(x: u64, k: nat)
    requires k > 0
    ensures XorShift(x, k) < TWO_64
  {
    TwoTo64();
    XorBound(x, ShiftRight(x, k), 64);
  }

  lemma {:induction false} Undone(x: int, c: int, d: int, m: nat)
    requires m > 0 && Cong(c * d, 1, m)
    ensures Cong((x * c) * d, x, m)
  {
    CongMul(x, x, c * d, 1, m);
    Reassociate(x, c, d);
    CongSame(x * (c * d), (x * c) * d, x, m);
  }

  lemma Reassociate(x: int, c: int, d: int)
    ensures (x * c) * d == x * (c * d)
  {
  }

  /** Multiplying by an odd constant can be undone: d is its inverse. */
  lemma {:induction false} MulInjective(x: u64, y: u64, c: nat, d: nat)
    requires (c * d) % TWO_64 == 1 && WrappingMul(x, c) == WrappingMul(y, c)
    ensures x == y
  {
    CongIsMod(c * d, 1, TWO_64);
    CongIsMod(x * c, y * c, TWO_64);
    CongMul(x * c, y * c, d, d, TWO_64);
    Undone(x, c, d, TWO_64);
    Undone(y, c, d, TWO_64);
    CongIsMod(x, y, TWO_64);
  }

  /** One round of `mix`. */
  function Round(x: u64, k: nat, c: nat): u64 {
    WrappingMul(XorShift(x, k), c)
  }

  lemma RoundInjective(x: u64, y: u64, k: nat, c: nat, d: nat)
    requires k > 0 && (c * d) % TWO_64 == 1 && Round(x, k, c) == Round(y, k, c)
    ensures x == y
  {
    XorShiftFits(x, k);
    XorShiftFits(y, k);
    MulInjective(XorShift(x, k), XorShift(y, k), c, d);
    XorShiftInjective(x, y, k);
  }

  const GOLDEN: nat := 0x9E37_79B9_7F4A_7C15
  const FIRST: nat := 0xBF58_476D_1CE4_E5B9
  const SECOND: nat := 0x94D0_49BB_1331_11EB

  /** The closure `mix`. */
  function Mix(x: u64): nat {
    XorShift(Round(Round(WrappingAdd(x, GOLDEN), 30, FIRST), 27, SECOND), 31)
  }

  lemma FirstInverse(c: nat, d: nat)
    requires c == FIRST && d == 0x96de_1b17_3f11_9089
    ensures (c * d) % TWO_64 == 1
  {
    assert 0xBF58_476D_1CE4_E5B9 * 0x96de_1b17_3f11_9089 % TWO_64 == 1;
  }

  lemma SecondInverse(c: nat, d: nat)
    requires c == SECOND && d == 0x3196_42b2_d24d_8ec3
    ensures (c * d) % TWO_64 == 1
  {
    assert 0x94D0_49BB_1331_11EB * 0x3196_42b2_d24d_8ec3 % TWO_64 == 1;
  }

  lemma AddInjective(x: u64, y: u64, c: u64)
    requires WrappingAdd(x, c) == WrappingAdd(y, c)
    ensures x == y
  {
  }

  /** `mix` after its first addition, with its constants as parameters. */
  lemma MixesInjective(a: u64, b: u64, c: nat, c': nat, d: nat, d': nat)
    requires (c * c') % TWO_64 == 1 && (d * d') % TWO_64 == 1
    requires XorShift(Round(Round(a, 30, c), 27, d), 31) == XorShift(Round(Round(b, 30, c), 27, d), 31)
    ensures a == b
  {
    XorShiftInjective(Round(Round(a, 30, c), 27, d), Round(Round(b, 30, c), 27, d), 31);
    RoundInjective(Round(a, 30, c), Round(b, 30, c), 27, d, d');
    RoundInjective(a, b, 30, c, c');
  }

  lemma MixParts(x: u64, y: u64, a: u64, b: u64, c: nat, d: nat)
    requires Mix(x) == Mix(y)
    requires a == WrappingAdd(x, GOLDEN) && b == WrappingAdd(y, GOLDEN) && c == FIRST && d == SECOND
    ensures XorShift(Round(Round(a, 30, c), 27, d), 31) == XorShift(Round(Round(b, 30, c), 27, d), 31)
  {
  }

  lemma MixInjectiveAt(x: u64, y: u64, g: u64, c: nat, c': nat, d: nat, d': nat)
    requires Mix(x) == Mix(y) && g == GOLDEN && c == FIRST && d == SECOND
    requires (c * c') % TWO_64 == 1 && (d * d') % TWO_64 == 1
    ensures x == y
  {
    var a, b := WrappingAdd(x, g), WrappingAdd(y, g);
    MixParts(x, y, a, b, c, d);
    MixesInjective(a, b, c, c', d, d');
    AddInjective(x, y, g);
  }

  /** `mix` is injective on 64-bit words. */
  lemma MixInjective(x: u64, y: u64)
    requires Mix(x) == Mix(y)
    ensures x == y
  {
    FirstInverse(FIRST, 0x96de_1b17_3f11_9089);
    SecondInverse(SECOND, 0x3196_42b2_d24d_8ec3);
    MixInjectiveAt(x, y, GOLDEN, FIRST, 0x96de_1b17_3f11_9089, SECOND, 0x3196_42b2_d24d_8ec3);
  }

  lemma XorTimeFits(count: u64, ts: u64)
    ensures Xor(count, ts) < TWO_64
  {
    TwoTo64();
    XorBound(count, ts, 64);
  }

  lemma MixFits(x: u64)
    ensures Mix(x) < TWO_64
  {
    XorShiftFits(Round(Round(WrappingAdd(x, GOLDEN), 30, FIRST), 27, SECOND), 31);
  }

  /** The token for a counter value and a time stamp. */
  function Make(count: u64, ts: u64): (t: Token)
    ensures t.w0 == Mix(count)
  {
    XorTimeFits(count, ts);
    var x: u64 := Xor(count, ts);
    var y := WrappingAdd(ts, count);
    var z := WrappingAdd(WrappingMul(count, ts), 0x243F_6A88_85A3_08D3);
    MixFits(count);
    MixFits(x);
    MixFits(y);
    MixFits(z);
    Token(Mix(count), Mix(x), Mix(y), Mix(z))
  }

  /** A token tells its counter value and its time stamp. */
  lemma MakeInjective(count: u64, ts: u64, count': u64, ts': u64)
    requires Make(count, ts) == Make(count', ts')
    ensures count == count' && ts == ts'
  {
    MixInjective(count, count');
    XorTimeFits(count, ts);
    XorTimeFits(count', ts');
    MixInjective(Xor(count, ts), Xor(count', ts'));
    XorCancel(count, ts);
    XorCancel(count', ts');
  }
}
