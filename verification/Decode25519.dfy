// Reading a field element from 32 little-endian bytes: overlapping 8-byte loads, shifts and masks.
module Decode25519 {
  import opened Bits
  import opened Field25519

  /** `(u64::from_le_bytes(bytes[i..i + 8]) >> s) & 0x7ffffffffffff`; masking is remainder (MaskIsRemainder). */
  function Load(bytes: seq<u8>, i: nat, s: nat): nat
    requires i + 8 <= |bytes|
  {
    (LittleEndian(bytes[i..i + 8]) / Pow2(s)) % LIMB
  }

  function FromBytes(bytes: seq<u8>): (r: Fe)
    requires |bytes| == 32
    ensures Within(r, REDUCED)
  {
    [Load(bytes, 0, 0), Load(bytes, 6, 3), Load(bytes, 12, 6), Load(bytes, 19, 1), Load(bytes, 24, 12)]
  }

  /** The k-th base-2^51 digit and everything above it. */
  function Shifted(x: nat, k: nat): nat {
    if k == 0 then x else Shifted(x, k - 1) / LIMB
  }

  lemma {:induction false} ShiftedIsQuotient(x: nat, k: nat)
    ensures Shifted(x, k) == x / Pow2(51 * k)
  {
    if k == 0 {
      assert Pow2(51 * k) == 1;
    } else {
      ShiftedIsQuotient(x, k - 1);
      LimbIsPower();
      PowAdd(51 * (k - 1), 51);
      DivDiv(x, Pow2(51 * (k - 1)), LIMB);
    }
  }

  lemma LoadedDigit(x: nat, word: nat, p: nat, s: nat, k: nat)
    requires p > 0 && s > 0 && k > 0 && s * LIMB * k > 0 && word == (x / p) % (s * LIMB * k)
    ensures p * s > 0 && (word / s) % LIMB == (x / (p * s)) % LIMB
  {
    DigitOfRemainder(x / p, s, LIMB, k, s * LIMB * k);
    DivDiv(x, p, s);
  }

  lemma Product3(x: nat, a: nat, b: nat, c: nat, d: nat)
    requires x == a * d && d == b * c
    ensures x == a * b * c
  {
  }

  lemma SixtyFour(s: nat)
    requires s <= 13
    ensures Pow2(64) == Pow2(s) * LIMB * Pow2(13 - s)
  {
    PowAdd(s, 64 - s);
    PowAdd(51, 13 - s);
    LimbIsPower();
    Product3(Pow2(64), Pow2(s), LIMB, Pow2(13 - s), Pow2(64 - s));
  }

  /** Each load is a base-2^51 digit of the number, when its bit offset is right. */
  lemma {:induction false} LoadIsDigit(bytes: seq<u8>, i: nat, s: nat, k: nat)
    requires i + 8 <= |bytes| && s <= 12 && 8 * i + s == 51 * k
    ensures Load(bytes, i, s) == Shifted(LittleEndian(bytes), k) % LIMB
  {
    var x := LittleEndian(bytes);
    LittleEndianSlice(bytes, bytes[..i], bytes[i..i + 8], bytes[i + 8..], i, 8);
    SixtyFour(s);
    LoadedDigit(x, LittleEndian(bytes[i..i + 8]), Pow2(8 * i), Pow2(s), Pow2(13 - s));
    PowAdd(8 * i, s);
    ShiftedIsQuotient(x, k);
  }

  /** The limbs denote the number the bytes denote, without its top bit. */
  lemma FromBytesValue(bytes: seq<u8>)
    requires |bytes| == 32
    ensures Value(FromBytes(bytes)) == LittleEndian(bytes) % B5
  {
    var x := LittleEndian(bytes);
    LoadIsDigit(bytes, 0, 0, 0);
    LoadIsDigit(bytes, 6, 3, 1);
    LoadIsDigit(bytes, 12, 6, 2);
    LoadIsDigit(bytes, 19, 1, 3);
    LoadIsDigit(bytes, 24, 12, 4);
    DigitsValue(x, Shifted(x, 1), Shifted(x, 2), Shifted(x, 3), Shifted(x, 4), Shifted(x, 5));
  }

  lemma DigitsValue(x: nat, d1: nat, d2: nat, d3: nat, d4: nat, d5: nat)
    requires d1 == x / LIMB && d2 == d1 / LIMB && d3 == d2 / LIMB && d4 == d3 / LIMB && d5 == d4 / LIMB
    ensures x % LIMB + LIMB * (d1 % LIMB) + B2 * (d2 % LIMB) + B3 * (d3 % LIMB) + B4 * (d4 % LIMB) == x % B5
  {
    var r := x % LIMB + LIMB * (d1 % LIMB) + B2 * (d2 % LIMB) + B3 * (d3 % LIMB) + B4 * (d4 % LIMB);
    assert x == d5 * B5 + r;
    ModUnique(x, B5, d5, r);
  }
}
