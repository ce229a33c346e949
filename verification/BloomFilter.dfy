// The Bloom filter of the revocation engine: 256 words of 64 bits and four seeded hashes.
module BloomFilter {
  import opened Bits
  import opened CapTokens

  const WORDS: nat := 256
  const HASHES: nat := 4

  // ---- Single bits of a word ----

  predicate HasBit(w: nat, k: nat) {
    ShiftRight(w, k) % 2 == 1
  }

  /** `w & (1 << k)` is zero exactly when bit k is clear. */
  lemma {:induction false} AndBit(w: nat, k: nat)
    ensures And(w, Pow2(k)) != 0 <==> HasBit(w, k)
  {
    if k == 0 {
      assert And(w / 2, 0) == 0;
    } else if w > 0 {
      AndBit(w / 2, k - 1);
    } else {
      ShiftZero(k);
    }
  }

  lemma {:induction false} ShiftZero(k: nat)
    ensures ShiftRight(0, k) == 0
  {
    if k > 0 {
      ShiftZero(k - 1);
    }
  }

  /** `w | (1 << k)` sets bit k and keeps the others. */
  lemma {:induction false} OrBit(w: nat, k: nat, j: nat)
    ensures HasBit(Or(w, Pow2(k)), j) <==> HasBit(w, j) || j == k
  {
    ShiftZero(j);
    if w == 0 {
      PowBit(k, j);
    } else if k == 0 {
      assert Or(w, 1) / 2 == w / 2 && Or(w, 1) % 2 == 1;
    } else {
      assert Or(w, Pow2(k)) / 2 == Or(w / 2, Pow2(k - 1)) && Or(w, Pow2(k)) % 2 == w % 2;
      if j > 0 {
        OrBit(w / 2, k - 1, j - 1);
      }
    }
  }

  lemma {:induction false} PowBit(k: nat, j: nat)
    ensures HasBit(Pow2(k), j) <==> j == k
  {
    if j > 0 {
      if k > 0 {
        PowBit(k - 1, j - 1);
      } else {
        ShiftZero(j - 1);
      }
    }
  }

  // ---- Hashes ----

  const FNV_PRIME: nat := 0x100_0000_01b3
  const FNV_BASIS: nat := 0xcbf2_9ce4_8422_2325

  function WordBytes(w: nat, n: nat): seq<nat> {
    if n == 0 then [] else [w % 256] + WordBytes(w / 256, n - 1)
  }

  /** `as_bytes`: the four words, little-endian. */
  function AsBytes(t: Token): seq<nat> {
    WordBytes(t.w0, 8) + WordBytes(t.w1, 8) + WordBytes(t.w2, 8) + WordBytes(t.w3, 8)
  }

  function Absorb(h: nat, data: seq<nat>): nat
    decreases |data|
  {
    if data == [] then h
    else
      var last := |data| - 1;
      WrappingMul(Xor(Absorb(h, data[..last]), data[last]), FNV_PRIME)
  }

  function Start(seed: nat): nat {
    WrappingAdd(WrappingMul(FNV_BASIS, FNV_PRIME), seed)
  }

  function Hash(t: Token, seed: nat): nat {
    Absorb(Start(seed), AsBytes(t))
  }

  method ComputeHash(data: seq<nat>, seed: nat) returns (h: nat)
    ensures h == Absorb(Start(seed), data)
  {
    h := Start(seed);
    var i := 0;
    while i < |data|
      invariant i <= |data| && h == Absorb(Start(seed), data[..i])
    {
      assert data[..i + 1][..i] == data[..i];
      h := Xor(h, data[i]);
      h := WrappingMul(h, FNV_PRIME);
      i := i + 1;
    }
    assert data[..|data|] == data;
  }

  // ---- The filter ----

  function Word(hash: nat): nat { (hash / 64) % WORDS }

  function BitOf(hash: nat): nat { hash % 64 }

  /** Word and bit together are the hash's place among the filter's 16384 bits. */
  lemma PlaceIsRemainder(hash: nat)
    ensures 64 * Word(hash) + BitOf(hash) == hash % 16384
  {
  }

  predicate Marked(bits: seq<nat>, hash: nat)
    requires |bits| == WORDS
  {
    HasBit(bits[Word(hash)], BitOf(hash))
  }

  /** The first n hashes of t are marked. */
  predicate Covered(bits: seq<nat>, t: Token, n: nat)
    requires |bits| == WORDS
  {
    forall i: nat :: i < n ==> Marked(bits, Hash(t, i))
  }

  /** Marks are never lost. */
  ghost predicate Grown(bits: seq<nat>, bits': seq<nat>) {
    |bits| == |bits'| == WORDS && forall h: nat :: Marked(bits, h) ==> Marked(bits', h)
  }

  lemma MarkGrows(bits: seq<nat>, h: nat)
    requires |bits| == WORDS
    ensures var bits' := bits[Word(h) := Or(bits[Word(h)], Pow2(BitOf(h)))];
            Grown(bits, bits') && Marked(bits', h)
  {
    var bits' := bits[Word(h) := Or(bits[Word(h)], Pow2(BitOf(h)))];
    OrBit(bits[Word(h)], BitOf(h), BitOf(h));
    forall g: nat | Marked(bits, g)
      ensures Marked(bits', g)
    {
      OrBit(bits[Word(h)], BitOf(h), BitOf(g));
    }
  }

  class RevocationBloomFilter {
    const bits: array<nat>

    ghost predicate Valid() {
      bits.Length == WORDS
    }

    constructor ()
      ensures Valid() && fresh(bits)
    {
      bits := new nat[WORDS](i => 0);
    }

    method Insert(token: Token)
      requires Valid()
      modifies bits
      ensures Grown(old(bits[..]), bits[..]) && Covered(bits[..], token, HASHES)
    {
      var data := AsBytes(token);
      var i := 0;
      while i < HASHES
        invariant i <= HASHES && Grown(old(bits[..]), bits[..]) && Covered(bits[..], token, i)
      {
        var hash := ComputeHash(data, i);
        MarkGrows(bits[..], hash);
        ghost var before := bits[..];
        bits[Word(hash)] := Or(bits[Word(hash)], Pow2(BitOf(hash)));
        assert bits[..] == before[Word(hash) := Or(before[Word(hash)], Pow2(BitOf(hash)))];
        i := i + 1;
      }
    }

    method MayContain(token: Token) returns (r: bool)
      requires Valid()
      ensures r == Covered(bits[..], token, HASHES)
    {
      var data := AsBytes(token);
      var i := 0;
      while i < HASHES
        invariant i <= HASHES && Covered(bits[..], token, i)
      {
        var hash := ComputeHash(data, i);
        AndBit(bits[Word(hash)], BitOf(hash));
        if And(bits[Word(hash)], Pow2(BitOf(hash))) == 0 {
          assert !Marked(bits[..], Hash(token, i));
          return false;
        }
        i := i + 1;
      }
      return true;
    }
  }
}
