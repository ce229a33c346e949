// Powers and inversion over GF(2^255 - 19), as coded, and exactly what `invert` inverts.
module Powers25519 {
  import opened Bits
  import opened Congruence
  import opened Field25519

  /** `y` is `z^n` in the field. */
  ghost predicate IsPower(y: Fe, z: int, n: nat) {
    Cong(Value(y), Power(z, n), PRIME)
  }

  /** The `*` operator: reduced limbs, exact modulo the prime. */
  method Times(a: Fe, b: Fe) returns (r: Fe)
    requires Within(a, MUL_BOUND) && Within(b, MUL_BOUND)
    ensures Within(r, REDUCED) && Cong(Value(r), Value(a) * Value(b), PRIME)
  {
    r := Mul(a, b);
  }

  // ---- pow ----

  lemma PowerHalves(b: int, h: nat)
    ensures Power(b, 2 * h) == Power(b * b, h)
    ensures Power(b, 2 * h + 1) == b * Power(b * b, h)
  {
    PowerMul(b, 2, h);
    assert Power(b, 2) == b * Power(b, 1) && Power(b, 1) == b * Power(b, 0);
  }

  /** One round of square-and-multiply keeps `result * base^n`. */
  lemma {:induction false} SquareStep(result: int, base: int, n: nat, result': int, base': int, total: int)
    requires n > 0 && Cong(result * Power(base, n), total, PRIME) && Cong(base', base * base, PRIME)
    requires Cong(result', if n % 2 == 1 then result * base else result, PRIME)
    ensures Cong(result' * Power(base', n / 2), total, PRIME)
  {
    var h := n / 2;
    PowerHalves(base, h);
    CongPower(base', base * base, h, PRIME);
    var q := Power(base * base, h);
    var r := if n % 2 == 1 then result * base else result;
    CongMul(result', r, Power(base', h), q, PRIME);
    Halved(result, base, n, q, Power(base, n));
    CongSame(result * Power(base, n), r * q, total, PRIME);
  }

  lemma Halved(result: int, base: int, n: nat, q: int, power: int)
    requires power == if n % 2 == 1 then base * q else q
    ensures result * power == (if n % 2 == 1 then result * base else result) * q
  {
  }

  /** `pow`: for every exponent, the n-th power. */
  method Pow(a: Fe, exponent: u64) returns (result: Fe)
    requires Within(a, MUL_BOUND)
    ensures IsPower(result, Value(a), exponent) && Within(result, REDUCED)
  {
    result := ONE;
    var base: Fe, n: nat := a, exponent;
    ghost var total := Power(Value(a), exponent);
    while n > 0
      invariant Within(result, REDUCED) && Within(base, MUL_BOUND)
      invariant Cong(Value(result) * Power(Value(base), n), total, PRIME)
    {
      ghost var r0, b0 := Value(result), Value(base);
      if n % 2 == 1 {
        result := Times(result, base);
      }
      base := Times(base, base);
      SquareStep(r0, b0, n, Value(result), Value(base), total);
      n := n / 2;
    }
    assert Power(Value(base), 0) == 1;
  }

  // ---- invert ----

  lemma MulIsPower(r: Fe, a: Fe, b: Fe, z: int, m: nat, n: nat)
    requires Cong(Value(r), Value(a) * Value(b), PRIME) && IsPower(a, z, m) && IsPower(b, z, n)
    ensures IsPower(r, z, m + n)
  {
    CongMul(Value(a), Power(z, m), Value(b), Power(z, n), PRIME);
    PowerAdd(z, m, n);
  }

  /** A product of known powers. */
  method TimesPowers(a: Fe, b: Fe, ghost z: int, ghost m: nat, ghost n: nat) returns (r: Fe)
    requires Within(a, REDUCED) && Within(b, REDUCED) && IsPower(a, z, m) && IsPower(b, z, n)
    ensures Within(r, REDUCED) && IsPower(r, z, m + n)
  {
    r := Times(a, b);
    MulIsPower(r, a, b, z, m, n);
  }

  lemma DoubledScale(m: nat, k: nat, p: nat)
    requires k > 0 && p == Pow2(k - 1)
    ensures (m + m) * p == m * Pow2(k)
  {
  }

  /** `.square()` applied k times. */
  method Squares(a: Fe, k: nat, ghost z: int, ghost m: nat) returns (r: Fe)
    requires Within(a, REDUCED) && IsPower(a, z, m)
    ensures Within(r, REDUCED) && IsPower(r, z, m * Pow2(k))
  {
    r := a;
    var i := 0;
    ghost var e := m;
    while i < k
      invariant i <= k && Within(r, REDUCED) && IsPower(r, z, e) && e == m * Pow2(i)
    {
      r := TimesPowers(r, r, z, e, e);
      DoubledScale(m, i + 1, Pow2(i));
      assert m * Pow2(i) + m * Pow2(i) == (m + m) * Pow2(i);
      e := e + e;
      i := i + 1;
    }
  }

  /** k squarings and a product: the exponent e becomes e * 2^k + f. */
  method Run(a: Fe, k: nat, b: Fe, ghost z: int, ghost e: nat, ghost f: nat, ghost p: nat) returns (r: Fe)
    requires Within(a, REDUCED) && Within(b, REDUCED) && IsPower(a, z, e) && IsPower(b, z, f) && p == Pow2(k)
    ensures Within(r, REDUCED) && IsPower(r, z, e * p + f)
  {
    var s := Squares(a, k, z, e);
    r := TimesPowers(s, b, z, e * p, f);
  }

  lemma {:induction false} PowersOfTwo()
    ensures Pow2(2) == 4 && Pow2(5) == 32 && Pow2(10) == 1024
    ensures Pow2(20) == 0x10_0000 && Pow2(50) == 0x4_0000_0000_0000
  {
    PowAdd(20, 10);
    PowAdd(20, 30);
  }

  /** The exponent the addition chain of `invert` reaches; Fermat's little theorem asks for 2^255 - 21. */
  const INVERT_EXPONENT: nat := 0x1ff_ffff_ffff_ffff_ffff_ffff_ffeb // 2^105 - 21

  method InvertHead(a: Fe, ghost z: int) returns (t0: Fe, t1: Fe)
    requires Within(a, REDUCED) && IsPower(a, z, 1)
    ensures Within(t0, REDUCED) && Within(t1, REDUCED) && IsPower(t0, z, 11) && IsPower(t1, z, 31)
  {
    PowersOfTwo();
    t0 := TimesPowers(a, a, z, 1, 1);
    t1 := Squares(t0, 2, z, 2);
    t1 := TimesPowers(a, t1, z, 1, 8);
    t0 := TimesPowers(t0, t1, z, 2, 9);
    var t2 := TimesPowers(t0, t0, z, 11, 11);
    t1 := TimesPowers(t1, t2, z, 9, 22);
  }

  /** `invert`: for every element, the (2^105 - 21)-th power. */
  method Invert(a: Fe) returns (r: Fe)
    requires Within(a, REDUCED)
    ensures Within(r, REDUCED) && IsPower(r, Value(a), INVERT_EXPONENT)
  {
    ghost var z := Value(a);
    assert Power(z, 1) == z * Power(z, 0);
    var t0, t1 := InvertHead(a, z);
    PowersOfTwo();
    t1 := Run(t1, 5, t1, z, 31, 31, 32);
    var t2 := Run(t1, 10, t1, z, 0x3ff, 0x3ff, 1024);
    t2 := Run(t2, 20, t2, z, 0xf_ffff, 0xf_ffff, 0x10_0000);
    t1 := Run(t2, 10, t1, z, 0xff_ffff_ffff, 0x3ff, 1024);
    t1 := Run(t1, 50, t1, z, 0x3_ffff_ffff_ffff, 0x3_ffff_ffff_ffff, 0x4_0000_0000_0000);
    t1 := Squares(t1, 5, z, 0xf_ffff_ffff_ffff_ffff_ffff_ffff);
    r := TimesPowers(t0, t1, z, 11, 0x1ff_ffff_ffff_ffff_ffff_ffff_ffe0);
  }

  // ---- What `invert` inverts ----

  lemma PowerOfOne(x: int, m: nat, k: nat, p: nat)
    requires p > 0 && Cong(Power(x, m), 1, p)
    ensures Cong(Power(x, m * k), 1, p)
  {
    PowerMul(x, m, k);
    CongPower(Power(x, m), 1, k, p);
    OnePower(k);
  }

  lemma {:induction false} OnePower(k: nat)
    ensures Power(1, k) == 1
  {
    if k > 0 {
      OnePower(k - 1);
    }
  }

  /** If x^m and x^n are one and s m = t n + g, then x^g is one. */
  lemma {:induction false} PowerGcd(x: int, m: nat, n: nat, s: nat, t: nat, g: nat, p: nat)
    requires p > 0 && s * m == t * n + g && Cong(Power(x, m), 1, p) && Cong(Power(x, n), 1, p)
    ensures Cong(Power(x, g), 1, p)
  {
    PowerOfOne(x, m, s, p);
    PowerOfOne(x, n, t, p);
    assert m * s == n * t + g;
    PowerAdd(x, n * t, g);
    CongMul(Power(x, n * t), 1, Power(x, g), Power(x, g), p);
  }

  /** A result y of `invert` on z is an inverse, whatever the modulus, exactly when the (2^105 - 20)-th power is one. */
  lemma {:induction false} InvertsWhen(z: int, y: int, p: nat)
    requires p > 0 && Cong(y, Power(z, INVERT_EXPONENT), p)
    ensures Cong(z * y, 1, p) <==> Cong(Power(z, INVERT_EXPONENT + 1), 1, p)
  {
    CongMul(z, z, y, Power(z, INVERT_EXPONENT), p);
    assert Power(z, INVERT_EXPONENT + 1) == z * Power(z, INVERT_EXPONENT);
  }

  /**
   * For every element that obeys Fermat's little theorem, that is when its twelfth power is one: an
   * element for which the documented exponent would have given the inverse gets it from `invert` in
   * that case only.
   */
  lemma {:induction false} InvertsExactlyTwelfthRoots(z: int, y: int, p: nat)
    requires p > 0 && Cong(y, Power(z, INVERT_EXPONENT), p)
    requires Cong(Power(z, PRIME - 1), 1, p)
    ensures Cong(z * y, 1, p) <==> Cong(Power(z, 12), 1, p)
  {
    InvertsWhen(z, y, p);
    if Cong(Power(z, 12), 1, p) {
      PowerOfMultiple(z, 12, 0x2a_aaaa_aaaa_aaaa_aaaa_aaaa_aaa9, INVERT_EXPONENT + 1, p);
    }
    if Cong(Power(z, INVERT_EXPONENT + 1), 1, p) {
      Bezout(INVERT_EXPONENT + 1, PRIME - 1, BEZOUT_S, BEZOUT_T);
      PowerGcd(z, INVERT_EXPONENT + 1, PRIME - 1, BEZOUT_S, BEZOUT_T, 12, p);
    }
  }

  lemma PowerOfMultiple(x: int, m: nat, k: nat, n: nat, p: nat)
    requires p > 0 && n == m * k && Cong(Power(x, m), 1, p)
    ensures Cong(Power(x, n), 1, p)
  {
    PowerOfOne(x, m, k, p);
  }

  const BEZOUT_S: nat := 0x2729252d1d3d056c9e3b017491879b73c32462363e2e4e0e8daf4c12859f6bd
  const BEZOUT_T: nat := 0x9ca494b474f415b278ec05d24

  /** 12 is the greatest common divisor of the two exponents; these are its coefficients. */
  lemma Bezout(m: nat, n: nat, s: nat, t: nat)
    requires m == INVERT_EXPONENT + 1 && n == PRIME - 1 && s == BEZOUT_S && t == BEZOUT_T
    ensures s * m == t * n + 12
  {
    assert 0x2729252d1d3d056c9e3b017491879b73c32462363e2e4e0e8daf4c12859f6bd * 0x1ff_ffff_ffff_ffff_ffff_ffff_ffec
        == 0x9ca494b474f415b278ec05d24 * 0x7fff_ffff_ffff_ffff_ffff_ffff_ffff_ffff_ffff_ffff_ffff_ffff_ffff_ffff_ffff_ffec + 12;
  }

  /** One step of evaluating a power of w, b standing for w: from w^k to w^(2k) or w^(2k+1), with the values given. */
  lemma Chain(w: int, b: int, k: nat, v: int, square: int, odd: bool, next: int, p: nat)
    requires p > 0 && Cong(w, b, p) && Cong(Power(w, k), v, p) && (v * v) % p == square % p
    requires (if odd then square * b else square) % p == next % p
    ensures Cong(Power(w, if odd then k + k + 1 else k + k), next, p)
  {
    CongIsMod(v * v, square, p);
    PowerAdd(w, k, k);
    CongMul(Power(w, k), v, Power(w, k), v, p);
    CongSame(Power(w, k) * Power(w, k), Power(w, k + k), square, p);
    if odd {
      CongIsMod(square * b, next, p);
      CongMul(Power(w, k + k), square, w, b, p);
      CongSame(Power(w, k + k) * w, Power(w, k + k + 1), next, p);
    } else {
      CongIsMod(square, next, p);
    }
  }

  const WITNESS: nat := 0x31f898664ddaeae6953487fc1d8b0e216d1c7f740067e0f5c04ca7acdbddd5be

  lemma WitnessFirst(w: int)
    requires Cong(w, WITNESS, PRIME) && Cong(Power(w, 1), WITNESS, PRIME)
    ensures Cong(Power(w, 31), 0x6c1a483f62fc50a0b89564fe0c83a700c7e9377150b3b0da024a0e13b07bf391, PRIME)
  {
    Chain(w, WITNESS, 1, WITNESS,
          0x1ba18310281e7f1481b533bc864cd904c5152339845b13ebba5b52dd4f8d45c2, true,
          0x73907a16e058b4f49ff67f08405e406e6313260a44911b229bc7f34ef3a274ed, PRIME);
    Chain(w, WITNESS, 3, 0x73907a16e058b4f49ff67f08405e406e6313260a44911b229bc7f34ef3a274ed,
          0x57ff9a1e1efc62b7a1ac2358b318364c578bb64ded17de33160d2bfb8ca7047a, true,
          0x74c95f447d50c4f900940de09525d90e6ff9a2488815e1feb1b7413fcd55f5da, PRIME);
    Chain(w, WITNESS, 7, 0x74c95f447d50c4f900940de09525d90e6ff9a2488815e1feb1b7413fcd55f5da,
          0x7e5660091eae94de3505b260f95191186be886bddf5e5f914b171ac73f937af4, true,
          0xed1ba6b1d0e7280ad3adfdef379bfc3347e6a3eab7416f8ede028fdbbd31c3, PRIME);
    Chain(w, WITNESS, 15, 0xed1ba6b1d0e7280ad3adfdef379bfc3347e6a3eab7416f8ede028fdbbd31c3,
          0x5831ab8ff75d4383ba7cc4e49cc8dcba0e9f8ce89c9ff50068780b35e33d6ed0, true,
          0x6c1a483f62fc50a0b89564fe0c83a700c7e9377150b3b0da024a0e13b07bf391, PRIME);
  }

  lemma WitnessSecond(w: int)
    requires Cong(w, WITNESS, PRIME) && Cong(Power(w, 31), 0x6c1a483f62fc50a0b89564fe0c83a700c7e9377150b3b0da024a0e13b07bf391, PRIME)
    ensures Cong(Power(w, 508), 0x7a290b138b55c669b10b351c17b6103f1b4dd5aac891a84e598d57d5820a5462, PRIME)
  {
    Chain(w, WITNESS, 31, 0x6c1a483f62fc50a0b89564fe0c83a700c7e9377150b3b0da024a0e13b07bf391,
          0x252cd708bccf007e044242dc0078936a1d65870e407a644ee6c83985b4a787b3, true,
          0x41f83d2590817078552783f24bfdcaee454f76a49773b9db667d2117cfacb8ce, PRIME);
    Chain(w, WITNESS, 63, 0x41f83d2590817078552783f24bfdcaee454f76a49773b9db667d2117cfacb8ce,
          0x24c0b7b3d670382618e3a9d3ddcc3aaa0c2946935acdcac966709d6045b088a1, true,
          0x438d6ae960a52ec0f2f27ba8caea93da92d27abccc7975f6d9ac649b6a6b4f, PRIME);
    Chain(w, WITNESS, 127, 0x438d6ae960a52ec0f2f27ba8caea93da92d27abccc7975f6d9ac649b6a6b4f,
          0x5772378251033a4da3217835b3635b9ebdb5d1529ffbe8ff6463d76ff1310090, false,
          0x5772378251033a4da3217835b3635b9ebdb5d1529ffbe8ff6463d76ff1310090, PRIME);
    Chain(w, WITNESS, 254, 0x5772378251033a4da3217835b3635b9ebdb5d1529ffbe8ff6463d76ff1310090,
          0x7a290b138b55c669b10b351c17b6103f1b4dd5aac891a84e598d57d5820a5462, false,
          0x7a290b138b55c669b10b351c17b6103f1b4dd5aac891a84e598d57d5820a5462, PRIME);
  }

  lemma WitnessThird(w: int)
    requires Cong(w, WITNESS, PRIME) && Cong(Power(w, 508), 0x7a290b138b55c669b10b351c17b6103f1b4dd5aac891a84e598d57d5820a5462, PRIME)
    ensures Cong(Power(w, 8143), 0x1cb0fd05f24af0ddef76d5c066b1e69e454cf88a206ab817eeea536c683fd87, PRIME)
  {
    Chain(w, WITNESS, 508, 0x7a290b138b55c669b10b351c17b6103f1b4dd5aac891a84e598d57d5820a5462,
          0x3b10239957c8f3de04243f29a7f69ee18934366cb984a51bde4eaa81bbb3539e, true,
          0x6bbdd10699872f3cb42fce4094eb77f79cf4488ffadc34fac2c3d139475855d1, PRIME);
    Chain(w, WITNESS, 1017, 0x6bbdd10699872f3cb42fce4094eb77f79cf4488ffadc34fac2c3d139475855d1,
          0x71261c348958563d662ac215211c3b700446136ae87ec03879967388423121b, true,
          0x6f299a52912a3f3aed5203ce7da46ad37cdaa1e6d5543dff88dc61bcab829558, PRIME);
    Chain(w, WITNESS, 2035, 0x6f299a52912a3f3aed5203ce7da46ad37cdaa1e6d5543dff88dc61bcab829558,
          0x338882754225c0a96b5bfb0b8ced277b4e1c7ab8ec53824ddd4603c06dd00fd5, true,
          0x15e0ca4974551461ada2b1cc45727e57a585d49458eb5f60d9c7b563283eecfa, PRIME);
    Chain(w, WITNESS, 4071, 0x15e0ca4974551461ada2b1cc45727e57a585d49458eb5f60d9c7b563283eecfa,
          0x13a6f923ee9511bcbe19a8cfd5513a6ed90439325f60418ecca90f46924773a7, true,
          0x1cb0fd05f24af0ddef76d5c066b1e69e454cf88a206ab817eeea536c683fd87, PRIME);
  }

  lemma WitnessLast(w: int)
    requires Cong(w, WITNESS, PRIME) && Cong(Power(w, 8143), 0x1cb0fd05f24af0ddef76d5c066b1e69e454cf88a206ab817eeea536c683fd87, PRIME)
    ensures Cong(Power(w, 65147), 1, PRIME)
  {
    Chain(w, WITNESS, 8143, 0x1cb0fd05f24af0ddef76d5c066b1e69e454cf88a206ab817eeea536c683fd87,
          0x62f0aab919c55f94f8391c9053ea45216b60a740eaf08e39369ac560c8fa2b5, false,
          0x62f0aab919c55f94f8391c9053ea45216b60a740eaf08e39369ac560c8fa2b5, PRIME);
    Chain(w, WITNESS, 16286, 0x62f0aab919c55f94f8391c9053ea45216b60a740eaf08e39369ac560c8fa2b5,
          0x7d7bface10b5f7ce3220867513e180d938bb3be5db790af118954f77b0976014, true,
          0x47223f7a219824f0ca3ac58c418d93413ece509fb2852f85f09b6e5d8068ab1b, PRIME);
    Chain(w, WITNESS, 32573, 0x47223f7a219824f0ca3ac58c418d93413ece509fb2852f85f09b6e5d8068ab1b,
          0x3b694958d7193ce681acf2edfcfbd2cde72b61fdb1e5b72dc744d4f9c670cc4d, true,
          1, PRIME);
  }

  lemma WitnessOrder(w: int)
    requires Cong(w, WITNESS, PRIME)
    ensures Cong(Power(w, 65147), 1, PRIME)
  {
    assert Power(w, 1) == w * Power(w, 0);
    CongSame(w, Power(w, 1), WITNESS, PRIME);
    WitnessFirst(w);
    WitnessSecond(w);
    WitnessThird(w);
    WitnessLast(w);
  }

  /** An invertible element that `invert` does not invert: its 65147-th power is one. */
  lemma {:induction false} InvertFails(w: int, y: int)
    requires w == WITNESS && Cong(y, Power(w, INVERT_EXPONENT), PRIME)
    ensures Cong(w * Power(w, 65146), 1, PRIME)
    ensures !Cong(w * y, 1, PRIME)
  {
    WitnessOrder(w);
    assert Power(w, 65147) == w * Power(w, 65146);
    assert Power(w, 1) == w * Power(w, 0);
    InvertsWhen(w, y, PRIME);
    CongIsMod(w, 1, PRIME);
    if Cong(Power(w, INVERT_EXPONENT + 1), 1, PRIME) {
      PowerGcd(w, INVERT_EXPONENT + 1, 65147, 34421, 0x10e8510319b611a8d58c7e7c321, 1, PRIME);
    }
  }
}
