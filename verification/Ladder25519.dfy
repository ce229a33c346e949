// The Montgomery ladder of X25519, as coded: the limb arithmetic against the same formulas over exact
// integers, the lazy swap against a swap before and after each step, and how the coded doubling
// differs from section 5 of RFC 7748.
module Ladder25519 {
  import opened Bits
  import opened Congruence
  import opened Field25519
  import opened Powers25519

  // ---- Conditional swap ----

  predicate Words(a: Fe) {
    forall i :: 0 <= i < 5 ==> a[i] < TWO_64
  }

  lemma FullMask(x: nat, y: nat, mask: nat)
    requires x < TWO_64 && y < TWO_64 && mask == TWO_64 - 1
    ensures And(Xor(x, y), mask) == Xor(x, y)
  {
    TwoTo64();
    XorBound(x, y, 64);
    AndMask(Xor(x, y), 64);
    ModUnique(Xor(x, y), TWO_64, 0, Xor(x, y));
  }

  /** `t = mask & (x ^ y)`, `x ^= t`, `y ^= t` swaps on an all-ones mask and does nothing on zero. */
  lemma SwapWord(x: nat, y: nat, choice: nat, mask: nat)
    requires x < TWO_64 && y < TWO_64 && choice <= 1 && mask == (TWO_64 - choice) % TWO_64
    ensures var t := And(Xor(x, y), mask);
            Xor(x, t) == (if choice == 1 then y else x) && Xor(y, t) == (if choice == 1 then x else y)
  {
    if choice == 1 {
      FullMask(x, y, mask);
      XorCancel(x, y);
    } else {
      assert mask == 0 && And(Xor(x, y), mask) == 0;
      XorZero(x);
      XorZero(y);
    }
  }

  /** The first n limbs of a and b differ as those of a0 and b0. */
  ghost predicate SameXor(a: Fe, b: Fe, a0: Fe, b0: Fe, n: nat)
    requires n <= 5
  {
    forall k :: 0 <= k < n ==> Xor(a[k], b[k]) == Xor(a0[k], b0[k])
  }

  /** `cond_swap`, limb by limb through a mask: 1 swaps and 0 does nothing. No choice byte changes what
      the two differ by, so after any other value both are changed alike. */
  method CondSwap(a0: Fe, b0: Fe, choice: nat) returns (a: Fe, b: Fe)
    requires choice < 256 && Words(a0) && Words(b0)
    ensures choice == 0 ==> a == a0 && b == b0
    ensures choice == 1 ==> a == b0 && b == a0
    ensures SameXor(a, b, a0, b0, 5)
  {
    a, b := a0, b0;
    var mask: u64 := (TWO_64 - choice) % TWO_64;
    var i := 0;
    while i < 5
      invariant i <= 5
      invariant forall k :: i <= k < 5 ==> a[k] == a0[k] && b[k] == b0[k]
      invariant choice <= 1 ==> forall k :: 0 <= k < i ==> a[k] == (if choice == 1 then b0[k] else a0[k])
      invariant choice <= 1 ==> forall k :: 0 <= k < i ==> b[k] == (if choice == 1 then a0[k] else b0[k])
      invariant SameXor(a, b, a0, b0, i)
    {
      var t := And(Xor(a[i], b[i]), mask);
      if choice <= 1 {
        SwapWord(a[i], b[i], choice, mask);
      }
      XorBoth(a[i], b[i], t);
      a, b := a[i := Xor(a[i], t)], b[i := Xor(b[i], t)];
      i := i + 1;
    }
  }

  // ---- The exact ladder ----

  datatype Quad = Quad(x2: int, z2: int, x3: int, z3: int)

  function Swapped(q: Quad): Quad {
    Quad(q.x3, q.z3, q.x2, q.z2)
  }

  function SwapIf(bit: nat, q: Quad): Quad {
    if bit == 1 then Swapped(q) else q
  }

  // Exact arithmetic modulo the prime.

  function Plus(x: int, y: int): int { Residue(x + y, PRIME) }

  function Minus(x: int, y: int): int { Residue(x - y, PRIME) }

  function Prod(x: int, y: int): int { Residue(x * y, PRIME) }

  function Sq(x: int): int { Prod(x, x) }

  function AA(q: Quad): int { Sq(Plus(q.x2, q.z2)) }

  function BB(q: Quad): int { Sq(Minus(q.x2, q.z2)) }

  function E(q: Quad): int { Minus(AA(q), BB(q)) }

  function DA(q: Quad): int { Prod(Minus(q.x3, q.z3), Plus(q.x2, q.z2)) }

  function CB(q: Quad): int { Prod(Plus(q.x3, q.z3), Minus(q.x2, q.z2)) }

  /** One doubling and differential addition, with the constant and operands of the code. */
  function Step(u: int, q: Quad): Quad {
    Quad(Prod(AA(q), BB(q)), Prod(E(q), Plus(AA(q), Prod(121666, E(q)))),
         Sq(Plus(DA(q), CB(q))), Prod(u, Sq(Minus(DA(q), CB(q)))))
  }

  /** Bit `pos` of the scalar. */
  function Bit(scalar: seq<u8>, pos: nat): (r: nat)
    requires |scalar| == 32 && pos < 255
    ensures r <= 1
  {
    ShiftRight(scalar[pos / 8], pos % 8) % 2
  }

  /** One bit of the ladder: swap, step, swap back. */
  function Round(u: int, bit: nat, q: Quad): Quad {
    SwapIf(bit, Step(u, SwapIf(bit, q)))
  }

  /** The textbook ladder after n steps, from bit 254 down. */
  function Exact(scalar: seq<u8>, u: int, n: nat): Quad
    requires |scalar| == 32 && n <= 255
  {
    if n == 0 then Quad(1, 0, u, 1)
    else
      Round(u, Bit(scalar, 255 - n), Exact(scalar, u, n - 1))
  }

  // ---- One step on limbs ----

  ghost predicate Is(a: Fe, x: int) {
    Within(a, REDUCED) && Cong(Value(a), x, PRIME)
  }

  ghost predicate Stands(x2: Fe, z2: Fe, x3: Fe, z3: Fe, q: Quad) {
    Is(x2, q.x2) && Is(z2, q.z2) && Is(x3, q.x3) && Is(z3, q.z3)
  }

  /** A value as the input of a multiplication. */
  ghost predicate Holds(a: Fe, x: int) {
    Within(a, SUMMED) && Cong(Value(a), x, PRIME)
  }

  method AddOf(a: Fe, b: Fe, ghost x: int, ghost y: int) returns (r: Fe)
    requires Is(a, x) && Is(b, y)
    ensures Holds(r, Plus(x, y))
  {
    r := Add(a, b);
    CongAdd(Value(a), x, Value(b), y, PRIME);
    CongMod(x + y, PRIME);
  }

  method SubOf(a: Fe, b: Fe, ghost x: int, ghost y: int) returns (r: Fe)
    requires Is(a, x) && Is(b, y)
    ensures Holds(r, Minus(x, y))
  {
    r := Sub(a, b);
    SubCong(a, b);
    CongAdd(Value(a), x, Value(b), y, PRIME);
    CongMod(x - y, PRIME);
  }

  method MulOf(a: Fe, b: Fe, ghost x: int, ghost y: int) returns (r: Fe)
    requires Holds(a, x) && Holds(b, y)
    ensures Is(r, Prod(x, y))
  {
    r := Times(a, b);
    CongMul(Value(a), x, Value(b), y, PRIME);
    CongMod(x * y, PRIME);
  }

  /** The doubling half. */
  method Double(a: Fe, b: Fe, ghost q: Quad) returns (x2: Fe, z2: Fe)
    requires Holds(a, Plus(q.x2, q.z2)) && Holds(b, Minus(q.x2, q.z2))
    ensures Is(x2, Step(0, q).x2) && Is(z2, Step(0, q).z2)
  {
    var aa := MulOf(a, a, Plus(q.x2, q.z2), Plus(q.x2, q.z2));
    var bb := MulOf(b, b, Minus(q.x2, q.z2), Minus(q.x2, q.z2));
    var e := SubOf(aa, bb, AA(q), BB(q));
    x2 := MulOf(aa, bb, AA(q), BB(q));
    var a24: Fe := [121666, 0, 0, 0, 0];
    var scaled := MulOf(a24, e, 121666, E(q));
    var sum := AddOf(aa, scaled, AA(q), Prod(121666, E(q)));
    z2 := MulOf(e, sum, E(q), Plus(AA(q), Prod(121666, E(q))));
  }

  /** The differential addition half. */
  method DiffAdd(u: Fe, a: Fe, b: Fe, c: Fe, d: Fe, ghost q: Quad) returns (x3: Fe, z3: Fe)
    requires Within(u, REDUCED)
    requires Holds(a, Plus(q.x2, q.z2)) && Holds(b, Minus(q.x2, q.z2))
    requires Holds(c, Plus(q.x3, q.z3)) && Holds(d, Minus(q.x3, q.z3))
    ensures Is(x3, Step(Value(u), q).x3) && Is(z3, Step(Value(u), q).z3)
  {
    var da := MulOf(d, a, Minus(q.x3, q.z3), Plus(q.x2, q.z2));
    var cb := MulOf(c, b, Plus(q.x3, q.z3), Minus(q.x2, q.z2));
    var sum := AddOf(da, cb, DA(q), CB(q));
    x3 := MulOf(sum, sum, Plus(DA(q), CB(q)), Plus(DA(q), CB(q)));
    var diff := SubOf(da, cb, DA(q), CB(q));
    var square := MulOf(diff, diff, Minus(DA(q), CB(q)), Minus(DA(q), CB(q)));
    z3 := MulOf(u, square, Value(u), Sq(Minus(DA(q), CB(q))));
  }

  /** The body of the loop after the swaps: no limb over- or underflows, and the step is exact. */
  method LadderStep(u: Fe, x2: Fe, z2: Fe, x3: Fe, z3: Fe, ghost q: Quad)
      returns (x2': Fe, z2': Fe, x3': Fe, z3': Fe)
    requires Within(u, REDUCED) && Stands(x2, z2, x3, z3, q)
    ensures Stands(x2', z2', x3', z3', Step(Value(u), q))
  {
    var a := AddOf(x2, z2, q.x2, q.z2);
    var b := SubOf(x2, z2, q.x2, q.z2);
    var c := AddOf(x3, z3, q.x3, q.z3);
    var d := SubOf(x3, z3, q.x3, q.z3);
    x3', z3' := DiffAdd(u, a, b, c, d, q);
    x2', z2' := Double(a, b, q);
  }

  // ---- The whole ladder ----

  /** Both conditional swaps of one iteration. */
  method SwapBoth(x2: Fe, z2: Fe, x3: Fe, z3: Fe, swap: nat, ghost q: Quad)
      returns (x2': Fe, z2': Fe, x3': Fe, z3': Fe)
    requires swap <= 1 && Stands(x2, z2, x3, z3, q)
    ensures Stands(x2', z2', x3', z3', SwapIf(swap, q))
  {
    x2', x3' := CondSwap(x2, x3, swap);
    z2', z3' := CondSwap(z2, z3, swap);
  }

  /** Swapping by the xor of two bits undoes one swap and makes the other. */
  lemma LazySwap(s: nat, bit: nat, q: Quad)
    requires s <= 1 && bit <= 1
    ensures Xor(s, bit) <= 1 && SwapIf(Xor(s, bit), SwapIf(s, q)) == SwapIf(bit, q)
  {
  }

  /** One iteration: the state owes one swap before it, by the last bit, and one after, by this one. */
  method Iterate(u: Fe, x2: Fe, z2: Fe, x3: Fe, z3: Fe, swap: nat, bit: nat, ghost q: Quad)
      returns (x2': Fe, z2': Fe, x3': Fe, z3': Fe)
    requires Within(u, REDUCED) && swap <= 1 && bit <= 1 && Stands(x2, z2, x3, z3, SwapIf(swap, q))
    ensures Stands(x2', z2', x3', z3', SwapIf(bit, Round(Value(u), bit, q)))
  {
    LazySwap(swap, bit, q);
    x2', z2', x3', z3' := SwapBoth(x2, z2, x3, z3, Xor(swap, bit), SwapIf(swap, q));
    x2', z2', x3', z3' := LadderStep(u, x2', z2', x3', z3', SwapIf(bit, q));
    assert SwapIf(bit, Round(Value(u), bit, q)) == Step(Value(u), SwapIf(bit, q));
  }

  /** The last swap and the division. */
  method Finish(x2: Fe, z2: Fe, x3: Fe, z3: Fe, swap: nat, ghost q: Quad) returns (r: Fe)
    requires swap <= 1 && Stands(x2, z2, x3, z3, SwapIf(swap, q))
    ensures Is(r, Prod(q.x2, Power(q.z2, INVERT_EXPONENT)))
  {
    var x, z, _, _ := SwapBoth(x2, z2, x3, z3, swap, SwapIf(swap, q));
    var inverse := Invert(z);
    CongPower(Value(z), q.z2, INVERT_EXPONENT, PRIME);
    r := MulOf(x, inverse, q.x2, Power(q.z2, INVERT_EXPONENT));
  }

  /** A run of the exact ladder, state by state. */
  ghost predicate IsRun(scalar: seq<u8>, u: int, run: seq<Quad>)
    requires |scalar| == 32
  {
    0 < |run| <= 256 && run[0] == Quad(1, 0, u, 1) &&
    forall k :: 0 < k < |run| ==> Follows(scalar, u, k, run[k - 1], run[k])
  }

  ghost predicate Follows(scalar: seq<u8>, u: int, k: nat, q: Quad, q': Quad)
    requires |scalar| == 32 && 0 < k <= 255
  {
    q' == Round(u, Bit(scalar, 255 - k), q)
  }

  lemma {:induction false} ExactRun(scalar: seq<u8>, u: int, n: nat) returns (run: seq<Quad>)
    requires |scalar| == 32 && n <= 255
    ensures |run| == n + 1 && IsRun(scalar, u, run) && run[n] == Exact(scalar, u, n)
  {
    if n == 0 {
      run := [Quad(1, 0, u, 1)];
    } else {
      var before := ExactRun(scalar, u, n - 1);
      run := before + [Exact(scalar, u, n)];
      assert Follows(scalar, u, n, before[n - 1], run[n]);
    }
  }

  /** All 255 iterations along a run. */
  method Climb(scalar: seq<u8>, u: Fe, ghost run: seq<Quad>) returns (r: Fe)
    requires |scalar| == 32 && Within(u, REDUCED) && |run| == 256 && IsRun(scalar, Value(u), run)
    ensures Is(r, Prod(run[255].x2, Power(run[255].z2, INVERT_EXPONENT)))
  {
    var x2, z2, x3, z3 := ONE, ZERO, u, ONE;
    var swap, pos := 0, 255;
    while pos > 0
      invariant 0 <= pos <= 255 && swap <= 1
      invariant Stands(x2, z2, x3, z3, SwapIf(swap, run[255 - pos]))
    {
      pos := pos - 1;
      var bit := Bit(scalar, pos);
      assert Follows(scalar, Value(u), 255 - pos, run[254 - pos], run[255 - pos]);
      x2, z2, x3, z3 := Iterate(u, x2, z2, x3, z3, swap, bit, run[254 - pos]);
      swap := bit;
    }
    r := Finish(x2, z2, x3, z3, swap, run[255]);
  }

  /**
   * `x25519_scalar_mul`: for every scalar and coordinate the result is x2 * z2^(2^105 - 21) of the
   * exact ladder.
   */
  method ScalarMul(scalar: seq<u8>, u: Fe) returns (r: Fe)
    requires |scalar| == 32 && Within(u, REDUCED)
    ensures var q := Exact(scalar, Value(u), 255);
            Is(r, Prod(q.x2, Power(q.z2, INVERT_EXPONENT)))
  {
    ghost var run := ExactRun(scalar, Value(u), 255);
    r := Climb(scalar, u, run);
  }

  /** The doubling of section 5 of RFC 7748: z2 = E * (AA + 121665 * E). */
  function StandardZ(q: Quad): int {
    Prod(E(q), Plus(AA(q), Prod(121665, E(q))))
  }

  /** The residues in e * (aa + c * e) make no difference. */
  lemma Unreduced(e: int, aa: int, c: int)
    ensures Cong(Prod(e, Plus(aa, Prod(c, e))), e * (aa + c * e), PRIME)
  {
    CongMod(c * e, PRIME);
    CongAdd(aa, aa, Prod(c, e), c * e, PRIME);
    CongMod(aa + Prod(c, e), PRIME);
    CongMul(e, e, Plus(aa, Prod(c, e)), aa + c * e, PRIME);
    CongMod(e * Plus(aa, Prod(c, e)), PRIME);
  }

  /** The coded doubling is off by exactly E squared, E being 4 x2 z2. */
  lemma {:induction false} DoublingDiffers(u: int, q: Quad)
    ensures Cong(Step(u, q).z2 - StandardZ(q), E(q) * E(q), PRIME)
    ensures Cong(E(q), 4 * (q.x2 * q.z2), PRIME)
  {
    var e, aa := E(q), AA(q);
    Unreduced(e, aa, 121666);
    Unreduced(e, aa, 121665);
    CongAdd(Step(u, q).z2, e * (aa + 121666 * e), StandardZ(q), e * (aa + 121665 * e), PRIME);
    OneMore(e, aa);
    CongSame(e * (aa + 121666 * e) - e * (aa + 121665 * e), e * e, Step(u, q).z2 - StandardZ(q), PRIME);
    DifferenceOfSquares(q.x2, q.z2);
  }

  lemma OneMore(e: int, aa: int)
    ensures e * (aa + 121666 * e) - e * (aa + 121665 * e) == e * e
  {
    Distribute(e, aa, 121666 * e);
    Distribute(e, aa, 121665 * e);
    assert e * (121666 * e) == 121666 * (e * e) && e * (121665 * e) == 121665 * (e * e);
  }

  lemma DifferenceOfSquares(x: int, z: int)
    ensures Cong(Minus(Sq(Plus(x, z)), Sq(Minus(x, z))), 4 * (x * z), PRIME)
  {
    SquareOf(x + z, PRIME);
    SquareOf(x - z, PRIME);
    CongAdd(Sq(Plus(x, z)), (x + z) * (x + z), Sq(Minus(x, z)), (x - z) * (x - z), PRIME);
    Expand(x, z);
    CongMod(Sq(Plus(x, z)) - Sq(Minus(x, z)), PRIME);
    CongSame((x + z) * (x + z) - (x - z) * (x - z), 4 * (x * z), Sq(Plus(x, z)) - Sq(Minus(x, z)), PRIME);
  }

  /** Reducing before and after squaring makes no difference. */
  lemma SquareOf(x: int, m: nat)
    requires m > 0
    ensures Cong(Residue(Residue(x, m) * Residue(x, m), m), x * x, m)
  {
    var r := Residue(x, m);
    CongMod(x, m);
    CongMul(r, x, r, x, m);
    CongMod(r * r, m);
  }

  lemma Expand(x: int, z: int)
    ensures (x + z) * (x + z) - (x - z) * (x - z) == 4 * (x * z)
  {
    assert (x + z) * (x + z) == x * x + 2 * (x * z) + z * z;
    assert (x - z) * (x - z) == x * x - 2 * (x * z) + z * z;
  }

  // ---- What one step computes ----

  /** Sums, differences and products of reduced values are those of the values. */
  lemma ReducedSum(x: int, x': int, y: int, y': int, m: nat)
    requires m > 0 && Cong(x, x', m) && Cong(y, y', m)
    ensures Cong(Residue(x + y, m), x' + y', m) && Cong(Residue(x - y, m), x' - y', m)
  {
    CongAdd(x, x', y, y', m);
    CongMod(x + y, m);
    CongMod(x - y, m);
  }

  lemma ReducedProduct(x: int, x': int, y: int, y': int, m: nat)
    requires m > 0 && Cong(x, x', m) && Cong(y, y', m)
    ensures Cong(Residue(x * y, m), x' * y', m)
  {
    CongMul(x, x', y, y', m);
    CongMod(x * y, m);
  }

  /** The two products of the differential addition, and twice what they add up to and differ by. */
  lemma CrossProducts(x2: int, z2: int, x3: int, z3: int, w: int, y: int)
    requires w == x2 * x3 - z2 * z3 && y == x2 * z3 - z2 * x3
    ensures (x3 - z3) * (x2 + z2) + (x3 + z3) * (x2 - z2) == 2 * w
    ensures (x3 - z3) * (x2 + z2) - (x3 + z3) * (x2 - z2) == -2 * y
  {
    assert (x3 - z3) * (x2 + z2) == x2 * x3 + z2 * x3 - x2 * z3 - z2 * z3;
    assert (x3 + z3) * (x2 - z2) == x2 * x3 - z2 * x3 + x2 * z3 - z2 * z3;
  }

  lemma DifferentialParts(x2: int, z2: int, x3: int, z3: int, da: int, cb: int, w: int, y: int, m: nat)
    requires m > 0 && w == x2 * x3 - z2 * z3 && y == x2 * z3 - z2 * x3
    requires da == Residue(Residue(x3 - z3, m) * Residue(x2 + z2, m), m)
    requires cb == Residue(Residue(x3 + z3, m) * Residue(x2 - z2, m), m)
    ensures Cong(Residue(da + cb, m), 2 * w, m) && Cong(Residue(da - cb, m), -2 * y, m)
  {
    CongMod(x3 - z3, m);
    CongMod(x2 + z2, m);
    CongMod(x3 + z3, m);
    CongMod(x2 - z2, m);
    var p, q := (x3 - z3) * (x2 + z2), (x3 + z3) * (x2 - z2);
    ReducedProduct(Residue(x3 - z3, m), x3 - z3, Residue(x2 + z2, m), x2 + z2, m);
    ReducedProduct(Residue(x3 + z3, m), x3 + z3, Residue(x2 - z2, m), x2 - z2, m);
    ReducedSum(da, p, cb, q, m);
    CrossProducts(x2, z2, x3, z3, w, y);
  }

  lemma FourSquares(w: int, s: int)
    requires w == 2 * s || w == -2 * s
    ensures w * w == 4 * (s * s)
  {
  }

  lemma TwiceSquared(r: int, w: int, s: int, m: nat)
    requires m > 0 && Cong(r, w, m) && (w == 2 * s || w == -2 * s)
    ensures Cong(Residue(r * r, m), 4 * (s * s), m)
  {
    ReducedProduct(r, w, r, w, m);
    FourSquares(w, s);
  }

  /** The differential addition, whatever the point: (x3, z3) becomes (4 w^2, 4 u y^2). */
  lemma {:induction false} AdditionFormulas(u: int, q: Quad, w: int, y: int)
    requires w == q.x2 * q.x3 - q.z2 * q.z3 && y == q.x2 * q.z3 - q.z2 * q.x3
    ensures Cong(Step(u, q).x3, 4 * (w * w), PRIME)
    ensures Cong(Step(u, q).z3, u * (4 * (y * y)), PRIME)
  {
    DifferentialParts(q.x2, q.z2, q.x3, q.z3, DA(q), CB(q), w, y, PRIME);
    TwiceSquared(Plus(DA(q), CB(q)), 2 * w, w, PRIME);
    TwiceSquared(Minus(DA(q), CB(q)), -2 * y, y, PRIME);
    ReducedProduct(u, u, Sq(Minus(DA(q), CB(q))), 4 * (y * y), PRIME);
  }

  lemma ConjugateSquares(x: int, z: int, v: int)
    requires v == x * x - z * z
    ensures ((x + z) * (x + z)) * ((x - z) * (x - z)) == v * v
  {
    var s, d := x + z, x - z;
    assert s * d == v;
    assert (s * s) * (d * d) == (s * d) * (s * d);
  }

  /** The doubling, whatever the point: x2 becomes (x2^2 - z2^2)^2, and z2 becomes e (s^2 + 121666 e). */
  lemma {:induction false} DoublingFormulas(u: int, q: Quad, v: int, s: int, e: int)
    requires v == q.x2 * q.x2 - q.z2 * q.z2 && s == q.x2 + q.z2 && e == 4 * (q.x2 * q.z2)
    ensures Cong(Step(u, q).x2, v * v, PRIME)
    ensures Cong(Step(u, q).z2, e * (s * s + 121666 * e), PRIME)
  {
    SquareOf(q.x2 + q.z2, PRIME);
    SquareOf(q.x2 - q.z2, PRIME);
    ReducedProduct(AA(q), s * s, BB(q), (q.x2 - q.z2) * (q.x2 - q.z2), PRIME);
    ConjugateSquares(q.x2, q.z2, v);
    DifferenceOfSquares(q.x2, q.z2);
    ReducedProduct(121666, 121666, E(q), e, PRIME);
    ReducedSum(AA(q), s * s, Prod(121666, E(q)), 121666 * e, PRIME);
    ReducedProduct(E(q), e, Plus(AA(q), Prod(121666, E(q))), s * s + 121666 * e, PRIME);
  }

  // ---- What the ladder climbs ----

  lemma {:induction false} ByteOf(b: seq<u8>, i: nat)
    requires i < |b|
    ensures (b[i] as nat) == (LittleEndian(b) / Pow2(8 * i)) % 256
  {
    LittleEndianSlice(b, b[..i], [b[i]], b[i + 1..], i, 1);
    assert [b[i]][1..] == [] && LittleEndian([b[i]]) == b[i];
    assert Pow2(8) == 256;
  }

  lemma {:induction false} EightBits(j: nat)
    requires j < 8
    ensures Pow2(j) * 2 * Pow2(7 - j) == 256
  {
    PowAdd(j, 7 - j);
    assert Pow2(7) == 128;
    assert Pow2(j) * 2 * Pow2(7 - j) == 2 * (Pow2(j) * Pow2(7 - j));
  }

  lemma {:induction false} BitWithin(x: nat, p: nat, s: nat, k: nat)
    requires p > 0 && s > 0 && s * 2 * k == 256
    ensures p * s > 0 && (((x / p) % 256) / s) % 2 == (x / (p * s)) % 2
  {
    DigitOfRemainder(x / p, s, 2, k, 256);
    DivDiv(x, p, s);
  }

  /** A bit of the scalar is the bit of its little-endian number. */
  lemma {:induction false} BitOfNumber(scalar: seq<u8>, pos: nat)
    requires |scalar| == 32 && pos < 255
    ensures Bit(scalar, pos) == (LittleEndian(scalar) / Pow2(pos)) % 2
  {
    var i, j := pos / 8, pos % 8;
    ByteOf(scalar, i);
    ShiftRightIsQuotient(scalar[i], j);
    EightBits(j);
    BitWithin(LittleEndian(scalar), Pow2(8 * i), Pow2(j), Pow2(7 - j));
    PowAdd(8 * i, j);
    assert 8 * i + j == pos;
  }

  /** The bits, from the lowest up. */
  function BitsOf(scalar: seq<u8>): (r: seq<nat>)
    requires |scalar| == 32
    ensures |r| == 255
  {
    seq(255, i requires 0 <= i < 255 => Bit(scalar, i))
  }

  /** The number the first n bits from the top spell. */
  function Top(bits: seq<nat>, n: nat): nat
    requires |bits| == 255 && n <= 255
  {
    if n == 0 then 0 else 2 * Top(bits, n - 1) + bits[255 - n]
  }

  ghost predicate Quotient(x: nat, p: nat, top: nat, low: nat) {
    x == top * p + low && low < p
  }

  lemma {:induction false} NextTop(x: nat, p: nat, top: nat, low: nat)
    requires p > 0 && Quotient(x, 2 * p, top, low)
    ensures Quotient(x, p, 2 * top + (x / p) % 2, low % p)
  {
    var d, r := low / p, low % p;
    assert d < 2;
    assert (2 * top) * p == top * (2 * p);
    assert (2 * top + d) * p == (2 * top) * p + d * p;
    ModUnique(x, p, 2 * top + d, r);
  }

  ghost predicate Spells(bits: seq<nat>, x: nat) {
    |bits| == 255 && forall pos: nat :: pos < 255 ==> bits[pos] == (x / Pow2(pos)) % 2
  }

  lemma {:induction false} TopSplits(bits: seq<nat>, x: nat, n: nat, p: nat) returns (low: nat)
    requires n <= 255 && p == Pow2(255 - n) && x < Pow2(255) && Spells(bits, x)
    ensures Quotient(x, p, Top(bits, n), low)
  {
    if n == 0 {
      low := x;
    } else {
      assert Pow2(256 - n) == 2 * p;
      var before := TopSplits(bits, x, n - 1, 2 * p);
      NextTop(x, p, Top(bits, n - 1), before);
      BitAt(bits, x, 255 - n, p);
      low := before % p;
    }
  }

  lemma {:induction false} BitAt(bits: seq<nat>, x: nat, pos: nat, p: nat)
    requires Spells(bits, x) && pos < 255 && p == Pow2(pos)
    ensures bits[pos] == (x / p) % 2
  {
  }

  /** All 255 bits spell the scalar, without its top bit. */
  lemma {:induction false} TopIsScalar(scalar: seq<u8>)
    requires |scalar| == 32
    ensures Top(BitsOf(scalar), 255) == LittleEndian(scalar) % Pow2(255)
  {
    var x := LittleEndian(scalar);
    assert Spells(BitsOf(scalar), x % Pow2(255)) by {
      forall pos: nat | pos < 255
        ensures Bit(scalar, pos) == ((x % Pow2(255)) / Pow2(pos)) % 2
      {
        BitOfNumber(scalar, pos);
        PowAdd(pos + 1, 255 - (pos + 1));
        BitBelow(x, pos, Pow2(pos), Pow2(254 - pos), Pow2(255));
      }
    }
    var low := TopSplits(BitsOf(scalar), x % Pow2(255), 255, 1);
    assert Pow2(0) == 1;
  }

  lemma {:induction false} BitBelow(x: nat, pos: nat, s: nat, k: nat, t: nat)
    requires s > 0 && t > 0 && s == Pow2(pos) && t == Pow2(pos + 1) * k
    ensures ((x % t) / s) % 2 == (x / s) % 2
  {
    assert Pow2(pos + 1) == s * 2;
    DigitOfRemainder(x, s, 2, k, t);
  }

  /** States that stand for two neighbouring multiples, and what a step and a swap do to them. */
  ghost predicate Multiples(rep: (Quad, int, int) -> bool, u: int) {
    && rep(Quad(1, 0, u, 1), 0, 1)
    && (forall q, a, b :: rep(q, a, b) && (b == a + 1 || a == b + 1) ==> rep(Step(u, q), 2 * a, a + b))
    && (forall q, a, b :: rep(q, a, b) ==> rep(Swapped(q), b, a))
  }

  /** The state stands for k and k + 1. */
  ghost predicate At(rep: (Quad, int, int) -> bool, q: Quad, k: int) { rep(q, k, k + 1) }

  lemma {:induction false} RoundDoubles(rep: (Quad, int, int) -> bool, u: int, bit: nat, q: Quad, k: int)
    requires Multiples(rep, u) && bit <= 1 && At(rep, q, k)
    ensures At(rep, Round(u, bit, q), 2 * k + bit)
  {
    if bit == 1 {
      var q1 := Swapped(q);
      assert rep(q1, k + 1, k);
      var q2 := Step(u, q1);
      assert rep(q2, 2 * (k + 1), (k + 1) + k);
      assert rep(Swapped(q2), (k + 1) + k, 2 * (k + 1));
    } else {
      assert rep(Step(u, q), 2 * k, k + (k + 1));
    }
  }

  ghost predicate LinkAt(link: (Quad, nat, Quad) -> bool, bits: seq<nat>, run: seq<Quad>, n: nat)
    requires |bits| == 255 && |run| == 256 && 0 < n < 256
  {
    link(run[n - 1], bits[255 - n], run[n])
  }

  /** Linked states, one for each bit from the top, whatever links them. */
  ghost predicate Linked(link: (Quad, nat, Quad) -> bool, bits: seq<nat>, run: seq<Quad>)
    requires |bits| == 255 && |run| == 256
  {
    forall n: nat {:trigger LinkAt(link, bits, run, n)} :: 0 < n < 256 ==> LinkAt(link, bits, run, n)
  }

  /** A link doubles what the state stands for and adds its bit. */
  ghost predicate Doubles(rep: (Quad, int, int) -> bool, link: (Quad, nat, Quad) -> bool) {
    forall q, bit: nat, q', k {:trigger link(q, bit, q'), At(rep, q, k)} :: link(q, bit, q') && At(rep, q, k) ==> At(rep, q', 2 * k + bit)
  }

  lemma {:induction false} LinkedClimb(rep: (Quad, int, int) -> bool, link: (Quad, nat, Quad) -> bool, bits: seq<nat>, run: seq<Quad>, n: nat)
    requires |bits| == 255 && |run| == 256 && Linked(link, bits, run) && Doubles(rep, link) && At(rep, run[0], 0) && n <= 255
    ensures At(rep, run[n], Top(bits, n))
  {
    if n > 0 {
      LinkedClimb(rep, link, bits, run, n - 1);
      assert LinkAt(link, bits, run, n);
    }
  }

  lemma {:induction false} RoundsDouble(rep: (Quad, int, int) -> bool, link: (Quad, nat, Quad) -> bool, u: int)
    requires Multiples(rep, u) && forall q, bit: nat, q' :: link(q, bit, q') ==> bit <= 1 && q' == Round(u, bit, q)
    ensures Doubles(rep, link)
  {
    forall q, bit: nat, q', k {:trigger link(q, bit, q'), At(rep, q, k)} | link(q, bit, q') && At(rep, q, k)
      ensures At(rep, q', 2 * k + bit)
    {
      RoundDoubles(rep, u, bit, q, k);
    }
  }

  lemma {:induction false} RunIsLinked(scalar: seq<u8>, u: int, run: seq<Quad>, link: (Quad, nat, Quad) -> bool)
    requires |scalar| == 32 && |run| == 256 && IsRun(scalar, u, run)
    requires forall q, bit: nat, q' :: bit <= 1 && q' == Round(u, bit, q) ==> link(q, bit, q')
    ensures Linked(link, BitsOf(scalar), run)
  {
    forall n: nat {:trigger LinkAt(link, BitsOf(scalar), run, n)} | 0 < n < 256
      ensures LinkAt(link, BitsOf(scalar), run, n)
    {
      assert Follows(scalar, u, n, run[n - 1], run[n]);
    }
  }

  /**
   * Whatever a state may stand for, if a step turns multiples a and b one apart into 2a and a + b, the
   * ladder ends at the scalar's multiple and the next.
   */
  lemma {:induction false} LadderClimbs(rep: (Quad, int, int) -> bool, scalar: seq<u8>, u: int)
    requires Multiples(rep, u) && |scalar| == 32
    ensures var k := LittleEndian(scalar) % Pow2(255); rep(Exact(scalar, u, 255), k, k + 1)
  {
    var run := ExactRun(scalar, u, 255);
    var link := (q: Quad, bit: nat, q': Quad) => bit <= 1 && q' == Round(u, bit, q);
    RunIsLinked(scalar, u, run, link);
    RoundsDouble(rep, link, u);
    LinkedClimb(rep, link, BitsOf(scalar), run, 255);
    TopIsScalar(scalar);
  }
}
