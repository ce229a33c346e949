// Bitwise operations of unsigned machine words, on naturals, with the arithmetic they amount to.
module Bits {
  const TWO_8: nat := 0x100
  const TWO_16: nat := 0x1_0000
  const TWO_32: nat := 0x1_0000_0000
  const TWO_64: nat := 0x1_0000_0000_0000_0000
  const TWO_128: nat := 0x1_0000_0000_0000_0000_0000_0000_0000_0000

  type u8 = x: int | 0 <= x < TWO_8
  type u16 = x: int | 0 <= x < TWO_16
  type u32 = x: int | 0 <= x < TWO_32
  type u64 = x: int | 0 <= x < TWO_64
  type u128 = x: int | 0 <= x < TWO_128

  function Pow2(k: nat): (r: nat)
    ensures r > 0
  {
    if k == 0 then 1 else 2 * Pow2(k - 1)
  }

  lemma {:induction false} PowDouble(k: nat, p: nat, m: nat)
    requires Pow2(k) == p && m == p * p
    ensures Pow2(k + k) == m
  {
    PowAdd(k, k);
  }

  lemma {:induction false} TwoTo64()
    ensures Pow2(64) == TWO_64
  {
    PowDouble(8, 0x100, TWO_16);
    PowDouble(16, TWO_16, TWO_32);
    PowDouble(32, TWO_32, TWO_64);
  }

  function And(a: nat, b: nat): nat {
    if a == 0 || b == 0 then 0 else (if a % 2 == 1 && b % 2 == 1 then 1 else 0) + 2 * And(a / 2, b / 2)
  }

  function Or(a: nat, b: nat): nat
    decreases a + b
  {
    if a == 0 then b else if b == 0 then a
    else (if a % 2 == 1 || b % 2 == 1 then 1 else 0) + 2 * Or(a / 2, b / 2)
  }

  function Xor(a: nat, b: nat): nat
    decreases a + b
  {
    if a == 0 then b else if b == 0 then a
    else (a + b) % 2 + 2 * Xor(a / 2, b / 2)
  }

  lemma {:induction false} PowAdd(a: nat, b: nat)
    ensures Pow2(a + b) == Pow2(a) * Pow2(b)
  {
    if a > 0 {
      PowAdd(a - 1, b);
    }
  }

  lemma {:induction false} AndStep(a: nat, h: nat)
    requires a > 0
    ensures And(a, 2 * (h + 1) - 1) == a % 2 + 2 * And(a / 2, h)
  {
    var m := 2 * (h + 1) - 1;
    assert m % 2 == 1 && m / 2 == h;
  }

  /** Masking with k low ones is remainder. */
  lemma {:induction false} AndMask(a: nat, k: nat)
    ensures And(a, Pow2(k) - 1) == a % Pow2(k)
  {
    if k > 0 {
      AndMask(a / 2, k - 1);
      MaskStep(a, Pow2(k - 1), Pow2(k), (a / 2) % Pow2(k - 1));
      HalfMod(a, k);
    }
  }

  lemma {:induction false} MaskStep(a: nat, p: nat, q: nat, r: nat)
    requires p > 0 && q == 2 * p && And(a / 2, p - 1) == r
    ensures And(a, q - 1) == a % 2 + 2 * r
  {
    if a > 0 {
      AndStep(a, p - 1);
    }
  }

  lemma {:induction false} HalfModAt(a: nat, p: nat)
    requires p > 0
    ensures a % (2 * p) == a % 2 + 2 * ((a / 2) % p)
  {
    var q, r := (a / 2) / p, (a / 2) % p;
    assert 2 * (q * p) == q * (2 * p);
    ModUnique(a, 2 * p, q, a % 2 + 2 * r);
  }

  lemma {:induction false} HalfMod(a: nat, k: nat)
    requires k > 0
    ensures a % Pow2(k) == a % 2 + 2 * ((a / 2) % Pow2(k - 1))
  {
    HalfModAt(a, Pow2(k - 1));
  }

  lemma {:induction false} MulAtLeast(d: nat, m: nat)
    requires d > 0
    ensures d * m >= m
  {
    assert d * m == (d - 1) * m + m;
  }

  lemma {:induction false} ModUnique(a: int, m: nat, q: int, r: nat)
    requires m > 0 && a == q * m + r && r < m
    ensures a % m == r && a / m == q
  {
    var q', r' := a / m, a % m;
    assert a == q' * m + r';
    assert (q' - q) * m == q' * m - q * m;
    if q' > q {
      MulAtLeast(q' - q, m);
    } else if q' < q {
      assert (q - q') * m == q * m - q' * m;
      MulAtLeast(q - q', m);
    }
  }

  lemma {:induction false} DivDiv(x: nat, a: nat, b: nat)
    requires a > 0 && b > 0
    ensures a * b > 0 && (x / a) / b == x / (a * b)
  {
    var q, r := x / a, x % a;
    var q', r' := q / b, q % b;
    calc {
      x;
      q * a + r;
      (q' * b + r') * a + r;
      q' * (a * b) + (r' * a + r);
    }
    assert r' * a + a <= b * a by {
      assert (b - r') * a >= a by { MulAtLeast(b - r', a); }
      assert (b - r') * a == b * a - r' * a;
    }
    ModUnique(x, a * b, q', r' * a + r);
  }

  lemma {:induction false} ScaledQuotient(y: nat, s: nat, n: nat, q: nat, r: nat)
    requires s > 0 && y == q * (s * n) + r
    ensures y / s == q * n + r / s
  {
    var d, e := r / s, r % s;
    assert q * (s * n) == (q * n) * s;
    assert (q * n) * s + d * s == (q * n + d) * s;
    ModUnique(y, s, q * n + d, e);
  }

  lemma {:induction false} DropMultiple(q: nat, m: nat, k: nat, d: nat)
    requires m > 0
    ensures (q * (m * k) + d) % m == d % m
  {
    var c, f := d / m, d % m;
    assert q * (m * k) == (q * k) * m;
    assert (q * k) * m + c * m == (q * k + c) * m;
    ModUnique(q * (m * k) + d, m, q * k + c, f);
  }

  /** Dividing by s sees only the part of y below s * m. */
  lemma {:induction false} DigitOfRemainder(y: nat, s: nat, m: nat, k: nat, t: nat)
    requires s > 0 && m > 0 && t == s * m * k && t > 0
    ensures ((y % t) / s) % m == (y / s) % m
  {
    var q, r := y / t, y % t;
    assert s * m * k == s * (m * k);
    ScaledQuotient(y, s, m * k, q, r);
    DropMultiple(q, m, k, r / s);
  }

  /** Or of a value below 2^k with a multiple of 2^k is their sum. */
  lemma {:induction false} OrDisjoint(a: nat, b: nat, k: nat)
    requires a < Pow2(k) && b % Pow2(k) == 0
    ensures Or(a, b) == a + b
  {
    if k > 0 && a > 0 && b > 0 {
      HalfMod(b, k);
      OrDisjoint(a / 2, b / 2, k - 1);
    }
  }

  lemma {:induction false} OrCommutes(a: nat, b: nat)
    ensures Or(a, b) == Or(b, a)
    decreases a + b
  {
    if a > 0 && b > 0 {
      OrCommutes(a / 2, b / 2);
    }
  }

  lemma {:induction false} XorZero(a: nat)
    ensures Xor(a, 0) == a && Xor(0, a) == a && Xor(a, a) == 0
  {
    if a > 0 {
      XorZero(a / 2);
    }
  }

  lemma {:induction false} XorBound(a: nat, b: nat, k: nat)
    requires a < Pow2(k) && b < Pow2(k)
    ensures Xor(a, b) < Pow2(k)
  {
    if k > 0 && a > 0 && b > 0 {
      XorBound(a / 2, b / 2, k - 1);
    }
  }

  /** The defining equation, without its special cases at zero. */
  lemma {:induction false} XorStep(a: nat, b: nat)
    ensures Xor(a, b) == (a + b) % 2 + 2 * Xor(a / 2, b / 2)
  {
    XorZero(a / 2);
    XorZero(b / 2);
  }

  /** Xoring twice with the same value gives it back: a ^ (a ^ b) is b, and b ^ (a ^ b) is a. */
  lemma {:induction false} XorCancel(a: nat, b: nat)
    ensures Xor(a, Xor(a, b)) == b
    ensures Xor(b, Xor(a, b)) == a
    decreases a + b
  {
    if a == 0 || b == 0 {
      XorZero(a);
      XorZero(b);
    } else {
      var d, h := (a + b) % 2, Xor(a / 2, b / 2);
      XorStep(a, b);
      XorCancel(a / 2, b / 2);
      XorParity(a, b);
      XorBack(a, b, d, h);
      XorBack(b, a, d, h);
    }
  }

  lemma {:induction false} XorBack(a: nat, b: nat, d: nat, h: nat)
    requires d < 2 && (a + d) % 2 == b % 2 && Xor(a / 2, h) == b / 2
    ensures Xor(a, d + 2 * h) == b
  {
    XorStepDigit(a, d, h);
  }

  lemma {:induction false} XorStepDigit(a: nat, d: nat, h: nat)
    requires d < 2
    ensures Xor(a, d + 2 * h) == (a + d) % 2 + 2 * Xor(a / 2, h)
  {
    var b := d + 2 * h;
    assert b % 2 == d && b / 2 == h;
    XorStep(a, b);
  }

  lemma {:induction false} XorParity(a: nat, b: nat)
    ensures (a + (a + b) % 2) % 2 == b % 2 && (b + (a + b) % 2) % 2 == a % 2
  {
  }

  /** Xoring both of a pair with the same value keeps their difference. */
  lemma {:induction false} XorBoth(x: nat, y: nat, t: nat)
    ensures Xor(Xor(x, t), Xor(y, t)) == Xor(x, y)
    decreases x + y + t
  {
    if x + y + t > 0 {
      XorBoth(x / 2, y / 2, t / 2);
      XorBothStep(x, y, t, Xor(x / 2, t / 2), Xor(y / 2, t / 2));
    } else {
      XorZero(0);
    }
  }

  lemma {:induction false} XorBothStep(x: nat, y: nat, t: nat, p: nat, q: nat)
    requires p == Xor(x / 2, t / 2) && q == Xor(y / 2, t / 2) && Xor(p, q) == Xor(x / 2, y / 2)
    ensures Xor(Xor(x, t), Xor(y, t)) == Xor(x, y)
  {
    XorStep(x, t);
    XorStep(y, t);
    XorStep(x, y);
    XorDigits((x + t) % 2, p, (y + t) % 2, q);
    ParitySum(x, y, t);
  }

  lemma {:induction false} ParitySum(x: nat, y: nat, t: nat)
    ensures ((x + t) % 2 + (y + t) % 2) % 2 == (x + y) % 2
  {
  }

  lemma {:induction false} XorDigits(d: nat, h: nat, e: nat, k: nat)
    requires d < 2 && e < 2
    ensures Xor(d + 2 * h, e + 2 * k) == (d + e) % 2 + 2 * Xor(h, k)
  {
    assert (d + 2 * h) / 2 == h && (e + 2 * k) / 2 == k;
    XorStep(d + 2 * h, e + 2 * k);
  }

  function WrappingAdd(x: nat, y: nat): u64 { (x + y) % TWO_64 }

  function WrappingMul(x: nat, y: nat): u64 { (x * y) % TWO_64 }

  // ---- Shifting right ----

  function ShiftRight(x: nat, k: nat): (r: nat)
    ensures r <= x && (k > 0 && x > 0 ==> r < x)
  {
    if k == 0 then x else ShiftRight(x / 2, k - 1)
  }

  lemma {:induction false} ShiftRightIsQuotient(x: nat, k: nat)
    ensures ShiftRight(x, k) == x / Pow2(k)
  {
    if k > 0 {
      ShiftRightIsQuotient(x / 2, k - 1);
      DivDiv(x, 2, Pow2(k - 1));
    }
  }

  /** Xor commutes with shifting right. */
  lemma {:induction false} XorShifted(a: nat, b: nat, k: nat)
    ensures ShiftRight(Xor(a, b), k) == Xor(ShiftRight(a, k), ShiftRight(b, k))
  {
    if k > 0 {
      XorStep(a, b);
      XorShifted(a / 2, b / 2, k - 1);
    }
  }

  /** `x ^ (x >> k)` loses nothing. */
  lemma {:induction false} XorShiftInjective(x: nat, y: nat, k: nat)
    requires k > 0 && Xor(x, ShiftRight(x, k)) == Xor(y, ShiftRight(y, k))
    ensures x == y
    decreases x + y
  {
    var x', y' := ShiftRight(x, k), ShiftRight(y, k);
    XorShifted(x, x', k);
    XorShifted(y, y', k);
    if x + y > 0 {
      XorShiftInjective(x', y', k);
    }
    XorUndo(x, x');
    XorUndo(y, y');
  }

  lemma {:induction false} XorUndo(x: nat, y: nat)
    ensures Xor(Xor(x, y), y) == x
  {
    XorCancel(y, x);
    XorCommutes(x, y);
    XorCommutes(Xor(x, y), y);
  }

  lemma {:induction false} XorCommutes(x: nat, y: nat)
    ensures Xor(x, y) == Xor(y, x)
    decreases x + y
  {
    if x > 0 && y > 0 {
      XorCommutes(x / 2, y / 2);
    }
  }

  // ---- Little-endian bytes ----

  function LittleEndian(b: seq<u8>): nat {
    if b == [] then 0 else b[0] + 256 * LittleEndian(b[1..])
  }

  lemma {:induction false} BytePower(n: nat)
    ensures Pow2(8 * n + 8) == 256 * Pow2(8 * n)
  {
    PowAdd(8 * n, 8);
  }

  lemma {:induction false} ByteOn(d: nat, p: nat, p': nat, low: nat, high: nat)
    requires d < 256 && low < p' && p == 256 * p'
    ensures d + 256 * (low + p' * high) == (d + 256 * low) + p * high && d + 256 * low < p
  {
  }

  lemma {:induction false} LittleEndianConcat(a: seq<u8>, b: seq<u8>, p: nat)
    requires p == Pow2(8 * |a|)
    ensures LittleEndian(a) < p && LittleEndian(a + b) == LittleEndian(a) + p * LittleEndian(b)
    decreases |a|
  {
    if a == [] {
      assert a + b == b;
    } else {
      var p' := Pow2(8 * |a[1..]|);
      LittleEndianConcat(a[1..], b, p');
      assert (a + b)[1..] == a[1..] + b;
      BytePower(|a[1..]|);
      ByteOn(a[0], p, p', LittleEndian(a[1..]), LittleEndian(b));
    }
  }

  lemma {:induction false} MiddleDigit(x: nat, p: nat, q: nat, low: nat, t: nat, mid: nat, high: nat)
    requires low < p && mid < q && x == low + p * t && t == mid + q * high
    ensures (x / p) % q == mid
  {
    ModUnique(x, p, t, low);
    ModUnique(t, q, high, mid);
  }

  lemma {:induction false} LittleEndianMiddle(a: seq<u8>, mid: seq<u8>, rest: seq<u8>, p: nat, q: nat)
    requires p == Pow2(8 * |a|) && q == Pow2(8 * |mid|)
    ensures LittleEndian(mid) == (LittleEndian(a + (mid + rest)) / p) % q
  {
    LittleEndianConcat(a, mid + rest, p);
    LittleEndianConcat(mid, rest, q);
    MiddleDigit(LittleEndian(a + (mid + rest)), p, q, LittleEndian(a), LittleEndian(mid + rest), LittleEndian(mid), LittleEndian(rest));
  }

  /** A run of bytes, wherever it is, is a digit of the number. */
  lemma {:induction false} LittleEndianSlice(b: seq<u8>, a: seq<u8>, mid: seq<u8>, rest: seq<u8>, i: nat, n: nat)
    requires a + (mid + rest) == b && |a| == i && |mid| == n
    ensures LittleEndian(mid) == (LittleEndian(b) / Pow2(8 * i)) % Pow2(8 * n)
  {
    LittleEndianMiddle(a, mid, rest, Pow2(8 * i), Pow2(8 * n));
  }
}
