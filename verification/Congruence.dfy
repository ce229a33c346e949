// Congruence of integers modulo m, and powers.
module Congruence {
  import opened Bits

  /** The remainder by m, by repeated subtraction or addition. */
  function Residue(a: int, m: nat): (r: nat)
    requires m > 0
    ensures r < m
    decreases if a < 0 then 1 else 0, if a < 0 then -a else a
  {
    if a < 0 then Residue(a + m, m) else if a >= m then Residue(a - m, m) else a
  }

  predicate Cong(a: int, b: int, m: nat)
    requires m > 0
  {
    Residue(a, m) == Residue(b, m)
  }

  lemma {:induction false} ResidueIsRemainder(a: int, m: nat)
    requires m > 0
    ensures Residue(a, m) == a % m
    decreases if a < 0 then 1 else 0, if a < 0 then -a else a
  {
    if a < 0 {
      ResidueIsRemainder(a + m, m);
      ModShift(a, m);
    } else if a >= m {
      ResidueIsRemainder(a - m, m);
      ModShift(a - m, m);
    } else {
      ModUnique(a, m, 0, a);
    }
  }

  lemma ModShift(a: int, m: nat)
    requires m > 0
    ensures (a + m) % m == a % m
  {
    assert a + m == (a / m + 1) * m + a % m;
    ModUnique(a + m, m, a / m + 1, a % m);
  }

  lemma CongIsMod(a: int, b: int, m: nat)
    requires m > 0
    ensures Cong(a, b, m) <==> a % m == b % m
  {
    ResidueIsRemainder(a, m);
    ResidueIsRemainder(b, m);
  }

  lemma Distribute(a: int, b: int, c: int)
    ensures a * (b + c) == a * b + a * c
    ensures (b + c) * a == b * a + c * a
  {
  }

  lemma ProductBound(a: nat, b: nat, x: nat, y: nat)
    requires a <= x && b <= y
    ensures a * b <= x * y
  {
    assert x * y == a * b + a * (y - b) + (x - a) * y;
  }

  /** Adding a multiple of m changes nothing. */
  lemma AddMultiple(b: int, q: int, m: nat)
    requires m > 0
    ensures Cong(b + m * q, b, m)
  {
    Distribute(m, b / m, q);
    ModUnique(b + m * q, m, b / m + q, b % m);
    CongIsMod(b + m * q, b, m);
  }

  lemma CongQuotient(a: int, b: int, m: nat) returns (q: int)
    requires m > 0 && Cong(a, b, m)
    ensures a == b + m * q
  {
    CongIsMod(a, b, m);
    q := a / m - b / m;
    Distribute(m, q, b / m);
  }

  lemma CongFrom(a: int, b: int, q: int, m: nat)
    requires m > 0 && a == b + m * q
    ensures Cong(a, b, m)
  {
    AddMultiple(b, q, m);
  }

  lemma Multiples(a: int, a': int, b: int, b': int, k: int, l: int, m: int)
    requires a == a' + m * k && b == b' + m * l
    ensures a + b == (a' + b') + m * (k + l) && a - b == (a' - b') + m * (k - l)
  {
  }

  lemma CongAdd(a: int, a': int, b: int, b': int, m: nat)
    requires m > 0 && Cong(a, a', m) && Cong(b, b', m)
    ensures Cong(a + b, a' + b', m) && Cong(a - b, a' - b', m)
  {
    var k := CongQuotient(a, a', m);
    var l := CongQuotient(b, b', m);
    Multiples(a, a', b, b', k, l, m);
    CongFrom(a + b, a' + b', k + l, m);
    CongFrom(a - b, a' - b', k - l, m);
  }

  lemma ProductOfMultiples(a: int, a': int, b: int, b': int, k: int, l: int, m: int)
    requires a == a' + m * k && b == b' + m * l
    ensures a * b == a' * b' + m * (a' * l + k * b)
  {
    calc {
      a * b;
      (a' + m * k) * b;
      { Distribute(b, a', m * k); }
      a' * b + (m * k) * b;
      a' * (b' + m * l) + m * (k * b);
      { Distribute(a', b', m * l); }
      a' * b' + a' * (m * l) + m * (k * b);
      { assert a' * (m * l) == m * (a' * l); }
      a' * b' + (m * (a' * l) + m * (k * b));
      { Distribute(m, a' * l, k * b); }
      a' * b' + m * (a' * l + k * b);
    }
  }

  lemma CongMul(a: int, a': int, b: int, b': int, m: nat)
    requires m > 0 && Cong(a, a', m) && Cong(b, b', m)
    ensures Cong(a * b, a' * b', m)
  {
    var k := CongQuotient(a, a', m);
    var l := CongQuotient(b, b', m);
    ProductOfMultiples(a, a', b, b', k, l, m);
    CongFrom(a * b, a' * b', a' * l + k * b, m);
  }

  /** Rewriting one side. */
  lemma CongSame(a: int, a': int, b: int, m: nat)
    requires m > 0 && a == a' && Cong(a, b, m)
    ensures Cong(a', b, m)
  {
  }

  lemma CongMod(a: int, m: nat)
    requires m > 0
    ensures Cong(a % m, a, m) && Cong(Residue(a, m), a, m)
  {
    ResidueIsRemainder(a, m);
    ModUnique(a % m, m, 0, a % m);
    CongIsMod(a % m, a, m);
  }

  function Power(x: int, n: nat): int {
    if n == 0 then 1 else x * Power(x, n - 1)
  }

  lemma {:induction false} PowerAdd(x: int, a: nat, b: nat)
    ensures Power(x, a + b) == Power(x, a) * Power(x, b)
  {
    if a > 0 {
      PowerAdd(x, a - 1, b);
      assert x * (Power(x, a - 1) * Power(x, b)) == (x * Power(x, a - 1)) * Power(x, b);
    }
  }

  lemma {:induction false} PowerMul(x: int, a: nat, b: nat)
    ensures Power(Power(x, a), b) == Power(x, a * b)
  {
    if b == 0 {
      assert a * b == 0;
    } else {
      PowerMul(x, a, b - 1);
      PowerAdd(x, a, a * (b - 1));
      assert a * b == a + a * (b - 1);
    }
  }

  lemma {:induction false} CongPower(x: int, y: int, n: nat, m: nat)
    requires m > 0 && Cong(x, y, m)
    ensures Cong(Power(x, n), Power(y, n), m)
  {
    if n > 0 {
      CongPower(x, y, n - 1, m);
      CongMul(x, y, Power(x, n - 1), Power(y, n - 1), m);
    }
  }
}
