/** Bitwise operators on natural numbers, defined digit by digit, with the facts
    that turn masks and shifts into division and remainder. */
module Bits {

  function Pow2(k: nat): (r: nat)
    ensures r > 0
  {
    if k == 0 then 1 else 2 * Pow2(k - 1)
  }

  function And(a: nat, b: nat): (r: nat)
  {
    if a == 0 then 0 else (if a % 2 == 1 && b % 2 == 1 then 1 else 0) + 2 * And(a / 2, b / 2)
  }

  function Or(a: nat, b: nat): (r: nat)
  {
    if a == 0 then b else (if a % 2 == 1 || b % 2 == 1 then 1 else 0) + 2 * Or(a / 2, b / 2)
  }

  function Xor(a: nat, b: nat): (r: nat)
    decreases a
  {
    if a == 0 then b else (if a % 2 != b % 2 then 1 else 0) + 2 * Xor(a / 2, b / 2)
  }

  lemma {:induction false} Pow2Add(a: nat, b: nat)
    ensures Pow2(a + b) == Pow2(a) * Pow2(b)
  {
    if a > 0 {
      Pow2Add(a - 1, b);
      MulAssoc(2, Pow2(a - 1), Pow2(b));
    }
  }

  lemma Pow2Sum(a: nat, b: nat, p: nat, q: nat)
    requires Pow2(a) == p && Pow2(b) == q
    ensures Pow2(a + b) == p * q
  {
    Pow2Add(a, b);
  }

  lemma SmallPowers()
    ensures Pow2(4) == 16 && Pow2(8) == 0x100
  {
  }

  lemma Pow2Values()
    ensures Pow2(8) == 0x100 && Pow2(9) == 512 && Pow2(12) == 4096
    ensures Pow2(31) == 0x8000_0000 && Pow2(32) == 0x1_0000_0000
    ensures Pow2(40) == 0x100_0000_0000 && Pow2(64) == 0x1_0000_0000_0000_0000
  {
    SmallPowers();
    Pow2Sum(8, 4, 0x100, 16);
    Pow2Sum(8, 8, 0x100, 0x100);
    Pow2Sum(16, 16, 0x1_0000, 0x1_0000);
    Pow2Sum(32, 8, 0x1_0000_0000, 0x100);
    Pow2Sum(32, 32, 0x1_0000_0000, 0x1_0000_0000);
  }

  lemma MulAssoc(a: int, b: int, c: int)
    ensures (a * b) * c == a * (b * c)
  {
  }

  lemma MulMonotone(a: nat, b: nat, m: nat)
    requires a <= b
    ensures a * m <= b * m
  {
  }

  lemma Distribute(n: nat, m: nat)
    ensures (n + 1) * m == n * m + m && n * m >= 0
  {
  }

  // ----- halving -----

  lemma XorHalf(a: nat, b: nat)
    ensures Xor(a, b) / 2 == Xor(a / 2, b / 2)
    ensures Xor(a, b) % 2 == if a % 2 != b % 2 then 1 else 0
  {
  }

  lemma AndHalf(a: nat, b: nat)
    ensures And(a, b) / 2 == And(a / 2, b / 2)
    ensures And(a, b) % 2 == if a % 2 == 1 && b % 2 == 1 then 1 else 0
  {
  }

  // ----- exclusive or -----

  lemma {:induction false} XorZero(a: nat)
    ensures Xor(a, 0) == a
  {
    if a > 0 {
      XorZero(a / 2);
    }
  }

  lemma {:induction false} XorSelf(a: nat)
    ensures Xor(a, a) == 0
  {
    if a > 0 {
      XorSelf(a / 2);
    }
  }

  lemma {:induction false} XorComm(a: nat, b: nat)
    ensures Xor(a, b) == Xor(b, a)
  {
    if a == 0 {
      XorZero(b);
    } else if b == 0 {
      XorZero(a);
    } else {
      XorComm(a / 2, b / 2);
    }
  }

  lemma {:induction false} XorAssoc(a: nat, b: nat, c: nat)
    ensures Xor(Xor(a, b), c) == Xor(a, Xor(b, c))
  {
    if a > 0 {
      XorAssoc(a / 2, b / 2, c / 2);
      XorHalf(a, b);
      XorHalf(b, c);
      XorHalf(Xor(a, b), c);
      XorHalf(a, Xor(b, c));
    }
  }

  lemma XorCancel(a: nat, b: nat, c: nat)
    requires Xor(a, c) == Xor(b, c)
    ensures a == b
  {
    XorAssoc(a, c, c);
    XorAssoc(b, c, c);
    XorSelf(c);
    XorZero(a);
    XorZero(b);
  }

  lemma {:induction false} XorBound(a: nat, b: nat, k: nat)
    requires a < Pow2(k) && b < Pow2(k)
    ensures Xor(a, b) < Pow2(k)
  {
    if k > 0 && a > 0 {
      XorBound(a / 2, b / 2, k - 1);
    }
  }

  /** When exactly one operand has the top bit, so does the exclusive or. */
  lemma {:induction false} XorTop(a: nat, b: nat, k: nat)
    requires a < Pow2(k) <= b < 2 * Pow2(k)
    ensures Pow2(k) <= Xor(a, b)
  {
    if k > 0 && a > 0 {
      XorTop(a / 2, b / 2, k - 1);
    }
  }

  /** Operands without common bits add up. */
  lemma {:induction false} XorDisjoint(x: nat, y: nat, k: nat)
    requires x < Pow2(k)
    ensures Xor(x, Pow2(k) * y) == x + Pow2(k) * y
  {
    if k > 0 && x > 0 {
      var h := Pow2(k - 1) * y;
      MulAssoc(2, Pow2(k - 1), y);
      XorDisjoint(x / 2, y, k - 1);
      XorEven(x, h);
    }
  }

  lemma XorEven(x: nat, h: nat)
    ensures Xor(x, 2 * h) == x % 2 + 2 * Xor(x / 2, h)
  {
    assert 2 * h / 2 == h && 2 * h % 2 == 0;
  }

  /** The low k bits of one operand do not disturb what lies above them. */
  lemma {:induction false} XorAbove(a: nat, b: nat, k: nat)
    requires b < Pow2(k)
    ensures Xor(a, b) / Pow2(k) == a / Pow2(k)
  {
    if k == 0 {
      XorZero(a);
    } else {
      XorHalf(a, b);
      XorAbove(a / 2, b / 2, k - 1);
      DivPow2(Xor(a, b), k);
      DivPow2(a, k);
    }
  }

  lemma DivPow2(a: nat, k: nat)
    requires k > 0
    ensures a / Pow2(k) == a / 2 / Pow2(k - 1)
  {
    DivDiv(a, 2, Pow2(k - 1));
  }

  lemma DivDiv(a: nat, m: nat, n: nat)
    requires m > 0 && n > 0
    ensures m * n > 0 && a / (m * n) == a / m / n
  {
    assert m * n > 0;
    var q := a / m / n;
    var r1, r2 := a % m, a / m % n;
    assert a == m * (a / m) + r1 && a / m == n * q + r2;
    assert a == m * (n * q + r2) + r1;
    assert m * (n * q + r2) == (m * n) * q + m * r2;
    assert m * r2 <= m * (n - 1);
    assert m * (n - 1) == m * n - m;
    DivUnique(a, m * n, q, m * r2 + r1);
  }

  lemma QuotientUnique(d: int, q1: int, r1: int, q2: int, r2: int)
    requires 0 <= r1 < d && 0 <= r2 < d
    requires d * q1 + r1 == d * q2 + r2
    ensures q1 == q2 && r1 == r2
  {
    assert d * (q1 - q2) == r2 - r1;
    if q1 > q2 {
      MulAtLeast(d, q1 - q2);
    } else if q1 < q2 {
      assert d * (q2 - q1) == r1 - r2;
      MulAtLeast(d, q2 - q1);
    }
  }

  lemma MulAtLeast(d: int, t: int)
    requires d > 0 && t >= 1
    ensures d * t >= d
  {
  }

  lemma DivUnique(a: int, d: int, q: int, r: int)
    requires 0 <= r < d && a == d * q + r
    ensures a / d == q && a % d == r
  {
    assert a == d * (a / d) + a % d;
    QuotientUnique(d, a / d, a % d, q, r);
  }

  // ----- masks -----

  /** Masking with 2^k - 1 is the remainder modulo 2^k. */
  lemma {:induction false} AndLow(x: nat, k: nat)
    ensures And(x, Pow2(k) - 1) == x % Pow2(k)
  {
    if k == 0 {
      AndZero(x);
    } else {
      AndLow(x / 2, k - 1);
      AndHalf(x, Pow2(k) - 1);
      HalfOdd(Pow2(k - 1));
      ModPow2(x, k);
    }
  }

  lemma HalfOdd(p: nat)
    requires p > 0
    ensures (2 * p - 1) / 2 == p - 1 && (2 * p - 1) % 2 == 1
  {
    DivUnique(2 * p - 1, 2, p - 1, 1);
  }

  lemma ModPow2(x: nat, k: nat)
    requires k > 0
    ensures x % Pow2(k) == 2 * (x / 2 % Pow2(k - 1)) + x % 2
  {
    var p := Pow2(k - 1);
    var q, r := x / 2 / p, x / 2 % p;
    assert x / 2 == p * q + r;
    assert 2 * (p * q) == (2 * p) * q;
    DivUnique(x, 2 * p, q, 2 * r + x % 2);
  }

  lemma {:induction false} AndZero(x: nat)
    ensures And(x, 0) == 0
  {
    if x > 0 {
      AndZero(x / 2);
    }
  }

  lemma AndDouble(x: nat, h: nat)
    ensures And(x, 2 * h) == 2 * And(x / 2, h)
  {
    AndHalf(x, 2 * h);
  }

  lemma AndTimes4(x: nat, h: nat)
    ensures And(x, 4 * h) == 4 * And(x / 4, h)
  {
    AndDouble(x, 2 * h);
    AndDouble(x / 2, h);
    assert x / 2 / 2 == x / 4;
  }

  lemma AndTimes16(x: nat, h: nat)
    ensures And(x, 16 * h) == 16 * And(x / 16, h)
  {
    AndTimes4(x, 4 * h);
    AndTimes4(x / 4, h);
    assert x / 4 / 4 == x / 16;
  }

  lemma AndTimes256(x: nat, h: nat)
    ensures And(x, 256 * h) == 256 * And(x / 256, h)
  {
    AndTimes16(x, 16 * h);
    AndTimes16(x / 16, h);
    assert x / 16 / 16 == x / 256;
  }

  /** A mask with twelve trailing zeros drops the page offset before masking the rest. */
  lemma AndTimes4096(x: nat, h: nat)
    ensures And(x, 4096 * h) == 4096 * And(x / 4096, h)
  {
    AndTimes256(x, 16 * h);
    AndTimes16(x / 256, h);
    assert x / 256 / 16 == x / 4096;
  }

  /** Setting low bits of a number that has none of them set is addition. */
  lemma {:induction false} OrDisjoint(x: nat, y: nat, k: nat)
    requires y < Pow2(k)
    ensures Or(Pow2(k) * x, y) == Pow2(k) * x + y
  {
    if k > 0 && x > 0 {
      var h := Pow2(k - 1) * x;
      assert Pow2(k) * x == 2 * h;
      OrDisjoint(x, y / 2, k - 1);
      assert h > 0;
    } else if x > 0 {
      OrZero(x);
    }
  }

  lemma {:induction false} OrZero(x: nat)
    ensures Or(x, 0) == x
  {
    if x > 0 {
      OrZero(x / 2);
    }
  }

  ghost predicate IsPow2(v: nat) { exists k: nat :: v == Pow2(k) }

  /** The usual test v != 0 && (v & (v - 1)) == 0 holds exactly for the powers of two. */
  lemma {:induction false} PowerOfTwoTest(v: nat)
    requires v > 0
    ensures And(v, v - 1) == 0 <==> IsPow2(v)
  {
    if v == 1 {
      assert v == Pow2(0);
    } else if v % 2 == 1 {
      AndOdd(v);
      forall k: nat
        ensures v != Pow2(k)
      {
        assert k > 0 ==> Pow2(k) == 2 * Pow2(k - 1);
      }
    } else {
      PowerOfTwoTest(v / 2);
      assert (v - 1) / 2 == v / 2 - 1;
      if IsPow2(v / 2) {
        var k: nat :| v / 2 == Pow2(k);
        assert v == Pow2(k + 1);
      }
      if IsPow2(v) {
        var k: nat :| v == Pow2(k);
        assert v / 2 == Pow2(k - 1);
      }
    }
  }

  lemma AndOdd(v: nat)
    requires v > 1 && v % 2 == 1
    ensures And(v, v - 1) > 0
  {
    assert (v - 1) / 2 == v / 2;
    AndSelf(v / 2);
  }

  lemma {:induction false} AndSelf(v: nat)
    ensures And(v, v) == v
  {
    if v > 0 {
      AndSelf(v / 2);
    }
  }
}
