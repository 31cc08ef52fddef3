/** The 64-bit shift-subtract divider that the 32-bit boot code links against. */
module Runtime32 {
  import opened Words
  import opened Bits

  /** udivmod64: both results, with the source's answer of 0 for a zero denominator. */
  method UDivMod64(numerator: u64, denominator: u64) returns (quotient: u64, remainder: u64)
    ensures denominator == 0 ==> quotient == 0 && remainder == 0
    ensures denominator != 0 ==> numerator == quotient * denominator + remainder && remainder < denominator
  {
    if denominator == 0 {
      return 0, 0;
    }
    quotient := 0;
    var rem: u64 := 0;
    var bit: u64 := 0x8000_0000_0000_0000;
    ghost var q: nat, left: nat := 0, 64;
    StartDivided(numerator, denominator, left);
    for i := 0 to 64
      invariant left == 64 - i && bit == Pow2(left) / 2
      invariant Divided(numerator, denominator, quotient, rem, q, left)
    {
      ghost var k := left - 1;
      assert Pow2(left) == 2 * Pow2(k);
      TestBit(numerator, k);
      RoundCorrect(numerator, denominator, quotient, rem, q, k);
      var fits;
      rem, fits := BringDown(rem, if And(numerator, bit) != 0 then 1 else 0, denominator);
      if fits {
        quotient := Or(quotient, bit);
        q := 2 * q + 1;
      } else {
        q := 2 * q;
      }
      bit := bit / 2;
      left := k;
    }
    remainder := rem;
    DivOne(numerator);
  }

  /** Before the first round nothing has been brought down. */
  lemma StartDivided(n: u64, d: nat, left: nat)
    requires left == 64 && d > 0
    ensures Pow2(left) / 2 == 0x8000_0000_0000_0000 && Divided(n, d, 0, 0, 0, left)
  {
    Pow2Values();
  }

  /** The body of the loop: shift a digit into the remainder and subtract if the
      denominator fits, where the shift may have pushed a carry out of the word. */
  method BringDown(rem: u64, digit: u64, denominator: u64) returns (r: u64, fits: bool)
    requires digit < 2 && rem < denominator
    ensures fits <==> 2 * rem + digit >= denominator
    ensures r == 2 * rem + digit - if fits then denominator else 0
  {
    ShiftIn(rem, digit);
    var carry := rem / 0x8000_0000_0000_0000;
    r := Or(Wrap64(2 * rem), digit);
    fits := carry != 0 || r >= denominator;
    if fits {
      WrapBorrow(r, denominator);
      r := Wrap64(r - denominator);
    }
  }

  lemma WrapBorrow(r: u64, d: u64)
    ensures Wrap64(r - d) == r - d + if r < d then TWO_64 else 0
  {
  }

  /** With k digits still to come, the digits seen so far have been divided exactly. */
  ghost predicate Divided(n: nat, d: nat, quotient: nat, rem: nat, q: nat, k: nat)
  {
    rem < d && quotient == Pow2(k) * q && n / Pow2(k) == q * d + rem
  }

  lemma DivOne(n: nat)
    ensures n / 1 == n
  {
  }

  /** The bit the loop looks at is digit k of the numerator. */
  lemma {:induction false} TestBit(n: nat, k: nat)
    ensures And(n, Pow2(k)) != 0 <==> n / Pow2(k) % 2 == 1
  {
    if k > 0 {
      AndHalf(n, Pow2(k));
      TestBit(n / 2, k - 1);
      DivPow2(n, k);
    } else {
      AndHalf(n, 1);
      AndZero(n / 2);
    }
  }

  /** Shifting in a bit loses exactly the carry. */
  lemma ShiftIn(rem: u64, b: nat)
    requires b < 2
    ensures Or(Wrap64(2 * rem), b) == 2 * rem + b - if rem >= 0x8000_0000_0000_0000 then TWO_64 else 0
  {
    var h := rem - if rem >= 0x8000_0000_0000_0000 then 0x8000_0000_0000_0000 else 0;
    assert Wrap64(2 * rem) == 2 * h;
    assert Pow2(1) == 2 * Pow2(0);
    OrDisjoint(h, b, 1);
  }

  /** One round: bring down digit k and subtract the denominator when it fits. */
  lemma RoundCorrect(n: u64, d: nat, quotient: nat, rem: nat, q: nat, k: nat)
    requires Divided(n, d, quotient, rem, q, k + 1)
    ensures var full := 2 * rem + n / Pow2(k) % 2;
            && (full >= d ==> Or(quotient, Pow2(k)) <= n
                              && Divided(n, d, Or(quotient, Pow2(k)), full - d, 2 * q + 1, k))
            && (full < d ==> Divided(n, d, quotient, full, 2 * q, k))
  {
    var p := Pow2(k);
    var full := 2 * rem + n / p % 2;
    assert Or(quotient, p) == quotient + p by {
      OrDisjoint(q, p, k + 1);
    }
    Digit(n, p);
    NextDigit(n / p, n / (2 * p), q, d, rem);
    SameQuotient(quotient, p, q);
    if full >= d {
      PrefixBound(n, p, 2 * q + 1, d);
    }
  }

  lemma Digit(n: nat, p: nat)
    requires p > 0
    ensures 2 * p > 0 && n / p == 2 * (n / (2 * p)) + n / p % 2
  {
    DivDiv(n, p, 2);
  }

  /** The quotient and remainder of a prefix and of the prefix with one more digit. */
  lemma NextDigit(prefix: nat, half: nat, q: nat, d: nat, rem: nat)
    requires prefix == 2 * half + prefix % 2 && half == q * d + rem
    ensures prefix == 2 * q * d + (2 * rem + prefix % 2)
    ensures (2 * q + 1) * d == 2 * q * d + d
  {
    MulAssoc(2, q, d);
    Distribute(2 * q, d);
  }

  lemma SameQuotient(quotient: nat, p: nat, q: nat)
    requires quotient == 2 * p * q
    ensures quotient == p * (2 * q) && quotient + p == p * (2 * q + 1)
  {
    MulAssoc(p, 2, q);
    Distribute(2 * q, p);
  }

  lemma PrefixBound(n: nat, p: nat, q: nat, d: nat)
    requires p > 0 && d > 0 && q * d <= n / p
    ensures p * q <= n
  {
    MulGrows(q, d);
    MulMonotone(q, n / p, p);
    assert n == p * (n / p) + n % p;
  }

  lemma MulGrows(q: nat, d: nat)
    requires d > 0
    ensures q <= q * d
  {
  }

}
