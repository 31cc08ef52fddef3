/** What the checksum is: the remainder of a division of polynomials over GF(2) by the CRC-32
    generator. A polynomial is the number whose binary digits are its coefficients; adding
    polynomials is the exclusive or, and multiplying by x is doubling. */
module CrcPolynomial {
  import opened Words
  import opened Bits
  import opened Crc32

  /** The exponents of the generator x^32 + x^26 + ... + x + 1. */
  const EXPONENTS: seq<nat> := [32, 26, 23, 22] + [16, 12, 11] + [10, 8, 7, 5, 4, 2, 1, 0]

  /** The polynomial with the given exponents. */
  function Terms(l: seq<nat>): (p: nat) { if l == [] then 0 else Pow2(l[0]) + Terms(l[1..]) }

  ghost function Generator(): (g: nat) { Terms(EXPONENTS) }

  /** The product of two polynomials. */
  function Product(q: nat, g: nat): (p: nat)
    decreases q
  {
    if q == 0 then 0 else Xor(2 * Product(q / 2, g), if q % 2 == 1 then g else 0)
  }

  /** The low n bits of a number, low bit first. */
  function BitsOf(b: nat, n: nat): (l: seq<nat>)
    ensures |l| == n && forall i :: 0 <= i < n ==> l[i] <= 1
  {
    if n == 0 then [] else [b % 2] + BitsOf(b / 2, n - 1)
  }

  /** The bits of a message in the order of transmission: low bit of each byte first. */
  function MessageBits(data: seq<u8>): (l: seq<nat>)
    ensures forall i :: 0 <= i < |l| ==> l[i] <= 1
  {
    if data == [] then [] else MessageBits(data[..|data| - 1]) + BitsOf(data[|data| - 1], 8)
  }

  /** The dividend: the message as a polynomial, times x^32, with 32 ones added to its front. */
  function Dividend(bits: seq<nat>): (p: nat)
  {
    if bits == [] then 0xffff_ffff
    else Xor(2 * Dividend(bits[..|bits| - 1]), if bits[|bits| - 1] == 1 then 0x1_0000_0000 else 0)
  }

  function Bit(x: nat, k: nat): (b: nat)
    ensures b <= 1
  {
    x / Pow2(k) % 2
  }

  /** The low k bits read from the other end. */
  function Reflected(x: nat, k: nat): (r: nat)
  {
    if k == 0 then 0 else 2 * Reflected(x, k - 1) + Bit(x, k - 1)
  }

  /** rest is a remainder of the dividend by the generator. */
  ghost predicate IsRemainder(dividend: nat, rest: nat)
  {
    rest < 0x1_0000_0000 && exists q: nat :: dividend == Xor(Product(q, Generator()), rest)
  }

  // ----- reflection -----

  lemma XorDouble(a: nat, b: nat)
    ensures Xor(2 * a, 2 * b) == 2 * Xor(a, b)
  {
    XorHalf(2 * a, 2 * b);
  }

  lemma XorOdd(a: nat, b: nat, x: nat, y: nat)
    requires x <= 1 && y <= 1
    ensures Xor(2 * a + x, 2 * b + y) == 2 * Xor(a, b) + if x != y then 1 else 0
  {
    XorHalf(2 * a + x, 2 * b + y);
    DivUnique(2 * a + x, 2, a, x);
    DivUnique(2 * b + y, 2, b, y);
  }

  lemma BitHalf(x: nat, k: nat)
    ensures Bit(x, k + 1) == Bit(x / 2, k)
  {
    DivPow2(x, k + 1);
  }

  lemma LowBit(x: nat)
    ensures Bit(x, 0) == x % 2
  {
    assert Pow2(0) == 1;
  }

  lemma {:induction false} BitXor(x: nat, y: nat, k: nat)
    ensures Bit(Xor(x, y), k) == if Bit(x, k) != Bit(y, k) then 1 else 0
  {
    XorHalf(x, y);
    if k == 0 {
      LowBit(x);
      LowBit(y);
      LowBit(Xor(x, y));
    } else {
      BitXor(x / 2, y / 2, k - 1);
      BitHalf(x, k - 1);
      BitHalf(y, k - 1);
      BitHalf(Xor(x, y), k - 1);
    }
  }

  lemma {:induction false} ReflectedXor(x: nat, y: nat, k: nat)
    ensures Reflected(Xor(x, y), k) == Xor(Reflected(x, k), Reflected(y, k))
  {
    if k > 0 {
      ReflectedXor(x, y, k - 1);
      BitXor(x, y, k - 1);
      XorOdd(Reflected(x, k - 1), Reflected(y, k - 1), Bit(x, k - 1), Bit(y, k - 1));
    }
  }

  lemma {:induction false} ReflectedBound(x: nat, k: nat)
    ensures Reflected(x, k) < Pow2(k)
  {
    if k > 0 {
      ReflectedBound(x, k - 1);
    }
  }

  /** The lowest bit comes out on top. */
  lemma {:induction false} LowBitOnTop(x: nat, k: nat)
    ensures Reflected(x, k + 1) == Pow2(k) * (x % 2) + Reflected(x / 2, k)
  {
    if k > 0 {
      LowBitOnTop(x, k - 1);
      BitHalf(x, k - 1);
      MulAssoc(2, Pow2(k - 1), x % 2);
    }
  }

  /** Shifting the word right doubles its reflection and drops the top. */
  lemma ReflectedShift(x: u32)
    ensures 2 * Reflected(x, 32) == 0x1_0000_0000 * (x % 2) + Reflected(x / 2, 32)
  {
    Pow2Values();
    LowBitOnTop(x, 32);
    assert Bit(x, 32) == 0;
  }

  lemma LowTerms()
    ensures Terms([10, 8, 7, 5, 4, 2, 1, 0]) == 0x5b7
  {
  }

  lemma MiddleTerms()
    ensures Terms([16, 12, 11]) == 0x1_1800
  {
  }

  lemma HighPowers()
    ensures Pow2(22) == 0x40_0000 && Pow2(23) == 0x80_0000 && Pow2(26) == 0x400_0000 && Pow2(32) == 0x1_0000_0000
  {
    Pow2Values();
    assert Pow2(10) == 1024 && Pow2(3) == 8;
    Pow2Sum(12, 10, 4096, 1024);
    assert Pow2(23) == 2 * Pow2(22);
    Pow2Sum(23, 3, 0x80_0000, 8);
  }

  lemma OneTerm(a: nat)
    ensures Terms([a]) == Pow2(a)
  {
    assert [a][1..] == [];
  }

  lemma TwoTerms(a: nat, b: nat)
    ensures Terms([a, b]) == Pow2(a) + Pow2(b)
  {
    OneTerm(a);
    OneTerm(b);
    TermsFrom([a], [b]);
    assert [a] + [b] == [a, b];
  }

  lemma HighTerms()
    ensures Terms([32, 26, 23, 22]) == 0x1_04c0_0000
  {
    HighPowers();
    TwoTerms(32, 26);
    TwoTerms(23, 22);
    TermsFrom([32, 26], [23, 22]);
    assert [32, 26] + [23, 22] == [32, 26, 23, 22];
  }

  lemma GeneratorValue()
    ensures Generator() == 0x1_04c1_1db7
  {
    var low, middle, high := [10, 8, 7, 5, 4, 2, 1, 0], [16, 12, 11], [32, 26, 23, 22];
    LowTerms();
    MiddleTerms();
    HighTerms();
    TermsFrom(high + middle, low);
    TermsFrom(high, middle);
  }

  lemma {:induction false} TermsFrom(a: seq<nat>, b: seq<nat>)
    ensures Terms(a + b) == Terms(a) + Terms(b)
  {
    if a == [] {
      assert a + b == b;
    } else {
      assert (a + b)[1..] == a[1..] + b;
      TermsFrom(a[1..], b);
    }
  }

  /** Reflection bit by bit, from the low end. */
  function Turned(x: nat, k: nat, done: nat): (r: nat)
    decreases k
  {
    if k == 0 then done else Turned(x / 2, k - 1, 2 * done + x % 2)
  }

  lemma {:induction false} TurnedIsReflected(x: nat, k: nat, done: nat)
    ensures Turned(x, k, done) == Pow2(k) * done + Reflected(x, k)
    decreases k
  {
    if k > 0 {
      TurnedIsReflected(x / 2, k - 1, 2 * done + x % 2);
      LowBitOnTop(x, k - 1);
      TwiceDone(Pow2(k - 1), done, x % 2);
    }
  }

  lemma TwiceDone(p: nat, done: nat, b: nat)
    ensures p * (2 * done + b) == 2 * p * done + p * b
  {
  }

  /** Four bits at once. */
  lemma TurnFour(y: nat, b0: nat, b1: nat, b2: nat, b3: nat, k: nat, done: nat)
    requires b0 <= 1 && b1 <= 1 && b2 <= 1 && b3 <= 1
    ensures Turned(16 * y + 8 * b3 + 4 * b2 + 2 * b1 + b0, k + 4, done)
         == Turned(y, k, 16 * done + 8 * b0 + 4 * b1 + 2 * b2 + b3)
  {
    TurnOne(8 * y + 4 * b3 + 2 * b2 + b1, b0, k + 3, done);
    TurnOne(4 * y + 2 * b3 + b2, b1, k + 2, 2 * done + b0);
    TurnOne(2 * y + b3, b2, k + 1, 4 * done + 2 * b0 + b1);
    TurnOne(y, b3, k, 8 * done + 4 * b0 + 2 * b1 + b2);
  }

  lemma TurnOne(y: nat, b: nat, k: nat, done: nat)
    requires b <= 1
    ensures Turned(2 * y + b, k + 1, done) == Turned(y, k, 2 * done + b)
  {
    DivUnique(2 * y + b, 2, y, b);
  }

  lemma LowHalfTurned(k: nat)
    requires k >= 16
    ensures Turned(0xedb8_8320, k, 0) == Turned(0xedb8, k - 16, 0x4c1)
  {
    TurnFour(0xedb_8832, 0, 0, 0, 0, k - 4, 0);
    TurnFour(0xed_b883, 0, 1, 0, 0, k - 8, 0);
    TurnFour(0xe_db88, 1, 1, 0, 0, k - 12, 0x4);
    TurnFour(0xedb8, 0, 0, 0, 1, k - 16, 0x4c);
  }

  lemma HighHalfTurned(k: nat)
    requires k == 16
    ensures Turned(0xedb8, k, 0x4c1) == 0x04c1_1db7
  {
    TurnFour(0xedb, 0, 0, 0, 1, k - 4, 0x4c1);
    TurnFour(0xed, 1, 1, 0, 1, k - 8, 0x4c11);
    TurnFour(0xe, 1, 0, 1, 1, k - 12, 0x4_c11d);
    TurnFour(0, 0, 1, 1, 1, k - 16, 0x4c_11db);
  }

  lemma PolynomialTurned(k: nat)
    requires k == 32
    ensures Turned(POLYNOMIAL, k, 0) == 0x04c1_1db7
  {
    LowHalfTurned(k);
    HighHalfTurned(k - 16);
  }

  lemma PolynomialReflected(k: nat)
    requires k == 32
    ensures Reflected(POLYNOMIAL, k) == 0x04c1_1db7
  {
    PolynomialTurned(k);
    TurnedIsReflected(POLYNOMIAL, k, 0);
  }

  // ----- the register as a polynomial -----

  lemma OddStep(y: nat, k: nat)
    requires k == 32
    ensures Reflected(Xor(y, POLYNOMIAL), k) == Xor(Reflected(y, k), 0x04c1_1db7)
  {
    PolynomialReflected(k);
    ReflectedXor(y, POLYNOMIAL, k);
  }

  lemma OddSum(h: u32)
    ensures Xor(0x1_0000_0000 + h, Generator()) == Xor(h, 0x04c1_1db7)
  {
    GeneratorValue();
    TopCancels(h, 0x04c1_1db7);
  }

  /** One round on the register, of k = 32 bits, is one step of the division. */
  lemma BitStepDivides(x: u32, h: nat, t: nat, k: nat)
    requires k == 32 && x == 2 * h + t && t <= 1
    ensures Reflected(BitStep(x), k) == Xor(2 * Reflected(x, k), if t == 1 then Generator() else 0)
  {
    ShiftParts(x, h, t);
    ReflectedIsWord(h);
    if t == 1 {
      OddDivides(x, h, k, Reflected(h, k), 2 * Reflected(x, k));
    } else {
      EvenDivides(x, h, k, 2 * Reflected(x, k));
    }
  }

  lemma OddDivides(x: nat, h: nat, k: nat, r: u32, twice: nat)
    requires k == 32 && x == 2 * h + 1 && r == Reflected(h, k) && twice == 0x1_0000_0000 + r
    ensures Reflected(BitStep(x), k) == Xor(twice, Generator())
  {
    OddRound(x, h);
    OddStep(h, k);
    OddSum(r);
  }

  lemma OddRound(x: nat, h: nat)
    requires x == 2 * h + 1
    ensures BitStep(x) == Xor(h, POLYNOMIAL)
  {
    DivUnique(x, 2, h, 1);
  }

  lemma EvenDivides(x: nat, h: nat, k: nat, r: nat)
    requires x == 2 * h && r == Reflected(h, k)
    ensures Reflected(BitStep(x), k) == Xor(r, 0)
  {
    EvenStep(h);
    XorZero(r);
  }

  lemma ShiftParts(x: u32, h: nat, t: nat)
    requires x == 2 * h + t && t <= 1
    ensures 2 * Reflected(x, 32) == 0x1_0000_0000 * t + Reflected(h, 32)
  {
    DivUnique(x, 2, h, t);
    ReflectedShift(x);
  }

  lemma ReflectedIsWord(x: nat)
    ensures Reflected(x, 32) < TWO_32
  {
    Pow2Values();
    ReflectedBound(x, 32);
  }

  lemma TopCancels(a: u32, b: u32)
    ensures Xor(0x1_0000_0000 + a, 0x1_0000_0000 + b) == Xor(a, b)
  {
    Pow2Values();
    WithTop(a);
    WithTop(b);
    XorSwap(a, 0x1_0000_0000, b, 0x1_0000_0000);
    XorSelf(0x1_0000_0000);
    XorZero(Xor(a, b));
  }

  lemma WithTop(a: u32)
    ensures Xor(a, 0x1_0000_0000) == 0x1_0000_0000 + a
  {
    Pow2Values();
    XorDisjoint(a, 1, 32);
  }

  /** The register takes one bit of the message. */
  function Feed(c: nat, b: nat): (r: nat) { BitStep(Xor(c, b)) }

  function FeedAll(c: nat, bits: seq<nat>): (r: nat)
  {
    if bits == [] then c else Feed(FeedAll(c, bits[..|bits| - 1]), bits[|bits| - 1])
  }

  lemma {:induction false} FeedAllConcat(c: nat, a: seq<nat>, b: seq<nat>)
    ensures FeedAll(c, a + b) == FeedAll(FeedAll(c, a), b)
  {
    if b == [] {
      assert a + b == a;
    } else {
      var n := |b| - 1;
      assert (a + b)[..|a + b| - 1] == a + b[..n];
      FeedAllConcat(c, a, b[..n]);
    }
  }

  lemma FeedFirst(c: nat, b: nat, rest: seq<nat>)
    ensures FeedAll(c, [b] + rest) == FeedAll(Feed(c, b), rest)
  {
    FeedAllConcat(c, [b], rest);
    assert [b][..0] == [];
    assert FeedAll(c, [b]) == Feed(c, b);
  }

  /** Adding n bits to the register at once and stepping n times takes them one by one. */
  lemma {:induction false} StepsFeed(c: nat, b: nat, n: nat)
    requires b < Pow2(n)
    ensures BitSteps(Xor(c, b), n) == FeedAll(c, BitsOf(b, n))
    decreases n
  {
    if n == 0 {
      XorZero(c);
    } else {
      OneFed(c, b, b % 2, b / 2, n);
      StepsFeed(Feed(c, b % 2), b / 2, n - 1);
      FeedFirst(c, b % 2, BitsOf(b / 2, n - 1));
    }
  }

  lemma OneFed(c: nat, b: nat, low: nat, h: nat, n: nat)
    requires low <= 1 && b == low + 2 * h && n > 0
    ensures BitSteps(Xor(c, b), n) == BitSteps(Xor(Feed(c, low), h), n - 1)
  {
    FirstBitOff(c, b, low, h);
    FirstStep(Xor(c, b), n - 1);
  }

  lemma FirstStep(x: nat, n: nat)
    ensures BitSteps(x, n + 1) == BitSteps(BitStep(x), n)
  {
    BitStepsAdd(x, 1, n);
    assert BitSteps(x, 1) == BitStep(BitSteps(x, 0));
  }

  lemma FirstBitOff(c: nat, b: nat, low: nat, h: nat)
    requires low <= 1 && b == low + 2 * h
    ensures BitStep(Xor(c, b)) == Xor(Feed(c, low), h)
  {
    OddAndEven(c, low, h);
    BitStepLinear(Xor(c, low), 2 * h);
    EvenStep(h);
  }

  lemma OddAndEven(c: nat, low: nat, h: nat)
    requires low <= 1
    ensures Xor(c, low + 2 * h) == Xor(Xor(c, low), 2 * h)
  {
    assert Pow2(1) == 2;
    XorDisjoint(low, h, 1);
    XorAssoc(c, low, 2 * h);
  }

  lemma EvenStep(h: nat)
    ensures BitStep(2 * h) == h
  {
    XorZero(h);
  }

  lemma {:induction false} FoldFeeds(c: nat, data: seq<u8>)
    ensures Fold(c, data) == FeedAll(c, MessageBits(data))
  {
    if data != [] {
      var n := |data| - 1;
      FoldFeeds(c, data[..n]);
      Pow2Values();
      StepsFeed(Fold(c, data[..n]), data[n], 8);
      FeedAllConcat(c, MessageBits(data[..n]), BitsOf(data[n], 8));
    }
  }

  // ----- the division -----

  /** Taking a bit into the register, as polynomials. */
  lemma FeedDivides(c: u32, b: nat)
    requires b <= 1
    ensures Xor(c, b) < TWO_32 && Feed(c, b) < TWO_32
    ensures Reflected(Feed(c, b), 32) == Xor(Xor(2 * Reflected(c, 32), if b == 1 then 0x1_0000_0000 else 0),
                                             if Xor(c, b) % 2 == 1 then Generator() else 0)
  {
    XorIsWord(c, b);
    BitStepIsWord(Xor(c, b));
    BitStepDivides(Xor(c, b), Xor(c, b) / 2, Xor(c, b) % 2, 32);
    ReflectedXor(c, b, 32);
    ReflectedBit(b);
    XorDouble(Reflected(c, 32), if b == 1 then 0x8000_0000 else 0);
  }

  lemma ReflectedBit(b: nat)
    requires b <= 1
    ensures Reflected(b, 32) == if b == 1 then 0x8000_0000 else 0
  {
    Pow2Values();
    ReflectedBitAt(b, 31);
  }

  lemma ReflectedBitAt(b: nat, k: nat)
    requires b <= 1
    ensures Reflected(b, k + 1) == if b == 1 then Pow2(k) else 0
  {
    LowBitOnTop(b, k);
    ReflectedZero(k);
  }

  lemma {:induction false} ReflectedZero(k: nat)
    ensures Reflected(0, k) == 0
  {
    if k > 0 {
      ReflectedZero(k - 1);
      assert 0 / Pow2(k - 1) == 0;
    }
  }

  /** One more digit of the quotient. */
  lemma Divides(d: nat, q: nat, s: nat, top: nat, t: nat)
    requires d == Xor(Product(q, Generator()), s) && t <= 1
    ensures var g := if t == 1 then Generator() else 0;
            Xor(2 * d, top) == Xor(Product(2 * q + t, Generator()), Xor(Xor(2 * s, top), g))
  {
    var g := if t == 1 then Generator() else 0;
    var p := Product(q, Generator());
    ProductStep(q, t, Generator());
    XorDouble(p, s);
    XorAssoc(2 * p, 2 * s, top);
    var r := Xor(2 * s, top);
    XorSwap(2 * p, g, r, g);
    XorSelf(g);
    XorZero(Xor(2 * p, r));
  }

  lemma ProductStep(q: nat, t: nat, g: nat)
    requires t <= 1
    ensures Product(2 * q + t, g) == Xor(2 * Product(q, g), if t == 1 then g else 0)
  {
    DivUnique(2 * q + t, 2, q, t);
  }

  lemma {:induction false} FeedAllIsWord(c: u32, bits: seq<nat>)
    requires forall i :: 0 <= i < |bits| ==> bits[i] <= 1
    ensures FeedAll(c, bits) < TWO_32
  {
    if bits != [] {
      var n := |bits| - 1;
      FeedAllIsWord(c, bits[..n]);
      FeedDivides(FeedAll(c, bits[..n]), bits[n]);
    }
  }

  lemma {:induction false} RegisterIsRemainder(bits: seq<nat>)
    requires forall i :: 0 <= i < |bits| ==> bits[i] <= 1
    ensures IsRemainder(Dividend(bits), Reflected(FeedAll(0xffff_ffff, bits), 32))
  {
    Pow2Values();
    ReflectedBound(FeedAll(0xffff_ffff, bits), 32);
    if bits == [] {
      OnesReflected();
      assert Dividend(bits) == Xor(Product(0, Generator()), 0xffff_ffff);
    } else {
      var n := |bits| - 1;
      RegisterIsRemainder(bits[..n]);
      FeedAllIsWord(0xffff_ffff, bits[..n]);
      var c, d := FeedAll(0xffff_ffff, bits[..n]), Dividend(bits[..n]);
      var q: nat :| d == Xor(Product(q, Generator()), Reflected(c, 32));
      var t := Xor(c, bits[n]) % 2;
      FeedDivides(c, bits[n]);
      Divides(d, q, Reflected(c, 32), if bits[n] == 1 then 0x1_0000_0000 else 0, t);
      assert Dividend(bits) == Xor(Product(2 * q + t, Generator()), Reflected(FeedAll(0xffff_ffff, bits), 32));
    }
  }

  lemma OnesReflected()
    ensures Reflected(0xffff_ffff, 32) == 0xffff_ffff
  {
    Pow2Values();
    AllOnes(32);
  }

  lemma {:induction false} AllOnes(k: nat)
    ensures Reflected(Pow2(k) - 1, k) == Pow2(k) - 1
  {
    if k > 0 {
      OneOnTop(Pow2(k - 1) - 1, k - 1);
      AllOnes(k - 1);
    }
  }

  lemma OneOnTop(y: nat, k: nat)
    ensures Reflected(2 * y + 1, k + 1) == Pow2(k) + Reflected(y, k)
  {
    DivUnique(2 * y + 1, 2, y, 1);
    LowBitOnTop(2 * y + 1, k);
  }

  /** The checksum of a message is the complement of that remainder, read from the other end. */
  lemma CrcIsRemainder(data: seq<u8>)
    ensures IsRemainder(Dividend(MessageBits(data)), Reflected(0xffff_ffff - Crc(data), 32))
  {
    FoldFeeds(0xffff_ffff, data);
    FoldIsWord(0xffff_ffff, data);
    RegisterIsRemainder(MessageBits(data));
  }

  // ----- there is only one remainder -----

  lemma {:induction false} ProductXor(p: nat, q: nat, g: nat)
    ensures Product(Xor(p, q), g) == Xor(Product(p, g), Product(q, g))
    decreases p + q
  {
    XorHalf(p, q);
    if p == 0 {
    } else if q == 0 {
      XorZero(p);
      XorZero(Product(p, g));
    } else {
      ProductXor(p / 2, q / 2, g);
      ProductOfXor(p, q, g);
    }
  }

  lemma ProductOfXor(p: nat, q: nat, g: nat)
    requires p > 0 && q > 0 && Product(Xor(p / 2, q / 2), g) == Xor(Product(p / 2, g), Product(q / 2, g))
    ensures Product(Xor(p, q), g) == Xor(Product(p, g), Product(q, g))
  {
    XorHalf(p, q);
    var a, b := 2 * Product(p / 2, g), 2 * Product(q / 2, g);
    var x, y := if p % 2 == 1 then g else 0, if q % 2 == 1 then g else 0;
    XorDouble(Product(p / 2, g), Product(q / 2, g));
    XorSwap(a, x, b, y);
    XorSelf(g);
    XorZero(g);
    ProductStep(Xor(p / 2, q / 2), if p % 2 != q % 2 then 1 else 0, g);
    assert Xor(p, q) == 2 * Xor(p / 2, q / 2) + if p % 2 != q % 2 then 1 else 0;
  }

  /** A product with a quotient other than zero has a degree of at least 32. */
  lemma {:induction false} ProductIsLarge(q: nat, g: nat)
    requires q > 0 && 0x1_0000_0000 <= g < 0x2_0000_0000
    ensures Product(q, g) >= 0x1_0000_0000
  {
    if q > 1 {
      ProductIsLarge(q / 2, g);
      KeepsTop(2 * Product(q / 2, g), if q % 2 == 1 then g else 0);
    } else {
      assert Product(0, g) == 0;
    }
  }

  lemma KeepsTop(a: nat, b: nat)
    requires a >= 0x2_0000_0000 > b
    ensures Xor(a, b) >= 0x2_0000_0000
  {
    Pow2Values();
    assert Pow2(33) == 2 * Pow2(32);
    XorAbove(a, b, 33);
  }

  lemma RemainderIsUnique(d: nat, r: nat, s: nat)
    requires IsRemainder(d, r) && IsRemainder(d, s)
    ensures r == s
  {
    var g := Generator();
    GeneratorValue();
    var p: nat :| d == Xor(Product(p, g), r);
    var q: nat :| d == Xor(Product(q, g), s);
    var m := Xor(p, q);
    ProductXor(p, q, g);
    SumOfEqual(Product(p, g), r, Product(q, g), s);
    XorIsWord(r, s);
    if m != 0 {
      ProductIsLarge(m, g);
    }
    ZeroSum(r, s);
  }

  lemma SumOfEqual(a: nat, r: nat, b: nat, s: nat)
    requires Xor(a, r) == Xor(b, s)
    ensures Xor(a, b) == Xor(r, s)
  {
    XorSwap(a, r, b, s);
    XorSelf(Xor(a, r));
    var x, y := Xor(a, b), Xor(r, s);
    XorSelf(y);
    XorCancel(x, y, y);
  }

  lemma ZeroSum(r: nat, s: nat)
    requires Xor(r, s) == 0
    ensures r == s
  {
    XorSelf(s);
    XorCancel(r, s, s);
  }

  lemma {:induction false} ReflectedInjective(x: nat, y: nat, k: nat)
    requires x < Pow2(k) && y < Pow2(k) && Reflected(x, k) == Reflected(y, k)
    ensures x == y
  {
    if k > 0 {
      LowBitOnTop(x, k - 1);
      LowBitOnTop(y, k - 1);
      ReflectedBound(x / 2, k - 1);
      ReflectedBound(y / 2, k - 1);
      QuotientUnique(Pow2(k - 1), x % 2, Reflected(x / 2, k - 1), y % 2, Reflected(y / 2, k - 1));
      ReflectedInjective(x / 2, y / 2, k - 1);
    }
  }

  /** A word is the checksum of a message exactly when its complement, read from the other
      end, is the remainder of the message's polynomial by the generator. */
  lemma CrcMeaning(data: seq<u8>, w: u32)
    ensures IsRemainder(Dividend(MessageBits(data)), Reflected(0xffff_ffff - w, 32)) <==> w == Crc(data)
  {
    CrcIsRemainder(data);
    if IsRemainder(Dividend(MessageBits(data)), Reflected(0xffff_ffff - w, 32)) {
      RemainderIsUnique(Dividend(MessageBits(data)), Reflected(0xffff_ffff - w, 32),
                        Reflected(0xffff_ffff - Crc(data), 32));
      Pow2Values();
      ReflectedInjective(0xffff_ffff - w, 0xffff_ffff - Crc(data), 32);
    }
  }
}
