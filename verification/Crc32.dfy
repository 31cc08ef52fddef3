/** The CRC-32 kernel that health.c, update.c and partition.c each carry a copy of.
    The functions are the specification of the register; the methods are the nested
    loops of the source. */
module Crc32 {
  import opened Words
  import opened Bits

  const POLYNOMIAL: u32 := 0xedb8_8320
  const ALL_ONES: u32 := 0xffff_ffff

  /** One round of the inner loop: shift right, and add the polynomial when a 1 falls out. */
  function BitStep(c: nat): (r: nat)
  {
    Xor(c / 2, if c % 2 == 1 then POLYNOMIAL else 0)
  }

  function BitSteps(c: nat, n: nat): (r: nat)
  {
    if n == 0 then c else BitStep(BitSteps(c, n - 1))
  }

  function ByteStep(c: nat, b: u8): (r: nat) { BitSteps(Xor(c, b), 8) }

  /** The register after the whole message has been absorbed. */
  function Fold(c: nat, data: seq<u8>): (r: nat)
  {
    if data == [] then c else ByteStep(Fold(c, data[..|data| - 1]), data[|data| - 1])
  }

  function Crc(data: seq<u8>): (r: u32)
  {
    FoldIsWord(ALL_ONES, data);
    ALL_ONES - Fold(ALL_ONES, data)
  }

  // ----- the loops of the source -----

  method AbsorbByte(crc: u32, b: u8) returns (r: u32)
    ensures r == ByteStep(crc, b)
  {
    XorIsWord(crc, b);
    r := Xor(crc, b);
    for i := 0 to 8
      invariant r == BitSteps(Xor(crc, b), i)
    {
      r := ShiftRound(r);
    }
  }

  /** One masked shift round. */
  method ShiftRound(crc: u32) returns (r: u32)
    ensures r == BitStep(crc)
  {
    var mask: u32 := Wrap32(-(crc % 2));
    MaskedPolynomial(crc);
    BitStepIsWord(crc);
    r := Xor(crc / 2, And(POLYNOMIAL, mask));
  }

  lemma MaskedPolynomial(r: u32)
    ensures And(POLYNOMIAL, Wrap32(-(r % 2))) == if r % 2 == 1 then POLYNOMIAL else 0
  {
    MaskedWord(POLYNOMIAL, r);
  }

  lemma {:induction false} FullMask(x: nat, k: nat)
    requires x < Pow2(k)
    ensures And(x, Pow2(k) - 1) == x
  {
    if k > 0 && x > 0 {
      FullMask(x / 2, k - 1);
      assert (2 * Pow2(k - 1) - 1) / 2 == Pow2(k - 1) - 1 && (2 * Pow2(k - 1) - 1) % 2 == 1;
    }
  }

  lemma MaskedWord(x: u32, r: u32)
    ensures And(x, Wrap32(-(r % 2))) == if r % 2 == 1 then x else 0
  {
    assert Wrap32(-(r % 2)) == if r % 2 == 1 then TWO_32 - 1 else 0;
    assert Pow2(32) == TWO_32 by {
      Pow2Values();
    }
    FullMask(x, 32);
    AndZero(x);
  }

  /** crc32_bytes and josh_fw_crc32. */
  method ComputeCrc(data: seq<u8>) returns (r: u32)
    ensures r == Crc(data)
  {
    var crc: u32 := ALL_ONES;
    for i := 0 to |data|
      invariant crc == Fold(ALL_ONES, data[..i])
    {
      assert data[..i + 1][..i] == data[..i];
      crc := AbsorbByte(crc, data[i]);
    }
    assert data[..|data|] == data;
    r := ALL_ONES - crc;
  }

  /** crc32_update: resumes from a finished checksum. */
  method UpdateCrc(crc: u32, data: seq<u8>) returns (r: u32)
    ensures r == ALL_ONES - Fold(ALL_ONES - crc, data)
  {
    r := ALL_ONES - crc;
    for i := 0 to |data|
      invariant r == Fold(ALL_ONES - crc, data[..i])
    {
      assert data[..i + 1][..i] == data[..i];
      r := AbsorbByte(r, data[i]);
    }
    assert data[..|data|] == data;
    r := ALL_ONES - r;
  }

  // ----- the register stays a 32-bit word -----

  lemma XorIsWord(a: u32, b: u32)
    ensures Xor(a, b) < TWO_32
  {
    Pow2Values();
    XorBound(a, b, 32);
  }

  lemma BitStepIsWord(c: u32)
    ensures BitStep(c) < TWO_32
  {
    XorIsWord(c / 2, if c % 2 == 1 then POLYNOMIAL else 0);
  }

  lemma {:induction false} BitStepsIsWord(c: u32, n: nat)
    ensures BitSteps(c, n) < TWO_32
  {
    if n > 0 {
      BitStepsIsWord(c, n - 1);
      BitStepIsWord(BitSteps(c, n - 1));
    }
  }

  lemma {:induction false} FoldIsWord(c: u32, data: seq<u8>)
    ensures Fold(c, data) < TWO_32
  {
    if data != [] {
      var n := |data| - 1;
      FoldIsWord(c, data[..n]);
      XorIsWord(Fold(c, data[..n]), data[n]);
      BitStepsIsWord(Xor(Fold(c, data[..n]), data[n]), 8);
    }
  }

  // ----- algebra of the register -----

  lemma XorSwap(a: nat, b: nat, c: nat, d: nat)
    ensures Xor(Xor(a, b), Xor(c, d)) == Xor(Xor(a, c), Xor(b, d))
  {
    XorAssoc(a, b, Xor(c, d));
    XorAssoc(b, c, d);
    XorComm(b, c);
    XorAssoc(c, b, d);
    XorAssoc(a, c, Xor(b, d));
  }

  lemma BitStepLinear(x: nat, y: nat)
    ensures BitStep(Xor(x, y)) == Xor(BitStep(x), BitStep(y))
  {
    var p := if x % 2 == 1 then POLYNOMIAL else 0;
    var q := if y % 2 == 1 then POLYNOMIAL else 0;
    XorHalf(x, y);
    XorSwap(x / 2, p, y / 2, q);
    XorSelf(POLYNOMIAL);
    XorZero(POLYNOMIAL);
    XorZero(0);
  }

  lemma BitStepInjective(x: u32, y: u32)
    requires BitStep(x) == BitStep(y)
    ensures x == y
  {
    Pow2Values();
    XorZero(x / 2);
    XorZero(y / 2);
    if x % 2 == y % 2 {
      XorCancel(x / 2, y / 2, if x % 2 == 1 then POLYNOMIAL else 0);
    } else if x % 2 == 1 {
      XorTop(x / 2, POLYNOMIAL, 31);
      assert false;
    } else {
      XorTop(y / 2, POLYNOMIAL, 31);
      assert false;
    }
  }

  lemma {:induction false} BitStepsLinear(x: nat, y: nat, n: nat)
    ensures BitSteps(Xor(x, y), n) == Xor(BitSteps(x, n), BitSteps(y, n))
  {
    if n > 0 {
      BitStepsLinear(x, y, n - 1);
      BitStepLinear(BitSteps(x, n - 1), BitSteps(y, n - 1));
    }
  }

  lemma {:induction false} BitStepsInjective(x: u32, y: u32, n: nat)
    requires BitSteps(x, n) == BitSteps(y, n)
    ensures x == y
  {
    if n > 0 {
      BitStepsIsWord(x, n - 1);
      BitStepsIsWord(y, n - 1);
      BitStepInjective(BitSteps(x, n - 1), BitSteps(y, n - 1));
      BitStepsInjective(x, y, n - 1);
    }
  }

  lemma {:induction false} BitStepsAdd(x: nat, m: nat, n: nat)
    ensures BitSteps(BitSteps(x, m), n) == BitSteps(x, m + n)
  {
    if n > 0 {
      BitStepsAdd(x, m, n - 1);
    }
  }

  lemma DescendOne(h: nat, n: nat)
    ensures BitSteps(2 * h, n + 1) == BitSteps(h, n)
  {
    BitStepsAdd(2 * h, 1, n);
    assert BitSteps(2 * h, 1) == BitStep(BitSteps(2 * h, 0));
    XorZero(h);
  }

  /** Bits parked n places up come down n places in n rounds, undisturbed. */
  lemma {:induction false} Descend(z: nat, n: nat)
    ensures BitSteps(Pow2(n) * z, n) == z
  {
    if n > 0 {
      MulAssoc(2, Pow2(n - 1), z);
      DescendOne(Pow2(n - 1) * z, n - 1);
      Descend(z, n - 1);
    }
  }

  // ----- RFC 1952: the table-driven form -----

  /** Entry n of the table that section 8 of RFC 1952 builds. */
  function TableEntry(n: nat): (r: nat) { BitSteps(n, 8) }

  /** The byte-at-a-time update of section 8 of RFC 1952. */
  function TableStep(c: nat, b: u8): (r: nat)
  {
    Xor(TableEntry(Xor(c, b) % 0x100), c / 0x100)
  }

  function TableFold(c: nat, data: seq<u8>): (r: nat)
    decreases data
  {
    if data == [] then c else TableFold(TableStep(c, data[0]), data[1..])
  }

  lemma HighPart(low: nat, high: nat, e: nat, z: nat)
    requires low < Pow2(e) && z == Pow2(e) * high
    ensures BitSteps(z, e) == high && Xor(low, z) == low + z
  {
    Descend(high, e);
    XorDisjoint(low, high, e);
  }

  /** Rounds on the low bits, with the high bits shifted down. */
  lemma LowRounds(low: nat, high: nat, e: nat, z: nat)
    requires BitSteps(z, e) == high && Xor(low, z) == low + z
    ensures BitSteps(low + z, e) == Xor(BitSteps(low, e), high)
  {
    RoundsOfXor(low, z, e, high);
  }

  lemma RoundsOfXor(x: nat, y: nat, e: nat, h: nat)
    requires BitSteps(y, e) == h
    ensures BitSteps(Xor(x, y), e) == Xor(BitSteps(x, e), h)
  {
    BitStepsLinear(x, y, e);
  }

  lemma LowPart(low: nat, high: nat, e: nat, z: nat)
    requires low < Pow2(e) && z == Pow2(e) * high
    ensures BitSteps(low + z, e) == Xor(BitSteps(low, e), high)
  {
    HighPart(low, high, e, z);
    LowRounds(low, high, e, z);
  }

  lemma ByteStepIsTableStep(c: nat, b: u8)
    ensures ByteStep(c, b) == TableStep(c, b)
  {
    var x := Xor(c, b);
    HighBytes(c, b);
    ByteValues();
    LowPart(x % 0x100, x / 0x100, 8, 0x100 * (x / 0x100));
  }

  lemma HighBytes(c: nat, b: u8)
    ensures Xor(c, b) / 0x100 == c / 0x100
  {
    ByteValues();
    XorAbove(c, b, 8);
  }

  lemma ByteValues()
    ensures Pow2(8) == 0x100 && Pow2(16) == 0x1_0000 && Pow2(24) == 0x100_0000
  {
    Pow2Values();
    Pow2Add(8, 8);
    Pow2Add(16, 8);
  }

  /** The bit-at-a-time loops compute the CRC of RFC 1952, section 8. */
  lemma {:induction false} MatchesRfc1952(c: nat, data: seq<u8>)
    ensures Fold(c, data) == TableFold(c, data)
    decreases data
  {
    if data != [] {
      FoldConcat(c, data[..1], data[1..]);
      assert data[..1] + data[1..] == data;
      FoldOne(c, data[0]);
      assert data[..1] == [data[0]];
      ByteStepIsTableStep(c, data[0]);
      MatchesRfc1952(TableStep(c, data[0]), data[1..]);
    }
  }

  // ----- folding over concatenations -----

  lemma FoldOne(c: nat, b: u8)
    ensures Fold(c, [b]) == ByteStep(c, b)
  {
    assert [b][..0] == [];
  }

  lemma {:induction false} FoldConcat(c: nat, a: seq<u8>, b: seq<u8>)
    ensures Fold(c, a + b) == Fold(Fold(c, a), b)
  {
    if b == [] {
      assert a + b == a;
    } else {
      var n := |b| - 1;
      assert (a + b)[..|a + b| - 1] == a + b[..n];
      FoldConcat(c, a, b[..n]);
    }
  }

  /** Resuming crc32_update from a finished checksum continues the one-shot checksum. */
  lemma ResumedChecksum(a: seq<u8>, b: seq<u8>)
    ensures ALL_ONES - Fold(ALL_ONES - Crc(a), b) == Crc(a + b)
  {
    FoldConcat(ALL_ONES, a, b);
    FoldIsWord(ALL_ONES, a);
  }

  // ----- burst detection -----

  lemma {:induction false} SuffixKeepsDifference(c: u32, d: u32, s: seq<u8>)
    requires c != d
    ensures Fold(c, s) != Fold(d, s)
  {
    if s != [] {
      var n := |s| - 1;
      SuffixKeepsDifference(c, d, s[..n]);
      FoldIsWord(c, s[..n]);
      FoldIsWord(d, s[..n]);
      ByteStepInjective(Fold(c, s[..n]), Fold(d, s[..n]), s[n]);
    }
  }

  lemma ByteStepInjective(x: u32, y: u32, b: u8)
    requires x != y
    ensures ByteStep(x, b) != ByteStep(y, b)
  {
    XorIsWord(x, b);
    XorIsWord(y, b);
    if ByteStep(x, b) == ByteStep(y, b) {
      BitStepsInjective(Xor(x, b), Xor(y, b), 8);
      XorCancel(x, y, b);
    }
  }

  lemma AbsorbAt(y: nat, b: nat, n: nat, e: nat, z: nat)
    requires BitSteps(z, n) == b
    ensures BitSteps(Xor(BitSteps(y, n), b), e) == BitSteps(Xor(y, z), n + e)
  {
    RoundsOfXor(y, z, n, b);
    BitStepsAdd(Xor(y, z), n, e);
  }

  lemma AbsorbShifted(y: nat, b: nat, n: nat, e: nat)
    ensures BitSteps(Xor(BitSteps(y, n), b), e) == BitSteps(Xor(y, Pow2(n) * b), n + e)
  {
    Descend(b, n);
    AbsorbAt(y, b, n, e, Pow2(n) * b);
  }

  /** Absorbing a byte after n rounds is the same as having it wait n places higher up. */
  lemma AbsorbLater(y: nat, b: u8, n: nat)
    ensures ByteStep(BitSteps(y, n), b) == BitSteps(Xor(y, Pow2(n) * b), n + 8)
  {
    AbsorbShifted(y, b, n, 8);
  }

  lemma XorAdds(x: nat, y: nat, k: nat, p: nat)
    requires p == Pow2(k) && x < p
    ensures Xor(x, p * y) == x + p * y
  {
    XorDisjoint(x, y, k);
  }

  lemma WindowSum(w: seq<u8>)
    requires |w| == 4
    ensures Xor(Xor(Xor(w[0], 0x100 * w[1] as int), 0x1_0000 * w[2] as int), 0x100_0000 * w[3] as int) == Le32(w, 0)
  {
    ByteValues();
    XorAdds(w[0], w[1], 8, 0x100);
    XorAdds(w[0] as int + 0x100 * w[1] as int, w[2], 16, 0x1_0000);
    XorAdds(w[0] as int + 0x100 * w[1] as int + 0x1_0000 * w[2] as int, w[3], 24, 0x100_0000);
  }

  /** Absorbing four bytes is 32 rounds on the register with their word added to it. */
  lemma FoldWindow(c: nat, w: seq<u8>)
    requires |w| == 4
    ensures Fold(c, w) == BitSteps(Xor(c, Le32(w, 0)), 32)
  {
    var s1: nat, s2: nat, s3: nat := 0x100 * w[1] as int, 0x1_0000 * w[2] as int, 0x100_0000 * w[3] as int;
    var y0 := Xor(c, w[0]);
    var y1 := Xor(y0, s1);
    var y2 := Xor(y1, s2);
    Pow2Values();
    Pow2Add(8, 8);
    Pow2Add(16, 8);
    FoldFour(c, w);
    AbsorbLater(y0, w[1], 8);
    AbsorbLater(y1, w[2], 16);
    AbsorbLater(y2, w[3], 24);
    XorAssoc(c, w[0], s1);
    XorAssoc(c, Xor(w[0], s1), s2);
    XorAssoc(c, Xor(Xor(w[0], s1), s2), s3);
    WindowSum(w);
  }

  lemma FoldFour(c: nat, w: seq<u8>)
    requires |w| == 4
    ensures Fold(c, w) == ByteStep(ByteStep(ByteStep(ByteStep(c, w[0]), w[1]), w[2]), w[3])
  {
    assert w[..3][..2] == w[..2] && w[..2][..1] == w[..1] && w[..1][..0] == [];
    assert Fold(c, w[..1]) == ByteStep(c, w[0]);
    assert Fold(c, w[..2]) == ByteStep(Fold(c, w[..1]), w[1]);
    assert Fold(c, w[..3]) == ByteStep(Fold(c, w[..2]), w[2]);
  }

  lemma DigitsInjective(a0: int, a: int, b0: int, b: int)
    requires 0 <= a0 < 0x100 && 0 <= b0 < 0x100 && a0 + 0x100 * a == b0 + 0x100 * b
    ensures a0 == b0 && a == b
  {
  }

  lemma Le32Injective(a: seq<u8>, b: seq<u8>)
    requires |a| == |b| == 4 && Le32(a, 0) == Le32(b, 0)
    ensures a == b
  {
    var a1: int, a2: int, a3: int := a[1], a[2], a[3];
    var b1: int, b2: int, b3: int := b[1], b[2], b[3];
    DigitsInjective(a[0], a1 + 0x100 * (a2 + 0x100 * a3), b[0], b1 + 0x100 * (b2 + 0x100 * b3));
    DigitsInjective(a1, a2 + 0x100 * a3, b1, b2 + 0x100 * b3);
    DigitsInjective(a2, a3, b2, b3);
  }

  lemma {:induction false} WindowKeepsDifference(c: u32, a: seq<u8>, b: seq<u8>)
    requires |a| == |b| <= 4 && a != b
    ensures Fold(c, a) != Fold(c, b)
    decreases 4 - |a|
  {
    if |a| == 4 {
      FoldWindow(c, a);
      FoldWindow(c, b);
      if Fold(c, a) == Fold(c, b) {
        XorIsWord(c, Le32(a, 0));
        XorIsWord(c, Le32(b, 0));
        BitStepsInjective(Xor(c, Le32(a, 0)), Xor(c, Le32(b, 0)), 32);
        XorComm(c, Le32(a, 0));
        XorComm(c, Le32(b, 0));
        XorCancel(Le32(a, 0), Le32(b, 0), c);
        Le32Injective(a, b);
      }
    } else {
      var a', b' := a + [0], b + [0];
      assert a'[..|a|] == a && b'[..|b|] == b;
      WindowKeepsDifference(c, a', b');
    }
  }

  lemma FoldThree(c: nat, p: seq<u8>, w: seq<u8>, s: seq<u8>)
    ensures Fold(c, p + w + s) == Fold(Fold(Fold(c, p), w), s)
  {
    FoldConcat(c, p + w, s);
    FoldConcat(c, p, w);
  }

  /** Two messages that differ only inside one window of four consecutive bytes have
      different checksums, whatever their length and wherever the window lies. */
  lemma BurstDetected(a: seq<u8>, b: seq<u8>, at: nat)
    requires |a| == |b| && a != b
    requires forall i :: 0 <= i < |a| && !(at <= i < at + 4) ==> a[i] == b[i]
    ensures Crc(a) != Crc(b)
  {
    var n := |a|;
    var lo := if at < n then at else n;
    var hi := if at + 4 < n then at + 4 else n;
    var p, v, w, s := a[..lo], a[lo..hi], b[lo..hi], a[hi..];
    assert p == b[..lo] && s == b[hi..];
    assert a == p + v + s && b == p + w + s;
    FoldThree(ALL_ONES, p, v, s);
    FoldThree(ALL_ONES, p, w, s);
    FoldIsWord(ALL_ONES, p);
    var c := Fold(ALL_ONES, p);
    WindowKeepsDifference(c, v, w);
    FoldIsWord(c, v);
    FoldIsWord(c, w);
    SuffixKeepsDifference(Fold(c, v), Fold(c, w), s);
  }

  /** Appending its own checksum, low byte first, leaves every message with one and the
      same register: the residue by which a sealed message can be recognised. */
  lemma ResidueIsConstant(a: seq<u8>, b: seq<u8>)
    ensures Fold(ALL_ONES, a + Put32(Crc(a))) == Fold(ALL_ONES, b + Put32(Crc(b)))
  {
    SealedRegister(a);
    SealedRegister(b);
  }

  /** Absorbing the complement of the register leaves a constant. */
  lemma ComplementAbsorbed(c: u32, tail: seq<u8>)
    requires |tail| == 4 && Le32(tail, 0) == ALL_ONES - c
    ensures Fold(c, tail) == BitSteps(Pow2(32) - 1, 32)
  {
    FoldWindow(c, tail);
    ComplementWord(c);
  }

  lemma SealedRegister(data: seq<u8>)
    ensures Fold(ALL_ONES, data + Put32(Crc(data))) == BitSteps(Pow2(32) - 1, 32)
  {
    var tail := Put32(Crc(data));
    FoldConcat(ALL_ONES, data, tail);
    FoldIsWord(ALL_ONES, data);
    assert tail[0..4] == tail;
    Le32Put32(tail, 0, Crc(data));
    ComplementAbsorbed(Fold(ALL_ONES, data), tail);
  }

  lemma ComplementWord(c: u32)
    ensures Xor(c, ALL_ONES - c) == Pow2(32) - 1
  {
    Pow2Values();
    XorComplement(c, 32);
  }

  lemma {:induction false} XorComplement(x: nat, k: nat)
    requires x < Pow2(k)
    ensures Xor(x, Pow2(k) - 1 - x) == Pow2(k) - 1
  {
    if k > 0 && x > 0 {
      XorComplement(x / 2, k - 1);
      assert (Pow2(k) - 1 - x) / 2 == Pow2(k - 1) - 1 - x / 2;
    }
  }
}
