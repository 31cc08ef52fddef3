/** Machine words as subset types of int, the little-endian codec over byte
    sequences, and the result types shared by the other modules. */
module Words {

  type u8 = x: int | 0 <= x < 0x100
  type u16 = x: int | 0 <= x < 0x1_0000
  type u32 = x: int | 0 <= x < 0x1_0000_0000
  type u64 = x: int | 0 <= x < 0x1_0000_0000_0000_0000

  const TWO_32: int := 0x1_0000_0000
  const TWO_64: int := 0x1_0000_0000_0000_0000

  datatype Option<+T> = None | Some(value: T)
  datatype Result<+T, +E> = Ok(value: T) | Err(error: E)

  /** Unsigned 64-bit wrap-around. */
  function Wrap64(x: int): (r: u64) { x % TWO_64 }

  /** Unsigned 32-bit wrap-around. */
  function Wrap32(x: int): (r: u32) { x % TWO_32 }

  lemma WrapSmall(x: int)
    ensures 0 <= x < TWO_32 ==> Wrap32(x) == x
  {
  }

  lemma WrapSmall64(x: int)
    ensures 0 <= x < TWO_64 ==> Wrap64(x) == x
  {
  }

  /** Concatenation groups either way. */
  lemma Regroup<T>(a: seq<T>, b: seq<T>, c: seq<T>)
    ensures a + (b + c) == a + b + c
  {
  }

  lemma SliceOfPrefix<T>(s: seq<T>, n: nat, from: nat, to: nat)
    requires from <= to <= n <= |s|
    ensures s[..n][from..to] == s[from..to]
  {
  }

  function Le16(s: seq<u8>, at: nat): (r: u16)
    requires at + 2 <= |s|
  {
    var b0: int, b1: int := s[at], s[at + 1];
    b0 + 0x100 * b1
  }

  function Le32(s: seq<u8>, at: nat): (r: u32)
    requires at + 4 <= |s|
  {
    var b0: int, b1: int, b2: int, b3: int := s[at], s[at + 1], s[at + 2], s[at + 3];
    b0 + 0x100 * b1 + 0x1_0000 * b2 + 0x100_0000 * b3
  }

  function Le64(s: seq<u8>, at: nat): (r: u64)
    requires at + 8 <= |s|
  {
    var low: int, high: int := Le32(s, at), Le32(s, at + 4);
    low + TWO_32 * high
  }

  function Put32(x: u32): (s: seq<u8>)
    ensures |s| == 4
  {
    [x % 0x100, x / 0x100 % 0x100, x / 0x1_0000 % 0x100, x / 0x100_0000]
  }

  /** Reading back an encoded word anywhere in a byte sequence yields the word. */
  lemma Le32Put32(s: seq<u8>, at: nat, x: u32)
    requires at + 4 <= |s| && s[at..at + 4] == Put32(x)
    ensures Le32(s, at) == x
  {
    assert s[at] == s[at..at + 4][0] && s[at + 1] == s[at..at + 4][1];
    assert s[at + 2] == s[at..at + 4][2] && s[at + 3] == s[at..at + 4][3];
    FourDigits(x);
  }

  function Put16(x: u16): (s: seq<u8>)
    ensures |s| == 2
  {
    [x % 0x100, x / 0x100]
  }

  function Put64(x: u64): (s: seq<u8>)
    ensures |s| == 8
  {
    Put32(x % TWO_32) + Put32(x / TWO_32)
  }

  lemma ByteOff(x: nat)
    ensures x == x % 0x100 + 0x100 * (x / 0x100) && x / 0x1_0000 == x / 0x100 / 0x100
    ensures x / 0x100_0000 == x / 0x1_0000 / 0x100
  {
  }

  lemma FourDigits(x: nat)
    ensures x == x % 0x100 + 0x100 * (x / 0x100 % 0x100) + 0x1_0000 * (x / 0x1_0000 % 0x100) + 0x100_0000 * (x / 0x100_0000)
  {
    ByteOff(x);
    ByteOff(x / 0x100);
    ByteOff(x / 0x1_0000);
  }
}
