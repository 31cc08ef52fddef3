/** Records written field by field: reading a field of a byte string that was put together
    in order. The builders of the on-disk formats are concatenations of their fields in the
    order and width the standards give, so that every offset follows from the fields before. */
module Layouts {
  import opened Words

  /** What a string starts with, it also starts with one field less. */
  lemma Before(q: seq<u8>, field: seq<u8>, s: seq<u8>)
    requires q + field <= s
    ensures q <= s
  {
  }

  lemma FieldAt(s: seq<u8>, q: seq<u8>, field: seq<u8>)
    requires q + field <= s
    ensures q <= s && s[|q|..|q| + |field|] == field
  {
    assert s[|q|..|q| + |field|] == (q + field)[|q|..|q| + |field|];
  }

  lemma ByteAt(s: seq<u8>, q: seq<u8>, x: u8)
    requires q + [x] <= s
    ensures q <= s && |q| < |s| && s[|q|] == x
  {
    assert s[|q|] == (q + [x])[|q|];
  }

  lemma Word16At(s: seq<u8>, q: seq<u8>, x: u16)
    requires q + Put16(x) <= s
    ensures q <= s && |q| + 2 <= |s| && Le16(s, |q|) == x
  {
    var p := q + Put16(x);
    assert s[|q|] == p[|q|] && s[|q| + 1] == p[|q| + 1];
  }

  lemma Word32At(s: seq<u8>, q: seq<u8>, x: u32)
    requires q + Put32(x) <= s
    ensures q <= s && |q| + 4 <= |s| && Le32(s, |q|) == x
  {
    FieldAt(s, q, Put32(x));
    Le32Put32(s, |q|, x);
  }

  lemma Word64At(s: seq<u8>, q: seq<u8>, x: u64)
    requires q + Put64(x) <= s
    ensures q <= s && |q| + 8 <= |s| && Le64(s, |q|) == x
  {
    var low, high := Put32(x % TWO_32), Put32(x / TWO_32);
    assert q + Put64(x) == q + low + high;
    Word32At(s, q + low, x / TWO_32);
    Word32At(s, q, x % TWO_32);
  }
}
