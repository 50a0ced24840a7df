/** Machine integers and their byte encodings, as `to_be_bytes`, `to_le_bytes` and the
    `get_*` readers of the `bytes` crate define them. */
module Bytes {

  type byte = b: int | 0 <= b < 0x100
  type i16 = x: int | -0x8000 <= x < 0x8000
  type u16 = x: int | 0 <= x < 0x1_0000
  type i32 = x: int | -0x8000_0000 <= x < 0x8000_0000
  type u32 = x: int | 0 <= x < 0x1_0000_0000

  /** Two's complement reinterpretation, `x as i16` and `x as u16`. */
  function AsI16(x: u16): i16 { if x < 0x8000 then x else x - 0x1_0000 }
  function AsU16(x: i16): u16 { if x < 0 then x + 0x1_0000 else x }
  function AsI32(x: u32): i32 { if x < 0x8000_0000 then x else x - 0x1_0000_0000 }
  function AsU32(x: i32): u32 { if x < 0 then x + 0x1_0000_0000 else x }

  function U16Be(x: u16): (s: seq<byte>)
    ensures |s| == 2
  {
    [x / 0x100, x % 0x100]
  }

  function U32Be(x: u32): (s: seq<byte>)
    ensures |s| == 4
  {
    U16Be(x / 0x1_0000) + U16Be(x % 0x1_0000)
  }

  function ReadU16Be(s: seq<byte>): u16
    requires |s| >= 2
  {
    var hi: int := s[0];
    hi * 0x100 + s[1]
  }

  function ReadU32Be(s: seq<byte>): u32
    requires |s| >= 4
  {
    ReadU16Be(s) * 0x1_0000 + ReadU16Be(s[2..])
  }

  function U16Le(x: u16): seq<byte> { [x % 0x100, x / 0x100] }
  function U32Le(x: u32): seq<byte> { U16Le(x % 0x1_0000) + U16Le(x / 0x1_0000) }

  /** Reinterpreting keeps a number modulo two to its width. */
  lemma TwosComplement(x: i16, y: u16, z: i32, w: u32)
    ensures (AsU16(x) - x) % 0x1_0000 == 0 && (AsI16(y) - y) % 0x1_0000 == 0
    ensures (AsU32(z) - z) % 0x1_0000_0000 == 0 && (AsI32(w) - w) % 0x1_0000_0000 == 0
  {
  }

  /** Most significant byte first, or last. */
  lemma ByteOrder16(x: u16)
    ensures U16Be(x) == [x / 0x100, x % 0x100] && U16Le(x) == [x % 0x100, x / 0x100]
    ensures U16Be(x)[0] as int * 0x100 + U16Be(x)[1] == U16Le(x)[1] as int * 0x100 + U16Le(x)[0] == x
  {
  }

  lemma ByteOrder32(x: u32)
    ensures |U32Be(x)| == |U32Le(x)| == 4
    ensures forall i :: 0 <= i < 4 ==> U32Be(x)[i] == U32Le(x)[3 - i]
    ensures U32Be(x)[0] as int * 0x100_0000 + U32Be(x)[1] as int * 0x1_0000 + U32Be(x)[2] as int * 0x100 + U32Be(x)[3]
         == x
  {
    var hi, lo := x / 0x1_0000, x % 0x1_0000;
    ByteOrder16(hi);
    ByteOrder16(lo);
    assert U32Be(x) == [U16Be(hi)[0], U16Be(hi)[1], U16Be(lo)[0], U16Be(lo)[1]];
    assert U32Le(x) == [U16Le(lo)[0], U16Le(lo)[1], U16Le(hi)[0], U16Le(hi)[1]];
  }

  lemma ReadOrder(s: seq<byte>)
    ensures |s| >= 2 ==> ReadU16Be(s) == s[0] as int * 0x100 + s[1]
    ensures |s| >= 4 ==>
              ReadU32Be(s) == s[0] as int * 0x100_0000 + s[1] as int * 0x1_0000 + s[2] as int * 0x100 + s[3]
  {
  }

  /** The reader of a 16-bit word undoes the writer, whatever follows the word. */
  lemma ReadU16(x: u16, rest: seq<byte>)
    ensures ReadU16Be(U16Be(x) + rest) == x
    ensures (U16Be(x) + rest)[2..] == rest
  {
  }

  /** The reader of a 32-bit word undoes the writer, whatever follows the word. */
  lemma ReadU32(x: u32, rest: seq<byte>)
    ensures ReadU32Be(U32Be(x) + rest) == x
    ensures (U32Be(x) + rest)[4..] == rest
  {
    var hi, lo := U16Be(x / 0x1_0000), U16Be(x % 0x1_0000);
    assert U32Be(x) + rest == hi + (lo + rest);
    ReadU16(x / 0x1_0000, lo + rest);
    ReadU16(x % 0x1_0000, rest);
    assert (U32Be(x) + rest)[4..] == (lo + rest)[2..];
  }

  /** Writing a word back over the four bytes reserved for it. */
  lemma Backfill(before: seq<byte>, word: seq<byte>, body: seq<byte>)
    requires |word| == 4
    ensures var b := before + [0, 0, 0, 0] + body;
            b[..|before|] + word + b[|before| + 4..] == before + (word + body)
  {
  }

  /** Little-endian value of a byte string of any length, `get_uint_le`. */
  function ReadUintLe(s: seq<byte>): nat {
    if s == [] then 0 else s[0] + 0x100 * ReadUintLe(s[1..])
  }

  lemma ReadPair(lo: byte, hi: byte, rest: seq<byte>)
    ensures ReadUintLe([lo, hi] + rest) == lo + 0x100 * hi + 0x1_0000 * ReadUintLe(rest)
  {
    var s := [lo, hi] + rest;
    assert s[1..] == [hi] + rest && s[1..][1..] == rest;
  }

  lemma ReadU16Le(x: u16, rest: seq<byte>)
    ensures ReadUintLe(U16Le(x) + rest) == x + 0x1_0000 * ReadUintLe(rest)
  {
    hide ReadUintLe;
    ReadPair(x % 0x100, x / 0x100, rest);
  }

  /** The reader of a little-endian number undoes the writer of a 32-bit word. */
  lemma ReadU32Le(x: u32)
    ensures ReadUintLe(U32Le(x)) == x
  {
    hide U16Le;
    var hi := U16Le(x / 0x1_0000);
    ReadU16Le(x % 0x1_0000, hi);
    ReadU16Le(x / 0x1_0000, []);
    assert hi + [] == hi;
  }

  lemma Assoc<T>(a: seq<T>, b: seq<T>, c: seq<T>)
    ensures (a + b) + c == a + (b + c)
  {
  }
}
