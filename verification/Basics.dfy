/** Shared vocabulary: results, options and the bytes every text in the project is made of. */
module Basics {

  datatype Option<+T> = None | Some(value: T)

  datatype Result<+T, +E> = Ok(value: T) | Err(error: E)

  type byte = b: int | 0 <= b < 256

  type bytes = seq<byte>

  /** The bytes of an ASCII string constant. */
  function Ascii(s: string): (b: bytes)
    requires forall i | 0 <= i < |s| :: s[i] < 128 as char
    ensures |b| == |s|
    ensures forall i | 0 <= i < |s| :: b[i] == s[i] as int
  {
    seq(|s|, i requires 0 <= i < |s| => s[i] as int)
  }

  const USIZE_MAX: nat := 0xFFFF_FFFF_FFFF_FFFF

  function BigEndian64(v: nat): (b: bytes)
    requires v <= USIZE_MAX
    ensures |b| == 8
  {
    [v / 0x100_0000_0000_0000, v / 0x1_0000_0000_0000 % 256, v / 0x100_0000_0000 % 256, v / 0x1_0000_0000 % 256,
     v / 0x100_0000 % 256, v / 0x1_0000 % 256, v / 0x100 % 256, v % 256]
  }

  /** The Unicode white space characters. */
  predicate IsWhitespace(c: char) {
    var v := c as int;
    || 9 <= v <= 13 || v == 0x20 || v == 0x85 || v == 0xA0 || v == 0x1680 || 0x2000 <= v <= 0x200A
    || v == 0x2028 || v == 0x2029 || v == 0x202F || v == 0x205F || v == 0x3000
  }

  predicate StartsWith(s: bytes, b: byte) {
    |s| > 0 && s[0] == b
  }

  predicate EndsWith(s: bytes, b: byte) {
    |s| > 0 && s[|s| - 1] == b
  }

  lemma SuffixSlice<T>(s: seq<T>, i: nat, a: nat, b: nat)
    requires i + a <= i + b <= |s|
    ensures s[i..][a..b] == s[i + a..i + b]
    ensures s[i..][a..] == s[i + a..]
  {
  }
}
