/**
  The text form of sixteen bytes: base 32 as in section 6 of RFC 4648, in lower case and without
  padding. The encoder works byte by byte with shifts and masks; what it writes is the bit string
  of the bytes, filled up with two zeros, in groups of five.
 */
module Base32 {
  import opened Basics
  import opened Bits
  import opened BitGroups

  const ID_SIZE := 16
  const TEXT_LEN := 26
  const ALPHABET: string := "abcdefghijklmnopqrstuvwxyz234567"

  /** The symbol of a value: the alphabet at that index. */
  function Symbol(index: nat): (c: byte)
    requires index < 32
    ensures |ALPHABET| == 32 && c == ALPHABET[index] as int
  {
    if index < 26 then 'a' as int + index else '2' as int + (index - 26)
  }

  function SymbolValue(c: byte): (r: Option<nat>)
    ensures r.Some? ==> r.value < 32
  {
    if 'a' as int <= c <= 'z' as int then Some(c - 'a' as int)
    else if 'A' as int <= c <= 'Z' as int then Some(c - 'A' as int)
    else if '2' as int <= c <= '7' as int then Some(c - '2' as int + 26)
    else None
  }

  function LowerByte(c: byte): byte {
    if 'A' as int <= c <= 'Z' as int then c + 32 else c
  }

  function Lowered(text: bytes): bytes {
    seq(|text|, i requires 0 <= i < |text| => LowerByte(text[i]))
  }

  lemma SymbolRoundTrip(c: byte, index: nat)
    requires index < 32
    ensures SymbolValue(c) == Some(index) <==> LowerByte(c) == Symbol(index)
  {
  }

  function Symbols(values: seq<nat>): (text: bytes)
    requires Fits(values, 5)
    ensures |text| == |values|
  {
    SmallPowers();
    seq(|values|, i requires 0 <= i < |values| => Symbol(values[i]))
  }

  /** The canonical text. */
  function Text(b: bytes): bytes {
    var bits := Spread(b, 8) + Zeros(2);
    GatherFits(bits, 5);
    Symbols(Gather(bits, 5))
  }

  // ----- the encoder -----

  function Shl8(a: nat, k: nat): nat {
    a * Pow2(k) % 256
  }

  /** The eight values of a five-byte chunk. */
  function ChunkValues(b: bytes): (values: seq<nat>)
    requires |b| == 5
    ensures |values| == 8
  {
    [Shr(b[0], 3),
     BitOr(Shl8(BitAnd(b[0], 0x07), 2), Shr(b[1], 6)),
     BitAnd(Shr(b[1], 1), 0x1F),
     BitOr(Shl8(BitAnd(b[1], 0x01), 4), Shr(b[2], 4)),
     BitOr(Shl8(BitAnd(b[2], 0x0F), 1), Shr(b[3], 7)),
     BitAnd(Shr(b[3], 2), 0x1F),
     BitOr(Shl8(BitAnd(b[3], 0x03), 3), Shr(b[4], 5)),
     BitAnd(b[4], 0x1F)]
  }

  lemma MaskByte(a: nat, k: nat)
    requires k <= 5
    ensures BitAnd(a, Pow2(k) - 1) == Low(a, k) && Low(a, k) < Pow2(k)
    ensures Pow2(0) == 1 && Pow2(1) == 2 && Pow2(2) == 4 && Pow2(3) == 8 && Pow2(4) == 16 && Pow2(5) == 32
  {
    AndMask(a, k);
    ShrLow(a, k);
  }

  /** A byte's bits, cut after `n`. */
  lemma CutByte(b: nat, n: nat, m: nat)
    requires b < 256 && n + m == 8
    ensures BitString(b, 8) == BitString(Shr(b, m), n) + BitString(Low(b, m), m)
    ensures Shr(b, m) < Pow2(n) && Low(b, m) < Pow2(m)
  {
    SmallPowers();
    StringSplit(b, n, m);
  }

  lemma {:induction false} LowOfShr(v: nat, n: nat, m: nat)
    ensures Shr(Low(v, n + m), m) == Low(Shr(v, m), n) && Low(Low(v, n + m), m) == Low(v, m)
    decreases m
  {
    if m > 0 {
      LowOfShr(v / 2, n, m - 1);
      assert Low(v, n + m) == 2 * Low(v / 2, n + m - 1) + v % 2;
    } else {
      LowOfLow(v, n);
    }
  }

  lemma LowOfLow(v: nat, n: nat)
    ensures Shr(Low(v, n), 0) == Low(v, n) && Low(Low(v, n), 0) == 0
  {
  }

  /** A byte's bits, cut twice. */
  lemma CutByteTwice(b: nat, n: nat, m: nat, k: nat)
    requires b < 256 && n + m + k == 8
    ensures BitString(b, 8) == BitString(Shr(b, m + k), n) + BitString(Low(Shr(b, k), m), m) + BitString(Low(b, k), k)
    ensures Shr(b, m + k) < Pow2(n) && Low(Shr(b, k), m) < Pow2(m) && Low(b, k) < Pow2(k)
  {
    hide Shr, Low, BitString, Pow2;
    CutByte(b, n, m + k);
    StringSplit(Low(b, m + k), m, k);
    LowOfShr(b, m, k);
    Associative(BitString(Shr(b, m + k), n), BitString(Low(Shr(b, k), m), m), BitString(Low(b, k), k));
  }

  /** The end of one byte and the start of the next, in one value. */
  lemma GlueValue(a: nat, n: nat, b: nat, m: nat)
    requires a < Pow2(n) && b < Pow2(m) && n + m == 5
    ensures var v := BitOr(Shl8(a, m), b);
            v < 32 && BitString(v, 5) == BitString(a, n) + BitString(b, m)
  {
    hide BitString, BitOr, Pow2, Shl8;
    SmallPowers();
    Pow2Add(n, m);
    Scale(a + 1, Pow2(n), Pow2(m));
    Distribute(a, Pow2(m));
    assert a * Pow2(m) + Pow2(m) <= 32;
    Shl8Fits(a, m);
    OrDisjoint(a, m, b);
    StringJoin(a, n, b, m);
  }

  lemma Shl8Fits(a: nat, k: nat)
    requires a * Pow2(k) < 256
    ensures Shl8(a, k) == a * Pow2(k)
  {
    hide Pow2;
  }

  /** The pieces of five bytes are the pieces of eight values. */
  lemma SamePieces<T>(p0: seq<T>, p1: seq<T>, p2: seq<T>, p3: seq<T>, p4: seq<T>, p5: seq<T>,
                      p6: seq<T>, p7: seq<T>, p8: seq<T>, p9: seq<T>, p10: seq<T>, p11: seq<T>)
    ensures (p0 + p1) + (p2 + p3 + p4) + (p5 + p6) + (p7 + p8 + p9) + (p10 + p11)
         == p0 + (p1 + p2) + p3 + (p4 + p5) + (p6 + p7) + p8 + (p9 + p10) + p11
  {
    var left := (p0 + p1) + (p2 + p3 + p4);
    assert left == p0 + (p1 + p2) + p3 + p4;
    var left2 := left + (p5 + p6);
    assert left2 == p0 + (p1 + p2) + p3 + (p4 + p5) + p6;
    var left3 := left2 + (p7 + p8 + p9);
    assert left3 == p0 + (p1 + p2) + p3 + (p4 + p5) + (p6 + p7) + p8 + p9;
  }

  function FiveStrings(b: seq<nat>, n: nat): seq<bool>
    requires |b| == 5
  {
    BitString(b[0], n) + BitString(b[1], n) + BitString(b[2], n) + BitString(b[3], n) + BitString(b[4], n)
  }

  function EightStrings(b: seq<nat>, n: nat): seq<bool>
    requires |b| == 8
  {
    BitString(b[0], n) + BitString(b[1], n) + BitString(b[2], n) + BitString(b[3], n) + BitString(b[4], n) +
    BitString(b[5], n) + BitString(b[6], n) + BitString(b[7], n)
  }

  lemma SpreadFive(b: seq<nat>, n: nat)
    requires |b| == 5
    ensures Spread(b, n) == FiveStrings(b, n)
  {
    hide BitString, Spread;
    SpreadTaken(b, 4, n);
    SpreadTaken(b, 3, n);
    SpreadTaken(b, 2, n);
    SpreadTaken(b, 1, n);
    SpreadTaken(b, 0, n);
    SpreadNothing(n);
    assert b[..5] == b && b[..0] == [] && [] + BitString(b[0], n) == BitString(b[0], n);
  }

  lemma SpreadEight(b: seq<nat>, n: nat)
    requires |b| == 8
    ensures Spread(b, n) == EightStrings(b, n)
  {
    hide BitString, Spread;
    SpreadTaken(b, 7, n);
    SpreadTaken(b, 6, n);
    SpreadTaken(b, 5, n);
    SpreadFive(b[..5], n);
    assert b[..8] == b;
  }

  lemma SpreadTaken(b: seq<nat>, i: nat, n: nat)
    requires i < |b|
    ensures Spread(b[..i + 1], n) == Spread(b[..i], n) + BitString(b[i], n)
  {
    SpreadAppend(b[..i], b[i], n);
    assert b[..i + 1] == b[..i] + [b[i]];
  }

  /** How the five bytes of a chunk are cut. */
  lemma ChunkBytes(b: bytes)
    requires |b| == 5
    ensures BitString(b[0], 8) == BitString(Shr(b[0], 3), 5) + BitString(Low(b[0], 3), 3)
    ensures BitString(b[1], 8) == BitString(Shr(b[1], 6), 2) + BitString(Low(Shr(b[1], 1), 5), 5) + BitString(Low(b[1], 1), 1)
    ensures BitString(b[2], 8) == BitString(Shr(b[2], 4), 4) + BitString(Low(b[2], 4), 4)
    ensures BitString(b[3], 8) == BitString(Shr(b[3], 7), 1) + BitString(Low(Shr(b[3], 2), 5), 5) + BitString(Low(b[3], 2), 2)
    ensures BitString(b[4], 8) == BitString(Shr(b[4], 5), 3) + BitString(Low(b[4], 5), 5)
  {
    hide BitString, Shr, Low, Pow2;
    CutByte(b[0], 5, 3);
    CutByteTwice(b[1], 2, 5, 1);
    CutByte(b[2], 4, 4);
    CutByteTwice(b[3], 1, 5, 2);
    CutByte(b[4], 3, 5);
  }

  /** How the eight values of a chunk are glued. */
  lemma ChunkGlue(b: bytes)
    requires |b| == 5
    ensures var v := ChunkValues(b);
            && v[0] == Shr(b[0], 3) < 32 && v[2] == Low(Shr(b[1], 1), 5) < 32
            && v[5] == Low(Shr(b[3], 2), 5) < 32 && v[7] == Low(b[4], 5) < 32
            && v[1] < 32 && BitString(v[1], 5) == BitString(Low(b[0], 3), 3) + BitString(Shr(b[1], 6), 2)
            && v[3] < 32 && BitString(v[3], 5) == BitString(Low(b[1], 1), 1) + BitString(Shr(b[2], 4), 4)
            && v[4] < 32 && BitString(v[4], 5) == BitString(Low(b[2], 4), 4) + BitString(Shr(b[3], 7), 1)
            && v[6] < 32 && BitString(v[6], 5) == BitString(Low(b[3], 2), 2) + BitString(Shr(b[4], 5), 3)
  {
    hide BitString, Shr, Low, BitAnd, BitOr, Shl8, Pow2;
    MaskByte(b[0], 3);
    MaskByte(Shr(b[1], 1), 5);
    MaskByte(b[1], 1);
    MaskByte(b[2], 4);
    MaskByte(Shr(b[3], 2), 5);
    MaskByte(b[3], 2);
    MaskByte(b[4], 5);
    CutByte(b[0], 5, 3);
    CutByte(b[1], 2, 6);
    CutByte(b[2], 4, 4);
    CutByte(b[3], 1, 7);
    CutByte(b[4], 3, 5);
    GlueValue(Low(b[0], 3), 3, Shr(b[1], 6), 2);
    GlueValue(Low(b[1], 1), 1, Shr(b[2], 4), 4);
    GlueValue(Low(b[2], 4), 4, Shr(b[3], 7), 1);
    GlueValue(Low(b[3], 2), 2, Shr(b[4], 5), 3);
  }

  /** The bits of five bytes are the bits of the eight values. */
  lemma ChunkRegroups(b: bytes)
    requires |b| == 5
    ensures FiveStrings(b, 8) == EightStrings(ChunkValues(b), 5)
  {
    ChunkBytes(b);
    ChunkGlue(b);
    hide BitString, Shr, Low, ChunkValues;
    SamePieces(BitString(Shr(b[0], 3), 5), BitString(Low(b[0], 3), 3),
               BitString(Shr(b[1], 6), 2), BitString(Low(Shr(b[1], 1), 5), 5), BitString(Low(b[1], 1), 1),
               BitString(Shr(b[2], 4), 4), BitString(Low(b[2], 4), 4),
               BitString(Shr(b[3], 7), 1), BitString(Low(Shr(b[3], 2), 5), 5), BitString(Low(b[3], 2), 2),
               BitString(Shr(b[4], 5), 3), BitString(Low(b[4], 5), 5));
  }

  /** A chunk's values carry exactly its bits. */
  lemma ChunkKeepsBits(b: bytes)
    requires |b| == 5
    ensures Fits(ChunkValues(b), 5) && Spread(ChunkValues(b), 5) == Spread(b, 8)
  {
    ChunkFits(b);
    hide *;
    ChunkRegroups(b);
    SpreadFive(b, 8);
    SpreadEight(ChunkValues(b), 5);
  }

  lemma ChunkFits(b: bytes)
    requires |b| == 5
    ensures Fits(ChunkValues(b), 5)
  {
    ChunkGlue(b);
    EightFit(ChunkValues(b));
  }

  lemma EightFit(v: seq<nat>)
    requires |v| == 8 && v[0] < 32 && v[1] < 32 && v[2] < 32 && v[3] < 32
    requires v[4] < 32 && v[5] < 32 && v[6] < 32 && v[7] < 32
    ensures Fits(v, 5)
  {
    SmallPowers();
    hide Pow2;
  }

  /** The eight symbols that stand for a chunk. */
  function ChunkSymbols(input: bytes): (symbols: bytes)
    requires |input| == 5
    ensures Fits(ChunkValues(input), 5) && symbols == Symbols(ChunkValues(input))
  {
    ChunkKeepsBits(input);
    SymbolsOfEight(ChunkValues(input));
    var v := ChunkValues(input);
    [Symbol(v[0]), Symbol(v[1]), Symbol(v[2]), Symbol(v[3]), Symbol(v[4]), Symbol(v[5]), Symbol(v[6]), Symbol(v[7])]
  }

  lemma SymbolsOfEight(v: seq<nat>)
    requires Fits(v, 5) && |v| == 8
    ensures forall k | 0 <= k < 8 :: v[k] < 32
    ensures Symbols(v) == [Symbol(v[0]), Symbol(v[1]), Symbol(v[2]), Symbol(v[3]),
                           Symbol(v[4]), Symbol(v[5]), Symbol(v[6]), Symbol(v[7])]
  {
    SmallPowers();
  }

  /** The values of the last byte alone. */
  function LastValues(b: byte): (values: seq<nat>)
    ensures |values| == 2
  {
    [Shr(b, 3), Shl8(BitAnd(b, 0x07), 2)]
  }

  lemma LastKeepsBits(b: byte)
    ensures Fits(LastValues(b), 5) && Spread(LastValues(b), 5) == BitString(b, 8) + Zeros(2)
  {
    hide BitString, Spread, Shr, Low, BitAnd, BitOr, Shl8;
    SmallPowers();
    MaskByte(b, 3);
    CutByte(b, 5, 3);
    GlueValue(Low(b, 3), 3, 0, 2);
    OrZero(Shl8(Low(b, 3), 2));
    ZerosAreZero(2);
    var values := LastValues(b);
    SpreadTaken(values, 1, 5);
    SpreadTaken(values, 0, 5);
    assert values[..2] == values && values[..0] == [];
    SpreadNothing(5);
    assert [] + BitString(values[0], 5) == BitString(values[0], 5);
    Associative(BitString(Shr(b, 3), 5), BitString(Low(b, 3), 3), Zeros(2));
  }

  lemma OrZero(a: nat)
    ensures BitOr(a, 0) == a
  {
  }

  lemma SpreadNothing(n: nat)
    ensures Spread([], n) == []
  {
  }

  /** Writes the symbols of one chunk. */
  method EncodeChunk(input: bytes, output: array<byte>, at: nat)
    requires |input| == 5 && at + 8 <= output.Length
    modifies output
    ensures Fits(ChunkValues(input), 5)
    ensures forall k | 0 <= k < 8 :: output[at + k] == Symbols(ChunkValues(input))[k]
    ensures forall k | 0 <= k < output.Length && !(at <= k < at + 8) :: output[k] == old(output[k])
  {
    var symbols := ChunkSymbols(input);
    forall k | 0 <= k < 8 {
      output[at + k] := symbols[k];
    }
  }

  lemma SymbolsConcat(a: seq<nat>, b: seq<nat>)
    requires Fits(a, 5) && Fits(b, 5)
    ensures Fits(a + b, 5) && Symbols(a + b) == Symbols(a) + Symbols(b)
  {
  }

  method EncodeBase32NoPaddingLower(b: bytes) returns (text: bytes)
    requires |b| == ID_SIZE
    ensures text == Text(b) && |text| == TEXT_LEN
  {
    hide Symbol, Symbols, Spread, Gather, ChunkValues, LastValues, Fits, Text;
    WholeText(b);
    SymbolsOfTwo(LastValues(b[15]));
    var output := new byte[TEXT_LEN];
    EncodeChunk(b[0..5], output, 0);
    EncodeChunk(b[5..10], output, 8);
    EncodeChunk(b[10..15], output, 16);
    output[24] := SymbolOf(LastValues(b[15]), 0);
    output[25] := SymbolOf(LastValues(b[15]), 1);
    text := output[..];
    FourParts(text, Symbols(ChunkValues(b[0..5])), Symbols(ChunkValues(b[5..10])),
              Symbols(ChunkValues(b[10..15])), Symbols(LastValues(b[15])));
  }

  lemma FourParts(text: bytes, a: bytes, b: bytes, c: bytes, last: bytes)
    requires |text| == TEXT_LEN && |a| == |b| == |c| == 8 && |last| == 2
    requires forall k | 0 <= k < 8 :: text[k] == a[k] && text[8 + k] == b[k] && text[16 + k] == c[k]
    requires text[24] == last[0] && text[25] == last[1]
    ensures text == a + b + c + last
  {
    forall i | 0 <= i < TEXT_LEN
      ensures text[i] == (a + b + c + last)[i]
    {
      if 8 <= i < 16 {
        assert text[8 + (i - 8)] == b[i - 8];
      } else if 16 <= i < 24 {
        assert text[16 + (i - 16)] == c[i - 16];
      }
    }
  }

  function SymbolOf(values: seq<nat>, i: nat): byte
    requires Fits(values, 5) && i < |values|
  {
    SmallPowers();
    Symbol(values[i])
  }

  lemma SymbolsOfTwo(values: seq<nat>)
    requires Fits(values, 5) && |values| == 2
    ensures Symbols(values) == [SymbolOf(values, 0), SymbolOf(values, 1)]
  {
  }

  /** The three chunks and the last byte make up the text. */
  lemma WholeText(b: bytes)
    requires |b| == ID_SIZE
    ensures Fits(ChunkValues(b[0..5]), 5) && Fits(ChunkValues(b[5..10]), 5)
    ensures Fits(ChunkValues(b[10..15]), 5) && Fits(LastValues(b[15]), 5)
    ensures Text(b) == Symbols(ChunkValues(b[0..5])) + Symbols(ChunkValues(b[5..10])) +
                       Symbols(ChunkValues(b[10..15])) + Symbols(LastValues(b[15]))
  {
    hide Symbol, Symbols, Spread, Gather, ChunkValues, LastValues, BitString;
    ChunkKeepsBits(b[0..5]);
    ChunkKeepsBits(b[5..10]);
    ChunkKeepsBits(b[10..15]);
    LastKeepsBits(b[15]);
    var c0, c1, c2, last := ChunkValues(b[0..5]), ChunkValues(b[5..10]), ChunkValues(b[10..15]), LastValues(b[15]);
    SpreadConcat(c0, c1, 5);
    SpreadConcat(c0 + c1, c2, 5);
    SpreadConcat(c0 + c1 + c2, last, 5);
    SpreadConcat(b[0..5], b[5..10], 8);
    SpreadConcat(b[0..5] + b[5..10], b[10..15], 8);
    assert b[0..5] + b[5..10] + b[10..15] == b[..15];
    SpreadTaken(b, 15, 8);
    assert b[..16] == b;
    Associative(Spread(b[..15], 8), BitString(b[15], 8), Zeros(2));
    var values := c0 + c1 + c2 + last;
    SymbolsConcat(c0, c1);
    SymbolsConcat(c0 + c1, c2);
    SymbolsConcat(c0 + c1 + c2, last);
    GatherSpread(values, 5);
  }

  // ----- the decoder -----

  /** All symbols' values, when all are symbols. */
  function Values(text: bytes): (r: Option<seq<nat>>)
    ensures r.Some? ==> |r.value| == |text|
    ensures r.Some? ==> forall i | 0 <= i < |text| :: SymbolValue(text[i]) == Some(r.value[i])
    ensures r.None? ==> exists i | 0 <= i < |text| :: SymbolValue(text[i]) == None
  {
    if text == [] then Some([])
    else
      match SymbolValue(text[0])
      case None => None
      case Some(v) =>
        match Values(text[1..])
        case None =>
          var i :| 0 <= i < |text[1..]| && SymbolValue(text[1..][i]) == None;
          assert SymbolValue(text[i + 1]) == None;
          None
        case Some(rest) => Some([v] + rest)
  }

  /** Decoding ignores case and rejects a last symbol whose unused bits are not zero, as
      section 3.5 of RFC 4648 allows. */
  function Decode(text: bytes): Option<bytes>
    requires |text| == TEXT_LEN
  {
    match Values(text)
    case None => None
    case Some(values) =>
      SpreadLength(values, 5);
      var bits := Spread(values, 5);
      if bits[128] || bits[129] then None
      else
        GatherFits(bits[..128], 8);
        SmallPowers();
        Some(Gather(bits[..128], 8))
  }

  lemma ValuesFit(text: bytes)
    requires Values(text).Some?
    ensures Fits(Values(text).value, 5)
  {
    SmallPowers();
  }

  /** The decoder takes exactly the texts that are canonical but for their case. */
  lemma DecodeExactly(text: bytes, b: bytes)
    requires |text| == TEXT_LEN
    ensures Decode(text) == Some(b) <==> |b| == ID_SIZE && Lowered(text) == Text(b)
  {
    if |b| == ID_SIZE && Lowered(text) == Text(b) {
      CanonicalDecodes(text, b);
    }
    if Decode(text) == Some(b) {
      DecodedIsCanonical(text, b);
    }
  }

  lemma LoweredValues(text: bytes, values: seq<nat>)
    requires Fits(values, 5) && Lowered(text) == Symbols(values)
    ensures Values(text) == Some(values)
  {
    SmallPowers();
    hide Symbol, SymbolValue, LowerByte;
    assert |Lowered(text)| == |text|;
    forall i | 0 <= i < |text|
      ensures SymbolValue(text[i]) == Some(values[i])
    {
      assert Lowered(text)[i] == LowerByte(text[i]) && Symbols(values)[i] == Symbol(values[i]);
      SymbolRoundTrip(text[i], values[i]);
    }
    assert Values(text).value == values;
  }

  lemma ValuesLowered(text: bytes, values: seq<nat>)
    requires Values(text) == Some(values) && Fits(values, 5)
    ensures Lowered(text) == Symbols(values)
  {
    SmallPowers();
    hide Symbol, SymbolValue, LowerByte;
    forall i | 0 <= i < |text|
      ensures LowerByte(text[i]) == Symbol(values[i])
    {
      SymbolRoundTrip(text[i], values[i]);
    }
  }

  lemma CanonicalDecodes(text: bytes, b: bytes)
    requires |text| == TEXT_LEN && |b| == ID_SIZE && Lowered(text) == Text(b)
    ensures Decode(text) == Some(b)
  {
    hide Symbols, Spread, Gather, Values, Lowered;
    SpreadLength(b, 8);
    var bits := Spread(b, 8) + Zeros(2);
    SpreadGather(bits, 5, 26);
    GatherFits(bits, 5);
    LoweredValues(text, Gather(bits, 5));
    assert bits[..128] == Spread(b, 8) && !bits[128] && !bits[129];
    BytesFit(b);
    GatherSpread(b, 8);
  }

  lemma DecodedIsCanonical(text: bytes, b: bytes)
    requires |text| == TEXT_LEN && Decode(text) == Some(b)
    ensures |b| == ID_SIZE && Lowered(text) == Text(b)
  {
    hide Symbols, Spread, Gather, Values, Lowered;
    var values := Values(text).value;
    SpreadLength(values, 5);
    var bits := Spread(values, 5);
    SpreadGather(bits[..128], 8, 16);
    assert bits == bits[..128] + Zeros(2);
    ValuesFit(text);
    GatherSpread(values, 5);
    ValuesLowered(text, values);
  }

  /** For symbols only, what decides is whether the last one's two unused bits are zero. */
  lemma TrailingBitsDecide(text: bytes)
    requires |text| == TEXT_LEN && Values(text).Some?
    ensures Decode(text).Some? <==> Values(text).value[25] % 4 == 0
  {
    DecodeLooksAtLastBits(text);
    LastSymbolBits(Values(text).value);
  }

  lemma LastSymbolBits(values: seq<nat>)
    requires |values| == TEXT_LEN
    ensures var bits := Spread(values, 5);
            |bits| == 130 && (!bits[128] && !bits[129] <==> values[25] % 4 == 0)
  {
    hide Spread, BitString;
    SpreadTaken(values, 25, 5);
    assert values[..26] == values;
    SpreadLength(values[..25], 5);
    LastTwoBits(values[25]);
    EndOf(Spread(values[..25], 5), BitString(values[25], 5));
  }

  lemma EndOf(a: seq<bool>, b: seq<bool>)
    requires |a| == 125 && |b| == 5
    ensures (a + b)[128] == b[3] && (a + b)[129] == b[4]
  {
  }

  lemma DecodeLooksAtLastBits(text: bytes)
    requires |text| == TEXT_LEN && Values(text).Some?
    ensures var bits := Spread(Values(text).value, 5);
            |bits| == 130 && (Decode(text).Some? <==> !bits[128] && !bits[129])
  {
    hide Spread, Values, Gather;
    SpreadLength(Values(text).value, 5);
  }

  lemma LastTwoBits(v: nat)
    ensures !BitString(v, 5)[3] && !BitString(v, 5)[4] <==> v % 4 == 0
  {
    assert BitString(v, 5) == BitString(v / 2, 4) + [v % 2 == 1];
    assert BitString(v / 2, 4) == BitString(v / 2 / 2, 3) + [v / 2 % 2 == 1];
  }
}
