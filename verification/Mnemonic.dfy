/**
  The mnemonic codec: a header word carrying the padding, the bytes regrouped into 11-bit words,
  and two checksum words. The word table and the digest are parameters.
 */
module Mnemonic {
  import opened Basics
  import opened Bits
  import opened BitGroups
  import opened MnemonicBits
  import opened MnemonicText

  const PADDING_VALUE_COUNT := 11
  const CHECKSUM_WORD_COUNT := 2
  const MIN_WORD_COUNT := 3
  const TABLE_SIZE := 2048

  /** The largest container that text is ever decoded into: an encrypted envelope. */
  const MAX_DECODED_LEN: nat := 0x20_0000 + 138

  /** The first three bytes of the digest of a byte string. */
  datatype Digest = Digest(b0: byte, b1: byte, b2: byte)

  datatype Codec = Codec(table: seq<string>, digest: bytes -> Digest)

  datatype MnemonicError =
    | EncodedTextTooLarge
    | UnknownWord(index: nat)
    | EmptyMnemonic
    | TooShort
    | UnsupportedVersion(version: nat)
    | InvalidPadding
    | DecodedBytesTooLarge
    | InvalidChecksum
    | NonCanonical

  predicate GoodTable(table: seq<string>) {
    && |table| == TABLE_SIZE && GoodWords(table)
    && (forall i, j | 0 <= i < j < |table| :: table[i] != table[j])
    && (forall w | w in table :: Utf8Len(w) <= 8)
  }

  predicate InTable(indices: seq<nat>) {
    forall i | 0 <= i < |indices| :: indices[i] < TABLE_SIZE
  }

  function WordsAt(table: seq<string>, indices: seq<nat>): (words: seq<string>)
    requires |table| == TABLE_SIZE && InTable(indices)
    ensures |words| == |indices|
  {
    seq(|indices|, i requires 0 <= i < |indices| => table[indices[i]])
  }

  // ----- what a byte string is encoded as -----

  function DataWordCount(byteCount: nat): nat {
    byteCount * 8 / 11 + (if byteCount * 8 % 11 == 0 then 0 else 1)
  }

  function PaddingFor(byteCount: nat): (pad: nat)
    ensures pad < 11 && DataWordCount(byteCount) * 11 == byteCount * 8 + pad
  {
    DataWordCount(byteCount) * 11 - byteCount * 8
  }

  function ChecksumInput(b: bytes): bytes
    requires |b| <= USIZE_MAX
  {
    Ascii("paranoid/mnemonic-codec/v1/checksum") + BigEndian64(|b|) + b
  }

  /** Twenty-two bits of the digest, as two words. */
  function ChecksumWords(c: Codec, b: bytes): (words: seq<nat>)
    requires |b| <= USIZE_MAX
    ensures |words| == CHECKSUM_WORD_COUNT && InTable(words)
  {
    var d := c.digest(ChecksumInput(b));
    var bits := Shr(BitOr(BitOr(Shl32(d.b0, 16), Shl32(d.b1, 8)), d.b2), 2);
    MaskedInTable(Shr(bits, WORD_BITS));
    MaskedInTable(bits);
    [BitAnd(Shr(bits, WORD_BITS), WORD_MASK), BitAnd(bits, WORD_MASK)]
  }

  lemma MaskedInTable(v: nat)
    ensures BitAnd(v, WORD_MASK) < TABLE_SIZE
  {
    SmallPowers();
    AndMask(v, 11);
    ShrLow(v, 11);
  }

  /** Nothing that could change a byte string leaves its checksum's input alone. */
  lemma ChecksumInputInjective(a: bytes, b: bytes)
    requires |a| <= USIZE_MAX && |b| <= USIZE_MAX && ChecksumInput(a) == ChecksumInput(b)
    ensures a == b
  {
    hide BigEndian64;
    var n := |Ascii("paranoid/mnemonic-codec/v1/checksum")| + 8;
    assert ChecksumInput(a)[n..] == a && ChecksumInput(b)[n..] == b;
  }

  /** The first twenty-two bits of a digest. */
  function DigestBits(d: Digest): (s: seq<bool>)
    ensures |s| == 22
  {
    BitString(d.b0, 8) + BitString(d.b1, 8) + BitString(d.b2, 8)[..6]
  }

  /** Three bytes, or-ed into one value, keep their bits. */
  lemma ThreeBytes(b0: byte, b1: byte, b2: byte)
    ensures var v := BitOr(BitOr(Shl32(b0, 16), Shl32(b1, 8)), b2);
            v < Pow2(24) && BitString(v, 24) == BitString(b0, 8) + BitString(b1, 8) + BitString(b2, 8)
  {
    hide Pow2, BitString, BitOr, Shl32;
    SmallPowers();
    PowerOf24();
    Shl32Fits(b0, 16);
    Shl32Fits(b1, 8);
    var high := b0 as nat * 256 + b1;
    assert b0 as nat * 0x1_0000 == b0 as nat * Pow2(16) && high * Pow2(8) == b0 as nat * 0x1_0000 + b1 as nat * 256;
    OrDisjoint(b0, 16, b1 as nat * 256);
    OrDisjoint(high, 8, b2);
    StringJoin(b0, 8, b1, 8);
    StringJoin(high, 16, b2, 8);
  }

  /** A value's first twenty-two of twenty-four bits, as two words. */
  lemma TwoWords(v: nat)
    requires v < Pow2(24)
    ensures var bits := Shr(v, 2);
            Spread([BitAnd(Shr(bits, WORD_BITS), WORD_MASK), BitAnd(bits, WORD_MASK)], 11) == BitString(v, 24)[..22]
  {
    hide Pow2, BitString, BitAnd, Shr, Low;
    PowerOf24();
    var bits := Shr(v, 2);
    StringSplit(v, 22, 2);
    StringSplit(bits, 11, 11);
    AndMask(Shr(bits, 11), 11);
    AndMask(bits, 11);
    LowSmall(Shr(bits, 11), 11);
    SpreadTwo(Shr(bits, 11), Low(bits, 11));
  }

  lemma SpreadTwo(a: nat, b: nat)
    ensures Spread([a, b], 11) == BitString(a, 11) + BitString(b, 11)
  {
    SpreadAppend([], a, 11);
    SpreadAppend([a], b, 11);
    assert [] + [a] == [a] && [a] + [b] == [a, b] && [] + BitString(a, 11) == BitString(a, 11);
  }

  /** The two words carry the digest's first twenty-two bits. */
  lemma ChecksumIsDigest(c: Codec, b: bytes)
    requires |b| <= USIZE_MAX
    ensures Spread(ChecksumWords(c, b), 11) == DigestBits(c.digest(ChecksumInput(b)))
  {
    hide Pow2, BitString, BitAnd, BitOr, Shl32, Shr, Spread, ChecksumInput;
    var d := c.digest(ChecksumInput(b));
    ThreeBytes(d.b0, d.b1, d.b2);
    TwoWords(BitOr(BitOr(Shl32(d.b0, 16), Shl32(d.b1, 8)), d.b2));
  }

  lemma PowerOf24()
    ensures Pow2(24) == 0x100_0000 && Pow2(22) == 0x40_0000 && Pow2(11) == 2048
  {
    SmallPowers();
    Pow2Add(16, 8);
  }

  /** The byte string's bits, filled up with zeros, in groups of eleven. */
  function DataWords(b: bytes): seq<nat> {
    Gather(Spread(b, 8) + Zeros(PaddingFor(|b|)), 11)
  }

  function Indices(c: Codec, b: bytes): seq<nat>
    requires |b| <= USIZE_MAX
  {
    [PaddingFor(|b|)] + DataWords(b) + ChecksumWords(c, b)
  }

  lemma DataWordsAre(b: bytes)
    ensures Spread(DataWords(b), 11) == Spread(b, 8) + Zeros(PaddingFor(|b|))
    ensures Fits(DataWords(b), 11) && |DataWords(b)| == DataWordCount(|b|)
  {
    SpreadLength(b, 8);
    hide Spread, Gather, Fits;
    var s := Spread(b, 8) + Zeros(PaddingFor(|b|));
    SpreadGather(s, 11, DataWordCount(|b|));
    GatherFits(s, 11);
  }

  lemma PaddingUnique(byteCount: nat, k: nat, pad: nat)
    requires k * 11 == byteCount * 8 + pad && pad < 11
    ensures pad == PaddingFor(byteCount) && k == DataWordCount(byteCount)
  {
    assert (k - DataWordCount(byteCount)) * 11 == pad - PaddingFor(byteCount);
  }

  lemma DataWordsFrom(b: bytes, data: seq<nat>, pad: nat)
    requires Fits(data, 11) && pad < 11
    requires Spread(data, 11) == Spread(b, 8) + Zeros(pad)
    ensures pad == PaddingFor(|b|) && data == DataWords(b)
  {
    SpreadLength(data, 11);
    SpreadLength(b, 8);
    hide Spread, Gather, PaddingFor, Fits;
    PaddingUnique(|b|, |data|, pad);
    GatherSpread(data, 11);
  }

  lemma IndicesInTable(c: Codec, b: bytes)
    requires |b| <= USIZE_MAX
    ensures InTable(Indices(c, b)) && |Indices(c, b)| == MIN_WORD_COUNT + DataWordCount(|b|)
  {
    SmallPowers();
    DataWordsAre(b);
  }

  /** A mnemonic in its own words: the length of the padding; then, eleven bits a word, the bytes,
      that many zeros, and the checksum's bits. */
  predicate Spells(b: bytes, checksum: seq<bool>, indices: seq<nat>) {
    && InTable(indices) && indices != [] && indices[0] < PADDING_VALUE_COUNT
    && Spread(indices[1..], 11) == Spread(b, 8) + Zeros(indices[0]) + checksum
  }

  /** The checksum is the beginning of the digest of the label, the length and the bytes. */
  predicate SpellsOut(c: Codec, b: bytes, indices: seq<nat>)
    requires |b| <= USIZE_MAX
  {
    Spells(b, DigestBits(c.digest(Ascii("paranoid/mnemonic-codec/v1/checksum") + BigEndian64(|b|) + b)), indices)
  }

  lemma WordsSpell(b: bytes, words: seq<nat>)
    requires |words| == 2 && InTable(words)
    ensures Spells(b, Spread(words, 11), [PaddingFor(|b|)] + DataWords(b) + words)
  {
    SmallPowers();
    DataWordsAre(b);
    hide Spread, DataWords, PaddingFor, Pow2, Zeros;
    var indices := [PaddingFor(|b|)] + DataWords(b) + words;
    assert indices[1..] == DataWords(b) + words;
    SpreadConcat(DataWords(b), words, 11);
  }

  /** The last two words are the checksum's, the ones before them the bytes' and the padding's. */
  lemma SplitSpelling(rest: seq<nat>, b: seq<bool>, words: seq<nat>) returns (n: nat)
    requires |words| == 2 && Spread(rest, 11) == b + Spread(words, 11)
    ensures n + 2 == |rest| && Spread(rest[..n], 11) == b && Spread(rest[n..], 11) == Spread(words, 11)
  {
    hide Spread;
    SpreadLength(rest, 11);
    SpreadLength(words, 11);
    n := |rest| - 2;
    SpreadLength(rest[n..], 11);
    assert rest == rest[..n] + rest[n..];
    SpreadConcat(rest[..n], rest[n..], 11);
    SameEnds(Spread(rest[..n], 11), Spread(rest[n..], 11), b, Spread(words, 11));
  }

  lemma SpellingIsWords(b: bytes, words: seq<nat>, indices: seq<nat>)
    requires |words| == 2 && InTable(words) && Spells(b, Spread(words, 11), indices)
    ensures indices == [PaddingFor(|b|)] + DataWords(b) + words
  {
    hide Spread, DataWords, Zeros, PaddingFor, Fits;
    var pad, rest := indices[0], indices[1..];
    var n := SplitSpelling(rest, Spread(b, 8) + Zeros(pad), words);
    TablesFit(rest[..n]);
    TablesFit(rest[n..]);
    TablesFit(words);
    SpreadInjective(rest[n..], words, 11);
    DataWordsFrom(b, rest[..n], pad);
    assert indices == [pad] + rest[..n] + rest[n..];
  }

  lemma TablesFit(indices: seq<nat>)
    requires InTable(indices)
    ensures Fits(indices, 11)
  {
    SmallPowers();
  }

  /** The words of a byte string are the only ones that spell it out. */
  lemma SpelledOutExactly(c: Codec, b: bytes, indices: seq<nat>)
    requires |b| <= USIZE_MAX
    ensures indices == Indices(c, b) <==> SpellsOut(c, b, indices)
  {
    hide Spells, ChecksumWords, DataWords, PaddingFor, DigestBits, BigEndian64;
    ChecksumIsDigest(c, b);
    WordsSpell(b, ChecksumWords(c, b));
    if SpellsOut(c, b, indices) {
      SpellingIsWords(b, ChecksumWords(c, b), indices);
    }
  }

  lemma SameEnds<T>(a: seq<T>, b: seq<T>, c: seq<T>, d: seq<T>)
    requires a + b == c + d && |b| == |d|
    ensures a == c && b == d
  {
    assert (a + b)[..|a|] == a && (c + d)[..|a|] == c;
    assert (a + b)[|a|..] == b && (c + d)[|a|..] == d;
  }

  function EncodedText(c: Codec, b: bytes): string
    requires GoodTable(c.table) && |b| <= USIZE_MAX
  {
    IndicesInTable(c, b);
    JoinWords(WordsAt(c.table, Indices(c, b)))
  }

  // ----- encoding -----

  predicate TextOf(c: Codec, indices: seq<nat>, encoded: string) {
    |c.table| == TABLE_SIZE && InTable(indices) && encoded == JoinWords(WordsAt(c.table, indices))
  }

  lemma TextGrows(c: Codec, indices: seq<nat>, encoded: string, i: nat)
    requires TextOf(c, indices, encoded) && i < TABLE_SIZE
    ensures TextOf(c, indices + [i], PushWord(encoded, c.table[i]))
  {
    JoinPush(WordsAt(c.table, indices), c.table[i]);
    assert WordsAt(c.table, indices + [i]) == WordsAt(c.table, indices) + [c.table[i]];
  }

  lemma FitsGrows(data: seq<nat>, v: nat, n: nat)
    requires Fits(data, n) && v < Pow2(n)
    ensures Fits(data + [v], n)
  {
  }

  /** One byte in. */
  lemma StageByte(b: bytes, i: nat, data: seq<nat>, staged: nat, count: nat)
    requires i < |b| && count <= 10 && Staged(staged, count)
    requires Spread(b[..i], 8) == Spread(data, 11) + BitString(staged, count)
    ensures var next := BitOr(Shl32(staged, 8), b[i]);
            && Staged(next, count + 8)
            && Spread(b[..i + 1], 8) == Spread(data, 11) + BitString(next, count + 8)
  {
    hide Pow2, BitString, Spread, BitOr, Shl32;
    SmallPowers();
    ShiftIn(staged, count, b[i], 8);
    SpreadAppend(b[..i], b[i], 8);
    assert b[..i + 1] == b[..i] + [b[i]];
    Associative(Spread(data, 11), BitString(staged, count), BitString(b[i], 8));
  }

  /** One value out of the accumulator and onto the output. */
  lemma Unstage(input: seq<bool>, output: seq<nat>, staged: nat, count: nat, n: nat)
    requires n <= count <= 18 && Staged(staged, count)
    requires input == Spread(output, n) + BitString(staged, count)
    ensures var left := count - n;
            var v := Shr(staged, left);
            var rest := BitAnd(staged, LowBitMask(left));
            && v < Pow2(n) && BitAnd(v, Pow2(n) - 1) == v && Staged(rest, left)
            && input == Spread(output + [v], n) + BitString(rest, left)
  {
    hide Pow2, BitString, Spread, BitAnd, Shr;
    ShiftOut(staged, count, n);
    var left := count - n;
    var v, rest := Shr(staged, left), BitAnd(staged, LowBitMask(left));
    SpreadAppend(output, v, n);
    Associative(Spread(output, n), BitString(v, n), BitString(rest, left));
  }

  /** The bits that do not fill a word are shifted up to become the last one. */
  lemma LastWord(b: bytes, data: seq<nat>, staged: nat, count: nat)
    requires 0 < count < 11 && Staged(staged, count) && Fits(data, 11)
    requires Spread(b, 8) == Spread(data, 11) + BitString(staged, count)
    ensures var v := Shl32(staged, 11 - count);
            v < TABLE_SIZE && data + [v] == DataWords(b)
  {
    hide Pow2, BitString, Spread, Shl32, Gather, Fits, Staged;
    SmallPowers();
    ShiftUp(staged, count, 11);
    var v := Shl32(staged, 11 - count);
    FitsGrows(data, v, 11);
    SpreadAppend(data, v, 11);
    Associative(Spread(data, 11), BitString(staged, count), Zeros(11 - count));
    DataWordsFrom(b, data + [v], 11 - count);
  }

  lemma NoLastWord(b: bytes, data: seq<nat>, staged: nat)
    requires Fits(data, 11) && Spread(b, 8) == Spread(data, 11) + BitString(staged, 0)
    ensures data == DataWords(b)
  {
    NothingLeft(Spread(data, 11), staged);
    NothingLeft(Spread(b, 8), staged);
    DataWordsFrom(b, data, 0);
  }

  /** The encoder writes exactly the text of the byte string's words. */
  method EncodeMnemonic(c: Codec, b: bytes) returns (encoded: string)
    requires GoodTable(c.table) && |b| * 8 <= USIZE_MAX
    ensures encoded == EncodedText(c, b)
  {
    hide Pow2, BitString, Spread, BitAnd, BitOr, Shl32, Shr, Gather, LowBitMask, Fits, Staged;
    hide JoinWords, PushWord, TextOf, Utf8Len, GoodWords, ChecksumWords, DataWords, Zeros;
    SmallPowers();
    var dataWordCount := |b| * 8 / 11 + (if |b| * 8 % 11 == 0 then 0 else 1);
    var header := dataWordCount * 11 - |b| * 8;
    assert header == PaddingFor(|b|);
    NothingYet(c);
    TextGrows(c, [], "", header);
    encoded := PushWord("", c.table[header]);
    var staged, count := 0, 0;
    ghost var data: seq<nat> := [];
    NothingStaged();
    assert [header] + data == [header] && [] + [header] == [header];
    for i := 0 to |b|
      invariant count < 11 && Staged(staged, count) && Fits(data, 11)
      invariant Spread(b[..i], 8) == Spread(data, 11) + BitString(staged, count)
      invariant TextOf(c, [header] + data, encoded)
    {
      StageByte(b, i, data, staged, count);
      staged := BitOr(Shl32(staged, 8), b[i]);
      count := count + 8;
      while count >= 11
        invariant count <= 18 && Staged(staged, count) && Fits(data, 11)
        invariant Spread(b[..i + 1], 8) == Spread(data, 11) + BitString(staged, count)
        invariant TextOf(c, [header] + data, encoded)
      {
        Unstage(Spread(b[..i + 1], 8), data, staged, count, 11);
        count := count - 11;
        var wordIndex := BitAnd(Shr(staged, count), WORD_MASK);
        TextGrows(c, [header] + data, encoded, wordIndex);
        FitsGrows(data, wordIndex, 11);
        Associative([header], data, [wordIndex]);
        encoded := PushWord(encoded, c.table[wordIndex]);
        staged := BitAnd(staged, LowBitMask(count));
        data := data + [wordIndex];
      }
    }
    assert b[..|b|] == b;
    if count > 0 {
      LastWord(b, data, staged, count);
      var wordIndex := Shl32(staged, 11 - count);
      TextGrows(c, [header] + data, encoded, wordIndex);
      Associative([header], data, [wordIndex]);
      encoded := PushWord(encoded, c.table[wordIndex]);
      data := data + [wordIndex];
    } else {
      NoLastWord(b, data, staged);
    }
    var checksum := ChecksumWords(c, b);
    ghost var written := [header] + data;
    assert written + checksum[..0] == written;
    for k := 0 to 2
      invariant TextOf(c, written + checksum[..k], encoded)
    {
      TextGrows(c, written + checksum[..k], encoded, checksum[k]);
      assert written + checksum[..k + 1] == written + checksum[..k] + [checksum[k]];
      encoded := PushWord(encoded, c.table[checksum[k]]);
    }
    assert checksum[..2] == checksum;
    TextIs(c, written + checksum, encoded);
  }

  lemma TextIs(c: Codec, indices: seq<nat>, encoded: string)
    requires TextOf(c, indices, encoded)
    ensures InTable(indices) && encoded == JoinWords(WordsAt(c.table, indices))
  {
  }

  lemma NothingYet(c: Codec)
    requires |c.table| == TABLE_SIZE
    ensures TextOf(c, [], "")
  {
  }

  lemma NothingStaged()
    ensures Staged(0, 0) && Fits([], 11) && Fits([], 8)
    ensures Spread([], 8) == Spread([], 11) + BitString(0, 0) && Spread([], 11) == Spread([], 8) + BitString(0, 0)
  {
  }

  lemma NothingLeft(s: seq<bool>, staged: nat)
    ensures s + BitString(staged, 0) == s == s + Zeros(0)
  {
  }
}
