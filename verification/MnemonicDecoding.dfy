/** Reading a mnemonic back: exactly the encoder's texts are accepted. */
module MnemonicDecoding {
  import opened Basics
  import opened Bits
  import opened BitGroups
  import opened MnemonicBits
  import opened MnemonicText
  import opened Mnemonic

  // ----- length bounds -----

  function Saturating(v: nat): nat {
    if v > USIZE_MAX then USIZE_MAX else v
  }

  function MaxWordCount(decodedLen: nat): nat {
    var bits := Saturating(decodedLen * 8);
    1 + (bits / 11 + (if bits % 11 == 0 then 0 else 1)) + CHECKSUM_WORD_COUNT
  }

  function MaxWordLen(table: seq<string>): (n: nat)
    ensures forall w | w in table :: Utf8Len(w) <= n
    ensures table != [] ==> exists w | w in table :: Utf8Len(w) == n
  {
    if table == [] then 0
    else
      assert table[0] in table;
      var rest := MaxWordLen(table[1..]);
      assert forall w | w in table :: w == table[0] || w in table[1..];
      if Utf8Len(table[0]) > rest then Utf8Len(table[0]) else rest
  }

  function MaxEncodedLen(table: seq<string>, decodedLen: nat): nat {
    Saturating(MaxWordCount(decodedLen) * Saturating(MaxWordLen(table) + 1))
  }

  lemma {:induction false} MaxWordLenIsSmall(table: seq<string>, n: nat)
    requires forall w | w in table :: Utf8Len(w) <= n
    ensures MaxWordLen(table) <= n
  {
    if table != [] {
      assert table[0] in table;
      assert forall w | w in table[1..] :: w in table;
      MaxWordLenIsSmall(table[1..], n);
    }
  }

  /** The limits, for every length that text is decoded into: a header, eleven bits a word and two
      checksum words, each as long as the longest word and a space. */
  lemma LimitsAre(table: seq<string>, decodedLen: nat)
    requires decodedLen <= MAX_DECODED_LEN && (forall w | w in table :: Utf8Len(w) <= 8)
    ensures (MaxWordCount(decodedLen) - 4) * 11 < decodedLen * 8 <= (MaxWordCount(decodedLen) - 3) * 11
    ensures MaxEncodedLen(table, decodedLen) == MaxWordCount(decodedLen) * (MaxWordLen(table) + 1)
  {
    MaxWordLenIsSmall(table, 8);
    hide MaxWordLen, Utf8Len;
    Scale(MaxWordCount(decodedLen), 2_000_000, MaxWordLen(table) + 1);
  }

  /** The length guards never reject what the encoder writes. */
  lemma GuardsAdmitEncoded(c: Codec, b: bytes, max: nat)
    requires GoodTable(c.table) && |b| <= max <= MAX_DECODED_LEN
    ensures |Indices(c, b)| <= MaxWordCount(max) && (|b| == max ==> |Indices(c, b)| == MaxWordCount(max))
    ensures Utf8Len(EncodedText(c, b)) <= MaxEncodedLen(c.table, max)
  {
    hide Utf8Len, JoinWords, Indices, MaxWordLen;
    IndicesInTable(c, b);
    assert |b| * 8 <= max * 8;
    assert |Indices(c, b)| <= MaxWordCount(max);
    var n, words := MaxWordLen(c.table), WordsAt(c.table, Indices(c, b));
    MaxWordLenIsSmall(c.table, 8);
    JoinedLength(words, n);
    Scale(|words|, MaxWordCount(max), n + 1);
    assert n + 1 <= 9 && MaxWordCount(max) <= 2_000_000;
    Scale(MaxWordCount(max), 2_000_000, n + 1);
  }

  // ----- words -----

  function FindWord(table: seq<string>, word: string): (r: Option<nat>)
    ensures r.Some? ==> r.value < |table| && table[r.value] == word
    ensures r.None? ==> word !in table
  {
    if table == [] then None
    else if table[|table| - 1] == word then Some(|table| - 1)
    else
      assert forall w | w in table :: w == table[|table| - 1] || w in table[..|table| - 1];
      FindWord(table[..|table| - 1], word)
  }

  /** The indices of the text's words, or the first thing wrong with them. */
  method MnemonicWordIndices(table: seq<string>, encoded: string, maxWordCount: nat)
    returns (r: Result<seq<nat>, MnemonicError>)
    requires |table| == TABLE_SIZE
    ensures var words := SplitWhitespace(encoded);
            match r
            case Ok(indices) =>
              && InTable(indices) && WordsAt(table, indices) == words && 0 < |words| <= maxWordCount
            case Err(EmptyMnemonic) => words == []
            case Err(UnknownWord(i)) =>
              i < |words| && i < maxWordCount && words[i] !in table && forall k | 0 <= k < i :: words[k] in table
            case Err(e) => e == EncodedTextTooLarge && |words| > maxWordCount
  {
    var words := SplitWhitespace(encoded);
    var indices: seq<nat> := [];
    for index := 0 to |words|
      invariant |indices| == index <= maxWordCount && InTable(indices)
      invariant forall i | 0 <= i < index :: table[indices[i]] == words[i]
    {
      if index >= maxWordCount {
        return Err(EncodedTextTooLarge);
      }
      var wordIndex := FindWord(table, words[index]);
      if wordIndex == None {
        return Err(UnknownWord(index));
      }
      indices := indices + [wordIndex.value];
    }
    if indices == [] {
      return Err(EmptyMnemonic);
    }
    return Ok(indices);
  }

  /** A word has one index. */
  lemma WordsDetermineIndices(table: seq<string>, a: seq<nat>, b: seq<nat>)
    requires GoodTable(table) && InTable(a) && InTable(b)
    requires WordsAt(table, a) == WordsAt(table, b)
    ensures a == b
  {
    assert |WordsAt(table, a)| == |a| && |WordsAt(table, b)| == |b|;
    forall i | 0 <= i < |a|
      ensures a[i] == b[i]
    {
      assert WordsAt(table, a)[i] == table[a[i]] && WordsAt(table, b)[i] == table[b[i]];
    }
  }

  /** The words of an encoded text are the words that were joined. */
  lemma SplitEncoded(c: Codec, b: bytes)
    requires GoodTable(c.table) && |b| <= USIZE_MAX
    ensures InTable(Indices(c, b)) && SplitWhitespace(EncodedText(c, b)) == WordsAt(c.table, Indices(c, b))
  {
    hide JoinWords, Indices, SplitWhitespace, Utf8Len;
    IndicesInTable(c, b);
    var words := WordsAt(c.table, Indices(c, b));
    assert forall w | w in words :: w in c.table;
    SplitJoined(words, "");
  }

  // ----- regrouping into bytes -----

  lemma StageWord(words: seq<nat>, i: nat, decoded: bytes, staged: nat, count: nat)
    requires i < |words| && Fits(words, 11) && count <= 7 && Staged(staged, count)
    requires Spread(words[..i], 11) == Spread(decoded, 8) + BitString(staged, count)
    ensures var next := BitOr(Shl32(staged, 11), words[i]);
            && Staged(next, count + 11)
            && Spread(words[..i + 1], 11) == Spread(decoded, 8) + BitString(next, count + 11)
  {
    hide Pow2, BitString, Spread, BitOr, Shl32;
    ShiftIn(staged, count, words[i], 11);
    SpreadAppend(words[..i], words[i], 11);
    assert words[..i + 1] == words[..i] + [words[i]];
    Associative(Spread(decoded, 8), BitString(staged, count), BitString(words[i], 11));
  }

  /** All the bytes are found, and what stays staged is as long as the padding. */
  method RegroupWords(words: seq<nat>, expected: nat, ghost pad: nat) returns (decoded: bytes, staged: nat, count: nat)
    requires Fits(words, 11) && pad < 11 && |words| * 11 == expected * 8 + pad
    ensures |decoded| == expected && count == pad && Staged(staged, count)
    ensures Spread(words, 11) == Spread(decoded, 8) + BitString(staged, count)
  {
    hide Pow2, BitString, Spread, BitAnd, BitOr, Shl32, Shr, LowBitMask, Staged;
    SmallPowers();
    NothingStaged();
    decoded, staged, count := [], 0, 0;
    for i := 0 to |words|
      invariant Staged(staged, count) && |decoded| <= expected
      invariant i * 11 == |decoded| * 8 + count
      invariant count < 8 || |decoded| == expected
      invariant Spread(words[..i], 11) == Spread(decoded, 8) + BitString(staged, count)
    {
      StageWord(words, i, decoded, staged, count);
      staged := BitOr(Shl32(staged, 11), words[i]);
      count := count + 11;
      while count >= 8 && |decoded| < expected
        invariant Staged(staged, count) && |decoded| <= expected && count <= 18
        invariant (i + 1) * 11 == |decoded| * 8 + count
        invariant Spread(words[..i + 1], 11) == Spread(decoded, 8) + BitString(staged, count)
      {
        Unstage(Spread(words[..i + 1], 11), decoded, staged, count, 8);
        count := count - 8;
        decoded := decoded + [Shr(staged, count) % 256];
        staged := BitAnd(staged, LowBitMask(count));
      }
    }
    assert words[..|words|] == words;
  }

  /** Two ways to read the same bits agree. */
  lemma RegroupedIs(b: bytes, decoded: bytes, staged: nat, pad: nat)
    requires |b| == |decoded| && Staged(staged, pad)
    requires Spread(b, 8) + Zeros(pad) == Spread(decoded, 8) + BitString(staged, pad)
    ensures b == decoded && staged == 0
  {
    hide Pow2, BitString, Spread, Fits;
    SpreadLength(b, 8);
    SpreadLength(decoded, 8);
    var n := |b| * 8;
    assert Spread(b, 8) == (Spread(b, 8) + Zeros(pad))[..n] && Spread(decoded, 8) == (Spread(decoded, 8) + BitString(staged, pad))[..n];
    assert Zeros(pad) == (Spread(b, 8) + Zeros(pad))[n..] && BitString(staged, pad) == (Spread(decoded, 8) + BitString(staged, pad))[n..];
    BytesFit(b);
    BytesFit(decoded);
    SpreadInjective(b, decoded, 8);
    ZerosAreZero(pad);
    StringInjective(staged, 0, pad);
  }

  // ----- decoding -----

  ghost predicate Encodes(c: Codec, max: nat, indices: seq<nat>, b: bytes) {
    |b| <= max && |b| <= USIZE_MAX && indices == Indices(c, b)
  }

  /** The header and the data words are the byte string's, whatever the checksum words are. */
  ghost predicate Carries(max: nat, indices: seq<nat>, b: bytes) {
    && |b| <= max && |b| <= USIZE_MAX && |indices| >= MIN_WORD_COUNT
    && indices[0] == PaddingFor(|b|) && indices[1..|indices| - 2] == DataWords(b)
  }

  /** The last two words carry the beginning of the digest. */
  predicate Summed(c: Codec, indices: seq<nat>, b: bytes) {
    && |indices| >= 2 && |b| <= USIZE_MAX
    && Spread(indices[|indices| - 2..], 11) == DigestBits(c.digest(ChecksumInput(b)))
  }

  lemma EncodedIsCarried(c: Codec, b: bytes)
    requires |b| <= USIZE_MAX
    ensures var indices := Indices(c, b);
            && Carries(|b|, indices, b) && InTable(indices) && indices[|indices| - 2..] == ChecksumWords(c, b)
            && indices[0] == PaddingFor(|b|)
  {
    IndicesInTable(c, b);
    DataWordsAre(b);
    hide DataWords, ChecksumWords, PaddingFor;
    assert Indices(c, b) == [PaddingFor(|b|)] + DataWords(b) + ChecksumWords(c, b);
  }

  /** What words that carry a byte string still need. */
  lemma EncodesExactly(c: Codec, max: nat, indices: seq<nat>, b: bytes)
    ensures Encodes(c, max, indices, b) <==> Carries(max, indices, b) && InTable(indices) && Summed(c, indices, b)
  {
    hide Indices, Carries, Summed;
    if |b| <= max && |b| <= USIZE_MAX {
      EncodedIsSummed(c, max, b);
      if Carries(max, indices, b) && InTable(indices) && Summed(c, indices, b) {
        CarriedAndSummed(c, max, indices, b);
      }
    } else {
      CarriedIsShort(max, indices, b);
    }
  }

  lemma EncodedIsSummed(c: Codec, max: nat, b: bytes)
    requires |b| <= max && |b| <= USIZE_MAX
    ensures Carries(max, Indices(c, b), b) && InTable(Indices(c, b)) && Summed(c, Indices(c, b), b)
  {
    EncodedIsCarried(c, b);
    hide Indices, DataWords, ChecksumWords, PaddingFor;
    ChecksumDecides(c, ChecksumWords(c, b), b);
  }

  lemma CarriedAndSummed(c: Codec, max: nat, indices: seq<nat>, b: bytes)
    requires Carries(max, indices, b) && InTable(indices) && Summed(c, indices, b)
    ensures indices == Indices(c, b)
  {
    hide DataWords, ChecksumWords, PaddingFor, DigestBits, Spread, ChecksumInput;
    ChecksumDecides(c, indices[|indices| - 2..], b);
    assert indices == [indices[0]] + indices[1..|indices| - 2] + indices[|indices| - 2..];
  }

  /** What the words say about any byte string they carry. */
  lemma CarriedLengths(max: nat, indices: seq<nat>, b: bytes)
    requires Carries(max, indices, b)
    ensures indices[0] < 11 && (|indices| - MIN_WORD_COUNT) * 11 == |b| * 8 + indices[0]
    ensures Spread(indices[1..|indices| - 2], 11) == Spread(b, 8) + Zeros(indices[0])
  {
    hide DataWords;
    DataWordsAre(b);
  }

  /** The lengths that some byte string within the limit would have. */
  predicate Plausible(max: nat, indices: seq<nat>) {
    && |indices| >= MIN_WORD_COUNT && indices[0] < PADDING_VALUE_COUNT
    && var byteBitCount := (|indices| - MIN_WORD_COUNT) * WORD_BITS - indices[0];
       byteBitCount >= 0 && byteBitCount % 8 == 0 && byteBitCount / 8 <= max
  }

  lemma CarriedIsPlausible(max: nat, indices: seq<nat>)
    ensures forall b: bytes :: Carries(max, indices, b) ==> Plausible(max, indices)
  {
    hide DataWords, Spread, Carries;
    forall b: bytes | Carries(max, indices, b)
      ensures Plausible(max, indices)
    {
      CarriedLengths(max, indices, b);
      CarriedFits(max, indices, b);
    }
  }

  lemma CarriedFits(max: nat, indices: seq<nat>, b: bytes)
    requires Carries(max, indices, b)
    ensures |indices| >= MIN_WORD_COUNT && |b| <= max
  {
    hide DataWords, PaddingFor;
  }

  /** Whatever the words carry can only be the bytes found by regrouping them. */
  lemma CarriedIsRegrouped(max: nat, indices: seq<nat>, decoded: bytes, staged: nat)
    requires Plausible(max, indices) && Staged(staged, indices[0])
    requires |decoded| * 8 == (|indices| - MIN_WORD_COUNT) * WORD_BITS - indices[0]
    requires Spread(indices[1..|indices| - 2], 11) == Spread(decoded, 8) + BitString(staged, indices[0])
    ensures forall b: bytes :: Carries(max, indices, b) ==> b == decoded && staged == 0
  {
    hide DataWords, Spread, BitString, Staged, Carries, Zeros;
    forall b: bytes | Carries(max, indices, b)
      ensures b == decoded && staged == 0
    {
      CarriedLengths(max, indices, b);
      RegroupedIs(b, decoded, staged, indices[0]);
    }
  }

  lemma RegroupedIsCarried(max: nat, indices: seq<nat>, b: bytes, pad: nat)
    requires |indices| >= MIN_WORD_COUNT && InTable(indices) && indices[0] == pad < 11
    requires |b| <= max <= MAX_DECODED_LEN
    requires Spread(indices[1..|indices| - 2], 11) == Spread(b, 8) + BitString(0, pad)
    ensures Carries(max, indices, b)
  {
    hide Spread, BitString, Pow2, Gather, Fits;
    WordsFit(indices, 1, |indices| - 2);
    ZerosAreZero(pad);
    DataWordsFrom(b, indices[1..|indices| - 2], pad);
  }

  /** The word and length checks, one error each. */
  predicate RejectedAs(max: nat, indices: seq<nat>, error: MnemonicError) {
    match error
    case TooShort => |indices| < MIN_WORD_COUNT
    case UnsupportedVersion(version) => |indices| >= MIN_WORD_COUNT && version == indices[0] / PADDING_VALUE_COUNT != 0
    case DecodedBytesTooLarge =>
      && |indices| >= MIN_WORD_COUNT && indices[0] < PADDING_VALUE_COUNT
      && var byteBitCount := (|indices| - MIN_WORD_COUNT) * WORD_BITS - indices[0];
         byteBitCount >= 0 && byteBitCount % 8 == 0 && byteBitCount / 8 > max
    case _ => false
  }

  /** Header and data words that carry a byte string decide which two checksum words are right:
      the first bits of its digest, and nothing else, are accepted. Words that carry none are
      rejected for their number, their version, their length or their padding. */
  method DecodeIndices(c: Codec, indices: seq<nat>, max: nat) returns (r: Result<bytes, MnemonicError>)
    requires InTable(indices) && max <= MAX_DECODED_LEN
    ensures forall b: bytes | Carries(max, indices, b) ::
              r == if Summed(c, indices, b) then Ok(b) else Err(InvalidChecksum)
    ensures (forall b: bytes :: !Carries(max, indices, b)) ==>
              r.Err? && (RejectedAs(max, indices, r.error) || r.error == InvalidPadding)
    ensures forall error | RejectedAs(max, indices, error) :: r == Err(error)
  {
    hide DataWords, ChecksumWords, Spread, BitString, Pow2, Gather, Staged, Carries, Zeros, DigestBits, ChecksumInput;
    CarriedIsPlausible(max, indices);
    if |indices| < MIN_WORD_COUNT {
      return Err(TooShort);
    }
    var header := indices[0];
    if header / PADDING_VALUE_COUNT != 0 {
      return Err(UnsupportedVersion(header / PADDING_VALUE_COUNT));
    }
    var padding := header % PADDING_VALUE_COUNT;
    var dataWordCount := |indices| - MIN_WORD_COUNT;
    var dataBitCount := dataWordCount * WORD_BITS;
    if padding > dataBitCount {
      return Err(InvalidPadding);
    }
    var byteBitCount := dataBitCount - padding;
    if byteBitCount % 8 != 0 {
      return Err(InvalidPadding);
    }
    var expected := byteBitCount / 8;
    if expected > max {
      return Err(DecodedBytesTooLarge);
    }
    WordsFit(indices, 1, |indices| - 2);
    var decoded, staged, count := RegroupWords(indices[1..1 + dataWordCount], expected, padding);
    CarriedIsRegrouped(max, indices, decoded, staged);
    if count != padding || staged != 0 {
      return Err(InvalidPadding);
    }
    RegroupedIsCarried(max, indices, decoded, padding);
    ChecksumDecides(c, indices[1 + dataWordCount..], decoded);
    var checksum := ChecksumWords(c, decoded);
    if indices[1 + dataWordCount..] != checksum {
      return Err(InvalidChecksum);
    }
    return Ok(decoded);
  }

  lemma ChecksumDecides(c: Codec, last: seq<nat>, b: bytes)
    requires InTable(last) && |b| <= USIZE_MAX
    ensures last == ChecksumWords(c, b) <==> Spread(last, 11) == DigestBits(c.digest(ChecksumInput(b)))
  {
    hide ChecksumWords, DigestBits, Spread, ChecksumInput;
    ChecksumIsDigest(c, b);
    TablesFit(last);
    TablesFit(ChecksumWords(c, b));
    if Spread(last, 11) == Spread(ChecksumWords(c, b), 11) {
      SpreadInjective(last, ChecksumWords(c, b), 11);
    }
  }

  lemma WordsFit(indices: seq<nat>, from: nat, to: nat)
    requires InTable(indices) && from <= to <= |indices|
    ensures Fits(indices[from..to], 11)
  {
    SmallPowers();
  }

  /** The words of a mnemonic but for the last two, with others from the table in their place. */
  predicate Mistyped(table: seq<string>, words: seq<string>, right: seq<string>) {
    && |words| == |right| >= 2 && words != right && words[..|words| - 2] == right[..|right| - 2]
    && forall w | w in words :: w in table
  }

  /** Such words carry the bytes and encode nothing. */
  lemma MistypedExactly(c: Codec, max: nat, indices: seq<nat>, b: bytes)
    requires GoodTable(c.table) && InTable(indices) && |b| <= max <= MAX_DECODED_LEN && InTable(Indices(c, b))
    ensures Mistyped(c.table, WordsAt(c.table, indices), WordsAt(c.table, Indices(c, b))) <==>
            Carries(max, indices, b) && !Encodes(c, max, indices, b)
  {
    hide DataWords, PaddingFor, Spread, ChecksumWords, Utf8Len, GoodWords;
    var n, right := |indices| - 2, Indices(c, b);
    WordsInTable(c.table, indices);
    IndicesInTable(c, b);
    if Carries(max, indices, b) {
      CarriedLengths(max, indices, b);
      DataWordsAre(b);
      assert right[1..|right| - 2] == DataWords(b);
      assert indices[..n] == [indices[0]] + indices[1..n] && right[..n] == [right[0]] + right[1..n];
      WordsOfPrefix(c.table, indices, n);
      WordsOfPrefix(c.table, right, n);
      if WordsAt(c.table, indices) == WordsAt(c.table, right) {
        WordsDetermineIndices(c.table, indices, right);
      }
    }
    if Mistyped(c.table, WordsAt(c.table, indices), WordsAt(c.table, right)) {
      WordsOfPrefix(c.table, indices, n);
      WordsOfPrefix(c.table, right, n);
      WordsDetermineIndices(c.table, indices[..n], right[..n]);
      assert indices[..n][0] == right[..n][0];
      assert indices[..n][1..] == indices[1..n] && right[..n][1..] == DataWords(b);
    }
  }

  lemma WordsOfPrefix(table: seq<string>, indices: seq<nat>, n: nat)
    requires |table| == TABLE_SIZE && InTable(indices) && n <= |indices|
    ensures InTable(indices[..n]) && WordsAt(table, indices)[..n] == WordsAt(table, indices[..n])
  {
  }

  ghost predicate MistypedText(c: Codec, max: nat, encoded: string, b: bytes)
    requires GoodTable(c.table) && max <= MAX_DECODED_LEN
  {
    |b| <= max && Mistyped(c.table, SplitWhitespace(encoded), SplitWhitespace(EncodedText(c, b)))
  }

  /** Decoding accepts exactly what encoding produces, within the length allowed. A text that only
      differs in its white space is what the last check turns away, and one that differs only in
      its last two words is what the checksum turns away. */
  method DecodeMnemonic(c: Codec, encoded: string, max: nat) returns (r: Result<bytes, MnemonicError>)
    requires GoodTable(c.table) && max <= MAX_DECODED_LEN
    ensures forall b: bytes :: r == Ok(b) <==> |b| <= max && encoded == EncodedText(c, b)
    ensures r == Err(NonCanonical) <==>
              && Utf8Len(encoded) <= MaxEncodedLen(c.table, max)
              && exists b: bytes :: |b| <= max && encoded != EncodedText(c, b)
                             && SplitWhitespace(encoded) == SplitWhitespace(EncodedText(c, b))
    ensures r == Err(InvalidChecksum) <==>
              && Utf8Len(encoded) <= MaxEncodedLen(c.table, max)
              && exists b: bytes :: MistypedText(c, max, encoded, b)
  {
    hide Utf8Len, MaxWordLen, MaxWordCount, MaxEncodedLen, Indices, EncodedText, SplitWhitespace, WordsAt, Carries;
    hide Summed, GoodWords;
    forall b: bytes | |b| <= max
      ensures |Indices(c, b)| <= MaxWordCount(max) && Indices(c, b) != []
      ensures Utf8Len(EncodedText(c, b)) <= MaxEncodedLen(c.table, max)
      ensures InTable(Indices(c, b)) && SplitWhitespace(EncodedText(c, b)) == WordsAt(c.table, Indices(c, b))
    {
      GuardsAdmitEncoded(c, b, max);
      SplitEncoded(c, b);
      IndicesInTable(c, b);
    }
    if Utf8Len(encoded) > MaxEncodedLen(c.table, max) {
      return Err(EncodedTextTooLarge);
    }
    var found := MnemonicWordIndices(c.table, encoded, MaxWordCount(max));
    if found.Err? {
      forall b: bytes | |b| <= max
        ensures SplitWhitespace(encoded) != SplitWhitespace(EncodedText(c, b))
        ensures !MistypedText(c, max, encoded, b)
      {
        WordsInTable(c.table, Indices(c, b));
      }
      return Err(found.error);
    }
    var indices := found.value;
    forall b: bytes | |b| <= max
      ensures SplitWhitespace(encoded) == SplitWhitespace(EncodedText(c, b)) <==> Encodes(c, max, indices, b)
      ensures MistypedText(c, max, encoded, b) <==> Carries(max, indices, b) && !Encodes(c, max, indices, b)
    {
      SameWordsEncode(c, max, indices, b);
      MistypedExactly(c, max, indices, b);
    }
    forall b: bytes
      ensures Encodes(c, max, indices, b) <==> Carries(max, indices, b) && Summed(c, indices, b)
      ensures Carries(max, indices, b) ==> |b| <= max
    {
      EncodesExactly(c, max, indices, b);
      CarriedIsShort(max, indices, b);
    }
    r := DecodeIndices(c, indices, max);
    hide Encodes;
    if r.Err? {
      return;
    }
    assert Encodes(c, max, indices, r.value);
    var canonical := EncodeMnemonic(c, r.value);
    if encoded != canonical {
      return Err(NonCanonical);
    }
  }

  lemma CarriedIsShort(max: nat, indices: seq<nat>, b: bytes)
    ensures Carries(max, indices, b) ==> |b| <= max && |b| <= USIZE_MAX && |indices| >= MIN_WORD_COUNT
  {
    hide DataWords, PaddingFor;
  }

  lemma SameWordsEncode(c: Codec, max: nat, indices: seq<nat>, b: bytes)
    requires GoodTable(c.table) && InTable(indices) && |b| <= max <= MAX_DECODED_LEN && InTable(Indices(c, b))
    ensures WordsAt(c.table, indices) == WordsAt(c.table, Indices(c, b)) <==> Encodes(c, max, indices, b)
  {
    hide Indices, Utf8Len, GoodWords;
    if WordsAt(c.table, indices) == WordsAt(c.table, Indices(c, b)) {
      WordsDetermineIndices(c.table, indices, Indices(c, b));
    }
  }

  lemma WordsInTable(table: seq<string>, indices: seq<nat>)
    requires |table| == TABLE_SIZE && InTable(indices)
    ensures forall w | w in WordsAt(table, indices) :: w in table
  {
  }

  // ----- consequences -----

  /** A mnemonic determines the bytes it encodes. */
  lemma EncodedTextInjective(c: Codec, a: bytes, b: bytes)
    requires GoodTable(c.table) && |a| * 8 <= USIZE_MAX && |b| * 8 <= USIZE_MAX
    requires EncodedText(c, a) == EncodedText(c, b)
    ensures a == b
  {
    hide Utf8Len, JoinWords, SplitWhitespace;
    SplitEncoded(c, a);
    SplitEncoded(c, b);
    IndicesDetermineBytes(c, a, b);
  }

  lemma IndicesDetermineBytes(c: Codec, a: bytes, b: bytes)
    requires GoodTable(c.table) && |a| * 8 <= USIZE_MAX && |b| * 8 <= USIZE_MAX
    requires InTable(Indices(c, a)) && InTable(Indices(c, b))
    requires WordsAt(c.table, Indices(c, a)) == WordsAt(c.table, Indices(c, b))
    ensures a == b
  {
    hide Utf8Len, Indices, WordsAt, DataWords, ChecksumWords, Spread, BitString, Pow2, Staged;
    WordsDetermineIndices(c.table, Indices(c, a), Indices(c, b));
    EncodedIsCarried(c, a);
    EncodedIsCarried(c, b);
    CarriedLengths(|a|, Indices(c, a), a);
    CarriedLengths(|b|, Indices(c, b), b);
    var pad := PaddingFor(|a|);
    ZerosAreZero(pad);
    ZeroIsStaged(pad);
    RegroupedIs(a, b, 0, pad);
  }

  lemma ZeroIsStaged(pad: nat)
    ensures Staged(0, pad)
  {
  }
}
