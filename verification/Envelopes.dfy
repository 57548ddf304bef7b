/**
  Encrypted envelopes: payloads padded to power-of-two buckets, a fixed header, two cipher layers
  that both authenticate the header and the caller's context, and decryption that tries every key
  of a rotating keyset. Ciphers and key derivation are parameters.
 */
module Envelopes {
  import opened Basics
  import opened Keysets

  const MAX_PLAINTEXT_SIZE: nat := 0x10_0000
  const MAX_ASSOCIATED_DATA_SIZE: nat := 0x10_0000
  const TRUE_LENGTH_SIZE := 8
  const MIN_PADDED: nat := 256
  const MAX_PADDED: nat := 0x20_0000
  const TAG_SIZE := 16
  const TAG_OVERHEAD := 32
  const SALT_SIZE := 32
  const INNER_NONCE_SIZE := 24
  const OUTER_NONCE_SIZE := 12
  const HEADER_SIZE := 106
  const MIN_ENVELOPE_SIZE := HEADER_SIZE + MIN_PADDED + TAG_OVERHEAD
  const MAX_ENVELOPE_SIZE := HEADER_SIZE + MAX_PADDED + TAG_OVERHEAD
  const MAGIC: bytes := ['P' as int, 'A' as int, 'R' as int, 'A' as int]
  const VERSION: byte := 1
  const SUITE: byte := 1

  datatype EnvelopeError =
    | PlaintextTooLarge
    | AssociatedDataTooLarge
    | RandomFailed
    | EmptyEnvelope
    | EnvelopeTooLarge
    | EnvelopeTooShort
    | InvalidMagic
    | UnsupportedVersion
    | UnsupportedSuite
    | InvalidLength
    | DecryptionFailed

  datatype Suite = Suite(
    innerKey: (bytes, bytes) -> bytes,
    outerKey: (bytes, bytes) -> bytes,
    sealInner: (bytes, bytes, bytes, bytes) -> bytes,
    openInner: (bytes, bytes, bytes, bytes) -> Option<bytes>,
    sealOuter: (bytes, bytes, bytes, bytes) -> bytes,
    openOuter: (bytes, bytes, bytes, bytes) -> Option<bytes>)

  datatype Fields = Fields(hkdfSalt: bytes, blake3Salt: bytes, innerNonce: bytes, outerNonce: bytes)

  datatype Parsed = Parsed(header: bytes, fields: Fields, ciphertext: bytes)

  // ----- buckets -----

  predicate IsPowerOfTwo(n: nat) {
    n == 1 || (n > 1 && n % 2 == 0 && IsPowerOfTwo(n / 2))
  }

  predicate IsPaddedLen(n: nat) {
    MIN_PADDED <= n <= MAX_PADDED && IsPowerOfTwo(n)
  }

  /** The smallest power of two at least `n`, searched for from `p`. */
  function NextPowerOfTwo(n: nat, p: nat): nat
    requires p > 0
    decreases n - p
  {
    if p >= n then p else NextPowerOfTwo(n, 2 * p)
  }

  function PaddedLen(plaintextLen: nat): Result<nat, EnvelopeError> {
    if plaintextLen > MAX_PLAINTEXT_SIZE then Err(PlaintextTooLarge)
    else
      var len := NextPowerOfTwo(TRUE_LENGTH_SIZE + plaintextLen, 1);
      Ok(if len > MIN_PADDED then len else MIN_PADDED)
  }

  lemma {:induction false} NextPowerOfTwoIs(n: nat, p: nat)
    requires IsPowerOfTwo(p) && (p == 1 || p / 2 < n)
    ensures var r := NextPowerOfTwo(n, p);
            IsPowerOfTwo(r) && n <= r && (r == 1 || r / 2 < n)
    decreases n - p
  {
    if p < n {
      NextPowerOfTwoIs(n, 2 * p);
    }
  }

  lemma {:induction false} PowersDiverge(a: nat, b: nat)
    requires IsPowerOfTwo(a) && IsPowerOfTwo(b) && a < b
    ensures 2 * a <= b
    decreases b
  {
    if a > 1 {
      PowersDiverge(a / 2, b / 2);
    }
  }

  lemma LargestPower()
    ensures IsPowerOfTwo(MIN_PADDED) && IsPowerOfTwo(MAX_PADDED)
  {
    assert IsPowerOfTwo(2) && IsPowerOfTwo(4) && IsPowerOfTwo(8);
    assert IsPowerOfTwo(16) && IsPowerOfTwo(32) && IsPowerOfTwo(64) && IsPowerOfTwo(128);
    assert IsPowerOfTwo(256) && IsPowerOfTwo(512) && IsPowerOfTwo(1024) && IsPowerOfTwo(2048);
    assert IsPowerOfTwo(4096) && IsPowerOfTwo(8192) && IsPowerOfTwo(16384) && IsPowerOfTwo(32768);
    assert IsPowerOfTwo(65536) && IsPowerOfTwo(131072) && IsPowerOfTwo(262144) && IsPowerOfTwo(524288);
    assert IsPowerOfTwo(1048576) && IsPowerOfTwo(2097152);
  }

  /** A plaintext's padded length is the one bucket that holds it and its length, and no smaller
      bucket does. */
  lemma PaddedLenIsTheBucket(plaintextLen: nat, len: nat)
    ensures PaddedLen(plaintextLen) == Ok(len) <==>
            && plaintextLen <= MAX_PLAINTEXT_SIZE && IsPaddedLen(len) && TRUE_LENGTH_SIZE + plaintextLen <= len
            && (len == MIN_PADDED || len / 2 < TRUE_LENGTH_SIZE + plaintextLen)
  {
    if plaintextLen <= MAX_PLAINTEXT_SIZE {
      LargestPower();
      var n := TRUE_LENGTH_SIZE + plaintextLen;
      var next := NextPowerOfTwo(n, 1);
      NextPowerOfTwoIs(n, 1);
      hide IsPowerOfTwo, NextPowerOfTwo;
      var chosen := PaddedLen(plaintextLen).value;
      if chosen > MAX_PADDED {
        PowersDiverge(MAX_PADDED, chosen);
        assert false;
      }
      if IsPowerOfTwo(len) && len != chosen {
        if len < chosen {
          PowersDiverge(len, chosen);
        } else {
          PowersDiverge(chosen, len);
        }
      }
    }
  }

  // ----- lengths in little-endian bytes -----

  function LittleEndian(v: nat, n: nat): (b: bytes)
    ensures |b| == n
    decreases n
  {
    if n == 0 then [] else [v % 256] + LittleEndian(v / 256, n - 1)
  }

  function FromLittleEndian(b: bytes): nat {
    if b == [] then 0 else b[0] as nat + 256 * FromLittleEndian(b[1..])
  }

  lemma {:induction false} ToLittleEndian(b: bytes)
    ensures LittleEndian(FromLittleEndian(b), |b|) == b
  {
    if b != [] {
      ToLittleEndian(b[1..]);
      var v := FromLittleEndian(b);
      assert v % 256 == b[0] && v / 256 == FromLittleEndian(b[1..]);
      assert b == [b[0]] + b[1..];
    }
  }

  function Power256(n: nat): nat {
    if n == 0 then 1 else 256 * Power256(n - 1)
  }

  lemma {:induction false} LittleEndianRoundTrip(v: nat, n: nat)
    requires v < Power256(n)
    ensures FromLittleEndian(LittleEndian(v, n)) == v
    decreases n
  {
    if n > 0 {
      LittleEndianRoundTrip(v / 256, n - 1);
      assert LittleEndian(v, n)[1..] == LittleEndian(v / 256, n - 1);
    }
  }

  /** The length field, least significant byte first. */
  lemma LengthField(v: nat)
    requires v <= MAX_PLAINTEXT_SIZE
    ensures LittleEndian(v, 8) == [v % 256, v / 256 % 256, v / 0x1_0000 % 256, 0, 0, 0, 0, 0]
  {
    assert v / 256 / 256 == v / 0x1_0000 && v / 256 / 256 / 256 == 0;
    LittleEndianZero();
  }

  lemma LittleEndianZero()
    ensures LittleEndian(0, 5) == [0, 0, 0, 0, 0]
  {
  }

  lemma Power256Of8(v: nat)
    requires v <= MAX_PLAINTEXT_SIZE
    ensures v < Power256(8)
  {
    assert Power256(3) == 0x100_0000;
    assert Power256(8) == 256 * (256 * (256 * (256 * (256 * Power256(3)))));
  }

  // ----- padding -----

  /** The payload the ciphers see: the true length, the plaintext, and the random filler's rest. */
  function Padded(plaintext: bytes, filler: bytes): bytes
    requires TRUE_LENGTH_SIZE + |plaintext| <= |filler|
  {
    LittleEndian(|plaintext|, TRUE_LENGTH_SIZE) + plaintext + filler[TRUE_LENGTH_SIZE + |plaintext|..]
  }

  method PadPlaintext(plaintext: bytes, filler: bytes) returns (payload: array<byte>)
    requires TRUE_LENGTH_SIZE + |plaintext| <= |filler|
    ensures fresh(payload) && payload[..] == Padded(plaintext, filler)
  {
    hide LittleEndian;
    payload := new byte[|filler|](i requires 0 <= i < |filler| => filler[i]);
    var length := LittleEndian(|plaintext|, TRUE_LENGTH_SIZE);
    forall i | 0 <= i < TRUE_LENGTH_SIZE {
      payload[i] := length[i];
    }
    forall i | 0 <= i < |plaintext| {
      payload[TRUE_LENGTH_SIZE + i] := plaintext[i];
    }
    var n := TRUE_LENGTH_SIZE + |plaintext|;
    ghost var rest := filler[n..];
    forall i | n <= i < |filler|
      ensures payload[i] == rest[i - n]
    {
      assert rest[i - n] == filler[i];
    }
    ThreeParts(payload[..], length, plaintext, rest);
  }

  lemma ThreeParts(whole: bytes, a: bytes, b: bytes, c: bytes)
    requires |whole| == |a| + |b| + |c|
    requires forall i | 0 <= i < |a| :: whole[i] == a[i]
    requires forall i | 0 <= i < |b| :: whole[|a| + i] == b[i]
    requires forall i | |a| + |b| <= i < |whole| :: whole[i] == c[i - (|a| + |b|)]
    ensures whole == a + b + c
  {
    forall i | 0 <= i < |whole|
      ensures whole[i] == (a + b + c)[i]
    {
      if |a| <= i < |a| + |b| {
        assert whole[|a| + (i - |a|)] == b[i - |a|];
      }
    }
  }

  function Unpadded(payload: bytes): Result<bytes, EnvelopeError> {
    if !IsPaddedLen(|payload|) then Err(DecryptionFailed)
    else
      var plaintextLen := FromLittleEndian(payload[..TRUE_LENGTH_SIZE]);
      if plaintextLen > MAX_PLAINTEXT_SIZE then Err(DecryptionFailed)
      else if PaddedLen(plaintextLen) != Ok(|payload|) then Err(DecryptionFailed)
      else
        PaddedLenIsTheBucket(plaintextLen, |payload|);
        Ok(payload[TRUE_LENGTH_SIZE..TRUE_LENGTH_SIZE + plaintextLen])
  }

  /** The unpadder accepts exactly what the padder makes, and returns what was padded. */
  lemma UnpaddedExactly(payload: bytes, plaintext: bytes)
    ensures Unpadded(payload) == Ok(plaintext) <==>
            && PaddedLen(|plaintext|) == Ok(|payload|) && TRUE_LENGTH_SIZE + |plaintext| <= |payload|
            && payload == Padded(plaintext, payload)
  {
    hide PaddedLen, LittleEndian, FromLittleEndian, IsPowerOfTwo;
    PaddedLenIsTheBucket(|plaintext|, |payload|);
    if Unpadded(payload) == Ok(plaintext) {
      var n := FromLittleEndian(payload[..TRUE_LENGTH_SIZE]);
      PaddedLenIsTheBucket(n, |payload|);
      ToLittleEndian(payload[..TRUE_LENGTH_SIZE]);
      assert |plaintext| == n;
      assert payload == payload[..8] + payload[8..8 + n] + payload[8 + n..];
    }
    if PaddedLen(|plaintext|) == Ok(|payload|) && TRUE_LENGTH_SIZE + |plaintext| <= |payload| {
      if payload == Padded(plaintext, payload) {
        PaddedUnpads(payload, plaintext);
      }
    }
  }

  lemma PaddedUnpads(payload: bytes, plaintext: bytes)
    requires PaddedLen(|plaintext|) == Ok(|payload|) && TRUE_LENGTH_SIZE + |plaintext| <= |payload|
    requires payload == Padded(plaintext, payload)
    ensures Unpadded(payload) == Ok(plaintext)
  {
    hide PaddedLen, LittleEndian, FromLittleEndian, IsPowerOfTwo;
    PaddedLenIsTheBucket(|plaintext|, |payload|);
    assert payload[..8] == LittleEndian(|plaintext|, 8);
    Power256Of8(|plaintext|);
    LittleEndianRoundTrip(|plaintext|, 8);
    assert payload[8..8 + |plaintext|] == plaintext;
  }

  lemma PaddedKeepsFiller(plaintext: bytes, filler: bytes)
    requires TRUE_LENGTH_SIZE + |plaintext| <= |filler|
    ensures Padded(plaintext, Padded(plaintext, filler)) == Padded(plaintext, filler)
    ensures |Padded(plaintext, filler)| == |filler|
  {
    hide LittleEndian;
  }

  // ----- header -----

  predicate GoodFields(f: Fields) {
    |f.hkdfSalt| == SALT_SIZE && |f.blake3Salt| == SALT_SIZE &&
    |f.innerNonce| == INNER_NONCE_SIZE && |f.outerNonce| == OUTER_NONCE_SIZE
  }

  function HeaderBytes(f: Fields): bytes {
    MAGIC + [VERSION, SUITE] + f.hkdfSalt + f.blake3Salt + f.innerNonce + f.outerNonce
  }

  method BuildHeader(f: Fields) returns (header: array<byte>)
    requires GoodFields(f)
    ensures fresh(header) && header[..] == HeaderBytes(f)
  {
    header := new byte[HEADER_SIZE](_ => 0);
    forall i | 0 <= i < 4 {
      header[i] := MAGIC[i];
    }
    header[4] := VERSION;
    header[5] := SUITE;
    forall i | 0 <= i < 32 {
      header[6 + i] := f.hkdfSalt[i];
    }
    forall i | 0 <= i < 32 {
      header[38 + i] := f.blake3Salt[i];
    }
    forall i | 0 <= i < 24 {
      header[70 + i] := f.innerNonce[i];
    }
    forall i | 0 <= i < 12 {
      header[94 + i] := f.outerNonce[i];
    }
    assert header[..6] == MAGIC + [VERSION, SUITE];
    assert header[6..38] == f.hkdfSalt && header[38..70] == f.blake3Salt;
    assert header[70..94] == f.innerNonce && header[94..] == f.outerNonce;
    assert header[..] == header[..6] + header[6..38] + header[38..70] + header[70..94] + header[94..];
  }

  function Parse(e: bytes): Result<Parsed, EnvelopeError> {
    if |e| < MIN_ENVELOPE_SIZE then Err(EnvelopeTooShort)
    else if e[..4] != MAGIC then Err(InvalidMagic)
    else if e[4] != VERSION then Err(UnsupportedVersion)
    else if e[5] != SUITE then Err(UnsupportedSuite)
    else if !IsPaddedLen(|e| - HEADER_SIZE - TAG_OVERHEAD) then Err(InvalidLength)
    else Ok(Parsed(e[..HEADER_SIZE], Fields(e[6..38], e[38..70], e[70..94], e[94..106]), e[HEADER_SIZE..]))
  }

  /** Parsing inverts building, and accepts nothing else. */
  lemma ParseExactly(e: bytes, p: Parsed)
    ensures Parse(e) == Ok(p) <==>
            && GoodFields(p.fields) && p.header == HeaderBytes(p.fields) && e == p.header + p.ciphertext
            && |p.ciphertext| >= TAG_OVERHEAD && IsPaddedLen(|p.ciphertext| - TAG_OVERHEAD)
  {
    hide IsPowerOfTwo;
    if Parse(e) == Ok(p) {
      assert e[..6] == MAGIC + [VERSION, SUITE];
      assert e[..38] == e[..6] + e[6..38] && e[..70] == e[..38] + e[38..70];
      assert e[..94] == e[..70] + e[70..94] && e[..106] == e[..94] + e[94..106];
      assert e == e[..106] + e[106..];
    } else if GoodFields(p.fields) && p.header == HeaderBytes(p.fields) && e == p.header + p.ciphertext
              && |p.ciphertext| >= TAG_OVERHEAD && IsPaddedLen(|p.ciphertext| - TAG_OVERHEAD) {
      HeaderSlices(p.fields, p.ciphertext);
    }
  }

  lemma HeaderSlices(f: Fields, rest: bytes)
    requires GoodFields(f)
    ensures var e := HeaderBytes(f) + rest;
            && |HeaderBytes(f)| == HEADER_SIZE && e[..4] == MAGIC && e[4] == VERSION && e[5] == SUITE
            && e[6..38] == f.hkdfSalt && e[38..70] == f.blake3Salt && e[70..94] == f.innerNonce
            && e[94..106] == f.outerNonce && e[..HEADER_SIZE] == HeaderBytes(f) && e[HEADER_SIZE..] == rest
  {
  }

  // ----- encryption -----

  function LayerData(header: bytes, associatedData: bytes): Result<bytes, EnvelopeError> {
    if |associatedData| > MAX_ASSOCIATED_DATA_SIZE then Err(AssociatedDataTooLarge)
    else Ok(header + associatedData)
  }

  function Sealed(s: Suite, key: Key, f: Fields, layerData: bytes, payload: bytes): bytes {
    s.sealOuter(s.outerKey(key.blake3, f.blake3Salt), f.outerNonce, layerData,
                s.sealInner(s.innerKey(key.hkdf, f.hkdfSalt), f.innerNonce, layerData, payload))
  }

  function Opened(s: Suite, key: Key, f: Fields, layerData: bytes, ciphertext: bytes): Result<bytes, EnvelopeError> {
    match s.openOuter(s.outerKey(key.blake3, f.blake3Salt), f.outerNonce, layerData, ciphertext)
    case None => Err(DecryptionFailed)
    case Some(inner) =>
      match s.openInner(s.innerKey(key.hkdf, f.hkdfSalt), f.innerNonce, layerData, inner)
      case None => Err(DecryptionFailed)
      case Some(payload) => Unpadded(payload)
  }

  /** The randomness one encryption draws, or its failure. */
  datatype Random = Random(filler: nat -> Option<bytes>, fields: Option<Fields>)

  predicate GoodRandom(r: Random, len: nat) {
    && (r.filler(len).Some? ==> |r.filler(len).value| == len)
    && (r.fields.Some? ==> GoodFields(r.fields.value))
  }

  method Encrypt(s: Suite, key: Key, plaintext: bytes, associatedData: bytes, random: Random)
    returns (r: Result<bytes, EnvelopeError>)
    requires PaddedLen(|plaintext|).Ok? ==> GoodRandom(random, PaddedLen(|plaintext|).value)
    ensures |plaintext| > MAX_PLAINTEXT_SIZE ==> r == Err(PlaintextTooLarge)
    ensures |plaintext| <= MAX_PLAINTEXT_SIZE ==>
              var len := PaddedLen(|plaintext|).value;
              if random.filler(len) == None || random.fields == None then r == Err(RandomFailed)
              else if |associatedData| > MAX_ASSOCIATED_DATA_SIZE then r == Err(AssociatedDataTooLarge)
              else TRUE_LENGTH_SIZE + |plaintext| <= len && r == Ok(Envelope(s, key, plaintext, associatedData, random.filler(len).value, random.fields.value))
  {
    hide PaddedLen, Padded, HeaderBytes;
    var len := PaddedLen(|plaintext|);
    if len.Err? {
      PaddedLenIsTotal(|plaintext|);
      return Err(PlaintextTooLarge);
    }
    PaddedLenIsTheBucket(|plaintext|, len.value);
    var filler := random.filler(len.value);
    if filler == None {
      return Err(RandomFailed);
    }
    var payload := PadPlaintext(plaintext, filler.value);
    if random.fields == None {
      return Err(RandomFailed);
    }
    var f := random.fields.value;
    var header := BuildHeader(f);
    var layerData := LayerData(header[..], associatedData);
    if layerData.Err? {
      return Err(layerData.error);
    }
    var inner := s.sealInner(s.innerKey(key.hkdf, f.hkdfSalt), f.innerNonce, layerData.value, payload[..]);
    var ciphertext := s.sealOuter(s.outerKey(key.blake3, f.blake3Salt), f.outerNonce, layerData.value, inner);
    return Ok(header[..] + ciphertext);
  }

  lemma PaddedLenIsTotal(plaintextLen: nat)
    ensures PaddedLen(plaintextLen).Ok? <==> plaintextLen <= MAX_PLAINTEXT_SIZE
    ensures PaddedLen(plaintextLen).Err? ==> PaddedLen(plaintextLen).error == PlaintextTooLarge
  {
    hide NextPowerOfTwo;
  }

  /** What encryption makes of a plaintext with given randomness. */
  function Envelope(s: Suite, key: Key, plaintext: bytes, associatedData: bytes, filler: bytes, f: Fields): bytes
    requires TRUE_LENGTH_SIZE + |plaintext| <= |filler|
  {
    HeaderBytes(f) + Sealed(s, key, f, HeaderBytes(f) + associatedData, Padded(plaintext, filler))
  }

  // ----- decryption -----

  /** The first key that opens the envelope decides. */
  function FirstOpened(s: Suite, keys: seq<Key>, p: Parsed, layerData: bytes): Result<bytes, EnvelopeError> {
    if keys == [] then Err(DecryptionFailed)
    else
      var attempt := Opened(s, keys[0], p.fields, layerData, p.ciphertext);
      if attempt.Ok? then attempt else FirstOpened(s, keys[1..], p, layerData)
  }

  function Decrypted(s: Suite, keys: seq<Key>, e: bytes, associatedData: bytes): Result<bytes, EnvelopeError> {
    if e == [] then Err(EmptyEnvelope)
    else if |e| > MAX_ENVELOPE_SIZE then Err(EnvelopeTooLarge)
    else
      match Parse(e)
      case Err(error) => Err(error)
      case Ok(p) =>
        match LayerData(p.header, associatedData)
        case Err(error) => Err(error)
        case Ok(layerData) => FirstOpened(s, keys, p, layerData)
  }

  /** Every key is tried, whichever one decides. */
  method Decrypt(s: Suite, latestFirstKeys: seq<Key>, e: bytes, associatedData: bytes)
    returns (r: Result<bytes, EnvelopeError>)
    ensures r == Decrypted(s, latestFirstKeys, e, associatedData)
  {
    hide Opened, Parse;
    if e == [] {
      return Err(EmptyEnvelope);
    }
    if |e| > MAX_ENVELOPE_SIZE {
      return Err(EnvelopeTooLarge);
    }
    var parsed := Parse(e);
    if parsed.Err? {
      return Err(parsed.error);
    }
    var p := parsed.value;
    var layerData := LayerData(p.header, associatedData);
    if layerData.Err? {
      return Err(layerData.error);
    }
    var decrypted: Option<bytes> := None;
    for i := 0 to |latestFirstKeys|
      invariant FirstOpened(s, latestFirstKeys, p, layerData.value) ==
                if decrypted.Some? then Ok(decrypted.value)
                else FirstOpened(s, latestFirstKeys[i..], p, layerData.value)
    {
      assert latestFirstKeys[i..][1..] == latestFirstKeys[i + 1..];
      var attempt := Opened(s, latestFirstKeys[i], p.fields, layerData.value, p.ciphertext);
      if attempt.Ok? && decrypted == None {
        decrypted := Some(attempt.value);
      }
    }
    return if decrypted.Some? then Ok(decrypted.value) else Err(DecryptionFailed);
  }

  // ----- round trips -----

  /** Opening undoes sealing, and a tag adds sixteen bytes. */
  ghost predicate Sound(s: Suite) {
    && (forall k, n, a, p :: |s.sealInner(k, n, a, p)| == |p| + TAG_SIZE && s.openInner(k, n, a, s.sealInner(k, n, a, p)) == Some(p))
    && (forall k, n, a, p :: |s.sealOuter(k, n, a, p)| == |p| + TAG_SIZE && s.openOuter(k, n, a, s.sealOuter(k, n, a, p)) == Some(p))
  }

  /** Among the keys of `keys`, the outer layer rejects what another key sealed. */
  ghost predicate RejectsAmong(s: Suite, keys: seq<Key>) {
    forall i, j | 0 <= i < |keys| && 0 <= j < |keys| && keys[i].blake3 != keys[j].blake3 ::
      Rejects(s, keys[i], keys[j])
  }

  ghost predicate Rejects(s: Suite, key: Key, other: Key) {
    forall salt, n, a, p ::
      s.openOuter(s.outerKey(other.blake3, salt), n, a, s.sealOuter(s.outerKey(key.blake3, salt), n, a, p)) == None
  }

  lemma OpenedSealed(s: Suite, key: Key, f: Fields, layerData: bytes, payload: bytes)
    requires Sound(s)
    ensures Opened(s, key, f, layerData, Sealed(s, key, f, layerData, payload)) == Unpadded(payload)
    ensures |Sealed(s, key, f, layerData, payload)| == |payload| + TAG_OVERHEAD
  {
    hide Unpadded;
  }

  lemma OtherKeyRejected(s: Suite, key: Key, other: Key, f: Fields, layerData: bytes, payload: bytes)
    requires Rejects(s, key, other)
    ensures Opened(s, other, f, layerData, Sealed(s, key, f, layerData, payload)).Err?
  {
    hide Unpadded;
  }

  /** A produced envelope has a bucket's length and parses to its parts. */
  lemma EnvelopeParses(s: Suite, key: Key, plaintext: bytes, associatedData: bytes, filler: bytes, f: Fields)
    requires Sound(s) && GoodFields(f) && PaddedLen(|plaintext|) == Ok(|filler|)
    requires TRUE_LENGTH_SIZE + |plaintext| <= |filler|
    ensures var e := Envelope(s, key, plaintext, associatedData, filler, f);
            && |e| == HEADER_SIZE + |filler| + TAG_OVERHEAD && MIN_ENVELOPE_SIZE <= |e| <= MAX_ENVELOPE_SIZE
            && Parse(e) == Ok(Parsed(HeaderBytes(f), f,
                 Sealed(s, key, f, HeaderBytes(f) + associatedData, Padded(plaintext, filler))))
  {
    hide Parse, Sealed, Padded, PaddedLen, IsPowerOfTwo, HeaderBytes, Sound;
    PaddedLenIsTheBucket(|plaintext|, |filler|);
    PaddedKeepsFiller(plaintext, filler);
    OpenedSealed(s, key, f, HeaderBytes(f) + associatedData, Padded(plaintext, filler));
    HeaderSlices(f, []);
    ParseExactly(Envelope(s, key, plaintext, associatedData, filler, f),
                 Parsed(HeaderBytes(f), f, Sealed(s, key, f, HeaderBytes(f) + associatedData, Padded(plaintext, filler))));
  }

  lemma {:induction false} FirstOpenedSkips(s: Suite, keys: seq<Key>, i: nat, p: Parsed, layerData: bytes)
    requires i < |keys| && Opened(s, keys[i], p.fields, layerData, p.ciphertext).Ok?
    requires forall j | 0 <= j < i :: Opened(s, keys[j], p.fields, layerData, p.ciphertext).Err?
    ensures FirstOpened(s, keys, p, layerData) == Opened(s, keys[i], p.fields, layerData, p.ciphertext)
    decreases i
  {
    hide Opened;
    if i > 0 {
      assert forall j | 0 <= j < i - 1 :: keys[1..][j] == keys[j + 1];
      FirstOpenedSkips(s, keys[1..], i - 1, p, layerData);
    }
  }

  /** Whatever the rotation, a keyset that still holds the encrypting key recovers the plaintext,
      as long as no newer key of it opens the envelope too. */
  lemma DecryptsUnlessNewerKeyOpens(s: Suite, keys: seq<Key>, i: nat, plaintext: bytes, associatedData: bytes, filler: bytes, f: Fields)
    requires Sound(s) && GoodFields(f) && PaddedLen(|plaintext|) == Ok(|filler|)
    requires TRUE_LENGTH_SIZE + |plaintext| <= |filler| && |associatedData| <= MAX_ASSOCIATED_DATA_SIZE
    requires i < |keys|
    requires var layerData := HeaderBytes(f) + associatedData;
             forall j | 0 <= j < i ::
               Opened(s, keys[j], f, layerData, Sealed(s, keys[i], f, layerData, Padded(plaintext, filler))).Err?
    ensures Decrypted(s, keys, Envelope(s, keys[i], plaintext, associatedData, filler, f), associatedData) == Ok(plaintext)
  {
    var layerData := HeaderBytes(f) + associatedData;
    var payload := Padded(plaintext, filler);
    EnvelopeParses(s, keys[i], plaintext, associatedData, filler, f);
    OpenedSealed(s, keys[i], f, layerData, payload);
    PaddedKeepsFiller(plaintext, filler);
    UnpaddedExactly(payload, plaintext);
    hide Opened, Sealed, Padded, PaddedLen, Parse, HeaderBytes, Sound, Unpadded;
    FirstOpenedSkips(s, keys, i, Parsed(HeaderBytes(f), f, Sealed(s, keys[i], f, layerData, payload)), layerData);
  }

  /** With ciphers that tell the keys of the keyset apart, every keyset of distinct keys that still
      holds the encrypting key recovers the plaintext, however many newer keys it has gained. */
  lemma DecryptsUnderRotation(s: Suite, keys: seq<Key>, key: Key, plaintext: bytes, associatedData: bytes, filler: bytes, f: Fields)
    requires Sound(s) && RejectsAmong(s, keys) && GoodFields(f)
    requires PaddedLen(|plaintext|) == Ok(|filler|) && TRUE_LENGTH_SIZE + |plaintext| <= |filler|
    requires |associatedData| <= MAX_ASSOCIATED_DATA_SIZE
    requires key in keys && forall i, j | 0 <= i < j < |keys| :: keys[i].blake3 != keys[j].blake3
    ensures Decrypted(s, keys, Envelope(s, key, plaintext, associatedData, filler, f), associatedData) == Ok(plaintext)
  {
    hide Opened, Sealed, Padded, PaddedLen, HeaderBytes, Sound, Decrypted, Envelope, Rejects;
    var i :| 0 <= i < |keys| && keys[i] == key;
    var layerData := HeaderBytes(f) + associatedData;
    forall j | 0 <= j < i
      ensures Opened(s, keys[j], f, layerData, Sealed(s, keys[i], f, layerData, Padded(plaintext, filler))).Err?
    {
      OtherKeyRejected(s, keys[i], keys[j], f, layerData, Padded(plaintext, filler));
    }
    DecryptsUnlessNewerKeyOpens(s, keys, i, plaintext, associatedData, filler, f);
  }

  lemma {:induction false} NothingOpened(s: Suite, keys: seq<Key>, p: Parsed, layerData: bytes)
    requires forall k | k in keys :: Opened(s, k, p.fields, layerData, p.ciphertext).Err?
    ensures FirstOpened(s, keys, p, layerData) == Err(DecryptionFailed)
  {
    hide Opened;
    if keys != [] {
      assert keys[0] in keys && forall k | k in keys[1..] :: k in keys;
      NothingOpened(s, keys[1..], p, layerData);
    }
  }

  /** A keyset that no longer holds the key does not decrypt, however many keys it has. */
  lemma RetiredKeyFails(s: Suite, keys: seq<Key>, key: Key, plaintext: bytes, associatedData: bytes, filler: bytes, f: Fields)
    requires RejectsAmong(s, [key] + keys) && (forall k | k in keys :: k.blake3 != key.blake3)
    requires GoodFields(f) && TRUE_LENGTH_SIZE + |plaintext| <= |filler|
    ensures Decrypted(s, keys, Envelope(s, key, plaintext, associatedData, filler, f), associatedData).Err?
    ensures Sound(s) && PaddedLen(|plaintext|) == Ok(|filler|) && |associatedData| <= MAX_ASSOCIATED_DATA_SIZE ==>
              Decrypted(s, keys, Envelope(s, key, plaintext, associatedData, filler, f), associatedData) == Err(DecryptionFailed)
  {
    hide Opened, Sealed, HeaderBytes, Padded, PaddedLen, Rejects, IsPowerOfTwo, Sound, FirstOpened;
    var layerData, payload := HeaderBytes(f) + associatedData, Padded(plaintext, filler);
    var e := Envelope(s, key, plaintext, associatedData, filler, f);
    if Sound(s) && PaddedLen(|plaintext|) == Ok(|filler|) {
      EnvelopeParses(s, key, plaintext, associatedData, filler, f);
    }
    if Parse(e).Ok? {
      var p := Parse(e).value;
      HeaderSlices(f, Sealed(s, key, f, layerData, payload));
      assert p == Parsed(HeaderBytes(f), f, Sealed(s, key, f, layerData, payload));
      forall k | k in keys
        ensures Opened(s, k, p.fields, layerData, p.ciphertext).Err?
      {
        var all := [key] + keys;
        var i :| 0 <= i < |keys| && keys[i] == k;
        assert all[0] == key && all[i + 1] == k;
        assert Rejects(s, all[0], all[i + 1]);
        OtherKeyRejected(s, key, k, f, layerData, payload);
      }
      NothingOpened(s, keys, p, layerData);
    }
  }

  /** A keyset derived from distinct root keys recovers what any of its keys encrypted, unless the
      derivation itself collides on two of its own inputs. */
  lemma KeysetDecryptsItsOwn(s: Suite, d: Derivation, roots: seq<bytes>, chain: seq<bytes>, k: Keyset, i: nat,
                             plaintext: bytes, associatedData: bytes, filler: bytes, f: Fields)
    requires Sound(s) && RejectsAmong(s, k.latestFirstKeys) && GoodFields(f)
    requires Distinct(roots) && IsKeyset(d, roots, chain, k)
    requires PaddedLen(|plaintext|) == Ok(|filler|) && TRUE_LENGTH_SIZE + |plaintext| <= |filler|
    requires |associatedData| <= MAX_ASSOCIATED_DATA_SIZE && i < |k.latestFirstKeys|
    ensures Decrypted(s, k.latestFirstKeys, Envelope(s, k.latestFirstKeys[i], plaintext, associatedData, filler, f), associatedData)
            == Ok(plaintext)
         || RootsCollide(d.blake3, roots, chain)
  {
    hide *;
    if !RootsCollide(d.blake3, roots, chain) {
      forall x, y | 0 <= x < y < |k.latestFirstKeys|
        ensures k.latestFirstKeys[x].blake3 != k.latestFirstKeys[y].blake3
      {
        KeysetKeysAreDistinct(d, roots, chain, k, x, y);
      }
      DecryptsUnderRotation(s, k.latestFirstKeys, k.latestFirstKeys[i], plaintext, associatedData, filler, f);
    }
  }

  // ----- what decryption is -----

  /** The shape every envelope has, byte by byte. */
  predicate IsEnvelope(e: bytes) {
    && MIN_ENVELOPE_SIZE <= |e| <= MAX_ENVELOPE_SIZE && e[..4] == Ascii("PARA") && e[4] == 1 && e[5] == 1
    && IsPaddedLen(|e| - HEADER_SIZE - TAG_OVERHEAD)
  }

  /** A key opens both layers, each under its own derived key and nonce and with the header and the
      caller's context, and the payload is the plaintext behind its length, in its bucket. */
  predicate OpensTo(s: Suite, key: Key, e: bytes, associatedData: bytes, inner: bytes, payload: bytes, plaintext: bytes) {
    && |e| >= HEADER_SIZE
    && s.openOuter(s.outerKey(key.blake3, e[38..70]), e[94..106], e[..106] + associatedData, e[106..]) == Some(inner)
    && s.openInner(s.innerKey(key.hkdf, e[6..38]), e[70..94], e[..106] + associatedData, inner) == Some(payload)
    && PaddedLen(|plaintext|) == Ok(|payload|) && 8 + |plaintext| <= |payload|
    && payload[..8] == [|plaintext| % 256, |plaintext| / 256 % 256, |plaintext| / 0x1_0000 % 256, 0, 0, 0, 0, 0]
    && payload[8..8 + |plaintext|] == plaintext
  }

  ghost predicate OpensWith(s: Suite, key: Key, e: bytes, associatedData: bytes, plaintext: bytes) {
    exists inner, payload :: OpensTo(s, key, e, associatedData, inner, payload, plaintext)
  }

  ghost predicate Opens(s: Suite, key: Key, e: bytes, associatedData: bytes) {
    exists plaintext :: OpensWith(s, key, e, associatedData, plaintext)
  }

  lemma PayloadIs(payload: bytes, plaintext: bytes)
    ensures Unpadded(payload) == Ok(plaintext) <==>
            && PaddedLen(|plaintext|) == Ok(|payload|) && 8 + |plaintext| <= |payload|
            && payload[..8] == [|plaintext| % 256, |plaintext| / 256 % 256, |plaintext| / 0x1_0000 % 256, 0, 0, 0, 0, 0]
            && payload[8..8 + |plaintext|] == plaintext
  {
    UnpaddedExactly(payload, plaintext);
    PaddedLenIsTotal(|plaintext|);
    if |plaintext| <= MAX_PLAINTEXT_SIZE {
      LengthField(|plaintext|);
    }
    hide PaddedLen, LittleEndian, IsPowerOfTwo, Unpadded;
    if PaddedLen(|plaintext|) == Ok(|payload|) && 8 + |plaintext| <= |payload| {
      var n := 8 + |plaintext|;
      assert payload == payload[..8] + payload[8..n] + payload[n..];
      if payload == Padded(plaintext, payload) {
        assert payload[..8] == LittleEndian(|plaintext|, 8) && payload[8..n] == plaintext;
      }
    }
  }

  lemma OpenedExactly(s: Suite, key: Key, e: bytes, p: Parsed, associatedData: bytes, plaintext: bytes)
    requires Parse(e) == Ok(p)
    ensures Opened(s, key, p.fields, p.header + associatedData, p.ciphertext) == Ok(plaintext) <==>
            OpensWith(s, key, e, associatedData, plaintext)
  {
    hide PaddedLen, LittleEndian, IsPowerOfTwo, Unpadded;
    var outer := s.openOuter(s.outerKey(key.blake3, e[38..70]), e[94..106], e[..106] + associatedData, e[106..]);
    if outer.Some? {
      var inner := s.openInner(s.innerKey(key.hkdf, e[6..38]), e[70..94], e[..106] + associatedData, outer.value);
      if inner.Some? {
        PayloadIs(inner.value, plaintext);
        assert Unpadded(inner.value) == Ok(plaintext) <==>
               OpensTo(s, key, e, associatedData, outer.value, inner.value, plaintext);
      }
    }
  }

  lemma {:induction false} FirstOpenedExactly(s: Suite, keys: seq<Key>, p: Parsed, layerData: bytes, plaintext: bytes)
    ensures FirstOpened(s, keys, p, layerData) == Ok(plaintext) <==>
            exists i :: 0 <= i < |keys| && Opened(s, keys[i], p.fields, layerData, p.ciphertext) == Ok(plaintext)
                     && forall j | 0 <= j < i :: Opened(s, keys[j], p.fields, layerData, p.ciphertext).Err?
    ensures FirstOpened(s, keys, p, layerData).Err? <==>
            forall k | k in keys :: Opened(s, k, p.fields, layerData, p.ciphertext).Err?
    ensures FirstOpened(s, keys, p, layerData).Err? ==> FirstOpened(s, keys, p, layerData).error == DecryptionFailed
  {
    hide Opened;
    if keys != [] {
      var rest := keys[1..];
      FirstOpenedExactly(s, rest, p, layerData, plaintext);
      assert keys[0] in keys && forall k | k in keys :: k == keys[0] || k in rest;
      if i :| 0 <= i < |keys| && Opened(s, keys[i], p.fields, layerData, p.ciphertext) == Ok(plaintext)
              && forall j | 0 <= j < i :: Opened(s, keys[j], p.fields, layerData, p.ciphertext).Err? {
        FirstOpenedSkips(s, keys, i, p, layerData);
      }
      if FirstOpened(s, keys, p, layerData) == Ok(plaintext) && Opened(s, keys[0], p.fields, layerData, p.ciphertext).Err? {
        var i :| 0 <= i < |rest| && Opened(s, rest[i], p.fields, layerData, p.ciphertext) == Ok(plaintext)
                 && forall j | 0 <= j < i :: Opened(s, rest[j], p.fields, layerData, p.ciphertext).Err?;
        assert keys[i + 1] == rest[i] && forall j | 0 < j < i + 1 :: keys[j] == rest[j - 1];
      }
    }
  }

  /** Decryption returns a plaintext exactly when the text is an envelope, the context is not too
      long, some key opens it to that plaintext and no newer key opens it at all; every error is
      returned for its own reason, and failure to decrypt only when no key opens the envelope. */
  lemma DecryptsExactly(s: Suite, keys: seq<Key>, e: bytes, associatedData: bytes, plaintext: bytes)
    ensures Decrypted(s, keys, e, associatedData) == Ok(plaintext) <==>
            && IsEnvelope(e) && |associatedData| <= MAX_ASSOCIATED_DATA_SIZE
            && exists i :: 0 <= i < |keys| && OpensWith(s, keys[i], e, associatedData, plaintext)
                        && forall j | 0 <= j < i :: !Opens(s, keys[j], e, associatedData)
    ensures Decrypted(s, keys, e, associatedData) == Err(DecryptionFailed) <==>
            && IsEnvelope(e) && |associatedData| <= MAX_ASSOCIATED_DATA_SIZE
            && forall k | k in keys :: !Opens(s, k, e, associatedData)
  {
    hide Opened, OpensWith, PaddedLen, IsPowerOfTwo, FirstOpened;
    ShapeDecides(s, keys, e, associatedData);
    if IsEnvelope(e) && |associatedData| <= MAX_ASSOCIATED_DATA_SIZE {
      var p := Parse(e).value;
      var layerData := p.header + associatedData;
      forall k
        ensures Opened(s, k, p.fields, layerData, p.ciphertext).Ok? <==> Opens(s, k, e, associatedData)
        ensures Opened(s, k, p.fields, layerData, p.ciphertext) == Ok(plaintext) <==> OpensWith(s, k, e, associatedData, plaintext)
      {
        OpenedExactly(s, k, e, p, associatedData, plaintext);
        if Opened(s, k, p.fields, layerData, p.ciphertext).Ok? {
          OpenedExactly(s, k, e, p, associatedData, Opened(s, k, p.fields, layerData, p.ciphertext).value);
        }
        if Opens(s, k, e, associatedData) {
          var other :| OpensWith(s, k, e, associatedData, other);
          OpenedExactly(s, k, e, p, associatedData, other);
        }
      }
      FirstOpenedExactly(s, keys, p, layerData, plaintext);
    }
  }

  /** The reasons that do not depend on any key, in the order in which they are looked for. */
  function ShapeError(e: bytes, associatedData: bytes): Option<EnvelopeError> {
    if |e| == 0 then Some(EmptyEnvelope)
    else if |e| > 0x20_0000 + 138 then Some(EnvelopeTooLarge)
    else if |e| < 256 + 138 then Some(EnvelopeTooShort)
    else if e[0] != 0x50 || e[1] != 0x41 || e[2] != 0x52 || e[3] != 0x41 then Some(InvalidMagic)
    else if e[4] != 1 then Some(UnsupportedVersion)
    else if e[5] != 1 then Some(UnsupportedSuite)
    else if !IsPowerOfTwo(|e| - 138) then Some(InvalidLength)
    else if |associatedData| > 0x10_0000 then Some(AssociatedDataTooLarge)
    else None
  }

  lemma ShapeDecides(s: Suite, keys: seq<Key>, e: bytes, associatedData: bytes)
    ensures ShapeError(e, associatedData) == None <==> IsEnvelope(e) && |associatedData| <= MAX_ASSOCIATED_DATA_SIZE
    ensures match ShapeError(e, associatedData)
            case Some(error) => Decrypted(s, keys, e, associatedData) == Err(error)
            case None =>
              && Parse(e).Ok? && Parse(e).value.header == e[..106]
              && Decrypted(s, keys, e, associatedData) == FirstOpened(s, keys, Parse(e).value, e[..106] + associatedData)
              && (Decrypted(s, keys, e, associatedData).Ok? || Decrypted(s, keys, e, associatedData) == Err(DecryptionFailed))
  {
    hide IsPowerOfTwo, Opened;
    if |e| >= MIN_ENVELOPE_SIZE {
      assert e[..4] == [e[0], e[1], e[2], e[3]];
      assert Ascii("PARA") == [0x50, 0x41, 0x52, 0x41] == MAGIC;
      if Parse(e).Ok? {
        FirstOpenedFails(s, keys, Parse(e).value, e[..106] + associatedData);
      }
    }
  }

  lemma {:induction false} FirstOpenedFails(s: Suite, keys: seq<Key>, p: Parsed, layerData: bytes)
    ensures FirstOpened(s, keys, p, layerData).Ok? || FirstOpened(s, keys, p, layerData) == Err(DecryptionFailed)
  {
    hide Opened;
    if keys != [] {
      FirstOpenedFails(s, keys[1..], p, layerData);
    }
  }

  // ----- ciphers that behave -----

  function KeyIndex(keys: seq<Key>, blake3: bytes): (i: nat)
    ensures i <= |keys| && (i < |keys| ==> keys[i].blake3 == blake3)
    ensures i == |keys| ==> forall k | k in keys :: k.blake3 != blake3
  {
    if keys == [] || keys[0].blake3 == blake3 then 0 else 1 + KeyIndex(keys[1..], blake3)
  }

  function Tag(keys: seq<Key>, derived: bytes): (tag: bytes)
    requires |keys| < 256
    ensures |tag| == TAG_SIZE
  {
    [KeyIndex(keys, derived)] + seq(TAG_SIZE - 1, _ => 0)
  }

  function WithTag(tag: bytes, p: bytes): bytes {
    p + tag
  }

  function WithoutTag(tag: bytes, c: bytes): Option<bytes> {
    if |c| >= |tag| && c[|c| - |tag|..] == tag then Some(c[..|c| - |tag|]) else None
  }

  lemma TagComesOff(tag: bytes, other: bytes, p: bytes)
    requires |tag| == |other|
    ensures WithoutTag(tag, WithTag(tag, p)) == Some(p)
    ensures tag != other ==> WithoutTag(other, WithTag(tag, p)) == None
  {
    assert (p + tag)[|p|..] == tag && (p + tag)[..|p|] == p;
  }

  /** A suite whose tag names the key. */
  function TaggingSuite(keys: seq<Key>): Suite
    requires |keys| < 256
  {
    Suite((key, salt) => key, (key, salt) => key,
          (key, n, a, p) => WithTag(seq(TAG_SIZE, _ => 0), p), (key, n, a, c) => WithoutTag(seq(TAG_SIZE, _ => 0), c),
          (key, n, a, p) => WithTag(Tag(keys, key), p), (key, n, a, c) => WithoutTag(Tag(keys, key), c))
  }

  /** What is asked of the ciphers can be had: for every keyset, whatever key it has retired, there
      are ciphers that open what they seal and tell the keys apart. */
  lemma RotationIsPossible(keys: seq<Key>) returns (s: Suite)
    requires |keys| < 256
    ensures Sound(s) && RejectsAmong(s, keys)
  {
    s := TaggingSuite(keys);
    forall k, n, a, p
      ensures |s.sealInner(k, n, a, p)| == |p| + TAG_SIZE && s.openInner(k, n, a, s.sealInner(k, n, a, p)) == Some(p)
      ensures |s.sealOuter(k, n, a, p)| == |p| + TAG_SIZE && s.openOuter(k, n, a, s.sealOuter(k, n, a, p)) == Some(p)
    {
      TagComesOff(seq(TAG_SIZE, _ => 0), seq(TAG_SIZE, _ => 0), p);
      TagComesOff(Tag(keys, k), Tag(keys, k), p);
    }
    forall i, j | 0 <= i < |keys| && 0 <= j < |keys| && keys[i].blake3 != keys[j].blake3
      ensures Rejects(s, keys[i], keys[j])
    {
      TagsDiffer(keys, i, j);
      forall salt, n, a, p
        ensures s.openOuter(s.outerKey(keys[j].blake3, salt), n, a, s.sealOuter(s.outerKey(keys[i].blake3, salt), n, a, p)) == None
      {
        TagComesOff(Tag(keys, keys[i].blake3), Tag(keys, keys[j].blake3), p);
      }
    }
  }

  lemma TagsDiffer(keys: seq<Key>, i: nat, j: nat)
    requires |keys| < 256 && i < |keys| && j < |keys| && keys[i].blake3 != keys[j].blake3
    ensures Tag(keys, keys[i].blake3) != Tag(keys, keys[j].blake3)
  {
    assert keys[i] in keys && keys[j] in keys;
    assert Tag(keys, keys[i].blake3)[0] == KeyIndex(keys, keys[i].blake3);
    assert Tag(keys, keys[j].blake3)[0] == KeyIndex(keys, keys[j].blake3);
  }

  /** The authenticated data determines header and context: the header's length is fixed. */
  lemma LayerDataInjective(f: Fields, context: bytes, f2: Fields, context2: bytes)
    requires GoodFields(f) && GoodFields(f2)
    requires HeaderBytes(f) + context == HeaderBytes(f2) + context2
    ensures f == f2 && context == context2
  {
    HeaderSlices(f, context);
    HeaderSlices(f2, context2);
  }
}
