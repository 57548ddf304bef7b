/** MACs over secrets: the message that both lanes authenticate, the combined value, and
    verification against every key of a keyset. */
module Tokens {
  import opened Basics
  import opened Bits
  import opened Keysets

  const MAC_VERSION: byte := 1
  const MAC_BODY_SIZE := 32
  const HMAC_LABEL: string := "paranoid/v1/mac-over-secret/hmac-sha256"
  const BLAKE3_LABEL: string := "paranoid/v1/mac-over-secret/blake3"

  /** The keyed hashes of the two lanes, 32 bytes each. */
  datatype Hashes = Hashes(hmac: (bytes, bytes) -> bytes, blake3: (bytes, bytes) -> bytes)

  ghost predicate GoodHashes(h: Hashes) {
    && (forall k, m :: |h.hmac(k, m)| == MAC_BODY_SIZE)
    && (forall k, m :: |h.blake3(k, m)| == MAC_BODY_SIZE)
  }

  function FromBigEndian64(b: bytes): nat
    requires |b| == 8
  {
    b[0] as nat * 0x100_0000_0000_0000 + b[1] as nat * 0x1_0000_0000_0000 + b[2] as nat * 0x100_0000_0000 +
    b[3] as nat * 0x1_0000_0000 + b[4] as nat * 0x100_0000 + b[5] as nat * 0x1_0000 + b[6] as nat * 0x100 + b[7]
  }

  lemma BigEndian64RoundTrip(v: nat)
    requires v <= USIZE_MAX
    ensures FromBigEndian64(BigEndian64(v)) == v
  {
    var v1 := v / 256;
    var v2 := v1 / 256;
    var v3 := v2 / 256;
    var v4 := v3 / 256;
    var v5 := v4 / 256;
    var v6 := v5 / 256;
    var v7 := v6 / 256;
    assert v / 0x1_0000 == v2 && v / 0x100_0000 == v3 && v / 0x1_0000_0000 == v4;
    assert v / 0x100_0000_0000 == v5 && v / 0x1_0000_0000_0000 == v6 && v / 0x100_0000_0000_0000 == v7;
  }

  function Framed(b: bytes): bytes
    requires |b| <= USIZE_MAX
  {
    BigEndian64(|b|) + b
  }

  /** What one lane authenticates. */
  function Message(domain: bytes, context: bytes, secret: bytes): bytes
    requires |context| <= USIZE_MAX && |secret| <= USIZE_MAX
  {
    domain + Framed(context) + Framed(secret)
  }

  lemma FramedPrefix(a: bytes, b: bytes, restA: bytes, restB: bytes)
    requires |a| <= USIZE_MAX && |b| <= USIZE_MAX && Framed(a) + restA == Framed(b) + restB
    ensures a == b && restA == restB
  {
    hide BigEndian64;
    var s := Framed(a) + restA;
    assert s[..8] == BigEndian64(|a|) && s[..8] == BigEndian64(|b|);
    BigEndian64RoundTrip(|a|);
    BigEndian64RoundTrip(|b|);
    assert s[8..8 + |a|] == a && s[8..8 + |b|] == b;
    assert s[8 + |a|..] == restA && s[8 + |b|..] == restB;
  }

  /** One message comes from one context and one secret; nothing can move between the two. */
  lemma MessageInjective(domain: bytes, context: bytes, secret: bytes, context2: bytes, secret2: bytes)
    requires |context| <= USIZE_MAX && |secret| <= USIZE_MAX
    requires |context2| <= USIZE_MAX && |secret2| <= USIZE_MAX
    requires Message(domain, context, secret) == Message(domain, context2, secret2)
    ensures context == context2 && secret == secret2
  {
    hide Framed;
    var a, b := Message(domain, context, secret), Message(domain, context2, secret2);
    assert a[|domain|..] == Framed(context) + Framed(secret);
    assert b[|domain|..] == Framed(context2) + Framed(secret2);
    FramedPrefix(context, context2, Framed(secret), Framed(secret2));
    assert Framed(secret) + [] == Framed(secret) && Framed(secret2) + [] == Framed(secret2);
    FramedPrefix(secret, secret2, [], []);
  }

  /** The lanes never authenticate the same message. */
  lemma LanesAreApart(context: bytes, secret: bytes, context2: bytes, secret2: bytes)
    requires |context| <= USIZE_MAX && |secret| <= USIZE_MAX
    requires |context2| <= USIZE_MAX && |secret2| <= USIZE_MAX
    ensures Message(Ascii(HMAC_LABEL), context, secret) != Message(Ascii(BLAKE3_LABEL), context2, secret2)
  {
    hide Framed;
    var a, b := Message(Ascii(HMAC_LABEL), context, secret), Message(Ascii(BLAKE3_LABEL), context2, secret2);
    assert |HMAC_LABEL| == 39 && |BLAKE3_LABEL| == 34;
    assert HMAC_LABEL[28] == 'h' && BLAKE3_LABEL[28] == 'b';
    assert a[28] == 'h' as int && b[28] == 'b' as int;
  }

  // ----- the MAC -----

  function HmacLane(h: Hashes, context: bytes, secret: bytes, key: Key): bytes
    requires |context| <= USIZE_MAX && |secret| <= USIZE_MAX
  {
    h.hmac(key.hkdf, Message(Ascii(HMAC_LABEL), context, secret))
  }

  function Blake3Lane(h: Hashes, context: bytes, secret: bytes, key: Key): bytes
    requires |context| <= USIZE_MAX && |secret| <= USIZE_MAX
  {
    h.blake3(key.blake3, Message(Ascii(BLAKE3_LABEL), context, secret))
  }

  /** A value is the MAC when it carries the version, and undoing either lane gives the other. */
  ghost predicate IsMac(h: Hashes, context: bytes, secret: bytes, key: Key, mac: bytes)
    requires |context| <= USIZE_MAX && |secret| <= USIZE_MAX
  {
    && |mac| == 1 + MAC_BODY_SIZE && mac[0] == MAC_VERSION
    && |HmacLane(h, context, secret, key)| == MAC_BODY_SIZE && |Blake3Lane(h, context, secret, key)| == MAC_BODY_SIZE
    && forall i | 0 <= i < MAC_BODY_SIZE ::
         mac[1 + i] == BitXor(HmacLane(h, context, secret, key)[i], Blake3Lane(h, context, secret, key)[i])
  }

  /** The MAC in its own words: the version, and then, bit by bit, the difference of two keyed
      hashes, each over its own label, the context and the secret behind their lengths. */
  ghost predicate Authenticates(h: Hashes, context: bytes, secret: bytes, key: Key, mac: bytes)
    requires |context| <= USIZE_MAX && |secret| <= USIZE_MAX
  {
    var framed := BigEndian64(|context|) + context + BigEndian64(|secret|) + secret;
    var hmac := h.hmac(key.hkdf, Ascii("paranoid/v1/mac-over-secret/hmac-sha256") + framed);
    var blake3 := h.blake3(key.blake3, Ascii("paranoid/v1/mac-over-secret/blake3") + framed);
    && |mac| == 33 && mac[0] == 1 && |hmac| == 32 && |blake3| == 32
    && forall i | 0 <= i < 32 :: Flipped(mac[1 + i], hmac[i], blake3[i])
  }

  lemma MessageIs(domain: bytes, context: bytes, secret: bytes)
    requires |context| <= USIZE_MAX && |secret| <= USIZE_MAX
    ensures Message(domain, context, secret) ==
            domain + (BigEndian64(|context|) + context + BigEndian64(|secret|) + secret)
  {
    hide BigEndian64;
  }

  /** There is one MAC for a key, a context and a secret, and this is it. */
  lemma MacExactly(h: Hashes, context: bytes, secret: bytes, key: Key, mac: bytes)
    requires GoodHashes(h) && |context| <= USIZE_MAX && |secret| <= USIZE_MAX
    ensures IsMac(h, context, secret, key, mac) <==> Authenticates(h, context, secret, key, mac)
  {
    hide BitXor, Flipped, Message, BigEndian64;
    MessageIs(Ascii(HMAC_LABEL), context, secret);
    MessageIs(Ascii(BLAKE3_LABEL), context, secret);
    if |mac| == 33 {
      var hmac, blake3 := HmacLane(h, context, secret, key), Blake3Lane(h, context, secret, key);
      forall i | 0 <= i < 32
        ensures mac[1 + i] == BitXor(hmac[i], blake3[i]) <==> Flipped(mac[1 + i], hmac[i], blake3[i])
      {
        FlippedExactly(mac[1 + i], hmac[i], blake3[i]);
      }
    }
  }

  lemma XorOfBytes(a: byte, b: byte)
    ensures BitXor(a, b) < 256
  {
    SmallPowers();
    XorBound(a, b, 8);
  }

  method MacOverSecretBytesForKey(h: Hashes, secret: bytes, context: bytes, key: Key) returns (mac: array<byte>)
    requires GoodHashes(h) && |context| <= USIZE_MAX && |secret| <= USIZE_MAX
    ensures fresh(mac) && IsMac(h, context, secret, key, mac[..])
    ensures Authenticates(h, context, secret, key, mac[..])
  {
    hide Message, BitXor, Authenticates;
    var hmacLane := HmacLane(h, context, secret, key);
    var blake3Lane := Blake3Lane(h, context, secret, key);
    assert |hmacLane| == MAC_BODY_SIZE && |blake3Lane| == MAC_BODY_SIZE;
    mac := new byte[1 + MAC_BODY_SIZE](_ => 0);
    mac[0] := MAC_VERSION;
    for index := 0 to MAC_BODY_SIZE
      invariant mac[0] == MAC_VERSION
      invariant forall i | 0 <= i < index :: mac[1 + i] == BitXor(hmacLane[i], blake3Lane[i])
    {
      XorOfBytes(hmacLane[index], blake3Lane[index]);
      mac[1 + index] := BitXor(hmacLane[index], blake3Lane[index]);
    }
    MacExactly(h, context, secret, key, mac[..]);
  }

  lemma MacIsOne(h: Hashes, context: bytes, secret: bytes, key: Key, a: bytes, b: bytes)
    requires |context| <= USIZE_MAX && |secret| <= USIZE_MAX
    requires IsMac(h, context, secret, key, a) && IsMac(h, context, secret, key, b)
    ensures a == b
  {
    hide HmacLane, Blake3Lane, BitXor;
    forall i | 0 < i < |a|
      ensures a[i] == b[i]
    {
      var k := i - 1;
      assert a[1 + k] == BitXor(HmacLane(h, context, secret, key)[k], Blake3Lane(h, context, secret, key)[k]);
      assert b[1 + k] == BitXor(HmacLane(h, context, secret, key)[k], Blake3Lane(h, context, secret, key)[k]);
    }
  }

  /** Verification compares with every key and accepts exactly the MACs of the keyset's keys. */
  method Verify(h: Hashes, mac: bytes, keys: seq<Key>, secret: bytes, context: bytes) returns (ok: bool)
    requires GoodHashes(h) && |context| <= USIZE_MAX && |secret| <= USIZE_MAX
    ensures ok <==> exists key | key in keys :: Authenticates(h, context, secret, key, mac)
  {
    forall key
      ensures IsMac(h, context, secret, key, mac) <==> Authenticates(h, context, secret, key, mac)
    {
      MacExactly(h, context, secret, key, mac);
    }
    hide IsMac, Authenticates;
    var matches := 0;
    for i := 0 to |keys|
      invariant matches == 0 || matches == 1
      invariant matches == 1 <==> exists key | key in keys[..i] :: IsMac(h, context, secret, key, mac)
    {
      var candidate := MacOverSecretBytesForKey(h, secret, context, keys[i]);
      if IsMac(h, context, secret, keys[i], mac) {
        MacIsOne(h, context, secret, keys[i], candidate[..], mac);
      }
      assert IsMac(h, context, secret, keys[i], mac) <==> candidate[..] == mac;
      var equal := if candidate[..] == mac then 1 else 0;
      matches := if matches == 1 || equal == 1 then 1 else 0;
      assert keys[..i + 1] == keys[..i] + [keys[i]];
    }
    assert keys[..|keys|] == keys;
    return matches == 1;
  }
}
