/**
  Keysets and their purposes: child keysets, the framing of what every derivation binds, and what
  a purpose string and a derived key say about the chain of purposes behind them.
 */
module Keysets {
  import opened Basics

  const MAX_PURPOSE_LEN := 255
  const MAX_KEYSET_KEYS := 16
  const SLASH: byte := '/' as int

  datatype KeysetError =
    | EmptyPurpose
    | PurposeTooLong(actual: nat)
    | InvalidPurposeByte(index: nat)
    | TooManyKeys
    | EmptyKeyset
    | DuplicateKey(index: nat)

  // ----- purposes -----

  predicate PurposeByte(b: byte) {
    0x21 <= b <= 0x7E && b != SLASH
  }

  predicate ValidPurpose(p: bytes) {
    0 < |p| <= MAX_PURPOSE_LEN && forall i | 0 <= i < |p| :: PurposeByte(p[i])
  }

  method ValidatePurpose(purpose: bytes) returns (r: Result<(), KeysetError>)
    ensures r.Ok? <==> ValidPurpose(purpose)
    ensures purpose == [] ==> r == Err(EmptyPurpose)
    ensures |purpose| > MAX_PURPOSE_LEN ==> r == Err(PurposeTooLong(|purpose|))
    ensures r.Err? && r.error.InvalidPurposeByte? ==>
              r.error.index < |purpose| && !PurposeByte(purpose[r.error.index]) &&
              forall i | 0 <= i < r.error.index :: PurposeByte(purpose[i])
  {
    if purpose == [] {
      return Err(EmptyPurpose);
    }
    if |purpose| > MAX_PURPOSE_LEN {
      return Err(PurposeTooLong(|purpose|));
    }
    for index := 0 to |purpose|
      invariant forall i | 0 <= i < index :: PurposeByte(purpose[i])
    {
      if purpose[index] == SLASH || !(0x21 <= purpose[index] <= 0x7E) {
        return Err(InvalidPurposeByte(index));
      }
    }
    return Ok(());
  }

  /** The purpose of a child keyset. */
  method ForChild(purpose: bytes, child: bytes) returns (r: Result<bytes, KeysetError>)
    ensures r.Ok? <==> ValidPurpose(child) && |purpose| + 1 + |child| <= MAX_PURPOSE_LEN
    ensures r.Ok? ==> r.value == purpose + Ascii("/") + child
    ensures ValidPurpose(child) && r.Err? ==> r.error == PurposeTooLong(|purpose| + 1 + |child|)
  {
    var valid := ValidatePurpose(child);
    if valid.Err? {
      return Err(valid.error);
    }
    var combinedLen := |purpose| + 1 + |child|;
    if combinedLen > MAX_PURPOSE_LEN {
      return Err(PurposeTooLong(combinedLen));
    }
    var combined := purpose;
    combined := combined + [SLASH];
    combined := combined + child;
    return Ok(combined);
  }

  /** The purpose string of a chain: the first purpose and those of the children, in order. */
  function PurposeOf(chain: seq<bytes>): bytes
    requires chain != []
  {
    if |chain| == 1 then chain[0] else PurposeOf(chain[..|chain| - 1]) + [SLASH] + chain[|chain| - 1]
  }

  predicate ValidLinks(chain: seq<bytes>) {
    chain != [] && forall p | p in chain :: ValidPurpose(p)
  }

  /** A chain that can be derived: valid links, and no step beyond the length limit. */
  predicate Derivable(chain: seq<bytes>) {
    ValidLinks(chain) && |PurposeOf(chain)| <= MAX_PURPOSE_LEN
  }

  lemma LastLink(chain: seq<bytes>)
    requires ValidLinks(chain)
    ensures var text, last := PurposeOf(chain), chain[|chain| - 1];
            && 0 < |last| <= |text| && last == text[|text| - |last|..]
            && (|chain| == 1 ==> text == last)
            && (|chain| > 1 ==> |last| < |text| && text[|text| - |last| - 1] == SLASH)
            && (|chain| > 1 ==> PurposeOf(chain[..|chain| - 1]) == text[..|text| - |last| - 1])
  {
    var last := chain[|chain| - 1];
    assert last in chain && ValidPurpose(last);
  }

  lemma NoSlashInLastLink(chain: seq<bytes>, i: nat)
    requires ValidLinks(chain) && |PurposeOf(chain)| - |chain[|chain| - 1]| <= i < |PurposeOf(chain)|
    ensures PurposeOf(chain)[i] != SLASH
  {
    LastLink(chain);
    var text, last := PurposeOf(chain), chain[|chain| - 1];
    assert last in chain && ValidPurpose(last);
    assert text[i] == last[i - (|text| - |last|)] && PurposeByte(text[i]);
  }

  lemma LastLinkNoLonger(a: seq<bytes>, b: seq<bytes>)
    requires ValidLinks(a) && ValidLinks(b) && PurposeOf(a) == PurposeOf(b)
    ensures |b[|b| - 1]| <= |a[|a| - 1]|
  {
    hide PurposeOf, ValidPurpose;
    LastLink(a);
    LastLink(b);
    if |a| > 1 && |b[|b| - 1]| > |a[|a| - 1]| {
      NoSlashInLastLink(b, |PurposeOf(a)| - |a[|a| - 1]| - 1);
    }
  }

  /** A keyset's purpose string determines its whole chain of child purposes. */
  lemma {:induction false} PurposeDeterminesChain(a: seq<bytes>, b: seq<bytes>)
    requires ValidLinks(a) && ValidLinks(b) && PurposeOf(a) == PurposeOf(b)
    ensures a == b
    decreases |a|
  {
    hide PurposeOf, ValidPurpose;
    LastLinkNoLonger(a, b);
    LastLinkNoLonger(b, a);
    LastLink(a);
    LastLink(b);
    if |a| > 1 && |b| > 1 {
      PurposeDeterminesChain(a[..|a| - 1], b[..|b| - 1]);
      assert a == a[..|a| - 1] + [a[|a| - 1]] && b == b[..|b| - 1] + [b[|b| - 1]];
    } else {
      assert |a| == 1 ==> a == [a[0]];
      assert |b| == 1 ==> b == [b[0]];
    }
  }

  // ----- framing -----

  /** A length cast to sixteen bits, big-endian: what does not fit is cut off. */
  function BigEndian16(v: nat): (b: bytes)
    ensures |b| == 2
  {
    [v / 256 % 256, v % 256]
  }

  function LengthPrefixed(b: bytes): bytes {
    BigEndian16(|b|) + b
  }

  lemma PrefixIs(b: bytes)
    requires |b| <= MAX_PURPOSE_LEN
    ensures LengthPrefixed(b) == [0, |b|] + b
  {
  }

  /** What a child derivation binds. */
  function ChildContext(parent: bytes, child: bytes): bytes {
    LengthPrefixed(parent) + LengthPrefixed(child)
  }

  /** Within the lengths of purposes the cast cuts nothing off. */
  lemma LengthCastIsExact(b: bytes, c: bytes, restB: bytes, restC: bytes)
    requires |b| <= MAX_PURPOSE_LEN && |c| <= MAX_PURPOSE_LEN
    requires LengthPrefixed(b) + restB == LengthPrefixed(c) + restC
    ensures b == c && restB == restC
  {
    var s := LengthPrefixed(b) + restB;
    assert s[0] == |b| / 256 % 256 && s[1] == |b| % 256;
    assert s[0] == |c| / 256 % 256 && s[1] == |c| % 256;
    assert s[2..2 + |b|] == b && s[2..2 + |c|] == c;
    assert s[2 + |b|..] == restB && s[2 + |c|..] == restC;
  }

  /** Different parents or children are never bound the same way. */
  lemma ChildContextInjective(parent: bytes, child: bytes, parent2: bytes, child2: bytes)
    requires |parent| <= MAX_PURPOSE_LEN && |child| <= MAX_PURPOSE_LEN
    requires |parent2| <= MAX_PURPOSE_LEN && |child2| <= MAX_PURPOSE_LEN
    requires ChildContext(parent, child) == ChildContext(parent2, child2)
    ensures parent == parent2 && child == child2
  {
    LengthCastIsExact(parent, parent2, LengthPrefixed(child), LengthPrefixed(child2));
    assert LengthPrefixed(child) + [] == LengthPrefixed(child) && LengthPrefixed(child2) + [] == LengthPrefixed(child2);
    LengthCastIsExact(child, child2, [], []);
  }

  /** Sixteen bits would not do for longer strings: the cut-off lengths let bytes move between
      parent and child. */
  lemma LongLengthsCollide(b: bytes)
    requires |b| == 0xFFFE
    ensures ChildContext([], b + [0, 0]) == ChildContext([0, 0] + b, [])
  {
    assert BigEndian16(0) == [0, 0] && BigEndian16(0x1_0000) == [0, 0];
    assert ChildContext([], b + [0, 0]) == [0, 0] + [0, 0] + b + [0, 0];
    assert ChildContext([0, 0] + b, []) == [0, 0] + [0, 0] + b + [0, 0];
  }

  // ----- derived keys -----

  datatype Stage = WorkingKey | ChildKey

  /** One derivation lane. The salt, info prefix or context string sets the two stages apart. */
  type Lane = (Stage, bytes, bytes) -> bytes

  function DerivedKey(lane: Lane, root: bytes, chain: seq<bytes>): bytes
    requires chain != []
  {
    var n := |chain| - 1;
    if n == 0 then lane(WorkingKey, root, LengthPrefixed(chain[0]))
    else lane(ChildKey, DerivedKey(lane, root, chain[..n]), ChildContext(PurposeOf(chain[..n]), chain[n]))
  }

  /** What a lane is applied to. */
  datatype LaneInput = LaneInput(stage: Stage, key: bytes, context: bytes)

  function Derive(lane: Lane, x: LaneInput): bytes {
    lane(x.stage, x.key, x.context)
  }

  /** What the last derivation of a chain is applied to. */
  function LastInput(lane: Lane, root: bytes, chain: seq<bytes>): LaneInput
    requires chain != []
  {
    var n := |chain| - 1;
    if n == 0 then LaneInput(WorkingKey, root, LengthPrefixed(chain[0]))
    else LaneInput(ChildKey, DerivedKey(lane, root, chain[..n]), ChildContext(PurposeOf(chain[..n]), chain[n]))
  }

  /** Two different inputs of one depth-by-depth derivation give one key: `i` and `j` say after how
      many links of the two chains. */
  predicate Collides(lane: Lane, root: bytes, a: seq<bytes>, i: nat, root2: bytes, b: seq<bytes>, j: nat) {
    && 0 < i <= |a| && 0 < j <= |b|
    && LastInput(lane, root, a[..i]) != LastInput(lane, root2, b[..j])
    && Derive(lane, LastInput(lane, root, a[..i])) == Derive(lane, LastInput(lane, root2, b[..j]))
  }

  lemma {:induction false} PrefixIsDerivable(chain: seq<bytes>)
    requires Derivable(chain) && |chain| > 1
    ensures Derivable(chain[..|chain| - 1]) && |chain[|chain| - 1]| <= MAX_PURPOSE_LEN
  {
    assert chain[|chain| - 1] in chain;
    assert forall p | p in chain[..|chain| - 1] :: p in chain;
  }

  /** If the last inputs agree, so do the last links and what came before them. */
  lemma SameLastInput(lane: Lane, root: bytes, a: seq<bytes>, root2: bytes, b: seq<bytes>)
    requires Derivable(a) && Derivable(b) && LastInput(lane, root, a) == LastInput(lane, root2, b)
    ensures |a| == 1 <==> |b| == 1
    ensures |a| == 1 ==> root == root2 && a == b
    ensures |a| > 1 ==> a[|a| - 1] == b[|b| - 1] &&
                        DerivedKey(lane, root, a[..|a| - 1]) == DerivedKey(lane, root2, b[..|b| - 1])
  {
    hide ChildContext, LengthPrefixed, DerivedKey;
    var n, m := |a| - 1, |b| - 1;
    assert a[n] in a && b[m] in b;
    if n == 0 && m == 0 {
      assert LengthPrefixed(a[0]) + [] == LengthPrefixed(a[0]) && LengthPrefixed(b[0]) + [] == LengthPrefixed(b[0]);
      LengthCastIsExact(a[0], b[0], [], []);
      assert a == [a[0]] && b == [b[0]];
    } else if n > 0 && m > 0 {
      PrefixIsDerivable(a);
      PrefixIsDerivable(b);
      ChildContextInjective(PurposeOf(a[..n]), a[n], PurposeOf(b[..m]), b[m]);
    }
  }

  lemma CollidesLonger(lane: Lane, root: bytes, a: seq<bytes>, i: nat, root2: bytes, b: seq<bytes>, j: nat)
    requires a != [] && b != [] && Collides(lane, root, a[..|a| - 1], i, root2, b[..|b| - 1], j)
    ensures Collides(lane, root, a, i, root2, b, j)
  {
    assert a[..|a| - 1][..i] == a[..i] && b[..|b| - 1][..j] == b[..j];
  }

  lemma CollidesAtEnd(lane: Lane, root: bytes, a: seq<bytes>, root2: bytes, b: seq<bytes>)
    requires a != [] && b != [] && LastInput(lane, root, a) != LastInput(lane, root2, b)
    requires DerivedKey(lane, root, a) == DerivedKey(lane, root2, b)
    ensures Collides(lane, root, a, |a|, root2, b, |b|)
  {
    assert a[..|a|] == a && b[..|b|] == b;
  }

  /** A derived key determines the root key and the whole chain of purposes, unless the lane
      itself collides on two inputs that these very derivations apply it to. */
  lemma {:induction false} DerivedKeyDeterminesChain(lane: Lane, root: bytes, a: seq<bytes>, root2: bytes, b: seq<bytes>)
    returns (i: nat, j: nat)
    requires Derivable(a) && Derivable(b)
    requires DerivedKey(lane, root, a) == DerivedKey(lane, root2, b)
    ensures (root == root2 && a == b) || Collides(lane, root, a, i, root2, b, j)
    decreases |a|
  {
    hide DerivedKey, LastInput, Collides, PurposeOf, ValidPurpose;
    i, j := |a|, |b|;
    if LastInput(lane, root, a) != LastInput(lane, root2, b) {
      CollidesAtEnd(lane, root, a, root2, b);
    } else {
      SameLastInput(lane, root, a, root2, b);
      if |a| > 1 {
        PrefixIsDerivable(a);
        PrefixIsDerivable(b);
        i, j := DerivedKeyDeterminesChain(lane, root, a[..|a| - 1], root2, b[..|b| - 1]);
        if Collides(lane, root, a[..|a| - 1], i, root2, b[..|b| - 1], j) {
          CollidesLonger(lane, root, a, i, root2, b, j);
        }
        assert a == a[..|a| - 1] + [a[|a| - 1]] && b == b[..|b| - 1] + [b[|b| - 1]];
      }
    }
  }

  // ----- keysets -----

  datatype Key = Key(hkdf: bytes, blake3: bytes)

  datatype Keyset = Keyset(purpose: bytes, latestFirstKeys: seq<Key>)

  datatype Derivation = Derivation(hkdf: Lane, blake3: Lane)

  /** The keyset of a chain of purposes under latest-first root keys. */
  predicate IsKeyset(d: Derivation, roots: seq<bytes>, chain: seq<bytes>, k: Keyset) {
    && Derivable(chain) && k.purpose == PurposeOf(chain) && |k.latestFirstKeys| == |roots|
    && forall i | 0 <= i < |roots| ::
         k.latestFirstKeys[i] == Key(DerivedKey(d.hkdf, roots[i], chain), DerivedKey(d.blake3, roots[i], chain))
  }

  predicate Distinct(keys: seq<bytes>) {
    forall i, j | 0 <= i < j < |keys| :: keys[i] != keys[j]
  }

  method ValidateLatestFirstKeys(keys: seq<bytes>) returns (r: Result<(), KeysetError>)
    ensures r.Ok? <==> keys != [] && Distinct(keys)
    ensures keys == [] ==> r == Err(EmptyKeyset)
    ensures keys != [] && r.Err? ==>
              r.error.DuplicateKey? && r.error.index < |keys| && keys[r.error.index] in keys[..r.error.index] &&
              Distinct(keys[..r.error.index])
  {
    if keys == [] {
      return Err(EmptyKeyset);
    }
    for index := 0 to |keys|
      invariant forall i, j | 0 <= i < j < index :: keys[i] != keys[j]
    {
      if keys[index] in keys[..index] {
        ghost var i :| 0 <= i < index && keys[..index][i] == keys[index];
        assert keys[i] == keys[index];
        return Err(DuplicateKey(index));
      }
      assert forall i | 0 <= i < index :: keys[..index][i] == keys[i];
    }
    return Ok(());
  }

  method DeriveKeyset(d: Derivation, roots: seq<bytes>, purpose: bytes) returns (r: Result<Keyset, KeysetError>)
    ensures r.Ok? <==> 0 < |roots| <= MAX_KEYSET_KEYS && Distinct(roots) && ValidPurpose(purpose)
    ensures r.Ok? ==> IsKeyset(d, roots, [purpose], r.value)
    ensures r.Ok? ==> forall i | 0 <= i < |roots| ::
              var context := [0, |purpose|] + purpose;
              r.value.latestFirstKeys[i] == Key(d.hkdf(WorkingKey, roots[i], context), d.blake3(WorkingKey, roots[i], context))
    ensures |roots| > MAX_KEYSET_KEYS ==> r == Err(TooManyKeys)
    ensures roots == [] ==> r == Err(EmptyKeyset)
  {
    if |roots| > MAX_KEYSET_KEYS {
      return Err(TooManyKeys);
    }
    var keysOk := ValidateLatestFirstKeys(roots);
    if keysOk.Err? {
      return Err(keysOk.error);
    }
    var purposeOk := ValidatePurpose(purpose);
    if purposeOk.Err? {
      return Err(purposeOk.error);
    }
    PrefixIs(purpose);
    var keys: seq<Key> := [];
    for i := 0 to |roots|
      invariant |keys| == i
      invariant forall k | 0 <= k < i ::
        keys[k] == Key(DerivedKey(d.hkdf, roots[k], [purpose]), DerivedKey(d.blake3, roots[k], [purpose]))
    {
      var context := LengthPrefixed(purpose);
      keys := keys + [Key(d.hkdf(WorkingKey, roots[i], context), d.blake3(WorkingKey, roots[i], context))];
    }
    return Ok(Keyset(purpose, keys));
  }

  /** A child keyset is the keyset of the longer chain, key by key and in the same order. */
  method DeriveChildKeyset(d: Derivation, ghost roots: seq<bytes>, ghost chain: seq<bytes>, k: Keyset, child: bytes)
    returns (r: Result<Keyset, KeysetError>)
    requires IsKeyset(d, roots, chain, k)
    ensures r.Ok? <==> Derivable(chain + [child])
    ensures r.Ok? ==> IsKeyset(d, roots, chain + [child], r.value) && r.value.purpose == k.purpose + Ascii("/") + child
    ensures r.Ok? ==> |k.purpose| <= MAX_PURPOSE_LEN && |child| <= MAX_PURPOSE_LEN && forall i | 0 <= i < |roots| ::
              var parent, context := k.latestFirstKeys[i], [0, |k.purpose|] + k.purpose + [0, |child|] + child;
              r.value.latestFirstKeys[i] == Key(d.hkdf(ChildKey, parent.hkdf, context), d.blake3(ChildKey, parent.blake3, context))
  {
    ghost var longer := chain + [child];
    assert longer[..|longer| - 1] == chain && longer[|longer| - 1] == child;
    assert forall p | p in longer :: p in chain || p == child;
    assert child in longer;
    var purpose := ForChild(k.purpose, child);
    if purpose.Err? {
      return Err(purpose.error);
    }
    PrefixIs(k.purpose);
    PrefixIs(child);
    assert ChildContext(k.purpose, child) == [0, |k.purpose|] + k.purpose + [0, |child|] + child;
    hide ChildContext;
    var keys: seq<Key> := [];
    for i := 0 to |k.latestFirstKeys|
      invariant |keys| == i
      invariant forall j | 0 <= j < i ::
        var parent, context := k.latestFirstKeys[j], ChildContext(k.purpose, child);
        keys[j] == Key(d.hkdf(ChildKey, parent.hkdf, context), d.blake3(ChildKey, parent.blake3, context))
      invariant forall j | 0 <= j < i ::
        keys[j] == Key(DerivedKey(d.hkdf, roots[j], longer), DerivedKey(d.blake3, roots[j], longer))
    {
      var parent := k.latestFirstKeys[i];
      var context := ChildContext(k.purpose, child);
      keys := keys + [Key(d.hkdf(ChildKey, parent.hkdf, context), d.blake3(ChildKey, parent.blake3, context))];
    }
    return Ok(Keyset(purpose.value, keys));
  }

  /** Somewhere in deriving two keys of a keyset the lane collides on two inputs. */
  ghost predicate RootsCollide(lane: Lane, roots: seq<bytes>, chain: seq<bytes>) {
    exists x: nat, y: nat, i: nat, j: nat :: CollidesFor(lane, roots, chain, x, y, i, j)
  }

  predicate CollidesFor(lane: Lane, roots: seq<bytes>, chain: seq<bytes>, x: nat, y: nat, i: nat, j: nat) {
    x < y < |roots| && Collides(lane, roots[x], chain, i, roots[y], chain, j)
  }

  /** Two keys of a keyset differ in either lane, unless that lane collides on two inputs their
      derivations apply it to. */
  lemma KeysetKeysAreDistinct(d: Derivation, roots: seq<bytes>, chain: seq<bytes>, k: Keyset, x: nat, y: nat)
    requires Distinct(roots) && IsKeyset(d, roots, chain, k) && x < y < |k.latestFirstKeys|
    ensures k.latestFirstKeys[x].hkdf != k.latestFirstKeys[y].hkdf || RootsCollide(d.hkdf, roots, chain)
    ensures k.latestFirstKeys[x].blake3 != k.latestFirstKeys[y].blake3 || RootsCollide(d.blake3, roots, chain)
  {
    hide Collides, DerivedKey;
    if k.latestFirstKeys[x].hkdf == k.latestFirstKeys[y].hkdf {
      var i, j := DerivedKeyDeterminesChain(d.hkdf, roots[x], chain, roots[y], chain);
      assert CollidesFor(d.hkdf, roots, chain, x, y, i, j);
    }
    if k.latestFirstKeys[x].blake3 == k.latestFirstKeys[y].blake3 {
      var i, j := DerivedKeyDeterminesChain(d.blake3, roots[x], chain, roots[y], chain);
      assert CollidesFor(d.blake3, roots, chain, x, y, i, j);
    }
  }
}
