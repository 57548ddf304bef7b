/**
  Sortable identifiers: sixteen bytes that begin with a 52-bit tick count and end with 76 random
  bits, their byte order, the window of a moment, and their disguised text form.
 */
module SortableIds {
  import opened Basics
  import opened Bits
  import opened BitGroups
  import opened Base32

  const TIME_BYTES := 7
  const RANDOM_BYTES_SIZE := 10
  const TICK_MICROS := 100
  const MAX_TICKS: nat := 0xF_FFFF_FFFF_FFFF
  const I64_MAX: int := 0x7FFF_FFFF_FFFF_FFFF
  const I64_MIN: int := -0x8000_0000_0000_0000

  type i64 = v: int | I64_MIN <= v <= I64_MAX witness 0

  type Id = b: bytes | |b| == ID_SIZE witness [0, 0, 0, 0, 0, 0, 0, 0, 0, 0, 0, 0, 0, 0, 0, 0]

  datatype IdError = InvalidTextLength | InvalidTextByte | RandomFailed

  // ----- time -----

  /** The tick of a moment, clamped to what 52 bits hold. */
  function TicksOf(unixMicros: i64): (ticks: nat)
    ensures ticks <= MAX_TICKS
  {
    if unixMicros <= 0 then 0
    else
      var ticks := unixMicros / TICK_MICROS;
      if ticks < MAX_TICKS then ticks else MAX_TICKS
  }

  /** What the first seven bytes say, read with shifts and ors. */
  function ReadTicks(id: Id): nat {
    BitOr(BitOr(BitOr(BitOr(BitOr(BitOr(
      id[0] as nat * 0x1000_0000_0000, id[1] as nat * 0x10_0000_0000), id[2] as nat * 0x1000_0000),
      id[3] as nat * 0x10_0000), id[4] as nat * 0x1000), id[5] as nat * 0x10), Shr(id[6], 4))
  }

  function Nibble(id: Id): nat {
    Low(id[6], 4)
  }

  /** The random part: the low half of the seventh byte, and the rest. */
  function Tail(id: Id): bytes {
    ShrLow(id[6], 4);
    SmallPowers();
    [Nibble(id)] + id[TIME_BYTES..]
  }

  /** The ticks are the number that the first 52 bits are. */
  function Ticks(id: Id): nat {
    id[0] * 0x1000_0000_0000 + id[1] * 0x10_0000_0000 + id[2] * 0x1000_0000 + id[3] * 0x10_0000 +
    id[4] * 0x1000 + id[5] * 0x10 + Shr(id[6], 4)
  }

  lemma PowersUsed()
    ensures Pow2(4) == 0x10 && Pow2(12) == 0x1000 && Pow2(20) == 0x10_0000 && Pow2(28) == 0x1000_0000
    ensures Pow2(36) == 0x10_0000_0000 && Pow2(44) == 0x1000_0000_0000 && Pow2(8) == 256
  {
    SmallPowers();
    assert Pow2(4) == 16;
    Pow2Add(4, 8);
    Pow2Add(12, 8);
    Pow2Add(20, 8);
    Pow2Add(28, 8);
    Pow2Add(36, 8);
  }

  /** A field is or-ed into bits that nothing before it uses. */
  lemma OrField(high: nat, k: nat, v: nat)
    requires v < Pow2(k)
    ensures BitOr(high * Pow2(k), v) == high * Pow2(k) + v
  {
    OrDisjoint(high, k, v);
  }

  lemma ReadIsTicks(id: Id)
    ensures ReadTicks(id) == Ticks(id) <= MAX_TICKS && Shr(id[6], 4) < 16 && Nibble(id) < 16
    ensures id[6] == 16 * Shr(id[6], 4) + Nibble(id)
  {
    hide BitOr, Shr, Pow2, Low;
    PowersUsed();
    ShrLow(id[6], 4);
    var v0: nat := id[0];
    var v1: nat := v0 * 256 + id[1];
    var v2: nat := v1 * 256 + id[2];
    var v3: nat := v2 * 256 + id[3];
    var v4: nat := v3 * 256 + id[4];
    var v5: nat := v4 * 256 + id[5];
    OrField(v0, 44, id[1] as nat * 0x10_0000_0000);
    OrField(v1, 36, id[2] as nat * 0x1000_0000);
    OrField(v2, 28, id[3] as nat * 0x10_0000);
    OrField(v3, 20, id[4] as nat * 0x1000);
    OrField(v4, 12, id[5] as nat * 0x10);
    OrField(v5, 4, Shr(id[6], 4));
  }

  // ----- writing ticks in place -----

  /** What writing ticks makes of sixteen bytes. */
  function WithTicks(id: Id, ticks: nat): (r: Id)
    requires ticks <= MAX_TICKS
  {
    ShrBytes(ticks);
    Seventh(id[6], ticks);
    [Shr(ticks, 44) % 256, Shr(ticks, 36) % 256, Shr(ticks, 28) % 256, Shr(ticks, 20) % 256,
     Shr(ticks, 12) % 256, Shr(ticks, 4) % 256,
     BitOr(BitAnd(id[6], 0x0F), Shl8(BitAnd(ticks, 0x0F) % 256, 4))] + id[TIME_BYTES..]
  }

  lemma ShrBytes(ticks: nat)
    ensures Shr(ticks, 44) % 256 < 256
  {
  }

  lemma Seventh(b: byte, ticks: nat)
    ensures BitOr(BitAnd(b, 0x0F), Shl8(BitAnd(ticks, 0x0F) % 256, 4)) == 16 * Low(ticks, 4) + Low(b, 4)
    ensures Low(ticks, 4) < 16 && Low(b, 4) < 16
  {
    hide BitOr, BitAnd, Low, Pow2, Shl8, Shr;
    PowersUsed();
    AndMask(b, 4);
    AndMask(ticks, 4);
    ShrLow(b, 4);
    ShrLow(ticks, 4);
    Shl8Fits(Low(ticks, 4), 4);
    OrSymmetric(Low(b, 4), 16 * Low(ticks, 4));
    OrField(Low(ticks, 4), 4, Low(b, 4));
  }

  lemma {:induction false} OrSymmetric(a: nat, b: nat)
    ensures BitOr(a, b) == BitOr(b, a)
    decreases a
  {
    if a != 0 && b != 0 {
      OrSymmetric(a / 2, b / 2);
    }
  }

  lemma {:induction false} ShrShr(v: nat, a: nat, b: nat)
    ensures Shr(Shr(v, a), b) == Shr(v, a + b)
    decreases a
  {
    if a > 0 {
      ShrShr(v / 2, a - 1, b);
    }
  }

  /** A shift by eight more is a division by 256. */
  lemma NextByte(v: nat, k: nat)
    ensures Shr(v, k) == 256 * Shr(v, k + 8) + Shr(v, k) % 256
  {
    hide Shr, Low, Pow2;
    PowersUsed();
    ShrShr(v, k, 8);
    ShrLow(Shr(v, k), 8);
  }

  /** Written ticks are read back, and the random part stays. */
  lemma TicksRoundTrip(id: Id, ticks: nat)
    requires ticks <= MAX_TICKS
    ensures var r := WithTicks(id, ticks);
            ReadTicks(r) == ticks && Tail(r) == Tail(id)
  {
    hide Shr, Low, Pow2, BitOr, BitAnd, ReadTicks, Shl8;
    Seventh(id[6], ticks);
    var r := WithTicks(id, ticks);
    ReadIsTicks(r);
    assert Nibble(r) == Low(id[6], 4) && Shr(r[6], 4) == Low(ticks, 4);
    assert r[TIME_BYTES..] == id[TIME_BYTES..];
    hide WithTicks;
    SplitTicks(ticks);
  }

  /** The ticks are the sum of the bytes written for them. */
  lemma SplitTicks(ticks: nat)
    requires ticks <= MAX_TICKS
    ensures ticks ==
            Shr(ticks, 44) % 256 * 0x1000_0000_0000 + Shr(ticks, 36) % 256 * 0x10_0000_0000 +
            Shr(ticks, 28) % 256 * 0x1000_0000 + Shr(ticks, 20) % 256 * 0x10_0000 +
            Shr(ticks, 12) % 256 * 0x1000 + Shr(ticks, 4) % 256 * 0x10 + Low(ticks, 4)
  {
    hide Shr, Low, Pow2;
    PowersUsed();
    NextByte(ticks, 36);
    NextByte(ticks, 28);
    NextByte(ticks, 20);
    NextByte(ticks, 12);
    NextByte(ticks, 4);
    ShrLow(ticks, 4);
    ShrLow(ticks, 44);
    assert Shr(ticks, 44) < 256;
  }

  method PutTicks(id: array<byte>, ticks: nat)
    requires id.Length == ID_SIZE && ticks <= MAX_TICKS
    modifies id
    ensures id[..] == WithTicks(old(id[..]), ticks)
  {
    hide Shr, BitOr, BitAnd, Shl8;
    Seventh(id[6], ticks);
    var seventh := BitOr(BitAnd(id[6], 0x0F), Shl8(BitAnd(ticks, 0x0F) % 256, 4));
    id[0] := Shr(ticks, 44) % 256;
    id[1] := Shr(ticks, 36) % 256;
    id[2] := Shr(ticks, 28) % 256;
    id[3] := Shr(ticks, 20) % 256;
    id[4] := Shr(ticks, 12) % 256;
    id[5] := Shr(ticks, 4) % 256;
    id[6] := seventh;
  }

  // ----- making identifiers -----

  /** A new identifier carries the moment's tick and the random bits it was given. */
  method NewAt(unixMicros: i64, random: Option<bytes>) returns (r: Result<Id, IdError>)
    requires random.Some? ==> |random.value| == RANDOM_BYTES_SIZE
    ensures r.Err? <==> random.None?
    ensures r.Err? ==> r.error == RandomFailed
    ensures r.Ok? ==> ReadTicks(r.value) == TicksOf(unixMicros)
    ensures r.Ok? ==> r.value[TIME_BYTES..] == random.value[1..] && Nibble(r.value) == Low(random.value[0], 4)
  {
    if random.None? {
      return Err(RandomFailed);
    }
    var id := new byte[ID_SIZE](_ => 0);
    forall k | 0 <= k < RANDOM_BYTES_SIZE {
      id[6 + k] := random.value[k];
    }
    MaskNibble(random.value[0]);
    id[6] := BitAnd(id[6], 0x0F);
    ghost var before := id[..];
    PutTicks(id, TicksOf(unixMicros));
    TicksRoundTrip(before, TicksOf(unixMicros));
    hide WithTicks, ReadTicks, Low, BitAnd;
    assert before[TIME_BYTES..] == random.value[1..];
    TailParts(id[..], before);
    r := Ok(id[..]);
  }

  lemma MaskNibble(b: byte)
    ensures BitAnd(b, 0x0F) == Low(b, 4) < 16 && Low(Low(b, 4), 4) == Low(b, 4)
  {
    PowersUsed();
    AndMask(b, 4);
    ShrLow(b, 4);
    LowOfShr(b, 4, 0);
    LowOfLowSame(b, 4);
  }

  lemma {:induction false} LowOfLowSame(v: nat, n: nat)
    ensures Low(Low(v, n), n) == Low(v, n)
    decreases n
  {
    if n > 0 {
      LowOfLowSame(v / 2, n - 1);
    }
  }

  lemma TailParts(a: Id, b: Id)
    requires Tail(a) == Tail(b)
    ensures a[TIME_BYTES..] == b[TIME_BYTES..] && Nibble(a) == Nibble(b)
  {
    assert Tail(a)[1..] == a[TIME_BYTES..] && Tail(b)[1..] == b[TIME_BYTES..];
  }

  // ----- order -----

  /** Byte order, as arrays are compared. */
  predicate Before(a: bytes, b: bytes)
    requires |a| == |b|
  {
    a != [] && (a[0] < b[0] || (a[0] == b[0] && Before(a[1..], b[1..])))
  }

  predicate NotAfter(a: bytes, b: bytes)
    requires |a| == |b|
  {
    a == b || Before(a, b)
  }

  function Number(b: bytes): nat {
    if b == [] then 0 else b[0] * Pow2(8 * (|b| - 1)) + Number(b[1..])
  }

  lemma {:induction false} NumberBound(b: bytes)
    ensures Number(b) < Pow2(8 * |b|)
  {
    if b != [] {
      var p := Pow2(8 * (|b| - 1));
      NumberBound(b[1..]);
      hide Number;
      SmallPowers();
      Pow2Add(8, 8 * (|b| - 1));
      Distribute(b[0], p);
      Scale(b[0] as nat + 1, 256, p);
      NumberStep(b);
    } else {
      assert Pow2(0) == 1;
    }
  }

  lemma NumberStep(b: bytes)
    requires b != []
    ensures Number(b) == b[0] * Pow2(8 * (|b| - 1)) + Number(b[1..])
  {
  }

  /** Byte order is the order of the numbers the bytes spell. */
  lemma {:induction false} BeforeIsLess(a: bytes, b: bytes)
    requires |a| == |b|
    ensures Before(a, b) <==> Number(a) < Number(b)
    ensures a == b <==> Number(a) == Number(b)
  {
    if a != [] {
      NumberStep(a);
      NumberStep(b);
      NumberBound(a[1..]);
      NumberBound(b[1..]);
      BeforeIsLess(a[1..], b[1..]);
      hide Number, Pow2;
      var p := Pow2(8 * (|a| - 1));
      if a[0] < b[0] {
        Scale(a[0] + 1, b[0], p);
        Distribute(a[0], p);
      } else if b[0] < a[0] {
        Scale(b[0] + 1, a[0], p);
        Distribute(b[0], p);
      } else {
        assert a == [a[0]] + a[1..] && b == [b[0]] + b[1..];
      }
    }
  }

  lemma {:induction false} BeforeSplits(a: bytes, b: bytes, c: bytes, d: bytes)
    requires |a| == |b| && |c| == |d|
    ensures Before(a + c, b + d) <==> Before(a, b) || (a == b && Before(c, d))
  {
    if a == [] {
      assert a + c == c && b + d == d;
    } else {
      assert (a + c)[1..] == a[1..] + c && (b + d)[1..] == b[1..] + d;
      BeforeSplits(a[1..], b[1..], c, d);
      assert a == [a[0]] + a[1..] && b == [b[0]] + b[1..];
    }
  }

  lemma HeadNumber(id: Id)
    ensures Number(id[..TIME_BYTES]) == Ticks(id) * 16 + Nibble(id) && Nibble(id) < 16
  {
    ReadIsTicks(id);
    hide ReadTicks, Shr, Low, Pow2;
    PowersUsed();
    Pow48();
    var h := id[..7];
    NumberStep(h);
    NumberStep(h[1..]);
    NumberStep(h[2..]);
    NumberStep(h[3..]);
    NumberStep(h[4..]);
    NumberStep(h[5..]);
    NumberStep(h[6..]);
    hide Number;
    assert h[1..][1..] == h[2..] && h[2..][1..] == h[3..] && h[3..][1..] == h[4..];
    assert h[4..][1..] == h[5..] && h[5..][1..] == h[6..] && h[6..][1..] == [];
    NumberNothing();
  }

  lemma NumberNothing()
    ensures Number([]) == 0
  {
  }

  lemma Pow48()
    ensures Pow2(48) == 0x1_0000_0000_0000 && Pow2(40) == 0x100_0000_0000 && Pow2(32) == 0x1_0000_0000
    ensures Pow2(24) == 0x100_0000 && Pow2(16) == 0x1_0000 && Pow2(8) == 0x100 && Pow2(0) == 1
  {
    SmallPowers();
    Pow2Add(16, 8);
    Pow2Add(32, 8);
    Pow2Add(40, 8);
  }

  /** Byte order is the order of ticks, then of the random part. */
  lemma OrderIsTicksThenTail(a: Id, b: Id)
    ensures Before(a, b) <==>
            ReadTicks(a) < ReadTicks(b) || (ReadTicks(a) == ReadTicks(b) && Before(Tail(a), Tail(b)))
    ensures a == b <==> ReadTicks(a) == ReadTicks(b) && Tail(a) == Tail(b)
  {
    ReadIsTicks(a);
    ReadIsTicks(b);
    HeadNumber(a);
    HeadNumber(b);
    BeforeIsLess(a[..TIME_BYTES], b[..TIME_BYTES]);
    hide ReadTicks, Number, Ticks, Shr, Low, Nibble;
    BeforeSplits(a[..TIME_BYTES], b[..TIME_BYTES], a[TIME_BYTES..], b[TIME_BYTES..]);
    assert a == a[..TIME_BYTES] + a[TIME_BYTES..] && b == b[..TIME_BYTES] + b[TIME_BYTES..];
    assert Tail(a)[1..] == a[TIME_BYTES..] && Tail(b)[1..] == b[TIME_BYTES..];
  }

  // ----- the window of a moment -----

  function MinAt(unixMicros: i64): Id {
    WithTicks(seq(ID_SIZE, _ => 0), TicksOf(unixMicros))
  }

  function MaxAt(unixMicros: i64): Id {
    var lower := MinAt(unixMicros);
    OrNibble(lower[6]);
    lower[..6] + [BitOr(lower[6], 0x0F)] + seq(9, _ => 0xFF)
  }

  /** Setting the low bits. */
  lemma {:induction false} OrMask(a: nat, k: nat)
    ensures BitOr(a, Pow2(k) - 1) == a - Low(a, k) + Pow2(k) - 1
    decreases k
  {
    if k > 0 {
      OrMask(a / 2, k - 1);
      assert (Pow2(k) - 1) / 2 == Pow2(k - 1) - 1;
    }
    if a == 0 {
      LowOfZero(k);
    }
  }

  lemma {:induction false} LowOfZero(k: nat)
    ensures Low(0, k) == 0
  {
    if k > 0 {
      LowOfZero(k - 1);
    }
  }

  lemma OrNibble(b: byte)
    ensures BitOr(b, 0x0F) == 16 * Shr(b, 4) + 15 < 256
  {
    hide BitOr, Shr, Low, Pow2;
    PowersUsed();
    ShrLow(b, 4);
    OrMask(b, 4);
  }

  lemma MinAtIs(unixMicros: i64)
    ensures ReadTicks(MinAt(unixMicros)) == TicksOf(unixMicros)
    ensures Tail(MinAt(unixMicros)) == seq(10, _ => 0)
  {
    var zero: Id := seq(ID_SIZE, _ => 0);
    TicksRoundTrip(zero, TicksOf(unixMicros));
    assert Nibble(zero) == 0 by {
      ShrLow(0, 4);
      PowersUsed();
    }
    hide WithTicks, ReadTicks;
    assert Tail(zero) == seq(10, _ => 0);
  }

  lemma MaxAtIs(unixMicros: i64)
    ensures ReadTicks(MaxAt(unixMicros)) == TicksOf(unixMicros)
    ensures Tail(MaxAt(unixMicros)) == [15] + seq(9, _ => 0xFF)
  {
    MinAtIs(unixMicros);
    var lower, upper := MinAt(unixMicros), MaxAt(unixMicros);
    OrNibble(lower[6]);
    ReadIsTicks(lower);
    ReadIsTicks(upper);
    hide ReadTicks, MinAt, BitOr, Shr, Low;
    assert Shr(upper[6], 4) == Shr(lower[6], 4) && Nibble(upper) == 15;
    assert upper[TIME_BYTES..] == seq(9, _ => 0xFF);
  }

  lemma {:induction false} AllZeroIsFirst(b: bytes)
    ensures NotAfter(seq(|b|, _ => 0), b)
  {
    if b != [] {
      var zeros := seq(|b|, _ => 0);
      assert zeros[1..] == seq(|b| - 1, _ => 0);
      AllZeroIsFirst(b[1..]);
      assert b == [b[0]] + b[1..] && zeros == [0] + zeros[1..];
    }
  }

  lemma {:induction false} AllOnesIsLast(b: bytes)
    ensures NotAfter(b, seq(|b|, _ => 0xFF))
  {
    if b != [] {
      var ones := seq(|b|, _ => 0xFF);
      assert ones[1..] == seq(|b| - 1, _ => 0xFF);
      AllOnesIsLast(b[1..]);
      assert b == [b[0]] + b[1..] && ones == [0xFF] + ones[1..];
    }
  }

  lemma TailIsBounded(id: Id)
    ensures NotAfter(seq(10, _ => 0), Tail(id)) && NotAfter(Tail(id), [15] + seq(9, _ => 0xFF))
  {
    ReadIsTicks(id);
    hide ReadTicks, Low;
    AllZeroIsFirst(Tail(id));
    AllOnesIsLast(id[TIME_BYTES..]);
    assert Tail(id)[1..] == id[TIME_BYTES..];
    var top: bytes := [15] + seq(9, _ => 0xFF);
    assert top[1..] == seq(9, _ => 0xFF);
    assert Tail(id) == [Nibble(id)] + id[TIME_BYTES..];
  }

  /** Between the bounds of a moment lie exactly the identifiers with its tick. */
  lemma WindowIsTick(id: Id, unixMicros: i64)
    ensures NotAfter(MinAt(unixMicros), id) && NotAfter(id, MaxAt(unixMicros)) <==>
            ReadTicks(id) == TicksOf(unixMicros)
  {
    MinAtIs(unixMicros);
    MaxAtIs(unixMicros);
    TailIsBounded(id);
    hide ReadTicks, MinAt, MaxAt, Tail, Before;
    OrderIsTicksThenTail(MinAt(unixMicros), id);
    OrderIsTicksThenTail(id, MaxAt(unixMicros));
  }

  function ToUnixMicros(id: Id): (micros: i64)
    ensures micros >= 0
  {
    ReadIsTicks(id);
    ReadTicks(id) * TICK_MICROS
  }

  /** The moment read back is the moment written, cut to whole ticks; no 52-bit count overflows. */
  lemma MicrosRoundTrip(id: Id, unixMicros: i64)
    requires ReadTicks(id) == TicksOf(unixMicros)
    ensures 0 <= unixMicros <= MAX_TICKS * TICK_MICROS ==>
              ToUnixMicros(id) <= unixMicros < ToUnixMicros(id) + TICK_MICROS
    ensures unixMicros < 0 ==> ToUnixMicros(id) == 0
    ensures unixMicros > MAX_TICKS * TICK_MICROS ==> ToUnixMicros(id) == MAX_TICKS * TICK_MICROS
    ensures TicksOf(ToUnixMicros(id)) == ReadTicks(id)
  {
    ReadIsTicks(id);
    hide ReadTicks;
  }

  // ----- text -----

  /** The time bytes, each xor-ed with the random byte seven places on. */
  function Disguised(id: Id): (r: Id) {
    XorBytes(id);
    seq(ID_SIZE, i requires 0 <= i < ID_SIZE =>
      if i < TIME_BYTES then BitXor(id[i], id[i + TIME_BYTES]) else id[i])
  }

  lemma XorBytes(id: Id)
    ensures forall i, j | 0 <= i < ID_SIZE && 0 <= j < ID_SIZE :: BitXor(id[i], id[j]) < 256
  {
    PowersUsed();
    forall i, j | 0 <= i < ID_SIZE && 0 <= j < ID_SIZE
      ensures BitXor(id[i], id[j]) < 256
    {
      XorBound(id[i], id[j], 8);
    }
  }

  /** The disguise undoes itself: the bytes it reads are not those it writes. */
  lemma DisguiseTwice(id: Id)
    ensures Disguised(Disguised(id)) == id
  {
    hide BitXor;
    forall i | 0 <= i < TIME_BYTES
      ensures Disguised(Disguised(id))[i] == id[i]
    {
      XorTwice(id[i], id[i + TIME_BYTES]);
    }
  }

  /** What the text shows of an identifier: each bit of the first seven bytes flipped exactly where
      the random byte seven places on has a one, and the other bytes as they are. */
  predicate Hides(id: Id, shown: Id) {
    && (forall i | 0 <= i < TIME_BYTES :: HiddenAt(id, shown, i))
    && (forall i | TIME_BYTES <= i < ID_SIZE :: shown[i] == id[i])
  }

  predicate HiddenAt(id: Id, shown: Id, i: nat)
    requires i < TIME_BYTES
  {
    Flipped(shown[i], id[i], id[i + TIME_BYTES])
  }

  lemma DisguisedExactly(id: Id, shown: Id)
    ensures shown == Disguised(id) <==> Hides(id, shown)
  {
    hide BitXor, Flipped;
    forall i | 0 <= i < TIME_BYTES
      ensures HiddenAt(id, shown, i) <==> shown[i] == Disguised(id)[i]
    {
      FlippedExactly(shown[i], id[i], id[i + TIME_BYTES]);
    }
    if Hides(id, shown) {
      assert forall i | 0 <= i < ID_SIZE :: shown[i] == Disguised(id)[i];
    }
  }

  /** The loop that disguises in place, and undisguises. */
  method XorTimeBytes(id: array<byte>)
    requires id.Length == ID_SIZE
    modifies id
    ensures id[..] == Disguised(old(id[..])) && Hides(old(id[..]), id[..])
  {
    XorBytes(id[..]);
    DisguisedExactly(id[..], Disguised(id[..]));
    hide BitXor, Hides;
    for index := 0 to TIME_BYTES
      invariant forall i | 0 <= i < index :: id[i] == BitXor(old(id[i]), old(id[i + TIME_BYTES]))
      invariant forall i | index <= i < ID_SIZE :: id[i] == old(id[i])
    {
      assert id[index] == old(id[..])[index] && id[index + TIME_BYTES] == old(id[..])[index + TIME_BYTES];
      id[index] := BitXor(id[index], id[index + TIME_BYTES]);
    }
  }

  function ToText(id: Id): bytes {
    Text(Disguised(id))
  }

  method SerializeId(id: Id) returns (text: bytes)
    ensures text == ToText(id) && |text| == TEXT_LEN
  {
    var encoded := new byte[ID_SIZE](i requires 0 <= i < ID_SIZE => id[i]);
    assert encoded[..] == id;
    XorTimeBytes(encoded);
    text := EncodeBase32NoPaddingLower(encoded[..]);
  }

  /** Parsing accepts exactly the texts that are some identifier's, up to case, and returns it. */
  method ParseId(input: bytes) returns (r: Result<Id, IdError>)
    ensures forall id: Id :: r == Ok(id) <==> Lowered(input) == ToText(id)
    ensures r == Err(InvalidTextLength) <==> |input| != TEXT_LEN
  {
    hide Text, Decode, Disguised, BitXor;
    forall id: Id
      ensures |ToText(id)| == TEXT_LEN && Disguised(Disguised(id)) == id
    {
      DisguiseTwice(id);
      TextLength(Disguised(id));
    }
    assert |Lowered(input)| == |input|;
    if |input| != TEXT_LEN {
      return Err(InvalidTextLength);
    }
    forall b: bytes
      ensures Decode(input) == Some(b) <==> |b| == ID_SIZE && Lowered(input) == Text(b)
    {
      DecodeExactly(input, b);
    }
    var decoded := Decode(input);
    if decoded == None {
      return Err(InvalidTextByte);
    }
    var b := new byte[ID_SIZE](i requires 0 <= i < ID_SIZE => decoded.value[i]);
    assert b[..] == decoded.value;
    XorTimeBytes(b);
    return Ok(b[..]);
  }

  lemma TextLength(b: Id)
    ensures |Text(b)| == TEXT_LEN
  {
    hide BitString;
    WholeText(b);
  }

  lemma LoweredText(b: Id)
    ensures Lowered(Text(b)) == Text(b)
  {
    var bits := Spread(b, 8) + Zeros(2);
    GatherFits(bits, 5);
    LoweredSymbols(Gather(bits, 5));
  }

  lemma LoweredSymbols(values: seq<nat>)
    requires Fits(values, 5)
    ensures Lowered(Symbols(values)) == Symbols(values)
  {
    SmallPowers();
  }

  /** The base-32 text of an identifier is that of its disguised bytes and of no others. */
  lemma TextHides(id: Id, shown: bytes)
    ensures |ToText(id)| == TEXT_LEN
    ensures Decode(ToText(id)) == Some(shown) <==> |shown| == ID_SIZE && Hides(id, shown)
  {
    hide Text, Decode, Disguised, Hides;
    LoweredText(Disguised(id));
    TextLength(Disguised(id));
    DecodeExactly(ToText(id), shown);
    DecodeExactly(ToText(id), Disguised(id));
    if |shown| == ID_SIZE {
      DisguisedExactly(id, shown);
    }
  }

  /** Two identifiers never share a text. */
  lemma ToTextInjective(a: Id, b: Id)
    requires ToText(a) == ToText(b)
    ensures a == b
  {
    hide Text, Disguised, Decode;
    TextLength(Disguised(a));
    LoweredText(Disguised(a));
    DecodeExactly(ToText(a), Disguised(a));
    DecodeExactly(ToText(a), Disguised(b));
    DisguiseTwice(a);
    DisguiseTwice(b);
  }
}
