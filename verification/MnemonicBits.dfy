/**
  The small accumulator of staged bits through which the mnemonic codec regroups one big-endian
  bit string: bytes into 11-bit words to encode, and back to decode.
 */
module MnemonicBits {
  import opened Basics
  import opened Bits
  import opened BitGroups

  const WORD_BITS := 11
  const WORD_MASK := 2047

  // ----- the accumulator -----

  /** The low `count` bits staged so far. */
  predicate Staged(staged: nat, count: nat) {
    staged < Pow2(count)
  }

  function LowBitMask(count: nat): nat
    requires count < 32
  {
    if count == 0 then 0
    else
      Pow2Monotone(count, 32);
      SmallPowers();
      Shl32(1, count) - 1
  }

  lemma LowBitMaskIs(count: nat)
    requires count < 32
    ensures LowBitMask(count) == Pow2(count) - 1
  {
    Pow2Monotone(count, 31);
    SmallPowers();
    Pow2Add(31, 1);
    Shl32Fits(1, count);
  }

  lemma Shl32Fits(a: nat, k: nat)
    requires a * Pow2(k) < 0x1_0000_0000
    ensures Shl32(a, k) == a * Pow2(k)
  {
    hide Pow2;
  }

  /** Shifting `n` more bits in. At most 18 bits are ever staged, so the 32-bit shift loses none. */
  lemma ShiftIn(staged: nat, count: nat, v: nat, n: nat)
    requires Staged(staged, count) && v < Pow2(n) && count + n <= 18
    ensures var next := BitOr(Shl32(staged, n), v);
            && Staged(next, count + n) && next < 0x4_0000
            && BitString(next, count + n) == BitString(staged, count) + BitString(v, n)
  {
    hide Pow2, BitString, BitOr, Shl32;
    var next := staged * Pow2(n) + v;
    InRange(staged, count, v, n);
    Pow2Monotone(count + n, 18);
    SmallPowers();
    Shl32Fits(staged, n);
    OrDisjoint(staged, n, v);
    StringJoin(staged, count, v, n);
  }

  lemma InRange(a: nat, m: nat, b: nat, n: nat)
    requires a < Pow2(m) && b < Pow2(n)
    ensures a * Pow2(n) + b < Pow2(m + n)
  {
    hide Pow2;
    Pow2Add(m, n);
    Scale(a + 1, Pow2(m), Pow2(n));
    Distribute(a, Pow2(n));
  }

  lemma {:induction false} LowSmall(a: nat, n: nat)
    requires a < Pow2(n)
    ensures Low(a, n) == a
    decreases n
  {
    if n > 0 {
      LowSmall(a / 2, n - 1);
    }
  }

  /** Taking the first `n` staged bits out; masking the value to its width changes nothing. */
  lemma ShiftOut(staged: nat, count: nat, n: nat)
    requires Staged(staged, count) && n <= count <= 18
    ensures var left := count - n;
            var v := Shr(staged, left);
            var rest := BitAnd(staged, LowBitMask(left));
            && v < Pow2(n) && BitAnd(v, Pow2(n) - 1) == v && Staged(rest, left)
            && BitString(staged, count) == BitString(v, n) + BitString(rest, left)
  {
    hide Pow2, BitString, BitAnd, Shr, Low;
    var left := count - n;
    StringSplit(staged, n, left);
    LowBitMaskIs(left);
    AndMask(staged, left);
    AndMask(Shr(staged, left), n);
    LowSmall(Shr(staged, left), n);
  }

  /** The last, incomplete group is filled up with zeros. */
  lemma ShiftUp(staged: nat, count: nat, n: nat)
    requires Staged(staged, count) && count <= n <= 18
    ensures var v := Shl32(staged, n - count);
            v < Pow2(n) && BitString(v, n) == BitString(staged, count) + Zeros(n - count)
  {
    hide Pow2, BitString, Shl32;
    InRange(staged, count, 0, n - count);
    Pow2Monotone(n, 18);
    SmallPowers();
    Shl32Fits(staged, n - count);
    assert staged * Pow2(n - count) + 0 == staged * Pow2(n - count);
    StringJoin(staged, count, 0, n - count);
    ZerosAreZero(n - count);
  }
}
