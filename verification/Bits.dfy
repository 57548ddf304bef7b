/** Machine words on natural numbers: powers of two, bit operations, and big-endian bit strings. */
module Bits {

  function Pow2(n: nat): (p: nat)
    ensures p > 0
  {
    if n == 0 then 1 else 2 * Pow2(n - 1)
  }

  lemma {:induction false} Pow2Add(m: nat, n: nat)
    ensures Pow2(m + n) == Pow2(m) * Pow2(n)
    decreases n
  {
    if n > 0 {
      Pow2Add(m, n - 1);
      assert Pow2(m + n) == 2 * Pow2(m + n - 1);
      assert Pow2(m) * Pow2(n) == 2 * (Pow2(m) * Pow2(n - 1));
    }
  }

  lemma Pow2Monotone(m: nat, n: nat)
    requires m <= n
    ensures Pow2(m) <= Pow2(n)
    decreases n - m
  {
    if m < n {
      Pow2Monotone(m + 1, n);
    }
  }

  lemma SmallPowers()
    ensures Pow2(2) == 4 && Pow2(3) == 8 && Pow2(5) == 32 && Pow2(8) == 256 && Pow2(11) == 2048
    ensures Pow2(16) == 0x1_0000 && Pow2(18) == 0x4_0000 && Pow2(22) == 0x40_0000 && Pow2(32) == 0x1_0000_0000
  {
    assert Pow2(5) == 32;
    Pow2Add(5, 3);
    Pow2Add(8, 3);
    Pow2Add(8, 8);
    Pow2Add(16, 2);
    Pow2Add(11, 11);
    Pow2Add(16, 16);
  }

  lemma Scale(a: nat, b: nat, c: nat)
    requires a <= b
    ensures a * c <= b * c
  {
  }

  lemma Distribute(a: nat, c: nat)
    ensures (a + 1) * c == a * c + c
  {
  }

  // ----- bit operations -----

  function BitOr(a: nat, b: nat): nat {
    if a == 0 then b else if b == 0 then a
    else 2 * BitOr(a / 2, b / 2) + (if a % 2 == 1 || b % 2 == 1 then 1 else 0)
  }

  function BitAnd(a: nat, b: nat): nat {
    if a == 0 || b == 0 then 0
    else 2 * BitAnd(a / 2, b / 2) + (if a % 2 == 1 && b % 2 == 1 then 1 else 0)
  }

  function BitXor(a: nat, b: nat): nat {
    if a == 0 then b else if b == 0 then a
    else 2 * BitXor(a / 2, b / 2) + (if a % 2 != b % 2 then 1 else 0)
  }

  /** A left shift of a 32-bit word drops what leaves it. */
  function Shl32(a: nat, k: nat): nat {
    (a * Pow2(k)) % 0x1_0000_0000
  }

  /** A right shift, one bit at a time. */
  function Shr(a: nat, k: nat): nat
    decreases k
  {
    if k == 0 then a else Shr(a / 2, k - 1)
  }

  /** The low `k` bits. */
  function Low(a: nat, k: nat): nat
    decreases k
  {
    if k == 0 then 0 else 2 * Low(a / 2, k - 1) + a % 2
  }

  lemma HalfOfDouble(a: nat, p: nat)
    ensures (a * (2 * p)) / 2 == a * p && (a * (2 * p)) % 2 == 0
  {
    assert a * (2 * p) == 2 * (a * p);
  }

  lemma {:induction false} OrDisjoint(a: nat, k: nat, b: nat)
    requires b < Pow2(k)
    ensures BitOr(a * Pow2(k), b) == a * Pow2(k) + b
    decreases k
  {
    if k > 0 {
      HalfOfDouble(a, Pow2(k - 1));
      OrDisjoint(a, k - 1, b / 2);
    }
  }

  lemma {:induction false} AndMask(a: nat, k: nat)
    ensures BitAnd(a, Pow2(k) - 1) == Low(a, k)
    decreases k
  {
    if k > 0 {
      AndMask(a / 2, k - 1);
      assert (Pow2(k) - 1) / 2 == Pow2(k - 1) - 1;
    }
  }

  lemma {:induction false} ShrLow(a: nat, k: nat)
    ensures a == Shr(a, k) * Pow2(k) + Low(a, k) && Low(a, k) < Pow2(k)
    decreases k
  {
    if k > 0 {
      ShrLow(a / 2, k - 1);
      assert Shr(a, k) * Pow2(k) == 2 * (Shr(a / 2, k - 1) * Pow2(k - 1));
    }
  }

  lemma {:induction false} ShrBound(a: nat, n: nat, k: nat)
    requires a < Pow2(n + k)
    ensures Shr(a, k) < Pow2(n)
    decreases k
  {
    if k > 0 {
      ShrBound(a / 2, n, k - 1);
    }
  }

  lemma {:induction false} XorTwice(a: nat, b: nat)
    ensures BitXor(BitXor(a, b), b) == a
    decreases a + b
  {
    if a == 0 {
      XorSelf(b);
    } else if b != 0 {
      XorTwice(a / 2, b / 2);
      var x := BitXor(a, b);
      assert x / 2 == BitXor(a / 2, b / 2);
      if x == 0 {
        assert BitXor(a / 2, b / 2) == 0;
      }
    }
  }

  lemma {:induction false} XorSelf(b: nat)
    ensures BitXor(b, b) == 0
  {
    if b != 0 {
      XorSelf(b / 2);
    }
  }

  lemma {:induction false} XorBound(a: nat, b: nat, k: nat)
    requires a < Pow2(k) && b < Pow2(k)
    ensures BitXor(a, b) < Pow2(k)
    decreases k
  {
    if k > 0 && a != 0 && b != 0 {
      XorBound(a / 2, b / 2, k - 1);
    }
  }

  // ----- bit strings -----

  /** The low `n` bits of `v`, most significant first. */
  function BitString(v: nat, n: nat): (s: seq<bool>)
    ensures |s| == n
    decreases n
  {
    if n == 0 then [] else BitString(v / 2, n - 1) + [v % 2 == 1]
  }

  lemma XorHalves(a: nat, b: nat)
    ensures BitXor(a, b) / 2 == BitXor(a / 2, b / 2) && (BitXor(a, b) % 2 == 1 <==> a % 2 != b % 2)
  {
  }

  /** Xor is the bitwise difference. */
  lemma {:induction false} XorBits(a: nat, b: nat, n: nat, k: nat)
    requires k < n
    ensures BitString(BitXor(a, b), n)[k] == (BitString(a, n)[k] != BitString(b, n)[k])
    decreases n
  {
    XorHalves(a, b);
    if k < n - 1 {
      XorBits(a / 2, b / 2, n - 1, k);
    }
  }

  function BitValue(s: seq<bool>): (v: nat) {
    if s == [] then 0 else 2 * BitValue(s[..|s| - 1]) + (if s[|s| - 1] then 1 else 0)
  }

  function Zeros(n: nat): seq<bool> {
    seq(n, _ => false)
  }

  lemma {:induction false} ValueOfString(v: nat, n: nat)
    requires v < Pow2(n)
    ensures BitValue(BitString(v, n)) == v
    decreases n
  {
    if n > 0 {
      ValueOfString(v / 2, n - 1);
      assert BitString(v, n)[..n - 1] == BitString(v / 2, n - 1);
    }
  }

  lemma {:induction false} StringOfValue(s: seq<bool>)
    ensures BitValue(s) < Pow2(|s|) && BitString(BitValue(s), |s|) == s
  {
    if s != [] {
      StringOfValue(s[..|s| - 1]);
      assert s == s[..|s| - 1] + [s[|s| - 1]];
    }
  }

  /** Shifting in: the bits of `a`, then the bits of `b`. */
  lemma {:induction false} StringJoin(a: nat, n: nat, b: nat, m: nat)
    requires b < Pow2(m)
    ensures BitString(a * Pow2(m) + b, n + m) == BitString(a, n) + BitString(b, m)
    decreases m
  {
    if m == 0 {
      assert BitString(a, n) + [] == BitString(a, n);
    } else {
      var p := Pow2(m - 1);
      HalfOfDouble(a, p);
      var v := a * Pow2(m) + b;
      assert v / 2 == a * p + b / 2 && v % 2 == b % 2;
      StringJoin(a, n, b / 2, m - 1);
      assert BitString(v, n + m) == BitString(v / 2, n + m - 1) + [v % 2 == 1];
    }
  }

  /** Shifting out: the high bits, then the low ones. */
  lemma StringSplit(v: nat, n: nat, m: nat)
    requires v < Pow2(n + m)
    ensures BitString(v, n + m) == BitString(Shr(v, m), n) + BitString(Low(v, m), m)
    ensures Shr(v, m) < Pow2(n) && Low(v, m) < Pow2(m)
  {
    hide Shr, Low, Pow2;
    ShrLow(v, m);
    ShrBound(v, n, m);
    StringJoin(Shr(v, m), n, Low(v, m), m);
  }

  lemma {:induction false} ZerosAreZero(n: nat)
    ensures BitString(0, n) == Zeros(n)
  {
    if n > 0 {
      ZerosAreZero(n - 1);
      assert Zeros(n) == Zeros(n - 1) + [false];
    }
  }

  /** Each bit of the byte `x` is the bit of `a`, flipped exactly where `b` has a one. */
  predicate Flipped(x: nat, a: nat, b: nat) {
    forall k | 0 <= k < 8 :: BitString(x, 8)[k] == (BitString(a, 8)[k] != BitString(b, 8)[k])
  }

  lemma FlippedExactly(x: nat, a: nat, b: nat)
    requires x < 256 && a < 256 && b < 256
    ensures x == BitXor(a, b) <==> Flipped(x, a, b)
  {
    hide BitXor, BitString;
    SmallPowers();
    forall k | 0 <= k < 8
      ensures BitString(BitXor(a, b), 8)[k] == (BitString(a, 8)[k] != BitString(b, 8)[k])
    {
      XorBits(a, b, 8, k);
    }
    if Flipped(x, a, b) {
      assert BitString(x, 8) == BitString(BitXor(a, b), 8);
      XorBound(a, b, 8);
      StringInjective(x, BitXor(a, b), 8);
    }
  }

  lemma StringInjective(a: nat, b: nat, n: nat)
    requires a < Pow2(n) && b < Pow2(n) && BitString(a, n) == BitString(b, n)
    ensures a == b
  {
    ValueOfString(a, n);
    ValueOfString(b, n);
  }
}
