/** One bit string seen as a row of values of equal width, most significant bit first. */
module BitGroups {
  import opened Basics
  import opened Bits

  predicate Fits(values: seq<nat>, n: nat) {
    forall i | 0 <= i < |values| :: values[i] < Pow2(n)
  }

  /** The bits of the values, each `n` wide. */
  function Spread(values: seq<nat>, n: nat): (s: seq<bool>) {
    if values == [] then [] else BitString(values[0], n) + Spread(values[1..], n)
  }

  /** The values a bit string is made of, `n` bits each; a shorter rest is dropped. */
  function Gather(s: seq<bool>, n: nat): seq<nat>
    requires n > 0
  {
    if |s| < n then [] else [BitValue(s[..n])] + Gather(s[n..], n)
  }

  lemma {:induction false} SpreadLength(values: seq<nat>, n: nat)
    ensures |Spread(values, n)| == |values| * n
  {
    if values != [] {
      SpreadLength(values[1..], n);
      assert |values| * n == n + (|values| - 1) * n;
    }
  }

  lemma {:induction false} SpreadAppend(values: seq<nat>, v: nat, n: nat)
    ensures Spread(values + [v], n) == Spread(values, n) + BitString(v, n)
  {
    if values == [] {
      assert [v][1..] == [];
      assert BitString(v, n) + [] == BitString(v, n) == [] + BitString(v, n);
    } else {
      assert (values + [v])[1..] == values[1..] + [v];
      SpreadAppend(values[1..], v, n);
      Associative(BitString(values[0], n), Spread(values[1..], n), BitString(v, n));
    }
  }

  lemma Associative<T>(a: seq<T>, b: seq<T>, c: seq<T>)
    ensures a + b + c == a + (b + c)
  {
  }

  /** A bit string determines the values it was spread from. */
  lemma {:induction false} GatherSpread(values: seq<nat>, n: nat)
    requires n > 0 && Fits(values, n)
    ensures Gather(Spread(values, n), n) == values
  {
    if values != [] {
      var first, rest := BitString(values[0], n), Spread(values[1..], n);
      assert (first + rest)[..n] == first && (first + rest)[n..] == rest;
      ValueOfString(values[0], n);
      GatherSpread(values[1..], n);
    }
  }

  lemma SpreadInjective(a: seq<nat>, b: seq<nat>, n: nat)
    requires n > 0 && Fits(a, n) && Fits(b, n) && Spread(a, n) == Spread(b, n)
    ensures a == b
  {
    GatherSpread(a, n);
    GatherSpread(b, n);
  }

  lemma {:induction false} GatherFits(s: seq<bool>, n: nat)
    requires n > 0
    ensures Fits(Gather(s, n), n)
    decreases |s|
  {
    if |s| >= n {
      StringOfValue(s[..n]);
      hide Pow2;
      GatherFits(s[n..], n);
    }
  }

  /** Gathering loses nothing when the groups come out even. */
  lemma {:induction false} SpreadGather(s: seq<bool>, n: nat, k: nat)
    requires n > 0 && |s| == k * n
    ensures Spread(Gather(s, n), n) == s && |Gather(s, n)| == k
    decreases k
  {
    hide BitString, BitValue, Pow2;
    if k == 0 {
      assert |s| == 0;
    } else {
      Distribute(k - 1, n);
      StringOfValue(s[..n]);
      SpreadGather(s[n..], n, k - 1);
      assert s == s[..n] + s[n..];
      assert Gather(s, n) == [BitValue(s[..n])] + Gather(s[n..], n);
    }
  }

  lemma BytesFit(b: bytes)
    ensures Fits(b, 8)
  {
    SmallPowers();
  }

  lemma {:induction false} SpreadConcat(a: seq<nat>, b: seq<nat>, n: nat)
    ensures Spread(a + b, n) == Spread(a, n) + Spread(b, n)
  {
    if a == [] {
      assert a + b == b;
    } else {
      assert (a + b)[1..] == a[1..] + b;
      SpreadConcat(a[1..], b, n);
      Associative(BitString(a[0], n), Spread(a[1..], n), Spread(b, n));
    }
  }
}
