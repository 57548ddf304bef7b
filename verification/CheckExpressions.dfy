/**
  Normalising check-constraint expressions before they are compared: white space goes, and then
  every pair of outer parentheses that match each other.
 */
module CheckExpressions {
  import opened Basics

  /** Open minus closed parentheses. */
  function Depth(s: string): int {
    if s == "" then 0
    else
      Depth(s[..|s| - 1]) + (if s[|s| - 1] == '(' then 1 else if s[|s| - 1] == ')' then -1 else 0)
  }

  /** Every closing parenthesis closes an open one, and none stays open. */
  predicate Balanced(s: string) {
    Depth(s) == 0 && forall k | 0 <= k <= |s| :: Depth(s[..k]) >= 0
  }

  function Wrapped(s: string): string {
    "(" + s + ")"
  }

  /** The first character is a parenthesis that the last character closes. */
  ghost predicate IsWrapped(s: string) {
    |s| >= 2 && s == Wrapped(s[1..|s| - 1]) && Balanced(s[1..|s| - 1])
  }

  function WithoutWhitespace(s: string): string {
    if s == "" then ""
    else (if IsWhitespace(s[0]) then "" else [s[0]]) + WithoutWhitespace(s[1..])
  }

  lemma {:induction false} WithoutWhitespaceKeeps(s: string)
    ensures forall c | c in WithoutWhitespace(s) :: !IsWhitespace(c)
    ensures (forall c | c in s :: !IsWhitespace(c)) ==> WithoutWhitespace(s) == s
  {
    if s != "" {
      WithoutWhitespaceKeeps(s[1..]);
      assert s == [s[0]] + s[1..];
    }
  }

  /** White space goes and everything else stays, in order. */
  lemma {:induction false} WithoutWhitespaceExactly(a: string, c: char)
    ensures WithoutWhitespace(a + [c]) == WithoutWhitespace(a) + (if IsWhitespace(c) then "" else [c])
    ensures WithoutWhitespace("") == ""
  {
    hide IsWhitespace;
    if a == "" {
      assert a + [c] == [c] && [c][1..] == "";
    } else {
      assert (a + [c])[0] == a[0] && (a + [c])[1..] == a[1..] + [c];
      WithoutWhitespaceExactly(a[1..], c);
    }
  }

  lemma {:induction false} DepthConcat(a: string, b: string)
    ensures Depth(a + b) == Depth(a) + Depth(b)
    decreases |b|
  {
    if b == "" {
      assert a + b == a;
    } else {
      assert (a + b)[..|a + b| - 1] == a + b[..|b| - 1];
      DepthConcat(a, b[..|b| - 1]);
    }
  }

  lemma DepthOfParentheses()
    ensures Depth("(") == 1 && Depth(")") == -1 && Depth("") == 0
    ensures forall c | c != '(' && c != ')' :: Depth([c]) == 0
  {
    assert forall c: char :: [c][..0] == "";
    assert "("[..0] == "" && ")"[..0] == "";
  }

  /** Inside the outer pair every depth is one lower. */
  lemma InnerDepth(s: string, k: nat)
    requires |s| >= 2 && s[0] == '(' && 1 <= k < |s|
    ensures Depth(s[..k]) == 1 + Depth(s[1..|s| - 1][..k - 1])
  {
    assert s[..k] == "(" + s[1..|s| - 1][..k - 1];
    DepthConcat("(", s[1..|s| - 1][..k - 1]);
    DepthOfParentheses();
  }

  lemma WholeDepth(s: string)
    requires |s| >= 2 && s[0] == '(' && s[|s| - 1] == ')'
    ensures Depth(s) == Depth(s[1..|s| - 1])
  {
    InnerDepth(s, |s| - 1);
    assert s[1..|s| - 1][..|s| - 2] == s[1..|s| - 1];
  }

  /** The first return to depth zero decides. */
  lemma WrappedByDepths(s: string)
    requires |s| >= 2 && s[0] == '(' && s[|s| - 1] == ')'
    ensures IsWrapped(s) <==> Depth(s) == 0 && forall k | 1 <= k < |s| :: Depth(s[..k]) > 0
  {
    hide Depth;
    var inner := s[1..|s| - 1];
    assert s == Wrapped(inner);
    WholeDepth(s);
    forall k | 1 <= k < |s|
      ensures Depth(s[..k]) == 1 + Depth(inner[..k - 1])
    {
      InnerDepth(s, k);
    }
    if forall k | 1 <= k < |s| :: Depth(s[..k]) > 0 {
      forall k | 0 <= k <= |inner|
        ensures Depth(inner[..k]) >= 0
      {
        assert Depth(s[..k + 1]) > 0;
      }
    }
    if IsWrapped(s) {
      forall k | 1 <= k < |s|
        ensures Depth(s[..k]) > 0
      {
        assert Depth(inner[..k - 1]) >= 0;
      }
    }
  }

  /** The depth scan: true exactly when the first parenthesis is closed by the last character. */
  method HasSingleOuterParentheses(s: string) returns (r: bool)
    ensures r <==> IsWrapped(s)
  {
    if s == "" || s[0] != '(' || s[|s| - 1] != ')' {
      return false;
    }
    assert |s| >= 2;
    WrappedByDepths(s);
    hide IsWrapped;
    DepthOfParentheses();
    var depth := 0;
    assert s[..0] == "";
    for index := 0 to |s|
      invariant depth == Depth(s[..index])
      invariant forall k | 1 <= k < |s| && k <= index :: Depth(s[..k]) > 0
    {
      assert s[..index + 1][..index] == s[..index];
      if s[index] == '(' {
        depth := depth + 1;
      } else if s[index] == ')' {
        depth := depth - 1;
        if depth == 0 && index != |s| - 1 {
          assert Depth(s[..index + 1]) == 0;
          return false;
        }
      }
      StaysOpen(s, index);
    }
    assert s[..|s|] == s;
    return depth == 0;
  }

  /** Depth moves by one, so it cannot pass zero unseen. */
  lemma StaysOpen(s: string, index: nat)
    requires index < |s| && s[0] == '('
    requires index > 0 ==> Depth(s[..index]) > 0
    ensures Depth(s[..index + 1]) >= 0
  {
    assert s[..index + 1][..index] == s[..index];
    if index == 0 {
      DepthOfParentheses();
      assert s[..1] == "(" && s[..0] == "";
    }
  }

  /** Layers of outer parentheses. */
  function Layers(s: string, k: nat): string
    decreases k
  {
    if k == 0 then s else Layers(Wrapped(s), k - 1)
  }

  lemma {:induction false} OneMoreLayer(s: string, k: nat)
    ensures Layers(s, k + 1) == Wrapped(Layers(s, k))
    decreases k
  {
    if k > 0 {
      OneMoreLayer(Wrapped(s), k - 1);
    }
  }

  /** Wrapping keeps balance, and unwrapping an outer pair does. */
  lemma WrappedIsBalanced(s: string)
    requires Balanced(s)
    ensures Balanced(Wrapped(s)) && IsWrapped(Wrapped(s))
  {
    hide Depth;
    var w := Wrapped(s);
    assert w[1..|w| - 1] == s;
    WholeDepth(w);
    DepthOfParentheses();
    forall k | 0 <= k <= |w|
      ensures Depth(w[..k]) >= 0
    {
      if k == 0 {
        assert w[..0] == "";
      } else if k == |w| {
        assert w[..k] == w;
      } else {
        InnerDepth(w, k);
      }
    }
  }

  /** What is left when no outer pair matches any more. */
  ghost predicate IsNormalForm(expression: string, r: string, layers: nat) {
    Layers(r, layers) == WithoutWhitespace(expression) && !IsWrapped(r) && (layers > 0 ==> Balanced(r))
  }

  /** Strips every layer: the result, wrapped again, is the expression without white space. */
  method Normalize(expression: string) returns (normalized: string)
    ensures exists layers :: IsNormalForm(expression, normalized, layers)
  {
    normalized := WithoutWhitespace(expression);
    ghost var layers := 0;
    hide IsWhitespace, Depth;
    var more := HasSingleOuterParentheses(normalized);
    while more
      invariant more <==> IsWrapped(normalized)
      invariant Layers(normalized, layers) == WithoutWhitespace(expression)
      invariant layers > 0 ==> Balanced(normalized)
      decreases |normalized|
    {
      normalized := normalized[1..|normalized| - 1];
      layers := layers + 1;
      more := HasSingleOuterParentheses(normalized);
    }
    assert IsNormalForm(expression, normalized, layers);
  }

  // ----- what the normal form is -----

  lemma {:induction false} LayersLength(s: string, k: nat)
    ensures |Layers(s, k)| == |s| + 2 * k
    decreases k
  {
    if k > 0 {
      LayersLength(Wrapped(s), k - 1);
    }
  }

  lemma Unwrap(a: string, b: string)
    requires Wrapped(a) == Wrapped(b)
    ensures a == b
  {
    assert Wrapped(a)[1..|Wrapped(a)| - 1] == a && Wrapped(b)[1..|Wrapped(b)| - 1] == b;
  }

  /** There is one normal form, with one number of layers. */
  lemma {:induction false} NormalFormIsUnique(text: string, a: string, j: nat, b: string, k: nat)
    requires Layers(a, j) == text && !IsWrapped(a) && (j > 0 ==> Balanced(a))
    requires Layers(b, k) == text && !IsWrapped(b) && (k > 0 ==> Balanced(b))
    ensures a == b && j == k
    decreases j
  {
    if j > 0 && k > 0 {
      OneMoreLayer(a, j - 1);
      OneMoreLayer(b, k - 1);
      Unwrap(Layers(a, j - 1), Layers(b, k - 1));
      NormalFormIsUnique(Layers(a, j - 1), a, j - 1, b, k - 1);
    } else if j > 0 {
      WrappedLayers(a, j);
    } else if k > 0 {
      WrappedLayers(b, k);
    }
  }

  lemma {:induction false} BalancedLayers(s: string, k: nat)
    requires Balanced(s)
    ensures Balanced(Layers(s, k))
    decreases k
  {
    if k > 0 {
      WrappedIsBalanced(s);
      BalancedLayers(Wrapped(s), k - 1);
    }
  }

  lemma WrappedLayers(s: string, k: nat)
    requires Balanced(s) && k > 0
    ensures IsWrapped(Layers(s, k))
  {
    OneMoreLayer(s, k - 1);
    BalancedLayers(s, k - 1);
    WrappedIsBalanced(Layers(s, k - 1));
  }

  /** Normalising again changes nothing. */
  lemma NormalizeIsIdempotent(expression: string, r: string, layers: nat, again: string, more: nat)
    requires IsNormalForm(expression, r, layers) && IsNormalForm(r, again, more)
    ensures again == r && more == 0
  {
    hide IsWhitespace, Depth, IsWrapped, Balanced;
    LayersHold(r, layers);
    WithoutWhitespaceKeeps(expression);
    WithoutWhitespaceKeeps(r);
    NormalFormIsUnique(r, again, more, r, 0);
  }

  lemma {:induction false} LayersHold(s: string, k: nat)
    ensures forall c | c in s :: c in Layers(s, k)
    decreases k
  {
    if k > 0 {
      LayersHold(Wrapped(s), k - 1);
      assert forall c | c in s :: c in Wrapped(s);
    }
  }

  /** Normalising neither makes an expression balanced nor unbalances it. */
  lemma NormalizeKeepsBalance(expression: string, r: string, layers: nat)
    requires IsNormalForm(expression, r, layers)
    ensures Balanced(r) <==> Balanced(WithoutWhitespace(expression))
  {
    if layers > 0 {
      BalancedLayers(r, layers);
    }
  }

  lemma WrappedWithoutWhitespace(s: string)
    ensures WithoutWhitespace(Wrapped(s)) == Wrapped(WithoutWhitespace(s))
  {
    assert Wrapped(s)[1..] == s + ")";
    TailWithoutWhitespace(s);
  }

  lemma {:induction false} TailWithoutWhitespace(s: string)
    ensures WithoutWhitespace(s + ")") == WithoutWhitespace(s) + ")"
  {
    if s == "" {
      assert s + ")" == ")" && ")"[1..] == "";
    } else {
      assert (s + ")")[1..] == s[1..] + ")";
      TailWithoutWhitespace(s[1..]);
    }
  }

  /** An extra outer pair is ignored exactly when what it encloses is balanced. */
  lemma ExtraParenthesesIgnored(expression: string, r: string, layers: nat, wrapped: string, more: nat)
    requires IsNormalForm(expression, r, layers) && IsNormalForm(Wrapped(expression), wrapped, more)
    ensures wrapped == r <==> Balanced(WithoutWhitespace(expression))
  {
    WrappedWithoutWhitespace(expression);
    var text := WithoutWhitespace(expression);
    NormalizeKeepsBalance(expression, r, layers);
    OneMoreLayer(r, layers);
    LayersLength(r, layers);
    hide Depth, IsWhitespace, WithoutWhitespace, Layers;
    if Balanced(text) {
      NormalFormIsUnique(Wrapped(text), wrapped, more, r, layers + 1);
    } else {
      UnbalancedStays(text, wrapped, more);
    }
  }

  lemma UnbalancedStays(text: string, r: string, layers: nat)
    requires !Balanced(text) && Layers(r, layers) == Wrapped(text) && (layers > 0 ==> Balanced(r))
    ensures r == Wrapped(text)
  {
    if layers > 0 {
      OneMoreLayer(r, layers - 1);
      BalancedLayers(r, layers - 1);
      Unwrap(Layers(r, layers - 1), text);
    }
  }
}
