/**
  Structure preservation: when does re-reading the rendered SQL give back the template's own
  segments, with each placeholder replaced by the segments of its fragment?

  `StructurePreserved` answers with a condition on the bytes around each placeholder
  (`DelimitedFrom`), in both directions.
 */
module SqlStructure {
  import opened Basics
  import opened SqlGrammar

  // ----- how much of the preceding text matters -----

  predicate IdentifierBefore(before: bytes) {
    |before| > 0 && IdentifierByte(before[|before| - 1])
  }

  predicate SameContext(a: bytes, b: bytes) {
    EscapeBefore(a) == EscapeBefore(b) && IdentifierBefore(a) == IdentifierBefore(b)
  }

  lemma ContextAfter(a: bytes, b: bytes, text: bytes)
    requires text != []
    ensures IdentifierBefore(a + text) == IdentifierBefore(b + text)
    ensures |text| >= 2 || !LetterE(text[0]) || IdentifierBefore(a) == IdentifierBefore(b) ==>
              SameContext(a + text, b + text)
    ensures |text| == 1 ==> EscapeBefore(a + text) == (LetterE(text[0]) && !IdentifierBefore(a))
  {
  }

  lemma {:induction false} GrammarInContext(a: bytes, b: bytes, segs: seq<Segment>, rest: bytes)
    requires SameContext(a, b)
    ensures Grammar(a, segs, rest) == Grammar(b, segs, rest)
    decreases |segs|
  {
    if segs != [] && WellFormed(a, segs[0]) {
      SegmentTextNonempty(a, segs[0]);
      ContextAfter(a, b, SegmentText(segs[0]));
      GrammarInContext(a + SegmentText(segs[0]), b + SegmentText(segs[0]), segs[1..], rest);
    }
  }

  lemma SegmentTextNonempty(before: bytes, seg: Segment)
    requires WellFormed(before, seg)
    ensures SegmentText(seg) != []
  {
  }

  /** What the two contexts must agree on for the text `t` to be read alike after them. */
  predicate ContextAgrees(a: bytes, b: bytes, t: bytes) {
    && (StartsWith(t, QUOTE) ==> EscapeBefore(a) == EscapeBefore(b))
    && (|t| >= 2 && LetterE(t[0]) && t[1] == QUOTE ==> IdentifierBefore(a) == IdentifierBefore(b))
  }

  lemma {:induction false} GrammarAppend(before: bytes, x: seq<Segment>, y: seq<Segment>, rest: bytes)
    ensures TextOf(x + y) == TextOf(x) + TextOf(y)
    ensures Grammar(before, x + y, rest) <==>
            Grammar(before, x, TextOf(y) + rest) && Grammar(before + TextOf(x), y, rest)
    decreases |x|
  {
    hide WellFormed, MayFollow, SegmentText;
    if x == [] {
      assert x + y == y && before + TextOf(x) == before;
    } else {
      assert (x + y)[1..] == x[1..] + y;
      var text := SegmentText(x[0]);
      GrammarAppend(before + text, x[1..], y, rest);
      assert TextOf(x[1..]) + TextOf(y) + rest == TextOf(x[1..]) + (TextOf(y) + rest);
      assert before + text + TextOf(x[1..]) == before + TextOf(x);
      assert TextOf(x) + TextOf(y) == text + (TextOf(x[1..]) + TextOf(y));
    }
  }

  // ----- fragments -----

  /** A text that stands on its own: characters, string literals and quoted identifiers, of which
      the last kind does not come first. */
  predicate FragmentShape(segs: seq<Segment>) {
    && Grammar([], segs, [])
    && (forall s | s in segs :: s.Character? || s.StringLiteral? || s.QuotedIdentifier?)
    && var f := TextOf(segs);
       |f| >= 2 && f[0] != STAR && f[0] != DOUBLE_QUOTE && f[|f| - 1] != DASH && f[|f| - 1] != SLASH
  }

  /** The fragment `f` may be inserted after the output `before`. */
  predicate OpensCleanly(before: bytes, f: bytes) {
    && !(StartsWith(f, QUOTE) && (EscapeBefore(before) || EndsWith(before, QUOTE)))
    && !(|f| >= 2 && LetterE(f[0]) && f[1] == QUOTE && IdentifierBefore(before))
    && !(StartsWith(f, DASH) && EndsWith(before, DASH))
  }

  /** The template may go on with `t` after the fragment `f`. */
  predicate ClosesCleanly(f: bytes, t: bytes) {
    && !(StartsWith(t, QUOTE) && (EndsWith(f, QUOTE) || EscapeBefore(f)))
    && !(StartsWith(t, DOUBLE_QUOTE) && EndsWith(f, DOUBLE_QUOTE))
    && !(|t| >= 2 && LetterE(t[0]) && t[1] == QUOTE && !IdentifierBefore(f))
  }

  lemma SegmentBytes(before: bytes, seg: Segment)
    requires WellFormed(before, seg)
    ensures var t := SegmentText(seg);
            && t != []
            && (t[0] == QUOTE <==> seg.StringLiteral?)
            && (t[0] == DOLLAR <==> seg.Placeholder?)
            && (LetterE(t[0]) ==> seg.Character? && |t| == 1)
            && (seg.StringLiteral? ==> |t| >= 2 && t[|t| - 1] == QUOTE)
            && (seg.QuotedIdentifier? ==> |t| >= 2 && t[0] == t[|t| - 1] == DOUBLE_QUOTE)
            && (seg.Character? ==> t[|t| - 1] != QUOTE && t[|t| - 1] != DOUBLE_QUOTE && (t[|t| - 1] == DASH || t[|t| - 1] == SLASH ==> |t| == 1))
  {
    if seg.Character? {
      var t := seg.utf8;
      if |t| > 1 {
        assert Continuation(t[|t| - 1]);
      }
    }
  }

  lemma {:induction false} LastSegment(before: bytes, segs: seq<Segment>, rest: bytes)
    requires segs != [] && Grammar(before, segs, rest)
    ensures var last := segs[|segs| - 1];
            var t, lt := TextOf(segs), SegmentText(last);
            && (exists b :: WellFormed(b, last))
            && 1 <= |lt| <= |t| && t[|t| - |lt|..] == lt
    decreases |segs|
  {
    SegmentTextNonempty(before, segs[0]);
    if |segs| == 1 {
      assert TextOf(segs) == SegmentText(segs[0]);
    } else {
      LastSegment(before + SegmentText(segs[0]), segs[1..], rest);
      var lt := SegmentText(segs[|segs| - 1]);
      assert TextOf(segs)[|TextOf(segs)| - |lt|..] == TextOf(segs[1..])[|TextOf(segs[1..])| - |lt|..];
    }
  }

  lemma {:induction false} GrammarFollowedBy(before: bytes, segs: seq<Segment>, rest: bytes)
    requires segs != [] && Grammar(before, segs, [])
    ensures Grammar(before, segs, rest) <==> MayFollow(segs[|segs| - 1], rest)
    decreases |segs|
  {
    if |segs| == 1 {
      assert TextOf(segs[1..]) + rest == rest;
    } else {
      GrammarFollowedBy(before + SegmentText(segs[0]), segs[1..], rest);
      SegmentTextNonempty(before + SegmentText(segs[0]), segs[1]);
      var tail := TextOf(segs[1..]);
      assert tail != [] && (tail + [])[0] == (tail + rest)[0];
      SameFirstByte(segs[0], tail + [], tail + rest);
    }
  }

  lemma SameFirstByte(seg: Segment, x: bytes, y: bytes)
    requires (x == [] <==> y == []) && (x != [] ==> x[0] == y[0])
    ensures MayFollow(seg, x) == MayFollow(seg, y)
  {
  }

  lemma GrammarSecond(before: bytes, segs: seq<Segment>, rest: bytes)
    requires |segs| > 1 && Grammar(before, segs, rest)
    ensures WellFormed(before + SegmentText(segs[0]), segs[1])
    ensures |SegmentText(segs[0])| == 1 && SegmentText(segs[1]) != [] ==>
              TextOf(segs)[1] == SegmentText(segs[1])[0]
  {
    assert segs[1..][0] == segs[1];
    assert Grammar(before + SegmentText(segs[0]), segs[1..], rest);
    assert TextOf(segs[1..]) == SegmentText(segs[1]) + TextOf(segs[1..][1..]);
  }

  /** After a lone E the two contexts may differ, which only a quote can notice. */
  lemma {:induction false} LoneLetterInPlace(before: bytes, segs: seq<Segment>, rest: bytes)
    requires FragmentShape(segs) && |SegmentText(segs[0])| == 1 && LetterE(SegmentText(segs[0])[0])
    requires IdentifierBefore(before)
    ensures TextOf(segs)[0] == SegmentText(segs[0])[0]
    ensures Grammar(before, segs, rest) <==> Grammar([], segs, rest) && TextOf(segs)[1] != QUOTE
  {
    var t0 := SegmentText(segs[0]);
    assert |segs| > 1 && [] + t0 == t0;
    GrammarSecond([], segs, []);
    var second := segs[1];
    SegmentBytes(t0, second);
    ContextAfter([], before, t0);
    ContextAfter(before, [], t0);
    SegmentBytes([], segs[0]);
    assert segs[1..][0] == second;
    if !second.StringLiteral? {
      ContextAfter(t0, before + t0, SegmentText(second));
      GrammarInContext(t0 + SegmentText(second), before + t0 + SegmentText(second), segs[1..][1..], rest);
    }
  }

  /** Reading a fragment in place comes down to the bytes at its two ends. */
  lemma {:induction false} FragmentInPlace(before: bytes, segs: seq<Segment>, rest: bytes)
    requires FragmentShape(segs)
    ensures var f := TextOf(segs);
            Grammar(before, segs, rest) <==>
            (&& !(StartsWith(f, QUOTE) && EscapeBefore(before))
             && !(LetterE(f[0]) && f[1] == QUOTE && IdentifierBefore(before))
             && MayFollow(segs[|segs| - 1], rest))
  {
    GrammarFollowedBy([], segs, rest);
    var first, t0 := segs[0], SegmentText(segs[0]);
    SegmentBytes([], first);
    assert TextOf(segs)[0] == t0[0];
    assert [] + t0 == t0;
    if |t0| == 1 && LetterE(t0[0]) && IdentifierBefore(before) {
      LoneLetterInPlace(before, segs, rest);
    } else {
      ContextAfter([], before, t0);
      GrammarInContext(t0, before + t0, segs[1..], rest);
    }
  }

  /** The last segment of a fragment, and what may follow it. */
  lemma FragmentEnd(segs: seq<Segment>, rest: bytes)
    requires FragmentShape(segs)
    ensures segs != []
    ensures var end, f := segs[|segs| - 1], TextOf(segs);
            && |f| >= 2
            && !end.Placeholder? && (exists b :: WellFormed(b, end))
            && 1 <= |SegmentText(end)| <= |f| && f[|f| - |SegmentText(end)|..] == SegmentText(end)
            && (EndsWith(f, QUOTE) ==> end.StringLiteral?)
            && (EndsWith(f, DOUBLE_QUOTE) ==> end.QuotedIdentifier?)
            && (MayFollow(end, rest) <==>
                !(EndsWith(f, QUOTE) && StartsWith(rest, QUOTE)) && !(EndsWith(f, DOUBLE_QUOTE) && StartsWith(rest, DOUBLE_QUOTE)))
  {
    var end, f := segs[|segs| - 1], TextOf(segs);
    LastSegment([], segs, []);
    var b :| WellFormed(b, end);
    SegmentBytes(b, end);
    assert end in segs;
    assert f[|f| - 1] == SegmentText(end)[|SegmentText(end)| - 1];
  }

  // ----- splicing -----

  predicate IsBound(s: Segment, n: nat) {
    s.Placeholder? ==> AllDigits(s.digits) && 1 <= DecimalValue(s.digits) <= n
  }

  predicate AllBound(segs: seq<Segment>, n: nat) {
    forall s | s in segs :: IsBound(s, n)
  }

  predicate Fragments(fs: seq<seq<Segment>>) {
    |fs| < USIZE_LIMIT && forall i | 0 <= i < |fs| :: FragmentShape(fs[i])
  }

  function Texts(fs: seq<seq<Segment>>): seq<bytes> {
    seq(|fs|, i requires 0 <= i < |fs| => TextOf(fs[i]))
  }

  function Replacement(seg: Segment, fs: seq<seq<Segment>>): seq<Segment>
    requires IsBound(seg, |fs|)
  {
    if seg.Placeholder? then fs[DecimalValue(seg.digits) - 1] else [seg]
  }

  /** The template's segments with each placeholder replaced by its fragment's segments. */
  function Spliced(segs: seq<Segment>, fs: seq<seq<Segment>>): seq<Segment>
    requires AllBound(segs, |fs|)
  {
    if segs == [] then []
    else
      assert segs[0] in segs;
      Replacement(segs[0], fs) + Spliced(segs[1..], fs)
  }

  lemma {:induction false} TextAppend(x: seq<Segment>, y: seq<Segment>)
    ensures TextOf(x + y) == TextOf(x) + TextOf(y)
  {
    hide SegmentText;
    if x == [] {
      assert x + y == y;
    } else {
      assert (x + y)[1..] == x[1..] + y;
      TextAppend(x[1..], y);
    }
  }

  lemma ReplacementIsRendered(seg: Segment, fs: seq<seq<Segment>>)
    requires IsBound(seg, |fs|) && |fs| < USIZE_LIMIT
    ensures RenderedSegment(seg, Texts(fs)) == Ok(TextOf(Replacement(seg, fs)))
  {
    if !seg.Placeholder? {
      assert [seg][1..] == [];
      assert SegmentText(seg) + [] == SegmentText(seg);
    }
  }

  lemma {:induction false} SplicedIsRendered(segs: seq<Segment>, fs: seq<seq<Segment>>)
    requires AllBound(segs, |fs|) && |fs| < USIZE_LIMIT
    ensures Rendered(segs, Texts(fs)) == Ok(TextOf(Spliced(segs, fs)))
  {
    if segs != [] {
      assert segs[0] in segs;
      hide RenderedSegment, Replacement, IsBound, SegmentText;
      SplicedIsRendered(segs[1..], fs);
      ReplacementIsRendered(segs[0], fs);
      TextAppend(Replacement(segs[0], fs), Spliced(segs[1..], fs));
    }
  }

  /** Every placeholder of `segs` is delimited, when the output so far is `before`: a condition
      on at most two bytes of output before it, and two bytes of template after it. */
  predicate DelimitedFrom(before: bytes, segs: seq<Segment>, fragments: seq<bytes>)
    requires AllBound(segs, |fragments|)
    decreases |segs|
  {
    if segs == [] then true
    else if segs[0].Placeholder? then
      assert segs[0] in segs;
      var f := fragments[DecimalValue(segs[0].digits) - 1];
      && OpensCleanly(before, f) && ClosesCleanly(f, TextOf(segs[1..]))
      && DelimitedFrom(before + f, segs[1..], fragments)
    else DelimitedFrom(before + SegmentText(segs[0]), segs[1..], fragments)
  }

  /** `last` is the segment the output so far ends with, if any. */
  ghost predicate Ends(before: bytes, last: Option<Segment>) {
    match last
    case None => before == []
    case Some(seg) =>
      var t := SegmentText(seg);
      && !seg.Placeholder? && (exists b :: WellFormed(b, seg))
      && |t| <= |before| && before[|before| - |t|..] == t
  }

  ghost predicate MayGoOn(last: Option<Segment>, rest: bytes) {
    last.Some? ==> MayFollow(last.value, rest)
  }

  lemma ByteMayFollow(b: bytes, seg: Segment, rest: bytes)
    requires WellFormed(b, seg) && !seg.Placeholder? && !seg.LineComment?
    requires rest != [] && rest[0] != DOUBLE_QUOTE && rest[0] != STAR
    ensures var t := SegmentText(seg);
            && t != []
            && (MayFollow(seg, rest) <==>
                !(rest[0] == QUOTE && t[|t| - 1] == QUOTE) && !(rest[0] == DASH && t[|t| - 1] == DASH))
  {
    SegmentBytes(b, seg);
    if seg.BlockComment? {
      CommentEndsInSlash(1, seg.body);
    }
  }

  lemma FragmentStart(segs: seq<Segment>)
    requires FragmentShape(segs)
    ensures TextOf(segs)[0] != DOUBLE_QUOTE && TextOf(segs)[0] != STAR
  {
    SegmentBytes([], segs[0]);
    assert TextOf(segs)[0] == SegmentText(segs[0])[0];
    assert segs[0] in segs;
  }

  /** A fragment may follow what stands before a placeholder exactly when its first byte does
      not merge with the last one. */
  lemma FragmentMayFollow(before: bytes, last: Option<Segment>, f: bytes, rest: bytes, tail: bytes)
    requires f != [] && f[0] != DOUBLE_QUOTE && f[0] != STAR
    requires Ends(before, last) && tail != [] && tail[0] == DOLLAR && MayGoOn(last, tail)
    ensures MayGoOn(last, f + rest) <==>
            !(StartsWith(f, QUOTE) && EndsWith(before, QUOTE)) && !(StartsWith(f, DASH) && EndsWith(before, DASH))
  {
    if last.Some? {
      var b :| WellFormed(b, last.value);
      ByteMayFollow(b, last.value, f + rest);
      var t := SegmentText(last.value);
      assert before[|before| - 1] == before[|before| - |t|..][|t| - 1];
    }
  }

  /** The output differs from the template's structure at once when a fragment is not closed. */
  lemma ClosesNeeded(tb: bytes, ob: bytes, f: bytes, last: Segment, segs: seq<Segment>, fs: seq<seq<Segment>>)
    requires AllBound(segs, |fs|) && Grammar(tb, segs, [])
    requires !EscapeBefore(tb) && IdentifierBefore(tb)
    requires |f| >= 2 && (EndsWith(f, QUOTE) ==> last.StringLiteral?)
    requires EndsWith(f, DOUBLE_QUOTE) ==> last.QuotedIdentifier?
    requires !ClosesCleanly(f, TextOf(segs))
    ensures !(MayFollow(last, TextOf(Spliced(segs, fs))) && Grammar(ob + f, Spliced(segs, fs), []))
  {
    var t, out := TextOf(segs), Spliced(segs, fs);
    assert segs != [] && segs[0] in segs;
    SegmentBytes(tb, segs[0]);
    assert t[0] == SegmentText(segs[0])[0];
    assert !segs[0].Placeholder?;
    assert out[0] == segs[0] && out[1..] == Spliced(segs[1..], fs);
    assert TextOf(out)[0] == t[0];
    ContextAfter([], ob, f);
    assert [] + f == f;
    if !StartsWith(t, QUOTE) && !StartsWith(t, DOUBLE_QUOTE) {
      var rest, tb1 := segs[1..], tb + SegmentText(segs[0]);
      assert rest != [] && rest[0] in rest;
      SegmentBytes(tb1, rest[0]);
      assert t[1] == SegmentText(rest[0])[0];
      assert out[1..][0] == rest[0];
      ContextAfter(tb, ob + f, SegmentText(segs[0]));
      ContextAfter(ob + f, tb, SegmentText(segs[0]));
    }
  }

  lemma {:induction false} PreservedFrom(tb: bytes, ob: bytes, last: Option<Segment>, segs: seq<Segment>, fs: seq<seq<Segment>>)
    requires Grammar(tb, segs, []) && AllBound(segs, |fs|) && Fragments(fs)
    requires ContextAgrees(tb, ob, TextOf(segs))
    requires Ends(ob, last) && MayGoOn(last, TextOf(segs))
    ensures MayGoOn(last, TextOf(Spliced(segs, fs))) && Grammar(ob, Spliced(segs, fs), []) <==>
            DelimitedFrom(ob, segs, Texts(fs))
    decreases |segs|
  {
    if segs == [] {
    } else if segs[0].Placeholder? {
      assert segs[0] in segs;
      PreservedAtPlaceholder(tb, ob, last, segs, fs);
    } else {
      assert segs[0] in segs;
      PreservedAtSegment(tb, ob, last, segs, fs);
    }
  }

  lemma {:induction false} PreservedAtSegment(tb: bytes, ob: bytes, last: Option<Segment>, segs: seq<Segment>, fs: seq<seq<Segment>>)
    requires Grammar(tb, segs, []) && AllBound(segs, |fs|) && Fragments(fs)
    requires ContextAgrees(tb, ob, TextOf(segs))
    requires Ends(ob, last) && MayGoOn(last, TextOf(segs))
    requires segs != [] && !segs[0].Placeholder?
    ensures MayGoOn(last, TextOf(Spliced(segs, fs))) && Grammar(ob, Spliced(segs, fs), []) <==>
            DelimitedFrom(ob, segs, Texts(fs))
    decreases |segs|, 0
  {
    var seg, t0, tail := segs[0], SegmentText(segs[0]), segs[1..];
    var out := Spliced(tail, fs);
    SegmentBytes(tb, seg);
    assert TextOf(segs)[0] == t0[0];
    assert ([seg] + out)[1..] == out;
    assert TextOf([seg] + out)[0] == t0[0];
    if last.Some? {
      SameFirstByte(last.value, TextOf(segs), TextOf([seg] + out));
    }
    ContextAfter(tb, ob, t0);
    if StartsWith(TextOf(tail), QUOTE) && |t0| == 1 {
      assert TextOf(segs)[1] == QUOTE;
    }
    assert WellFormed(ob, seg);
    assert (ob + t0)[|ob + t0| - |t0|..] == t0;
    assert TextOf(tail) + [] == TextOf(tail) && TextOf(out) + [] == TextOf(out);
    PreservedFrom(tb + t0, ob + t0, Some(seg), tail, fs);
  }

  /** A fragment followed by further output reads as itself exactly when it opens cleanly and
      its end does not merge with what follows. */
  lemma FragmentSpliced(ob: bytes, last: Option<Segment>, fragment: seq<Segment>, out: seq<Segment>, tail: bytes)
    requires FragmentShape(fragment) && Ends(ob, last)
    requires tail != [] && tail[0] == DOLLAR && MayGoOn(last, tail)
    ensures fragment != []
    ensures var f := TextOf(fragment);
            MayGoOn(last, TextOf(fragment + out)) && Grammar(ob, fragment + out, []) <==>
            (&& OpensCleanly(ob, f) && MayFollow(fragment[|fragment| - 1], TextOf(out)) && Grammar(ob + f, out, []))
  {
    var f := TextOf(fragment);
    FragmentInPlace(ob, fragment, TextOf(out));
    FragmentStart(fragment);
    FragmentMayFollow(ob, last, f, TextOf(out), tail);
    GrammarAppend(ob, fragment, out, []);
    assert TextOf(out) + [] == TextOf(out);
  }

  /** Unfolds one placeholder on both sides of the theorem. */
  lemma TemplatePlaceholder(tb: bytes, segs: seq<Segment>)
    requires Grammar(tb, segs, [])
    requires segs != [] && segs[0].Placeholder?
    ensures TextOf(segs) != [] && TextOf(segs)[0] == DOLLAR
    ensures var tb1 := tb + SegmentText(segs[0]); IdentifierBefore(tb1) && !EscapeBefore(tb1) && Grammar(tb1, segs[1..], [])
  {
    var digits := segs[0].digits;
    var tb1 := tb + SegmentText(segs[0]);
    assert tb1[|tb1| - 1] == digits[|digits| - 1];
    assert Digit(digits[|digits| - 1]);
  }

  lemma OutputPlaceholder(ob: bytes, segs: seq<Segment>, fs: seq<seq<Segment>>)
    requires AllBound(segs, |fs|)
    requires segs != [] && segs[0].Placeholder?
    ensures AllDigits(segs[0].digits) && 1 <= DecimalValue(segs[0].digits) <= |fs| && AllBound(segs[1..], |fs|)
    ensures var fragment := fs[DecimalValue(segs[0].digits) - 1];
            && Spliced(segs, fs) == fragment + Spliced(segs[1..], fs)
            && (DelimitedFrom(ob, segs, Texts(fs)) <==>
                (&& OpensCleanly(ob, TextOf(fragment)) && ClosesCleanly(TextOf(fragment), TextOf(segs[1..]))
                 && DelimitedFrom(ob + TextOf(fragment), segs[1..], Texts(fs))))
  {
    hide OpensCleanly, ClosesCleanly, TextOf, SegmentText, DecimalValue;
    assert segs[0] in segs;
    assert Texts(fs)[DecimalValue(segs[0].digits) - 1] == TextOf(fs[DecimalValue(segs[0].digits) - 1]);
  }

  lemma {:induction false} PreservedAtPlaceholder(tb: bytes, ob: bytes, last: Option<Segment>, segs: seq<Segment>, fs: seq<seq<Segment>>)
    requires Grammar(tb, segs, []) && AllBound(segs, |fs|) && Fragments(fs)
    requires Ends(ob, last) && MayGoOn(last, TextOf(segs))
    requires segs != [] && segs[0].Placeholder?
    ensures MayGoOn(last, TextOf(Spliced(segs, fs))) && Grammar(ob, Spliced(segs, fs), []) <==>
            DelimitedFrom(ob, segs, Texts(fs))
    decreases |segs|, 0
  {
    hide Grammar, WellFormed, SegmentText, MayFollow, FragmentShape, TextOf, Spliced, DelimitedFrom, Ends, OpensCleanly,
         AllBound, AllDigits, DecimalValue;
    TemplatePlaceholder(tb, segs);
    OutputPlaceholder(ob, segs, fs);
    var tail := segs[1..];
    var fragment := fs[DecimalValue(segs[0].digits) - 1];
    var f, out := TextOf(fragment), Spliced(tail, fs);
    var tb1 := tb + SegmentText(segs[0]);
    FragmentSpliced(ob, last, fragment, out, TextOf(segs));
    var end := fragment[|fragment| - 1];
    FragmentEnd(fragment, TextOf(tail));
    if ClosesCleanly(f, TextOf(tail)) {
      AfterFragment(ob, fragment);
      ContextAfterFragment(tb1, ob, f, TextOf(tail));
      PreservedFrom(tb1, ob + f, Some(end), tail, fs);
    } else {
      ClosesNeeded(tb1, ob, f, end, tail, fs);
    }
  }

  lemma AfterFragment(ob: bytes, fragment: seq<Segment>)
    requires FragmentShape(fragment)
    ensures fragment != [] && Ends(ob + TextOf(fragment), Some(fragment[|fragment| - 1]))
  {
    hide Grammar, WellFormed, SegmentText, FragmentShape, TextOf, MayFollow;
    FragmentEnd(fragment, []);
    var f, t := TextOf(fragment), SegmentText(fragment[|fragment| - 1]);
    SuffixOfConcat(ob, f, |f| - |t|);
  }

  lemma SuffixOfConcat<T>(a: seq<T>, b: seq<T>, k: nat)
    requires k <= |b|
    ensures (a + b)[|a| + k..] == b[k..]
  {
  }

  lemma ContextAfterFragment(tb: bytes, ob: bytes, f: bytes, tail: bytes)
    requires |f| >= 2 && ClosesCleanly(f, tail)
    requires !EscapeBefore(tb) && IdentifierBefore(tb)
    ensures ContextAgrees(tb, ob + f, tail)
  {
    ContextAfter([], ob, f);
    assert [] + f == f;
  }

  /** The rendered SQL re-reads as the template's segments with the fragments spliced in,
      exactly when every placeholder is delimited. */
  lemma {:induction false} StructurePreserved(template: bytes, segs: seq<Segment>, fs: seq<seq<Segment>>)
    requires Segmentation(template, segs) && AllBound(segs, |fs|) && Fragments(fs)
    ensures var out := RenderFrom([], template, Texts(fs));
            && out == Ok(TextOf(Spliced(segs, fs)))
            && (Segments([], out.value) == Ok(Spliced(segs, fs)) <==> DelimitedFrom([], segs, Texts(fs)))
  {
    SegmentsIsGrammar([], template, segs);
    RenderFromSegments([], template, Texts(fs));
    SplicedIsRendered(segs, fs);
    SegmentsIsGrammar([], TextOf(Spliced(segs, fs)), Spliced(segs, fs));
    PreservedFrom([], [], None, segs, fs);
  }
}
