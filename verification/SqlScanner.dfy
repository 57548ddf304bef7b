/**
  The one-pass rewriter: a loop over byte positions that copies every span of a template
  verbatim except for the placeholders. It is proved against `SqlGrammar.RenderFrom`.
 */
module SqlScanner {
  import opened Basics
  import opened SqlGrammar

  // The recognisers in terms of positions, as the loops use them.

  lemma QuotedStep(s: bytes, i: nat, quote: byte, escape: bool)
    requires i <= |s|
    ensures QuotedEnd(quote, escape, s[i..]) ==
            if i == |s| then None
            else if escape && s[i] == BACKSLASH then
              if i + 1 == |s| then None else Shift(2, QuotedEnd(quote, escape, s[i + 2..]))
            else if s[i] == quote then
              if i + 1 < |s| && s[i + 1] == quote then Shift(2, QuotedEnd(quote, escape, s[i + 2..])) else Some(1)
            else Shift(1, QuotedEnd(quote, escape, s[i + 1..]))
  {
    if i < |s| {
      assert s[i..][1..] == s[i + 1..];
      assert i + 1 < |s| ==> s[i..][2..] == s[i + 2..];
    }
  }

  lemma CommentStep(s: bytes, i: nat, depth: nat)
    requires i <= |s| && depth > 0
    ensures CommentEnd(depth, s[i..]) ==
            if i + 1 < |s| && s[i] == SLASH && s[i + 1] == STAR then Shift(2, CommentEnd(depth + 1, s[i + 2..]))
            else if i + 1 < |s| && s[i] == STAR && s[i + 1] == SLASH then Shift(2, CommentEnd(depth - 1, s[i + 2..]))
            else if i == |s| then None
            else Shift(1, CommentEnd(depth, s[i + 1..]))
  {
    if i < |s| {
      assert s[i..][1..] == s[i + 1..];
      assert i + 1 < |s| ==> s[i..][2..] == s[i + 2..];
    }
  }

  lemma NoCommentLeft(s: bytes)
    ensures CommentEnd(0, s) == Some(0)
  {
  }

  lemma LineStep(s: bytes, i: nat)
    requires i <= |s|
    ensures LineEnd(s[i..]) == if i == |s| || s[i] == NEWLINE then 0 else 1 + LineEnd(s[i + 1..])
  {
    if i < |s| {
      assert s[i..][1..] == s[i + 1..];
    }
  }

  lemma DigitsStep(s: bytes, i: nat)
    requires i <= |s|
    ensures DigitsEnd(s[i..]) == if i == |s| || !Digit(s[i]) then 0 else 1 + DigitsEnd(s[i + 1..])
  {
    if i < |s| {
      assert s[i..][1..] == s[i + 1..];
    }
  }

  /** Skips a quoted construct whose opening quote is at `start`; returns the index after the
      closing quote, or None when the template ends first. */
  method SkipQuoted(template: bytes, start: nat, quote: byte, escape: bool) returns (end: Option<nat>)
    requires start < |template| && quote != BACKSLASH
    ensures end == Shift(start + 1, QuotedEnd(quote, escape, template[start + 1..]))
  {
    hide QuotedEnd;
    var index := start + 1;
    while true
      invariant start < index <= |template| + 1
      invariant Shift(start + 1, QuotedEnd(quote, escape, template[start + 1..])) ==
                if index == |template| + 1 then None else Shift(index, QuotedEnd(quote, escape, template[index..]))
      decreases |template| + 1 - index
    {
      if index <= |template| {
        QuotedStep(template, index, quote, escape);
      }
      if index >= |template| {
        return None;
      }
      if template[index] == BACKSLASH && escape {
        index := index + 2;
      } else if template[index] == quote {
        if index + 1 < |template| && template[index + 1] == quote {
          index := index + 2;
        } else {
          index := index + 1;
          return Some(index);
        }
      } else {
        index := index + 1;
      }
    }
  }

  /** Skips a nested block comment whose opening sequence is at `start`. */
  method SkipBlockComment(template: bytes, start: nat) returns (end: Option<nat>)
    requires start + 2 <= |template|
    ensures end == Shift(start + 2, CommentEnd(1, template[start + 2..]))
  {
    hide CommentEnd;
    var index := start + 2;
    var depth := 1;
    while depth > 0
      invariant start + 2 <= index <= |template| && 0 <= depth
      invariant Shift(start + 2, CommentEnd(1, template[start + 2..])) ==
                Shift(index, CommentEnd(depth, template[index..]))
      decreases |template| - index
    {
      CommentStep(template, index, depth);
      if index + 1 < |template| && template[index] == SLASH && template[index + 1] == STAR {
        depth := depth + 1;
        index := index + 2;
      } else if index + 1 < |template| && template[index] == STAR && template[index + 1] == SLASH {
        depth := depth - 1;
        index := index + 2;
      } else if index < |template| {
        index := index + 1;
      } else {
        return None;
      }
    }
    NoCommentLeft(template[index..]);
    return Some(index);
  }

  lemma {:induction false} SegmentEndsOnBoundary(before: bytes, seg: Segment, s: bytes)
    requires Utf8(s) && WellFormed(before, seg)
    requires 1 <= |SegmentText(seg)| <= |s| && s[..|SegmentText(seg)|] == SegmentText(seg)
    requires MayFollow(seg, s[|SegmentText(seg)|..])
    ensures Utf8(s[|SegmentText(seg)|..])
  {
    var text := SegmentText(seg);
    var n := |text|;
    if seg.LineComment? {
      if n < |s| {
        Utf8AfterAsciiBefore(s, n);
      }
    } else if seg.Character? {
      assert s[0] == text[0];
    } else {
      if seg.BlockComment? {
        CommentEndsInSlash(1, seg.body);
      }
      assert text[n - 1] < 0x80;
      assert s[n - 1] == text[n - 1];
      Utf8AfterAscii(s, n - 1);
    }
  }

  lemma {:induction false} NextSegmentOnBoundary(before: bytes, s: bytes)
    requires s != [] && Utf8(s)
    ensures NextSegment(before, s) != Err(MalformedCharacter)
    ensures NextSegment(before, s).Ok? ==>
              var n := |SegmentText(NextSegment(before, s).value)|; n <= |s| && Utf8(s[n..])
  {
    if NextSegment(before, s).Ok? {
      NextSegmentSound(before, s);
      SegmentEndsOnBoundary(before, NextSegment(before, s).value, s);
    }
  }

  lemma {:induction false} Utf8AfterAsciiBefore(s: bytes, k: nat)
    requires Utf8(s) && k < |s| && s[k] < 0x80
    ensures Utf8(s[k..])
  {
    var n := Utf8SequenceLen(s[0]);
    if k > 0 {
      assert !Continuation(s[k]);
      assert s[n..][k - n..] == s[k..];
      Utf8AfterAsciiBefore(s[n..], k - n);
    } else {
      assert s[0..] == s;
    }
  }

  lemma {:induction false} DecimalValueOfPrefix(digits: bytes, n: nat)
    requires AllDigits(digits) && n <= |digits|
    ensures DecimalValue(digits[..n]) <= DecimalValue(digits)
    decreases |digits| - n
  {
    if n == |digits| {
      assert digits[..n] == digits;
    } else {
      assert digits[..n + 1][..n] == digits[..n];
      DecimalValueOfPrefix(digits, n + 1);
    }
  }

  /** Parses a machine-sized index, rejecting one that does not fit. */
  method ParseIndex(digits: bytes) returns (r: Option<nat>)
    requires AllDigits(digits)
    ensures r == if DecimalValue(digits) < USIZE_LIMIT then Some(DecimalValue(digits)) else None
  {
    var value := 0;
    for i := 0 to |digits|
      invariant value == DecimalValue(digits[..i]) < USIZE_LIMIT
    {
      assert digits[..i + 1][..i] == digits[..i];
      value := 10 * value + (digits[i] - 48);
      if value >= USIZE_LIMIT {
        DecimalValueOfPrefix(digits, i + 1);
        return None;
      }
    }
    assert digits[..|digits|] == digits;
    return Some(value);
  }

  lemma {:induction false} RenderStep(before: bytes, s: bytes, fragments: seq<bytes>)
    requires s != []
    ensures match NextSegment(before, s)
            case Err(e) => RenderFrom(before, s, fragments) == Err(e)
            case Ok(seg) =>
              && 1 <= |SegmentText(seg)| <= |s| && s[..|SegmentText(seg)|] == SegmentText(seg)
              && match RenderedSegment(seg, fragments)
                 case Err(e) => RenderFrom(before, s, fragments) == Err(e)
                 case Ok(text) =>
                   RenderFrom(before, s, fragments) ==
                   Emit(text, RenderFrom(before + SegmentText(seg), s[|SegmentText(seg)|..], fragments))
  {
    if NextSegment(before, s).Ok? {
      NextSegmentSound(before, s);
    }
  }

  /** What one iteration does to the specification: it reports the error at hand, or emits one
      piece of output and leaves the rest of the template to be rendered. */
  lemma {:induction false} Advance(template: bytes, fragments: seq<bytes>, start: nat)
    requires start < |template| && Utf8(template[start..])
    ensures CharBoundary(template, start)
    ensures match NextSegment(template[..start], template[start..])
            case Err(e) => RenderFrom(template[..start], template[start..], fragments) == Err(e)
            case Ok(seg) =>
              var end := start + |SegmentText(seg)|;
              && start < end <= |template| && SegmentText(seg) == template[start..end]
              && Utf8(template[end..]) && CharBoundary(template, end)
              && match RenderedSegment(seg, fragments)
                 case Err(e) => RenderFrom(template[..start], template[start..], fragments) == Err(e)
                 case Ok(text) =>
                   RenderFrom(template[..start], template[start..], fragments) ==
                   Emit(text, RenderFrom(template[..end], template[end..], fragments))
  {
    hide NextSegment, RenderFrom;
    var before, rest := template[..start], template[start..];
    assert rest[0] == template[start];
    RenderStep(before, rest, fragments);
    NextSegmentOnBoundary(before, rest);
    if NextSegment(before, rest).Ok? {
      var text := SegmentText(NextSegment(before, rest).value);
      var end := start + |text|;
      assert rest[..|text|] == template[start..end];
      assert before + text == template[..end];
      assert rest[|text|..] == template[end..];
    }
  }

  lemma EmitEmit(out: bytes, text: bytes, rest: Result<bytes, ScanError>)
    ensures Emit(out, Emit(text, rest)) == Emit(out + text, rest)
  {
    if rest.Ok? {
      assert out + (text + rest.value) == out + text + rest.value;
    }
  }

  lemma RenderNothing(before: bytes, fragments: seq<bytes>)
    ensures RenderFrom(before, [], fragments) == Ok([])
  {
  }

  lemma EmitNothing(rest: Result<bytes, ScanError>)
    ensures Emit([], rest) == rest
  {
    if rest.Ok? {
      assert [] + rest.value == rest.value;
    }
  }

  /** `end` is where the segment at `index` stops, or the reason there is none. */
  ghost predicate Scanned(template: bytes, index: nat, end: Result<nat, ScanError>)
    requires index < |template|
  {
    match NextSegment(template[..index], template[index..])
    case Err(e) => end == Err(e)
    case Ok(seg) => end == Ok(index + |SegmentText(seg)|)
  }

  method ScanString(template: bytes, index: nat) returns (end: Result<nat, ScanError>)
    requires index < |template| && template[index] == QUOTE
    ensures Scanned(template, index, end)
  {
    hide NextSegment, QuotedEnd, QuotedBody;
    var escape := index >= 1 && (template[index - 1] == 69 || template[index - 1] == 101)
                  && (index < 2 || !IdentifierByte(template[index - 2]));
    var skipped := SkipQuoted(template, index, QUOTE, escape);
    assert template[index..][1..] == template[index + 1..];
    NextString(template[..index], template[index..]);
    if skipped == None {
      return Err(UnterminatedString);
    }
    QuotedSound(QUOTE, escape, template[index..], skipped.value - index - 1);
    return Ok(skipped.value);
  }

  method ScanIdentifier(template: bytes, index: nat) returns (end: Result<nat, ScanError>)
    requires index < |template| && template[index] == DOUBLE_QUOTE
    ensures Scanned(template, index, end)
  {
    hide NextSegment;
    var skipped := SkipQuoted(template, index, DOUBLE_QUOTE, false);
    assert template[index..][1..] == template[index + 1..];
    NextIdentifier(template[..index], template[index..]);
    if skipped == None {
      return Err(UnterminatedIdentifier);
    }
    QuotedSound(DOUBLE_QUOTE, false, template[index..], skipped.value - index - 1);
    return Ok(skipped.value);
  }

  method ScanLineComment(template: bytes, start: nat) returns (end: Result<nat, ScanError>)
    requires start + 1 < |template| && template[start] == DASH && template[start + 1] == DASH
    ensures Scanned(template, start, end)
  {
    hide NextSegment, LineEnd;
    var index := start + 2;
    while index < |template| && template[index] != NEWLINE
      invariant start + 2 <= index <= |template|
      invariant LineEnd(template[start + 2..]) == index - start - 2 + LineEnd(template[index..])
    {
      LineStep(template, index);
      index := index + 1;
    }
    LineStep(template, index);
    assert template[start..][2..] == template[start + 2..];
    NextLineComment(template[..start], template[start..]);
    return Ok(index);
  }

  method ScanBlockComment(template: bytes, index: nat) returns (end: Result<nat, ScanError>)
    requires index + 1 < |template| && template[index] == SLASH && template[index + 1] == STAR
    ensures Scanned(template, index, end)
  {
    hide NextSegment, CommentEnd, CommentBody;
    var skipped := SkipBlockComment(template, index);
    assert template[index..][2..] == template[index + 2..];
    NextBlockComment(template[..index], template[index..]);
    if skipped == None {
      return Err(UnterminatedComment);
    }
    CommentEndIsGrammar(1, template[index + 2..], skipped.value - index - 2);
    return Ok(skipped.value);
  }

  method SkipDigits(template: bytes, start: nat) returns (end: nat)
    requires start <= |template|
    ensures end == start + DigitsEnd(template[start..])
  {
    hide DigitsEnd;
    end := start;
    while end < |template| && Digit(template[end])
      invariant start <= end <= |template|
      invariant DigitsEnd(template[start..]) == end - start + DigitsEnd(template[end..])
    {
      DigitsStep(template, end);
      end := end + 1;
    }
    DigitsStep(template, end);
  }

  lemma PlaceholderAt(template: bytes, index: nat, digitsEnd: nat)
    requires index < digitsEnd <= |template| && template[index] == DOLLAR
    requires digitsEnd == index + 1 + DigitsEnd(template[index + 1..])
    ensures AllDigits(template[index + 1..digitsEnd])
    ensures NextSegment(template[..index], template[index..]) ==
            if digitsEnd == index + 1 then Err(DollarWithoutDigits)
            else Ok(Placeholder(template[index + 1..digitsEnd]))
  {
    hide NextSegment, DigitsEnd;
    var n := digitsEnd - index;
    SuffixSlice(template, index, 1, n);
    SuffixSlice(template, index + 1, 0, n - 1);
    NextPlaceholder(template[..index], template[index..]);
    DigitsEndIsGrammar(template[index + 1..], n - 1);
  }

  method ScanPlaceholder(template: bytes, index: nat) returns (end: Result<nat, ScanError>)
    requires index < |template| && template[index] == DOLLAR
    ensures Scanned(template, index, end)
    ensures end.Ok? ==>
              && index + 1 < end.value <= |template| && AllDigits(template[index + 1..end.value])
              && PlaceholderIn(template, index, end.value)
  {
    hide NextSegment, DigitsEnd, AllDigits;
    var digitsEnd := SkipDigits(template, index + 1);
    PlaceholderAt(template, index, digitsEnd);
    return if digitsEnd == index + 1 then Err(DollarWithoutDigits) else Ok(digitsEnd);
  }

  method ScanCharacter(template: bytes, index: nat) returns (end: Result<nat, ScanError>)
    requires index < |template| && Utf8(template[index..])
    requires template[index] !in {QUOTE, DOUBLE_QUOTE, DOLLAR}
    requires !(template[index] == DASH && index + 1 < |template| && template[index + 1] == DASH)
    requires !(template[index] == SLASH && index + 1 < |template| && template[index + 1] == STAR)
    ensures Scanned(template, index, end)
  {
    hide NextSegment;
    NextCharacter(template[..index], template[index..]);
    return Ok(index + Utf8SequenceLen(template[index]));
  }

  /** The fragment of the placeholder whose digits are given. */
  method FragmentFor(digits: bytes, fragments: seq<bytes>) returns (r: Result<bytes, ScanError>)
    requires AllDigits(digits)
    ensures r == Bound(digits, fragments)
  {
    var index := ParseIndex(digits);
    if index == None {
      return Err(IndexTooLarge);
    }
    if index.value == 0 {
      return Err(IndexZero);
    }
    if index.value > |fragments| {
      return Err(IndexUnbound);
    }
    return Ok(fragments[index.value - 1]);
  }

  /** Where the scan stops, so does the rendering. */
  lemma Stopped(template: bytes, fragments: seq<bytes>, index: nat, error: ScanError)
    requires index < |template| && Utf8(template[index..]) && Scanned(template, index, Err(error))
    ensures RenderFrom(template[..index], template[index..], fragments) == Err(error)
  {
    hide NextSegment, RenderFrom, Utf8, SegmentText;
    Advance(template, fragments, index);
  }

  predicate PlaceholderIn(template: bytes, index: nat, end: nat)
    requires index < end <= |template|
  {
    && AllDigits(template[index + 1..end])
    && NextSegment(template[..index], template[index..]) == Ok(Placeholder(template[index + 1..end]))
  }

  /** A bound placeholder is passed, or its fragment reported missing. */
  lemma PassesPlaceholder(template: bytes, fragments: seq<bytes>, index: nat, end: nat)
    requires index < end <= |template| && Utf8(template[index..]) && PlaceholderIn(template, index, end)
    requires Scanned(template, index, Ok(end))
    ensures var bound := Bound(template[index + 1..end], fragments);
            if bound.Ok? then Passed(template, fragments, index, end, bound.value)
            else RenderFrom(template[..index], template[index..], fragments) == Err(bound.error)
  {
    hide NextSegment, RenderFrom, Utf8, SegmentText;
    Advance(template, fragments, index);
  }

  lemma PassesText(template: bytes, fragments: seq<bytes>, index: nat, end: nat)
    requires index < |template| && Utf8(template[index..]) && template[index] != DOLLAR
    requires Scanned(template, index, Ok(end))
    ensures index < end <= |template| && CharBoundary(template, index) && CharBoundary(template, end)
    ensures Passed(template, fragments, index, end, template[index..end])
  {
    hide NextSegment, RenderFrom, Utf8;
    Advance(template, fragments, index);
  }

  /** One piece of output is made and the rest of the template is left. */
  ghost predicate Passed(template: bytes, fragments: seq<bytes>, index: nat, end: nat, text: bytes) {
    && index < end <= |template| && Utf8(template[end..])
    && RenderFrom(template[..index], template[index..], fragments) ==
       Emit(text, RenderFrom(template[..end], template[end..], fragments))
  }

  /** Rewrites the placeholders of `template`. Every slice it takes is on character boundaries
      (the precondition of `Slice`), and its result is the specification's. */
  method RenderPortableQuerySql(template: bytes, fragments: seq<bytes>) returns (r: Result<bytes, ScanError>)
    requires Utf8(template)
    ensures r == RenderFrom([], template, fragments)
  {
    hide NextSegment, RenderFrom, Utf8, Scanned, PlaceholderIn;
    var out: bytes := [];
    var index := 0;
    assert template[..0] == [] && template[0..] == template;
    EmitNothing(RenderFrom([], template, fragments));
    while index < |template|
      invariant 0 <= index <= |template|
      invariant Utf8(template[index..])
      invariant RenderFrom([], template, fragments) ==
                Emit(out, RenderFrom(template[..index], template[index..], fragments))
    {
      var c := template[index];
      var next := if index + 1 < |template| then Some(template[index + 1]) else None;
      var end: Result<nat, ScanError>;
      var fragment: Option<bytes> := None;
      if c == QUOTE {
        end := ScanString(template, index);
      } else if c == DOUBLE_QUOTE {
        end := ScanIdentifier(template, index);
      } else if c == DASH && next == Some(DASH) {
        end := ScanLineComment(template, index);
      } else if c == SLASH && next == Some(STAR) {
        end := ScanBlockComment(template, index);
      } else if c == DOLLAR {
        end := ScanPlaceholder(template, index);
        if end.Ok? {
          PassesPlaceholder(template, fragments, index, end.value);
          var bound := FragmentFor(template[index + 1..end.value], fragments);
          if bound.Err? {
            return Err(bound.error);
          }
          fragment := Some(bound.value);
        }
      } else {
        end := ScanCharacter(template, index);
      }
      if end.Err? {
        Stopped(template, fragments, index, end.error);
        return Err(end.error);
      }
      if fragment.None? {
        PassesText(template, fragments, index, end.value);
      }
      var text := if fragment.Some? then fragment.value else Slice(template, index, end.value);
      assert Passed(template, fragments, index, end.value, text);
      EmitEmit(out, text, RenderFrom(template[..end.value], template[end.value..], fragments));
      out := out + text;
      index := end.value;
    }
    RenderNothing(template[..index], fragments);
    assert template[index..] == [] && out + [] == out;
    return Ok(out);
  }
}
