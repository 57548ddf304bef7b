/**
  What a SQL template means to the rewriter: a list of segments obeying a grammar (`Grammar`),
  in which every placeholder segment stands for a bound fragment.

  `Segments` and `RenderFrom` are the functional recognisers; the lemmas show that they accept
  exactly what the grammar describes and fail exactly at the faults it names.
 */
module SqlGrammar {
  import opened Basics

  const QUOTE: byte := 39
  const DOUBLE_QUOTE: byte := 34
  const BACKSLASH: byte := 92
  const DASH: byte := 45
  const SLASH: byte := 47
  const STAR: byte := 42
  const DOLLAR: byte := 36
  const NEWLINE: byte := 10
  const USIZE_LIMIT: nat := 0x1_0000_0000_0000_0000

  datatype ScanError =
    | UnterminatedString
    | UnterminatedIdentifier
    | UnterminatedComment
    | DollarWithoutDigits
    | IndexTooLarge
    | IndexZero
    | IndexUnbound
    | MalformedCharacter

  datatype Segment =
    | StringLiteral(escape: bool, body: bytes)
    | QuotedIdentifier(body: bytes)
    | LineComment(body: bytes)
    | BlockComment(body: bytes)
    | Placeholder(digits: bytes)
    | Character(utf8: bytes)

  // ----- bytes -----

  predicate Digit(b: byte) {
    48 <= b <= 57
  }

  predicate IdentifierByte(b: byte) {
    48 <= b <= 57 || 65 <= b <= 90 || 97 <= b <= 122 || b == 95 || b >= 0x80
  }

  predicate LetterE(b: byte) {
    b == 69 || b == 101
  }

  function Utf8SequenceLen(lead: byte): (n: nat)
    ensures 1 <= n <= 4
  {
    if lead < 0x80 then 1
    else if 0xC0 <= lead < 0xE0 then 2
    else if 0xE0 <= lead < 0xF0 then 3
    else if 0xF0 <= lead < 0xF8 then 4
    else 1
  }

  predicate Continuation(b: byte) {
    0x80 <= b < 0xC0
  }

  predicate WholeCharacter(s: bytes) {
    s != [] && Utf8SequenceLen(s[0]) <= |s| && forall k | 1 <= k < Utf8SequenceLen(s[0]) :: Continuation(s[k])
  }

  /** The part of UTF-8 well-formedness that slicing relies on: every lead byte is
      followed by exactly as many continuation bytes as it announces. */
  predicate Utf8(s: bytes) {
    s == [] ||
    (&& (s[0] < 0x80 || 0xC0 <= s[0] < 0xF8)
     && WholeCharacter(s)
     && Utf8(s[Utf8SequenceLen(s[0])..]))
  }

  /** Slicing a string off a character boundary panics. */
  predicate CharBoundary(s: bytes, i: nat) {
    i == |s| || (i < |s| && !Continuation(s[i]))
  }

  function Slice(s: bytes, start: nat, end: nat): bytes
    requires start <= end <= |s|
    requires CharBoundary(s, start) && CharBoundary(s, end)
  {
    s[start..end]
  }

  lemma {:induction false} Utf8AfterAscii(s: bytes, k: nat)
    requires Utf8(s) && k < |s| && s[k] < 0x80
    ensures Utf8(s[k + 1..])
  {
    var n := Utf8SequenceLen(s[0]);
    if k == 0 {
    } else {
      assert !Continuation(s[k]);
      assert s[n..][k - n + 1..] == s[k + 1..];
      Utf8AfterAscii(s[n..], k - n);
    }
  }

  lemma {:induction false} Utf8Append(a: bytes, b: bytes)
    requires Utf8(a) && Utf8(b)
    ensures Utf8(a + b)
  {
    if a == [] {
      assert a + b == b;
    } else {
      var n := Utf8SequenceLen(a[0]);
      assert (a + b)[n..] == a[n..] + b;
      Utf8Append(a[n..], b);
    }
  }

  // ----- the grammar -----

  /** A quote right after `before` opens an escape string: the preceding byte is E or e and
      does not itself end a longer identifier. */
  predicate EscapeBefore(before: bytes) {
    |before| >= 1 && LetterE(before[|before| - 1]) &&
    (|before| < 2 || !IdentifierByte(before[|before| - 2]))
  }

  predicate QuotedBody(quote: byte, escape: bool, body: bytes) {
    if body == [] then true
    else if escape && body[0] == BACKSLASH then |body| >= 2 && QuotedBody(quote, escape, body[2..])
    else if body[0] == quote then |body| >= 2 && body[1] == quote && QuotedBody(quote, escape, body[2..])
    else QuotedBody(quote, escape, body[1..])
  }

  predicate Opens(s: bytes) {
    |s| >= 2 && s[0] == SLASH && s[1] == STAR
  }

  predicate Closes(s: bytes) {
    |s| >= 2 && s[0] == STAR && s[1] == SLASH
  }

  /** `body` brings `depth` open comments down to none exactly at its end. */
  predicate CommentBody(depth: nat, body: bytes)
    decreases |body|
  {
    if depth == 0 then body == []
    else if Opens(body) then CommentBody(depth + 1, body[2..])
    else if Closes(body) then CommentBody(depth - 1, body[2..])
    else body != [] && CommentBody(depth, body[1..])
  }

  predicate AllDigits(s: bytes) {
    forall i | 0 <= i < |s| :: Digit(s[i])
  }

  function SegmentText(seg: Segment): bytes {
    match seg
    case StringLiteral(_, body) => [QUOTE] + body + [QUOTE]
    case QuotedIdentifier(body) => [DOUBLE_QUOTE] + body + [DOUBLE_QUOTE]
    case LineComment(body) => [DASH, DASH] + body
    case BlockComment(body) => [SLASH, STAR] + body
    case Placeholder(digits) => [DOLLAR] + digits
    case Character(utf8) => utf8
  }

  function TextOf(segs: seq<Segment>): bytes {
    if segs == [] then [] else SegmentText(segs[0]) + TextOf(segs[1..])
  }

  predicate WellFormed(before: bytes, seg: Segment) {
    match seg
    case StringLiteral(escape, body) => escape == EscapeBefore(before) && QuotedBody(QUOTE, escape, body)
    case QuotedIdentifier(body) => QuotedBody(DOUBLE_QUOTE, false, body)
    case LineComment(body) => NEWLINE !in body
    case BlockComment(body) => CommentBody(1, body)
    case Placeholder(digits) => digits != [] && AllDigits(digits)
    case Character(utf8) =>
      && WholeCharacter(utf8) && |utf8| == Utf8SequenceLen(utf8[0])
      && utf8[0] != QUOTE && utf8[0] != DOUBLE_QUOTE && utf8[0] != DOLLAR
  }

  /** What may come right after a segment without being part of it. */
  predicate MayFollow(seg: Segment, rest: bytes) {
    match seg
    case StringLiteral(_, _) => !StartsWith(rest, QUOTE)
    case QuotedIdentifier(_) => !StartsWith(rest, DOUBLE_QUOTE)
    case LineComment(_) => rest == [] || rest[0] == NEWLINE
    case BlockComment(_) => true
    case Placeholder(_) => !(|rest| > 0 && Digit(rest[0]))
    case Character(utf8) =>
      && !(StartsWith(utf8, DASH) && StartsWith(rest, DASH))
      && !(StartsWith(utf8, SLASH) && StartsWith(rest, STAR))
  }

  /** `segs`, read after `before` and followed by `rest`, is a segmentation of its text. */
  predicate Grammar(before: bytes, segs: seq<Segment>, rest: bytes)
    decreases |segs|
  {
    segs == [] ||
    (&& WellFormed(before, segs[0])
     && MayFollow(segs[0], TextOf(segs[1..]) + rest)
     && Grammar(before + SegmentText(segs[0]), segs[1..], rest))
  }

  predicate Segmentation(template: bytes, segs: seq<Segment>) {
    Grammar([], segs, []) && TextOf(segs) == template
  }

  // ----- recognising one segment -----

  function Shift(n: nat, end: Option<nat>): Option<nat> {
    match end
    case None => None
    case Some(e) => Some(n + e)
  }

  /** Length up to and including the closing quote, `s` starting after the opening one. */
  function QuotedEnd(quote: byte, escape: bool, s: bytes): Option<nat> {
    if s == [] then None
    else if escape && s[0] == BACKSLASH then
      if |s| == 1 then None else Shift(2, QuotedEnd(quote, escape, s[2..]))
    else if s[0] == quote then
      if |s| >= 2 && s[1] == quote then Shift(2, QuotedEnd(quote, escape, s[2..])) else Some(1)
    else Shift(1, QuotedEnd(quote, escape, s[1..]))
  }

  /** Length up to and including the sequence that closes the last of `depth` comments. */
  function CommentEnd(depth: nat, s: bytes): Option<nat>
    decreases |s|
  {
    if depth == 0 then Some(0)
    else if Opens(s) then Shift(2, CommentEnd(depth + 1, s[2..]))
    else if Closes(s) then Shift(2, CommentEnd(depth - 1, s[2..]))
    else if s == [] then None
    else Shift(1, CommentEnd(depth, s[1..]))
  }

  lemma {:induction false} CommentEndsInSlash(depth: nat, body: bytes)
    requires depth > 0 && CommentBody(depth, body)
    ensures body != [] && body[|body| - 1] == SLASH
    decreases |body|
  {
    if Opens(body) {
      CommentEndsInSlash(depth + 1, body[2..]);
    } else if Closes(body) {
      if depth > 1 {
        CommentEndsInSlash(depth - 1, body[2..]);
      }
    } else {
      CommentEndsInSlash(depth, body[1..]);
    }
  }

  function LineEnd(s: bytes): (n: nat)
    ensures n <= |s|
  {
    if s == [] || s[0] == NEWLINE then 0 else 1 + LineEnd(s[1..])
  }

  function DigitsEnd(s: bytes): (n: nat)
    ensures n <= |s|
  {
    if s == [] || !Digit(s[0]) then 0 else 1 + DigitsEnd(s[1..])
  }

  /** The first `n` bytes are a body and the quote that closes it. */
  predicate ClosedAt(quote: byte, escape: bool, s: bytes, n: nat) {
    1 <= n <= |s| && s[n - 1] == quote && QuotedBody(quote, escape, s[..n - 1]) && !StartsWith(s[n..], quote)
  }

  lemma {:induction false} QuotedEndIsGrammar(quote: byte, escape: bool, s: bytes, n: nat)
    requires quote != BACKSLASH
    ensures QuotedEnd(quote, escape, s) == Some(n) <==> ClosedAt(quote, escape, s, n)
  {
    hide ClosedAt;
    ClosesWithin(quote, escape, s, n);
    if s == [] {
    } else if (escape && s[0] == BACKSLASH) || (s[0] == quote && |s| >= 2 && s[1] == quote) {
      if |s| >= 2 && n >= 2 {
        QuotedEndIsGrammar(quote, escape, s[2..], n - 2);
      }
      ClosesTwoOn(quote, escape, s, n);
    } else if s[0] == quote {
      ClosesHere(quote, escape, s, n);
    } else if n >= 1 {
      QuotedEndIsGrammar(quote, escape, s[1..], n - 1);
      ClosesOneOn(quote, escape, s, n);
    }
  }

  lemma ClosesWithin(quote: byte, escape: bool, s: bytes, n: nat)
    ensures ClosedAt(quote, escape, s, n) ==> 1 <= n <= |s|
  {
  }

  lemma ClosesHere(quote: byte, escape: bool, s: bytes, n: nat)
    requires quote != BACKSLASH && s != [] && s[0] == quote && !(|s| >= 2 && s[1] == quote)
    ensures ClosedAt(quote, escape, s, n) <==> n == 1
  {
    if 2 <= n <= |s| {
      var body := s[..n - 1];
      assert body[0] == quote && (|body| >= 2 ==> body[1] == s[1]);
    } else if n == 1 {
      assert s[..0] == [] && (|s| >= 2 ==> s[1..][0] == s[1]);
    }
  }

  lemma ClosesTwoOn(quote: byte, escape: bool, s: bytes, n: nat)
    requires quote != BACKSLASH && s != []
    requires (escape && s[0] == BACKSLASH) || (s[0] == quote && |s| >= 2 && s[1] == quote)
    ensures ClosedAt(quote, escape, s, n) <==> |s| >= 2 && n >= 2 && ClosedAt(quote, escape, s[2..], n - 2)
  {
    if 3 <= n <= |s| {
      var body := s[..n - 1];
      assert body[0] == s[0] && body[1] == s[1] && body[2..] == s[2..][..n - 3];
      assert s[2..][n - 2..] == s[n..];
    } else if n == 2 <= |s| {
      assert |s[..1]| == 1 && s[..1][0] == s[0];
    }
  }

  lemma ClosesOneOn(quote: byte, escape: bool, s: bytes, n: nat)
    requires s != [] && n >= 1 && s[0] != quote && !(escape && s[0] == BACKSLASH)
    ensures ClosedAt(quote, escape, s, n) <==> n >= 2 && ClosedAt(quote, escape, s[1..], n - 1)
  {
    if 2 <= n <= |s| {
      var body := s[..n - 1];
      assert body[0] == s[0] && body[1..] == s[1..][..n - 2];
      assert s[1..][n - 1..] == s[n..];
    }
  }

  lemma {:induction false} CommentEndIsGrammar(depth: nat, s: bytes, n: nat)
    ensures CommentEnd(depth, s) == Some(n) <==> n <= |s| && CommentBody(depth, s[..n])
    decreases |s|
  {
    if depth == 0 {
    } else if s == [] {
    } else if Opens(s) || Closes(s) {
      if n >= 2 {
        CommentEndIsGrammar(if Opens(s) then depth + 1 else depth - 1, s[2..], n - 2);
        if n <= |s| {
          assert s[..n][2..] == s[2..][..n - 2];
        }
      } else if n == 1 {
        assert s[..1][1..] == [];
      }
    } else if n >= 1 {
      CommentEndIsGrammar(depth, s[1..], n - 1);
      if n <= |s| {
        assert s[..n][1..] == s[1..][..n - 1];
      }
    }
  }

  lemma {:induction false} LineEndIsGrammar(s: bytes, n: nat)
    ensures LineEnd(s) == n <==>
            n <= |s| && NEWLINE !in s[..n] && (n == |s| || s[n] == NEWLINE)
  {
    if s != [] && s[0] != NEWLINE && n > 0 {
      LineEndIsGrammar(s[1..], n - 1);
      if n <= |s| {
        assert s[..n] == [s[0]] + s[1..][..n - 1];
      }
    } else if s != [] && 0 < n <= |s| {
      assert s[..n][0] == s[0];
    }
  }

  lemma {:induction false} DigitsEndIsGrammar(s: bytes, n: nat)
    ensures DigitsEnd(s) == n <==>
            n <= |s| && AllDigits(s[..n]) && (n == |s| || !Digit(s[n]))
  {
    if s != [] && Digit(s[0]) && n > 0 {
      DigitsEndIsGrammar(s[1..], n - 1);
      if n <= |s| {
        assert s[..n] == [s[0]] + s[1..][..n - 1];
        if AllDigits(s[..n]) {
          assert forall i | 0 <= i < n - 1 :: s[1..][i] == s[..n][i + 1];
        }
      }
    } else if s != [] && 0 < n <= |s| {
      assert s[..n][0] == s[0];
    }
  }

  function NextSegment(before: bytes, s: bytes): Result<Segment, ScanError>
    requires s != []
  {
    if s[0] == QUOTE then
      var escape := EscapeBefore(before);
      match QuotedEnd(QUOTE, escape, s[1..])
      case Some(n) => if 1 <= n < |s| then Ok(StringLiteral(escape, s[1..n])) else Err(UnterminatedString)
      case None => Err(UnterminatedString)
    else if s[0] == DOUBLE_QUOTE then
      match QuotedEnd(DOUBLE_QUOTE, false, s[1..])
      case Some(n) => if 1 <= n < |s| then Ok(QuotedIdentifier(s[1..n])) else Err(UnterminatedIdentifier)
      case None => Err(UnterminatedIdentifier)
    else if s[0] == DASH && StartsWith(s[1..], DASH) then
      Ok(LineComment(s[2..2 + LineEnd(s[2..])]))
    else if Opens(s) then
      match CommentEnd(1, s[2..])
      case Some(n) => if n + 2 <= |s| then Ok(BlockComment(s[2..n + 2])) else Err(UnterminatedComment)
      case None => Err(UnterminatedComment)
    else if s[0] == DOLLAR then
      var n := DigitsEnd(s[1..]);
      if n == 0 then Err(DollarWithoutDigits) else Ok(Placeholder(s[1..n + 1]))
    else if WholeCharacter(s) then
      Ok(Character(s[..Utf8SequenceLen(s[0])]))
    else
      Err(MalformedCharacter)
  }

  // The six cases of NextSegment, one lemma each, so that proofs need not unfold all of it.

  lemma NextString(before: bytes, s: bytes)
    requires s != [] && s[0] == QUOTE
    ensures NextSegment(before, s) ==
            var escape := EscapeBefore(before);
            match QuotedEnd(QUOTE, escape, s[1..])
            case Some(n) => if 1 <= n < |s| then Ok(StringLiteral(escape, s[1..n])) else Err(UnterminatedString)
            case None => Err(UnterminatedString)
  {
  }

  lemma NextIdentifier(before: bytes, s: bytes)
    requires s != [] && s[0] == DOUBLE_QUOTE
    ensures NextSegment(before, s) ==
            match QuotedEnd(DOUBLE_QUOTE, false, s[1..])
            case Some(n) => if 1 <= n < |s| then Ok(QuotedIdentifier(s[1..n])) else Err(UnterminatedIdentifier)
            case None => Err(UnterminatedIdentifier)
  {
  }

  lemma NextLineComment(before: bytes, s: bytes)
    requires |s| >= 2 && s[0] == DASH && s[1] == DASH
    ensures NextSegment(before, s) == Ok(LineComment(s[2..2 + LineEnd(s[2..])]))
  {
    assert s[1..][0] == DASH;
  }

  lemma NextBlockComment(before: bytes, s: bytes)
    requires Opens(s)
    ensures NextSegment(before, s) ==
            match CommentEnd(1, s[2..])
            case Some(n) => if n + 2 <= |s| then Ok(BlockComment(s[2..n + 2])) else Err(UnterminatedComment)
            case None => Err(UnterminatedComment)
  {
  }

  lemma NextPlaceholder(before: bytes, s: bytes)
    requires s != [] && s[0] == DOLLAR
    ensures NextSegment(before, s) ==
            var n := DigitsEnd(s[1..]);
            if n == 0 then Err(DollarWithoutDigits) else Ok(Placeholder(s[1..n + 1]))
  {
  }

  predicate PlainStart(s: bytes) {
    && s != [] && s[0] != QUOTE && s[0] != DOUBLE_QUOTE && s[0] != DOLLAR && !Opens(s)
    && !(|s| >= 2 && s[0] == DASH && s[1] == DASH)
  }

  lemma NextCharacter(before: bytes, s: bytes)
    requires PlainStart(s)
    ensures NextSegment(before, s) ==
            if WholeCharacter(s) then Ok(Character(s[..Utf8SequenceLen(s[0])])) else Err(MalformedCharacter)
  {
    assert StartsWith(s[1..], DASH) == (|s| >= 2 && s[1] == DASH);
  }

  lemma {:induction false} QuotedSound(quote: byte, escape: bool, s: bytes, n: nat)
    requires quote != BACKSLASH && s != [] && s[0] == quote
    requires QuotedEnd(quote, escape, s[1..]) == Some(n)
    ensures 1 <= n < |s| && QuotedBody(quote, escape, s[1..n])
    ensures s[..n + 1] == [quote] + s[1..n] + [quote]
    ensures !StartsWith(s[n + 1..], quote)
  {
    QuotedEndIsGrammar(quote, escape, s[1..], n);
    assert s[1..][..n - 1] == s[1..n];
    assert s[1..][n..] == s[n + 1..];
  }

  lemma {:induction false} NextSegmentSound(before: bytes, s: bytes)
    requires s != []
    requires NextSegment(before, s).Ok?
    ensures var seg := NextSegment(before, s).value;
            var text := SegmentText(seg);
            && WellFormed(before, seg)
            && 1 <= |text| <= |s| && s[..|text|] == text
            && MayFollow(seg, s[|text|..])
  {
    hide NextSegment, QuotedEnd, CommentEnd, LineEnd, DigitsEnd, QuotedBody, CommentBody;
    var seg := NextSegment(before, s).value;
    if s[0] == QUOTE {
      NextString(before, s);
      QuotedSound(QUOTE, EscapeBefore(before), s, QuotedEnd(QUOTE, EscapeBefore(before), s[1..]).value);
    } else if s[0] == DOUBLE_QUOTE {
      NextIdentifier(before, s);
      QuotedSound(DOUBLE_QUOTE, false, s, QuotedEnd(DOUBLE_QUOTE, false, s[1..]).value);
    } else if |s| >= 2 && s[0] == DASH && s[1] == DASH {
      NextLineComment(before, s);
      var n := LineEnd(s[2..]);
      LineEndIsGrammar(s[2..], n);
      assert s[2..][..n] == s[2..2 + n];
      assert SegmentText(seg) == s[..2 + n];
    } else if Opens(s) {
      NextBlockComment(before, s);
      var n := CommentEnd(1, s[2..]).value;
      CommentEndIsGrammar(1, s[2..], n);
      assert s[2..][..n] == s[2..n + 2];
      assert SegmentText(seg) == s[..2 + n];
    } else if s[0] == DOLLAR {
      NextPlaceholder(before, s);
      var n := DigitsEnd(s[1..]);
      DigitsEndIsGrammar(s[1..], n);
      assert s[1..][..n] == s[1..n + 1];
      assert SegmentText(seg) == s[..1 + n];
    } else {
      NextCharacter(before, s);
      assert SegmentText(seg) == s[..Utf8SequenceLen(s[0])];
    }
  }

  lemma {:induction false} QuotedComplete(quote: byte, escape: bool, body: bytes, rest: bytes)
    requires quote != BACKSLASH && QuotedBody(quote, escape, body) && !StartsWith(rest, quote)
    ensures var s := [quote] + body + [quote] + rest;
            QuotedEnd(quote, escape, s[1..]) == Some(|body| + 1) && s[1..|body| + 1] == body
  {
    var s := [quote] + body + [quote] + rest;
    var n := |body| + 1;
    assert s[1..][..n - 1] == body && s[1..][n..] == rest;
    QuotedEndIsGrammar(quote, escape, s[1..], n);
  }

  lemma PrefixedComplete(opening: bytes, body: bytes, rest: bytes)
    ensures var s := opening + body + rest;
            s[|opening|..] == body + rest && s[|opening|..][..|body|] == body && s[|opening|..|opening| + |body|] == body
  {
  }

  lemma {:induction false} NextSegmentComplete(before: bytes, seg: Segment, rest: bytes)
    requires WellFormed(before, seg) && MayFollow(seg, rest)
    ensures SegmentText(seg) != []
    ensures NextSegment(before, SegmentText(seg) + rest) == Ok(seg)
  {
    hide NextSegment, QuotedEnd, CommentEnd, LineEnd, DigitsEnd;
    var s := SegmentText(seg) + rest;
    match seg
    case StringLiteral(escape, body) =>
      QuotedComplete(QUOTE, escape, body, rest);
      NextString(before, s);
    case QuotedIdentifier(body) =>
      QuotedComplete(DOUBLE_QUOTE, false, body, rest);
      NextIdentifier(before, s);
    case LineComment(body) =>
      PrefixedComplete([DASH, DASH], body, rest);
      LineEndIsGrammar(s[2..], |body|);
      NextLineComment(before, s);
    case BlockComment(body) =>
      PrefixedComplete([SLASH, STAR], body, rest);
      CommentEndIsGrammar(1, s[2..], |body|);
      NextBlockComment(before, s);
    case Placeholder(digits) =>
      PrefixedComplete([DOLLAR], digits, rest);
      DigitsEndIsGrammar(s[1..], |digits|);
      NextPlaceholder(before, s);
    case Character(utf8) =>
      CharacterComplete(before, utf8, rest);
  }

  lemma {:induction false} CharacterComplete(before: bytes, utf8: bytes, rest: bytes)
    requires WellFormed(before, Character(utf8)) && MayFollow(Character(utf8), rest)
    ensures NextSegment(before, utf8 + rest) == Ok(Character(utf8))
  {
    var s := utf8 + rest;
    assert s[..|utf8|] == utf8;
    if |s| >= 2 && |utf8| == 1 {
      assert s[1] == rest[0];
    }
    NextCharacter(before, s);
  }

  // ----- segmenting a whole text -----

  function Segments(before: bytes, s: bytes): Result<seq<Segment>, ScanError>
    decreases |s|
  {
    if s == [] then Ok([]) else
    match NextSegment(before, s)
    case Err(e) => Err(e)
    case Ok(seg) =>
      NextSegmentSound(before, s);
      var n := |SegmentText(seg)|;
      match Segments(before + s[..n], s[n..])
      case Err(e) => Err(e)
      case Ok(rest) => Ok([seg] + rest)
  }

  lemma {:induction false} SegmentsSound(before: bytes, s: bytes)
    requires Segments(before, s).Ok?
    ensures var segs := Segments(before, s).value; Grammar(before, segs, []) && TextOf(segs) == s
    decreases |s|
  {
    if s != [] {
      NextSegmentSound(before, s);
      var seg := NextSegment(before, s).value;
      hide NextSegment;
      var n := |SegmentText(seg)|;
      SegmentsSound(before + s[..n], s[n..]);
      var tail := Segments(before + s[..n], s[n..]).value;
      assert ([seg] + tail)[1..] == tail;
      assert TextOf(tail) + [] == s[n..];
    }
  }

  lemma SegmentsCons(before: bytes, seg: Segment, rest: bytes, tail: seq<Segment>)
    requires SegmentText(seg) != []
    requires NextSegment(before, SegmentText(seg) + rest) == Ok(seg)
    requires Segments(before + SegmentText(seg), rest) == Ok(tail)
    ensures Segments(before, SegmentText(seg) + rest) == Ok([seg] + tail)
  {
    hide NextSegment, SegmentText;
    var text := SegmentText(seg);
    var s := text + rest;
    assert s[..|text|] == text && s[|text|..] == rest;
  }

  lemma {:induction false} SegmentsComplete(before: bytes, segs: seq<Segment>)
    requires Grammar(before, segs, [])
    ensures Segments(before, TextOf(segs)) == Ok(segs)
    decreases |segs|
  {
    hide NextSegment, Segments;
    if segs == [] {
      SegmentsOfNothing(before);
    } else {
      var rest := TextOf(segs[1..]);
      assert rest + [] == rest;
      NextSegmentComplete(before, segs[0], rest);
      SegmentsComplete(before + SegmentText(segs[0]), segs[1..]);
      SegmentsCons(before, segs[0], rest, segs[1..]);
      assert segs == [segs[0]] + segs[1..];
    }
  }

  lemma SegmentsOfNothing(before: bytes)
    ensures Segments(before, []) == Ok([])
  {
  }

  /** The scanner finds a segmentation exactly when the grammar has one, and then the same one;
      so a text has at most one segmentation. */
  lemma {:induction false} SegmentsIsGrammar(before: bytes, s: bytes, segs: seq<Segment>)
    ensures Segments(before, s) == Ok(segs) <==> Grammar(before, segs, []) && TextOf(segs) == s
  {
    if Segments(before, s) == Ok(segs) {
      SegmentsSound(before, s);
    }
    if Grammar(before, segs, []) && TextOf(segs) == s {
      SegmentsComplete(before, segs);
    }
  }

  // ----- placeholders and rendering -----

  function DecimalValue(digits: bytes): nat
    requires AllDigits(digits)
  {
    if digits == [] then 0
    else 10 * DecimalValue(digits[..|digits| - 1]) + (digits[|digits| - 1] - 48)
  }

  /** The fragment a placeholder stands for. */
  function Bound(digits: bytes, fragments: seq<bytes>): Result<bytes, ScanError>
    requires AllDigits(digits)
  {
    var index := DecimalValue(digits);
    if index >= USIZE_LIMIT then Err(IndexTooLarge)
    else if index == 0 then Err(IndexZero)
    else if index > |fragments| then Err(IndexUnbound)
    else Ok(fragments[index - 1])
  }

  function RenderedSegment(seg: Segment, fragments: seq<bytes>): Result<bytes, ScanError>
  {
    match seg
    case Placeholder(digits) =>
      if AllDigits(digits) then Bound(digits, fragments) else Err(DollarWithoutDigits)
    case _ => Ok(SegmentText(seg))
  }

  /** The rewriting as a specification: segments in order, each placeholder replaced. */
  function Rendered(segs: seq<Segment>, fragments: seq<bytes>): Result<bytes, ScanError> {
    if segs == [] then Ok([]) else
    match RenderedSegment(segs[0], fragments)
    case Err(e) => Err(e)
    case Ok(text) =>
      match Rendered(segs[1..], fragments)
      case Err(e) => Err(e)
      case Ok(rest) => Ok(text + rest)
  }

  /** What the scanner has still to produce when it stands between `before` and `s`. */
  function RenderFrom(before: bytes, s: bytes, fragments: seq<bytes>): Result<bytes, ScanError>
    decreases |s|
  {
    if s == [] then Ok([]) else
    match NextSegment(before, s)
    case Err(e) => Err(e)
    case Ok(seg) =>
      NextSegmentSound(before, s);
      match RenderedSegment(seg, fragments)
      case Err(e) => Err(e)
      case Ok(text) =>
        var n := |SegmentText(seg)|;
        Emit(text, RenderFrom(before + s[..n], s[n..], fragments))
  }

  function Emit(out: bytes, rest: Result<bytes, ScanError>): Result<bytes, ScanError> {
    match rest
    case Err(e) => Err(e)
    case Ok(text) => Ok(out + text)
  }

  lemma {:induction false} RenderFromSegments(before: bytes, s: bytes, fragments: seq<bytes>)
    ensures Segments(before, s).Ok? ==> RenderFrom(before, s, fragments) == Rendered(Segments(before, s).value, fragments)
    ensures Segments(before, s).Err? ==> RenderFrom(before, s, fragments).Err?
    decreases |s|
  {
    if s != [] && NextSegment(before, s).Ok? {
      NextSegmentSound(before, s);
      var seg := NextSegment(before, s).value;
      var n := |SegmentText(seg)|;
      RenderFromSegments(before + s[..n], s[n..], fragments);
      var tail := Segments(before + s[..n], s[n..]);
      if tail.Ok? {
        assert ([seg] + tail.value)[1..] == tail.value;
      }
    }
  }

  /** Success: the output is the concatenation the grammar describes, and there is one
      exactly when the template has a segmentation whose placeholders are all bound. */
  lemma {:induction false} RenderSucceedsExactly(template: bytes, fragments: seq<bytes>, out: bytes)
    ensures RenderFrom([], template, fragments) == Ok(out) <==>
            exists segs :: Segmentation(template, segs) && Rendered(segs, fragments) == Ok(out)
  {
    RenderFromSegments([], template, fragments);
    if Segments([], template).Ok? {
      SegmentsIsGrammar([], template, Segments([], template).value);
    }
    forall segs | Segmentation(template, segs)
      ensures Segments([], template) == Ok(segs)
    {
      SegmentsIsGrammar([], template, segs);
    }
    if RenderFrom([], template, fragments) == Ok(out) {
      assert Segmentation(template, Segments([], template).value);
    }
  }

  /** `rest`, read after `before`, cannot start with a segment, and `error` says why. */
  predicate Fault(before: bytes, rest: bytes, fragments: seq<bytes>, error: ScanError) {
    rest != [] &&
    match error
    case UnterminatedString =>
      && rest[0] == QUOTE
      && forall n | 1 <= n < |rest| && rest[n] == QUOTE ::
           !QuotedBody(QUOTE, EscapeBefore(before), rest[1..n]) || StartsWith(rest[n + 1..], QUOTE)
    case UnterminatedIdentifier =>
      && rest[0] == DOUBLE_QUOTE
      && forall n | 1 <= n < |rest| && rest[n] == DOUBLE_QUOTE ::
           !QuotedBody(DOUBLE_QUOTE, false, rest[1..n]) || StartsWith(rest[n + 1..], DOUBLE_QUOTE)
    case UnterminatedComment =>
      Opens(rest) && forall n | 2 <= n <= |rest| :: !CommentBody(1, rest[2..n])
    case DollarWithoutDigits =>
      rest[0] == DOLLAR && (|rest| == 1 || !Digit(rest[1]))
    case MalformedCharacter =>
      PlainStart(rest) && !WholeCharacter(rest)
    case _ =>
      exists k :: 1 < k <= |rest| && PlaceholderFault(rest, k, fragments, error)
  }

  predicate PlaceholderFault(rest: bytes, k: nat, fragments: seq<bytes>, error: ScanError)
    requires 1 < k <= |rest|
  {
    && rest[0] == DOLLAR && AllDigits(rest[1..k]) && (k == |rest| || !Digit(rest[k]))
    && (match error
        case IndexTooLarge => DecimalValue(rest[1..k]) >= USIZE_LIMIT
        case IndexZero => DecimalValue(rest[1..k]) == 0
        case IndexUnbound => |fragments| < DecimalValue(rest[1..k]) < USIZE_LIMIT
        case _ => false)
  }

  lemma {:induction false} QuotedFault(quote: byte, escape: bool, s: bytes)
    requires quote != BACKSLASH && s != [] && s[0] == quote
    ensures (match QuotedEnd(quote, escape, s[1..]) case None => true case Some(n) => !(1 <= n < |s|)) <==>
            (forall n | 1 <= n < |s| && s[n] == quote ::
               !QuotedBody(quote, escape, s[1..n]) || StartsWith(s[n + 1..], quote))
  {
    forall n | 1 <= n < |s|
      ensures QuotedEnd(quote, escape, s[1..]) == Some(n) <==>
              s[n] == quote && QuotedBody(quote, escape, s[1..n]) && !StartsWith(s[n + 1..], quote)
    {
      QuotedEndIsGrammar(quote, escape, s[1..], n);
      assert s[1..][..n - 1] == s[1..n];
      assert s[1..][n..] == s[n + 1..];
    }
  }

  lemma {:induction false} CommentFault(s: bytes)
    requires Opens(s)
    ensures (match CommentEnd(1, s[2..]) case None => true case Some(n) => n + 2 > |s|) <==>
            (forall n | 2 <= n <= |s| :: !CommentBody(1, s[2..n]))
  {
    forall n | 2 <= n <= |s|
      ensures CommentEnd(1, s[2..]) == Some(n - 2) <==> CommentBody(1, s[2..n])
    {
      CommentEndIsGrammar(1, s[2..], n - 2);
      assert s[2..][..n - 2] == s[2..n];
    }
    var end := CommentEnd(1, s[2..]);
    if end.Some? && end.value + 2 <= |s| {
      assert CommentBody(1, s[2..end.value + 2]);
    }
  }

  /** A segment cannot be recognised exactly when the text starts with the fault reported. */
  lemma {:induction false} NextSegmentFault(before: bytes, s: bytes, fragments: seq<bytes>, error: ScanError)
    requires s != []
    requires error !in {IndexTooLarge, IndexZero, IndexUnbound}
    ensures NextSegment(before, s) == Err(error) <==> Fault(before, s, fragments, error)
  {
    hide NextSegment;
    if s[0] == QUOTE {
      NextString(before, s);
      QuotedFault(QUOTE, EscapeBefore(before), s);
    } else if s[0] == DOUBLE_QUOTE {
      QuotedFault(DOUBLE_QUOTE, false, s);
      NextIdentifier(before, s);
    } else if |s| >= 2 && s[0] == DASH && s[1] == DASH {
      NextLineComment(before, s);
    } else if Opens(s) {
      CommentFault(s);
      NextBlockComment(before, s);
    } else if s[0] == DOLLAR {
      NextPlaceholder(before, s);
      assert |s| > 1 ==> s[1..][0] == s[1];
    } else {
      NextCharacter(before, s);
    }
  }

  lemma {:induction false} PlaceholderFaultIsError(s: bytes, n: nat, fragments: seq<bytes>, error: ScanError)
    requires error in {IndexTooLarge, IndexZero, IndexUnbound}
    requires s != [] && s[0] == DOLLAR && n == DigitsEnd(s[1..])
    ensures (n > 0 && AllDigits(s[1..n + 1]) && Bound(s[1..n + 1], fragments) == Err(error)) <==>
            exists k :: 1 < k <= |s| && PlaceholderFault(s, k, fragments, error)
  {
    forall k | 1 < k <= |s|
      ensures k == n + 1 <==> AllDigits(s[1..k]) && (k == |s| || !Digit(s[k]))
    {
      DigitsEndIsGrammar(s[1..], k - 1);
      assert s[1..][..k - 1] == s[1..k];
    }
    if n > 0 && AllDigits(s[1..n + 1]) && Bound(s[1..n + 1], fragments) == Err(error) {
      assert PlaceholderFault(s, n + 1, fragments, error);
    }
  }

  lemma NextSegmentErrorKinds(before: bytes, s: bytes)
    requires s != [] && NextSegment(before, s).Err?
    ensures NextSegment(before, s).error !in {IndexTooLarge, IndexZero, IndexUnbound}
  {
  }

  /** One step of the rewriting fails with `error` exactly at a fault. */
  lemma {:induction false} StepFault(before: bytes, s: bytes, fragments: seq<bytes>, error: ScanError)
    requires s != []
    ensures (NextSegment(before, s) == Err(error) ||
             (NextSegment(before, s).Ok? && RenderedSegment(NextSegment(before, s).value, fragments) == Err(error)))
            <==> Fault(before, s, fragments, error)
  {
    if error in {IndexTooLarge, IndexZero, IndexUnbound} {
      StepFaultAtIndex(before, s, fragments, error);
    } else {
      NextSegmentFault(before, s, fragments, error);
      if NextSegment(before, s).Ok? {
        RenderedErrorKinds(before, s, fragments);
      }
      hide NextSegment, Fault, RenderedSegment;
    }
  }

  lemma RenderedErrorKinds(before: bytes, s: bytes, fragments: seq<bytes>)
    requires s != [] && NextSegment(before, s).Ok?
    ensures var r := RenderedSegment(NextSegment(before, s).value, fragments);
            r.Err? ==> r.error in {IndexTooLarge, IndexZero, IndexUnbound}
  {
    hide NextSegment, DecimalValue;
    NextSegmentSound(before, s);
  }

  lemma StepFaultAtIndex(before: bytes, s: bytes, fragments: seq<bytes>, error: ScanError)
    requires s != [] && error in {IndexTooLarge, IndexZero, IndexUnbound}
    ensures (NextSegment(before, s) == Err(error) ||
             (NextSegment(before, s).Ok? && RenderedSegment(NextSegment(before, s).value, fragments) == Err(error)))
            <==> Fault(before, s, fragments, error)
  {
    hide NextSegment, QuotedBody, CommentBody, DigitsEnd, DecimalValue;
    if NextSegment(before, s).Ok? {
      NextSegmentSound(before, s);
      assert SegmentText(NextSegment(before, s).value)[0] == s[0];
    } else {
      NextSegmentErrorKinds(before, s);
    }
    if s[0] == DOLLAR {
      NextPlaceholder(before, s);
      PlaceholderFaultIsError(s, DigitsEnd(s[1..]), fragments, error);
    }
  }

  /** `template` is a rendered prefix followed by a fault. */
  predicate FailsWith(before: bytes, template: bytes, fragments: seq<bytes>, error: ScanError, segs: seq<Segment>, rest: bytes) {
    && TextOf(segs) + rest == template
    && Grammar(before, segs, rest)
    && Rendered(segs, fragments).Ok?
    && Fault(before + TextOf(segs), rest, fragments, error)
  }

  lemma {:induction false} FailureWitness(before: bytes, s: bytes, fragments: seq<bytes>)
    returns (segs: seq<Segment>, rest: bytes)
    requires RenderFrom(before, s, fragments).Err?
    ensures FailsWith(before, s, fragments, RenderFrom(before, s, fragments).error, segs, rest)
    decreases |s|
  {
    var error := RenderFrom(before, s, fragments).error;
    var next := NextSegment(before, s);
    if next.Err? || RenderedSegment(next.value, fragments).Err? {
      StepFault(before, s, fragments, error);
      segs, rest := [], s;
      assert before + TextOf(segs) == before;
    } else {
      NextSegmentSound(before, s);
      var seg := next.value;
      var n := |SegmentText(seg)|;
      var tail;
      tail, rest := FailureWitness(before + s[..n], s[n..], fragments);
      segs := [seg] + tail;
      assert segs[1..] == tail;
      assert before + s[..n] + TextOf(tail) == before + TextOf(segs);
    }
  }

  lemma {:induction false} FailureIsReported(before: bytes, s: bytes, fragments: seq<bytes>, error: ScanError,
                                             segs: seq<Segment>, rest: bytes)
    requires FailsWith(before, s, fragments, error, segs, rest)
    ensures RenderFrom(before, s, fragments) == Err(error)
    decreases |segs|
  {
    if segs == [] {
      assert s == rest && before + TextOf(segs) == before;
      StepFault(before, s, fragments, error);
    } else {
      var text := SegmentText(segs[0]);
      var tail := TextOf(segs[1..]) + rest;
      FaultFurtherOn(before, s, fragments, error, segs, rest);
      FailureIsReported(before + text, tail, fragments, error, segs[1..], rest);
      hide NextSegment, SegmentText, FailsWith, TextOf;
      assert s[..|text|] == text && s[|text|..] == tail;
    }
  }

  lemma FaultFurtherOn(before: bytes, s: bytes, fragments: seq<bytes>, error: ScanError, segs: seq<Segment>, rest: bytes)
    requires FailsWith(before, s, fragments, error, segs, rest) && segs != []
    ensures var text, tail := SegmentText(segs[0]), TextOf(segs[1..]) + rest;
            && s == text + tail && s != [] && NextSegment(before, s) == Ok(segs[0])
            && RenderedSegment(segs[0], fragments).Ok?
            && FailsWith(before + text, tail, fragments, error, segs[1..], rest)
  {
    hide NextSegment, Fault, SegmentText, RenderedSegment, WellFormed, MayFollow;
    var text, tail := SegmentText(segs[0]), TextOf(segs[1..]) + rest;
    assert s == text + tail;
    NextSegmentComplete(before, segs[0], tail);
    assert before + text + TextOf(segs[1..]) == before + TextOf(segs);
  }

  /** Failure: an error is reported exactly when the template is a well-segmented, fully bound
      prefix followed by the construct that error names. */
  lemma {:induction false} RenderFailsExactly(template: bytes, fragments: seq<bytes>, error: ScanError)
    ensures RenderFrom([], template, fragments) == Err(error) <==>
            exists segs, rest :: FailsWith([], template, fragments, error, segs, rest)
  {
    if RenderFrom([], template, fragments) == Err(error) {
      var segs, rest := FailureWitness([], template, fragments);
    }
    forall segs, rest | FailsWith([], template, fragments, error, segs, rest)
      ensures RenderFrom([], template, fragments) == Err(error)
    {
      FailureIsReported([], template, fragments, error, segs, rest);
    }
  }
}
