/**
  The scanner and the literal printer together: every printed literal is a fragment that stands
  on its own, so splicing literals into delimited placeholders keeps the template's structure.
 */
module SqlPreservation {
  import opened Basics
  import opened SqlGrammar
  import opened SqlLiterals
  import opened SqlLiteralParser
  import opened SqlStructure

  // ----- the segments of a printed literal -----

  predicate PlainByte(b: byte) {
    b < 0x80 && b != QUOTE && b != DOUBLE_QUOTE && b != DOLLAR
  }

  /** ASCII text in which no quote, placeholder or comment starts. */
  predicate PlainText(t: bytes) {
    && (forall i | 0 <= i < |t| :: PlainByte(t[i]) && t[i] != SLASH)
    && (forall i | 0 < i < |t| :: !(t[i - 1] == DASH && t[i] == DASH))
  }

  function Characters(t: bytes): (segs: seq<Segment>)
    ensures |segs| == |t|
    ensures forall i | 0 <= i < |t| :: segs[i] == Character([t[i]])
  {
    seq(|t|, i requires 0 <= i < |t| => Character([t[i]]))
  }

  lemma {:induction false} CharactersText(t: bytes)
    ensures TextOf(Characters(t)) == t
  {
    if t != [] {
      assert Characters(t)[1..] == Characters(t[1..]);
      CharactersText(t[1..]);
    }
  }

  lemma {:induction false} CharactersGrammar(before: bytes, t: bytes, rest: bytes)
    requires PlainText(t) && !(EndsWith(t, DASH) && StartsWith(rest, DASH))
    ensures Grammar(before, Characters(t), rest)
    decreases |t|
  {
    if t != [] {
      var tail := t[1..];
      assert Characters(t)[1..] == Characters(tail);
      CharactersText(tail);
      if tail != [] {
        assert (tail + rest)[0] == t[1];
      } else {
        assert tail + rest == rest;
      }
      CharactersGrammar(before + [t[0]], tail, rest);
    }
  }

  function QuotedSegments(text: bytes): seq<Segment> {
    Characters(Ascii("E")) + [StringLiteral(true, Escaped(text))]
  }

  /** What the grammar makes of a cast to a type. */
  function TypeSegments(pgType: bytes): seq<Segment> {
    match Segments([], Ascii("::") + pgType)
    case Ok(segs) => segs
    case Err(_) => []
  }

  function CastSegments(text: bytes, pgType: bytes): seq<Segment> {
    QuotedSegments(text) + TypeSegments(pgType)
  }

  function QuotedNameSegments(name: bytes): seq<Segment> {
    [StringLiteral(false, name)] + Characters(Ascii("::double precision"))
  }

  function SegmentsOf(l: Literal): seq<Segment> {
    match l
    case Text(text) => QuotedSegments(text)
    case Bytea(data) => CastSegments(ByteaText(data), Ascii("bytea"))
    case TextCast(text, pgType) => CastSegments(text, pgType)
    case Float(NotANumber) => QuotedNameSegments(Ascii("NaN"))
    case Float(Infinity) => QuotedNameSegments(Ascii("Infinity"))
    case Float(NegativeInfinity) => QuotedNameSegments(Ascii("-Infinity"))
    case Array(elements, elementType) =>
      Characters(Ascii("ARRAY[")) +
      (ElementSegments(elements) + (Characters(Ascii("]")) + (TypeSegments(elementType) + Characters(Ascii("[]")))))
    case _ => Characters(Print(l))
  }

  function ElementSegments(elements: seq<Literal>): seq<Segment> {
    if elements == [] then []
    else if |elements| == 1 then SegmentsOf(elements[0])
    else SegmentsOf(elements[0]) + (Characters([COMMA]) + ElementSegments(elements[1..]))
  }

  /** A type name with a shape of its own: whole characters and quoted identifiers, nothing left
      open at the end. */
  predicate ShapedType(t: bytes) {
    && Segments([], Ascii("::") + t).Ok?
    && (forall s | s in TypeSegments(t) :: s.Character? || s.QuotedIdentifier?)
    && !EndsWith(t, DASH) && !EndsWith(t, SLASH)
  }

  /** A type name in which no quote, placeholder or comment starts. */
  predicate PlainType(t: bytes) {
    forall i | 0 <= i < |t| :: PlainByte(t[i]) && t[i] != DASH && t[i] != SLASH
  }

  /** The literals whose caller-supplied parts (type names, formatted floats) have the shape
      their printers promise. */
  predicate Structured(l: Literal) {
    match l
    case Float(Finite(text)) => FloatText(text)
    case TextCast(_, pgType) => ShapedType(pgType)
    case Array(elements, elementType) => ShapedType(elementType) && forall e | e in elements :: Structured(e)
    case _ => true
  }

  // ----- printed literals stand on their own -----

  lemma QuotedSegmentsGrammar(before: bytes, text: bytes, rest: bytes)
    requires !IdentifierBefore(before) && !StartsWith(rest, QUOTE)
    ensures TextOf(QuotedSegments(text)) == Quoted(text)
    ensures Grammar(before, QuotedSegments(text), rest)
  {
    hide Escaped, QuotedBody;
    var literal := [StringLiteral(true, Escaped(text))];
    EscapedIsBody(text);
    assert TextOf(literal) == [QUOTE] + Escaped(text) + [QUOTE];
    assert TextOf(literal[1..]) + rest == rest;
    ContextAfter(before, before, Ascii("E"));
    assert Grammar(before + Ascii("E"), literal, rest);
    CharactersText(Ascii("E"));
    CharactersGrammar(before, Ascii("E"), TextOf(literal) + rest);
    GrammarAppend(before, Characters(Ascii("E")), literal, rest);
    assert Ascii("E'") == Ascii("E") + [QUOTE];
  }

  /** Without string literals the text before does not matter. */
  lemma {:induction false} NoStringsAnyContext(a: bytes, b: bytes, segs: seq<Segment>, rest: bytes)
    requires forall s | s in segs :: s.Character? || s.QuotedIdentifier?
    ensures Grammar(a, segs, rest) == Grammar(b, segs, rest)
    decreases |segs|
  {
    if segs != [] {
      assert segs[0] in segs;
      NoStringsAnyContext(a + SegmentText(segs[0]), b + SegmentText(segs[0]), segs[1..], rest);
    }
  }

  /** A cast reads the same wherever it stands, as long as no double quote follows. */
  lemma TypeGrammar(before: bytes, pgType: bytes, rest: bytes)
    requires ShapedType(pgType) && !StartsWith(rest, DOUBLE_QUOTE)
    ensures TextOf(TypeSegments(pgType)) == Ascii("::") + pgType
    ensures Grammar(before, TypeSegments(pgType), rest)
  {
    var cast, segs := Ascii("::") + pgType, TypeSegments(pgType);
    SegmentsIsGrammar([], cast, segs);
    hide TypeSegments, Segments;
    assert cast[|cast| - 1] == if pgType == [] then Ascii("::")[1] else pgType[|pgType| - 1];
    CastMayBeFollowed(segs, rest);
    NoStringsAnyContext([], before, segs, rest);
  }

  lemma CastMayBeFollowed(segs: seq<Segment>, rest: bytes)
    requires Grammar([], segs, []) && !StartsWith(rest, DOUBLE_QUOTE)
    requires forall s | s in segs :: s.Character? || s.QuotedIdentifier?
    requires TextOf(segs) != [] && !EndsWith(TextOf(segs), DASH) && !EndsWith(TextOf(segs), SLASH)
    ensures Grammar([], segs, rest)
  {
    assert segs != [];
    hide Grammar, TextOf, WellFormed, SegmentText, MayFollow;
    LastSegment([], segs, []);
    var last, t := segs[|segs| - 1], TextOf(segs);
    assert last in segs;
    var b :| WellFormed(b, last);
    var lt := SegmentText(last);
    assert t[|t| - 1] == t[|t| - |lt|..][|lt| - 1] == lt[|lt| - 1];
    LastMayBeFollowed(b, last, rest);
    GrammarFollowedBy([], segs, rest);
  }

  lemma LastMayBeFollowed(before: bytes, last: Segment, rest: bytes)
    requires WellFormed(before, last) && (last.Character? || last.QuotedIdentifier?)
    requires !EndsWith(SegmentText(last), DASH) && !EndsWith(SegmentText(last), SLASH) && !StartsWith(rest, DOUBLE_QUOTE)
    ensures MayFollow(last, rest)
  {
  }

  lemma CastSegmentsGrammar(before: bytes, text: bytes, pgType: bytes, rest: bytes)
    requires !IdentifierBefore(before) && ShapedType(pgType) && !StartsWith(rest, DOUBLE_QUOTE)
    ensures TextOf(CastSegments(text, pgType)) == Quoted(text) + Ascii("::") + pgType
    ensures Grammar(before, CastSegments(text, pgType), rest)
  {
    hide QuotedSegments, Quoted, Grammar, ShapedType, TypeSegments;
    var cast := Ascii("::") + pgType;
    assert (cast + rest)[0] == Ascii("::")[0];
    QuotedSegmentsGrammar(before, text, cast + rest);
    TypeGrammar(before + Quoted(text), pgType, rest);
    GrammarAppend(before, QuotedSegments(text), TypeSegments(pgType), rest);
    assert Quoted(text) + Ascii("::") + pgType == Quoted(text) + cast;
  }

  lemma ShapedBy(t: bytes, segs: seq<Segment>)
    requires Segmentation(Ascii("::") + t, segs) && !EndsWith(t, DASH) && !EndsWith(t, SLASH)
    requires forall s | s in segs :: s.Character? || s.QuotedIdentifier?
    ensures ShapedType(t) && TypeSegments(t) == segs
  {
    hide Segments, Grammar, TextOf;
    SegmentsIsGrammar([], Ascii("::") + t, segs);
  }

  lemma PlainCast(t: bytes)
    requires PlainType(t)
    ensures PlainText(Ascii("::") + t) && !EndsWith(Ascii("::") + t, DASH)
    ensures !EndsWith(t, DASH) && !EndsWith(t, SLASH)
  {
  }

  /** Plain type names have a shape of their own. */
  lemma PlainTypeIsShaped(t: bytes)
    requires PlainType(t)
    ensures ShapedType(t) && TypeSegments(t) == Characters(Ascii("::") + t)
  {
    hide Grammar, TextOf, PlainText, ShapedType, TypeSegments, PlainType;
    PlainCast(t);
    PlainGrammar([], Ascii("::") + t, []);
    ShapedBy(t, Characters(Ascii("::") + t));
  }

  lemma QuotedIdentifierGrammar(before: bytes, name: bytes)
    requires DOUBLE_QUOTE !in name
    ensures TextOf([QuotedIdentifier(name)]) == [DOUBLE_QUOTE] + name + [DOUBLE_QUOTE]
    ensures Grammar(before, [QuotedIdentifier(name)], [])
  {
    NoDoubleQuotesIsBody(name);
    hide QuotedBody;
    var last := [QuotedIdentifier(name)];
    assert last[1..] == [] && TextOf(last[1..]) + [] == [];
    assert SegmentText(last[0]) + [] == SegmentText(last[0]);
  }

  /** Quoted names have one too: `"a b"`, and, behind a schema, `app."a b"`. */
  lemma QuotedTypeIsShaped(schema: bytes, name: bytes)
    requires PlainType(schema) && DOUBLE_QUOTE !in name
    ensures ShapedType(schema + ([DOUBLE_QUOTE] + name + [DOUBLE_QUOTE]))
  {
    hide Grammar, TextOf, PlainText, ShapedType, TypeSegments, PlainType;
    var cast, quoted := Ascii("::") + schema, [DOUBLE_QUOTE] + name + [DOUBLE_QUOTE];
    var last := [QuotedIdentifier(name)];
    PlainCast(schema);
    QuotedIdentifierGrammar([] + cast, name);
    PlainGrammar([], cast, quoted + []);
    GrammarAppend([], Characters(cast), last, []);
    assert Ascii("::") + (schema + quoted) == cast + quoted;
    assert (schema + quoted)[|schema + quoted| - 1] == DOUBLE_QUOTE;
    ShapedBy(schema + quoted, Characters(cast) + last);
  }

  lemma {:induction false} NoDoubleQuotesIsBody(t: bytes)
    requires DOUBLE_QUOTE !in t
    ensures QuotedBody(DOUBLE_QUOTE, false, t)
  {
    if t != [] {
      NoDoubleQuotesIsBody(t[1..]);
    }
  }

  lemma QuotedNameLiteral(before: bytes, name: bytes, rest: bytes)
    requires QUOTE !in name && !IdentifierBefore(before) && !StartsWith(rest, QUOTE)
    ensures TextOf([StringLiteral(false, name)]) == [QUOTE] + name + [QUOTE]
    ensures Grammar(before, [StringLiteral(false, name)], rest)
  {
    hide QuotedBody;
    var literal := [StringLiteral(false, name)];
    NoQuotesIsBody(name);
    assert literal[1..] == [];
    assert TextOf(literal) == [QUOTE] + name + [QUOTE];
    assert TextOf(literal[1..]) + rest == rest;
  }

  lemma QuotedNameGrammar(before: bytes, name: bytes, rest: bytes)
    requires QUOTE !in name && !IdentifierBefore(before)
    ensures TextOf(QuotedNameSegments(name)) == QuotedName(name)
    ensures Grammar(before, QuotedNameSegments(name), rest)
  {
    hide Grammar, Characters;
    var cast := Ascii("::double precision");
    var quoted := [QUOTE] + name + [QUOTE];
    assert PlainText(cast) && cast[|cast| - 1] == 'n' as int;
    assert (cast + rest)[0] == cast[0];
    PlainGrammar(before + quoted, cast, rest);
    QuotedNameLiteral(before, name, cast + rest);
    GrammarAppend(before, [StringLiteral(false, name)], Characters(cast), rest);
  }

  lemma {:induction false} NoQuotesIsBody(t: bytes)
    requires QUOTE !in t
    ensures QuotedBody(QUOTE, false, t)
  {
    if t != [] {
      NoQuotesIsBody(t[1..]);
    }
  }

  lemma {:induction false} DecimalIsPlain(n: nat)
    ensures PlainText(Decimal(n))
  {
    assert forall i | 0 <= i < |Decimal(n)| :: Digit(Decimal(n)[i]);
  }

  lemma PlainAppend(x: bytes, y: bytes)
    requires PlainText(x) && PlainText(y) && !(EndsWith(x, DASH) && StartsWith(y, DASH))
    ensures PlainText(x + y)
  {
  }

  lemma IntegerIsPlain(width: IntegerWidth, value: int)
    ensures PlainText(Print(Integer(width, value))) && !EndsWith(Print(Integer(width, value)), DASH)
  {
    hide Decimal;
    var digits := Decimal(if value < 0 then -value else value);
    DecimalIsPlain(if value < 0 then -value else value);
    var suffix := TypeSuffix(width);
    assert PlainText(suffix) && suffix[0] == ')' as int && suffix[|suffix| - 1] != DASH;
    if value < 0 {
      PlainAppend([DASH], digits);
    }
    PlainAppend(Ascii("("), SignedDecimal(value));
    PlainAppend(Ascii("(") + SignedDecimal(value), suffix);
  }

  lemma FiniteIsPlain(text: bytes)
    requires FloatText(text)
    ensures PlainText(PrintFloat(Finite(text))) && !EndsWith(PrintFloat(Finite(text)), DASH)
  {
    var suffix := Ascii("::double precision");
    assert PlainText(suffix) && suffix[0] == ':' as int && suffix[|suffix| - 1] == 'n' as int;
    PlainAppend(text, suffix);
  }

  lemma PlainGrammar(before: bytes, t: bytes, rest: bytes)
    requires PlainText(t) && !EndsWith(t, DASH)
    ensures TextOf(Characters(t)) == t && Grammar(before, Characters(t), rest)
  {
    CharactersText(t);
    CharactersGrammar(before, t, rest);
  }

  lemma FloatGrammar(before: bytes, float: FloatValue, rest: bytes)
    requires float.Finite? ==> FloatText(float.text)
    requires !IdentifierBefore(before)
    ensures TextOf(SegmentsOf(Float(float))) == Print(Float(float))
    ensures Grammar(before, SegmentsOf(Float(float)), rest)
  {
    hide Grammar, QuotedNameSegments, QuotedName, FloatText, Characters;
    match float
    case Finite(text) =>
      FiniteIsPlain(text);
      PlainGrammar(before, PrintFloat(float), rest);
    case NotANumber =>
      QuotedNameGrammar(before, Ascii("NaN"), rest);
    case Infinity =>
      QuotedNameGrammar(before, Ascii("Infinity"), rest);
    case NegativeInfinity =>
      QuotedNameGrammar(before, Ascii("-Infinity"), rest);
  }

  lemma KeywordGrammar(before: bytes, l: Literal, rest: bytes)
    requires l.Null? || l.Bool?
    ensures TextOf(SegmentsOf(l)) == Print(l)
    ensures Grammar(before, SegmentsOf(l), rest)
  {
    assert PlainText(Print(l)) && !EndsWith(Print(l), DASH);
    PlainGrammar(before, Print(l), rest);
  }

  lemma {:induction false} LiteralGrammar(before: bytes, l: Literal, rest: bytes)
    requires Structured(l) && !IdentifierBefore(before) && Delimiter(rest)
    ensures TextOf(SegmentsOf(l)) == Print(l)
    ensures Grammar(before, SegmentsOf(l), rest)
    decreases l, 0
  {
    hide Grammar, QuotedSegments, CastSegments, QuotedNameSegments, Quoted, Escaped, FloatText, PrintFloat, TextOf, Characters,
         PrintElements, ElementSegments, TypeSuffix, SignedDecimal, ShapedType, TypeSegments;
    match l
    case Null =>
      KeywordGrammar(before, l, rest);
    case Bool(_) =>
      KeywordGrammar(before, l, rest);
    case Integer(width, value) =>
      IntegerIsPlain(width, value);
      PlainGrammar(before, Print(l), rest);
    case Float(float) =>
      FloatGrammar(before, float, rest);
    case Text(text) =>
      QuotedSegmentsGrammar(before, text, rest);
    case Bytea(data) =>
      ByteaIsShapedType();
      CastSegmentsGrammar(before, ByteaText(data), Ascii("bytea"), rest);
      ByteaPrintsAsCast(data);
    case TextCast(text, pgType) =>
      CastSegmentsGrammar(before, text, pgType, rest);
    case Array(elements, elementType) =>
      ArrayGrammar(before, elements, elementType, rest);
  }

  lemma ByteaIsShapedType()
    ensures ShapedType(Ascii("bytea"))
  {
    PlainTypeIsShaped(Ascii("bytea"));
  }

  /** Plain text before segments that read well after it. */
  lemma AfterPlain(before: bytes, open: bytes, inner: seq<Segment>, rest: bytes)
    requires PlainText(open) && !EndsWith(open, DASH) && Grammar(before + open, inner, rest)
    ensures TextOf(Characters(open) + inner) == open + TextOf(inner)
    ensures Grammar(before, Characters(open) + inner, rest)
  {
    hide Grammar, Characters, PlainText;
    PlainGrammar(before, open, TextOf(inner) + rest);
    GrammarAppend(before, Characters(open), inner, rest);
  }

  /** What closes an array: a bracket, the cast, and the brackets of the array type. */
  lemma ArrayCloses(before: bytes, elementType: bytes, rest: bytes)
    requires ShapedType(elementType)
    ensures var segs := Characters(Ascii("]")) + (TypeSegments(elementType) + Characters(Ascii("[]")));
            TextOf(segs) == Ascii("]::") + elementType + Ascii("[]") && Grammar(before, segs, rest)
  {
    hide Grammar, Characters, TextOf, ShapedType, TypeSegments;
    var open, close, t := Ascii("]"), Ascii("[]"), TypeSegments(elementType);
    assert PlainText(open) && PlainText(close) && open[0] == RIGHT_BRACKET && close[1] == RIGHT_BRACKET;
    assert (close + rest)[0] == close[0] == LEFT_BRACKET;
    TypeGrammar(before + open, elementType, close + rest);
    PlainGrammar(before + open + TextOf(t), close, rest);
    GrammarAppend(before + open, t, Characters(close), rest);
    AfterPlain(before, open, t + Characters(close), rest);
    assert Ascii("]::") == open + Ascii("::");
  }

  lemma {:induction false} ArrayGrammar(before: bytes, elements: seq<Literal>, elementType: bytes, rest: bytes)
    requires ShapedType(elementType) && forall e | e in elements :: Structured(e)
    ensures TextOf(SegmentsOf(Array(elements, elementType))) == Print(Array(elements, elementType))
    ensures Grammar(before, SegmentsOf(Array(elements, elementType)), rest)
    decreases elements, 2
  {
    hide Grammar, PrintElements, ElementSegments, Characters, Structured, TextOf, ShapedType, TypeSegments;
    var open, close := Ascii("ARRAY["), Ascii("]::") + elementType + Ascii("[]");
    var closing := Characters(Ascii("]")) + (TypeSegments(elementType) + Characters(Ascii("[]")));
    assert PlainText(open) && open[|open| - 1] == LEFT_BRACKET;
    assert (before + open)[|before + open| - 1] == LEFT_BRACKET;
    assert (close + rest)[0] == Ascii("]::")[0] == RIGHT_BRACKET;
    ElementsGrammar(before + open, elements, close + rest);
    ArrayCloses(before + open + PrintElements(elements), elementType, rest);
    GrammarAppend(before + open, ElementSegments(elements), closing, rest);
    AfterPlain(before, open, ElementSegments(elements) + closing, rest);
    assert Bracketed(PrintElements(elements), elementType) == open + (PrintElements(elements) + close);
  }

  lemma {:induction false} ElementsGrammar(before: bytes, elements: seq<Literal>, rest: bytes)
    requires !IdentifierBefore(before) && StartsWith(rest, RIGHT_BRACKET)
    requires forall e | e in elements :: Structured(e)
    ensures TextOf(ElementSegments(elements)) == PrintElements(elements)
    ensures Grammar(before, ElementSegments(elements), rest)
    decreases elements, 1
  {
    hide SegmentsOf, Print;
    if elements == [] {
    } else if |elements| == 1 {
      assert elements[0] in elements;
      LiteralGrammar(before, elements[0], rest);
    } else {
      hide Grammar;
      assert elements[0] in elements;
      var first, tail := SegmentsOf(elements[0]), ElementSegments(elements[1..]);
      var comma := Characters([COMMA]);
      var printed := Print(elements[0]);
      assert PlainText([COMMA]);
      CharactersText([COMMA]);
      ElementsGrammar(before + printed + [COMMA], elements[1..], rest);
      CharactersGrammar(before + printed, [COMMA], TextOf(tail) + rest);
      GrammarAppend(before + printed, comma, tail, rest);
      assert (TextOf(comma + tail) + rest)[0] == COMMA;
      LiteralGrammar(before, elements[0], TextOf(comma + tail) + rest);
      GrammarAppend(before, first, comma + tail, rest);
    }
  }

  predicate FragmentSegment(s: Segment) {
    s.Character? || s.StringLiteral? || s.QuotedIdentifier?
  }

  lemma {:induction false} SegmentKinds(l: Literal)
    requires Structured(l)
    ensures forall s | s in SegmentsOf(l) :: FragmentSegment(s)
    decreases l, 0
  {
    hide TypeSegments, Escaped, Print, ByteaText, ElementSegments, FloatText;
    if l.Array? {
      ElementKinds(l.elements);
    } else if l.Bytea? {
      ByteaIsShapedType();
    }
  }

  lemma {:induction false} ElementKinds(elements: seq<Literal>)
    requires forall e | e in elements :: Structured(e)
    ensures forall s | s in ElementSegments(elements) :: FragmentSegment(s)
    decreases elements, 1
  {
    hide SegmentsOf, Structured;
    if elements != [] {
      assert elements[0] in elements;
      SegmentKinds(elements[0]);
      ElementKinds(elements[1..]);
    }
  }

  predicate SoundEnds(f: bytes) {
    |f| >= 2 && f[0] != STAR && f[0] != DOUBLE_QUOTE && f[|f| - 1] != DASH && f[|f| - 1] != SLASH
  }

  lemma EndsOf(x: bytes, y: bytes)
    requires x != [] && x[0] != STAR && x[0] != DOUBLE_QUOTE && y != [] && y[|y| - 1] != DASH && y[|y| - 1] != SLASH
    ensures SoundEnds(x + y)
  {
  }

  lemma ConstantEnds()
    ensures SoundEnds(Ascii("NULL")) && SoundEnds(Ascii("TRUE")) && SoundEnds(Ascii("FALSE")) && SoundEnds(Ascii("[]"))
    ensures SoundEnds(Ascii("::double precision")) && SoundEnds(Ascii("::bytea")) && SoundEnds(Ascii("E'"))
    ensures SoundEnds(TypeSuffix(I16)) && SoundEnds(TypeSuffix(I32)) && SoundEnds(TypeSuffix(I64))
    ensures Ascii("(")[0] == '(' as int && Ascii("ARRAY[")[0] == 'A' as int
  {
  }

  lemma FloatEnds(float: FloatValue)
    requires float.Finite? ==> FloatText(float.text)
    ensures SoundEnds(PrintFloat(float))
  {
    ConstantEnds();
    match float
    case Finite(text) => EndsOf(text, Ascii("::double precision"));
    case NotANumber => QuotedNameEnds(Ascii("NaN"));
    case Infinity => QuotedNameEnds(Ascii("Infinity"));
    case NegativeInfinity => QuotedNameEnds(Ascii("-Infinity"));
  }

  lemma QuotedNameEnds(name: bytes)
    ensures SoundEnds(QuotedName(name))
  {
    ConstantEnds();
    EndsOf([QUOTE] + name + [QUOTE], Ascii("::double precision"));
  }

  lemma PrintEnds(l: Literal)
    requires Structured(l)
    ensures SoundEnds(Print(l))
  {
    hide Escaped, Hex, SignedDecimal, PrintElements, TypeSuffix, ByteaText, PrintFloat, SoundEnds, FloatText;
    ConstantEnds();
    match l
    case Null =>
    case Bool(_) =>
    case Integer(width, value) =>
      IntegerEnds(width, value);
    case Float(float) =>
      FloatEnds(float);
    case Text(text) =>
      TextEnds(text);
    case Bytea(data) =>
      ByteaPrintsAsCast(data);
      CastEnds(ByteaText(data), Ascii("bytea"));
    case TextCast(text, pgType) =>
      CastEnds(text, pgType);
    case Array(elements, elementType) =>
      BracketedEnds(PrintElements(elements), elementType);
  }

  lemma IntegerEnds(width: IntegerWidth, value: int)
    ensures SoundEnds(Print(Integer(width, value)))
  {
    hide SignedDecimal, TypeSuffix;
    ConstantEnds();
    assert width == I16 || width == I32 || width == I64;
    EndsOf(Ascii("(") + SignedDecimal(value), TypeSuffix(width));
  }

  lemma TextEnds(text: bytes)
    ensures SoundEnds(Quoted(text))
  {
    hide Escaped;
    ConstantEnds();
    EndsOf(Ascii("E'") + Escaped(text), [QUOTE]);
  }

  lemma BracketedEnds(inner: bytes, elementType: bytes)
    ensures SoundEnds(Bracketed(inner, elementType))
  {
    ConstantEnds();
    EndsOf(Ascii("ARRAY[") + inner + Ascii("]::") + elementType, Ascii("[]"));
  }

  lemma CastEnds(text: bytes, pgType: bytes)
    requires !EndsWith(pgType, DASH) && !EndsWith(pgType, SLASH)
    ensures SoundEnds(Quoted(text) + Ascii("::") + pgType)
  {
    hide Escaped;
    var cast := Ascii("::") + pgType;
    assert cast[|cast| - 1] == if pgType == [] then ':' as int else pgType[|pgType| - 1];
    assert Quoted(text)[0] == Ascii("E'")[0];
    EndsOf(Quoted(text), cast);
    assert Quoted(text) + Ascii("::") + pgType == Quoted(text) + cast;
  }

  /** A printed literal is a fragment of its own, with the segments `SegmentsOf` gives it. */
  lemma LiteralShape(l: Literal)
    requires Structured(l)
    ensures TextOf(SegmentsOf(l)) == Print(l) && FragmentShape(SegmentsOf(l))
  {
    hide Structured, SegmentsOf, Print, Grammar, TextOf;
    LiteralGrammar([], l, []);
    SegmentKinds(l);
    PrintEnds(l);
  }

  // ----- the main results -----

  predicate StructuredAll(literals: seq<Literal>) {
    |literals| < USIZE_LIMIT && forall i | 0 <= i < |literals| :: Structured(literals[i])
  }

  function Printed(literals: seq<Literal>): seq<bytes> {
    seq(|literals|, i requires 0 <= i < |literals| => Print(literals[i]))
  }

  function SegmentsOfAll(literals: seq<Literal>): seq<seq<Segment>> {
    seq(|literals|, i requires 0 <= i < |literals| => SegmentsOf(literals[i]))
  }

  lemma PrintedFragments(literals: seq<Literal>)
    requires StructuredAll(literals)
    ensures Fragments(SegmentsOfAll(literals)) && Texts(SegmentsOfAll(literals)) == Printed(literals)
  {
    forall i | 0 <= i < |literals|
      ensures FragmentShape(SegmentsOf(literals[i])) && TextOf(SegmentsOf(literals[i])) == Print(literals[i])
    {
      LiteralShape(literals[i]);
    }
  }

  /** Rendering literals into a template keeps its structure exactly when every placeholder is
      delimited: then, and only then, the output re-reads as the template's own segments with
      each placeholder replaced by the segments of its literal. */
  lemma LiteralsPreserveStructureExactly(template: bytes, segs: seq<Segment>, literals: seq<Literal>)
    requires Segmentation(template, segs) && AllBound(segs, |literals|) && StructuredAll(literals)
    ensures var out := RenderFrom([], template, Printed(literals));
            && out.Ok?
            && (Segments([], out.value) == Ok(Spliced(segs, SegmentsOfAll(literals))) <==>
                DelimitedFrom([], segs, Printed(literals)))
  {
    PrintedFragments(literals);
    StructurePreserved(template, segs, SegmentsOfAll(literals));
  }

  /** A condition on the template alone: the byte before a placeholder is no identifier byte,
      quote or dash, and the byte after it no identifier byte or quote. */
  predicate PlainlyDelimited(before: bytes, segs: seq<Segment>)
    decreases |segs|
  {
    segs == [] ||
    (&& (segs[0].Placeholder? ==>
           var t := TextOf(segs[1..]);
           && !(IdentifierBefore(before) || EndsWith(before, QUOTE) || EndsWith(before, DASH))
           && !(t != [] && (IdentifierByte(t[0]) || t[0] == QUOTE)))
     && PlainlyDelimited(before + SegmentText(segs[0]), segs[1..]))
  }

  /** No double quote comes right after a placeholder. */
  predicate NoNameAfter(segs: seq<Segment>) {
    segs == [] ||
    (&& (segs[0].Placeholder? ==> !StartsWith(TextOf(segs[1..]), DOUBLE_QUOTE))
     && NoNameAfter(segs[1..]))
  }

  /** The one case a neighbour's bytes do not settle: a fragment that ends in a quoted name must
      not be followed by another. */
  predicate NamesApart(segs: seq<Segment>, fragments: seq<bytes>) {
    NoNameAfter(segs) || forall f | f in fragments :: !EndsWith(f, DOUBLE_QUOTE)
  }

  /** Only a cast to a type whose name ends in a double quote prints such a fragment. */
  lemma OnlyNamedCastsEndInName(l: Literal)
    requires Structured(l)
    ensures EndsWith(Print(l), DOUBLE_QUOTE) <==> l.TextCast? && EndsWith(l.pgType, DOUBLE_QUOTE)
  {
    hide Escaped, Hex, SignedDecimal, PrintElements, FloatText, ShapedType;
    ConstantEnds();
    match l
    case Integer(width, _) => assert width == I16 || width == I32 || width == I64;
    case TextCast(text, pgType) =>
      var s := Quoted(text) + Ascii("::") + pgType;
      assert s[|s| - 1] == if pgType == [] then Ascii("::")[1] else pgType[|pgType| - 1];
    case _ =>
  }

  lemma NeighboursSuffice(ob: bytes, f: bytes, t: bytes)
    requires !IdentifierBefore(ob) && !EndsWith(ob, QUOTE) && !EndsWith(ob, DASH)
    requires !(t != [] && (IdentifierByte(t[0]) || t[0] == QUOTE))
    requires !(StartsWith(t, DOUBLE_QUOTE) && EndsWith(f, DOUBLE_QUOTE))
    ensures OpensCleanly(ob, f) && ClosesCleanly(f, t)
  {
  }

  /** Template and output look alike at their ends, or the template ends in a placeholder. */
  predicate SameEnd(tb: bytes, ob: bytes) {
    (tb == [] && ob == []) || (tb != [] && ob != [] && tb[|tb| - 1] == ob[|ob| - 1]) || IdentifierBefore(tb)
  }

  lemma SameEndAfterText(tb: bytes, ob: bytes, text: bytes)
    requires text != []
    ensures SameEnd(tb + text, ob + text)
  {
    assert (tb + text)[|tb + text| - 1] == text[|text| - 1];
    assert (ob + text)[|ob + text| - 1] == text[|text| - 1];
  }

  lemma SameEndAfterPlaceholder(tb: bytes, ob: bytes, seg: Segment)
    requires seg.Placeholder? && WellFormed(tb, seg)
    ensures SameEnd(tb + SegmentText(seg), ob)
  {
    var text := SegmentText(seg);
    assert (tb + text)[|tb + text| - 1] == text[|text| - 1] == seg.digits[|seg.digits| - 1];
    assert Digit(seg.digits[|seg.digits| - 1]);
  }

  lemma PlainNeighbours(tb: bytes, ob: bytes, segs: seq<Segment>, fragments: seq<bytes>, f: bytes)
    requires segs != [] && segs[0].Placeholder? && PlainlyDelimited(tb, segs) && SameEnd(tb, ob)
    requires NamesApart(segs, fragments) && f in fragments
    ensures OpensCleanly(ob, f) && ClosesCleanly(f, TextOf(segs[1..]))
  {
    NeighboursSuffice(ob, f, TextOf(segs[1..]));
  }

  lemma {:induction false} PlainlyDelimitedSuffices(tb: bytes, ob: bytes, segs: seq<Segment>, fragments: seq<bytes>)
    requires AllBound(segs, |fragments|) && Grammar(tb, segs, []) && PlainlyDelimited(tb, segs)
    requires NamesApart(segs, fragments) && SameEnd(tb, ob)
    ensures DelimitedFrom(ob, segs, fragments)
    decreases |segs|
  {
    hide OpensCleanly, ClosesCleanly, SameEnd, WellFormed, MayFollow, SegmentText, DecimalValue;
    if segs != [] {
      assert segs[0] in segs;
      var text := SegmentText(segs[0]);
      if segs[0].Placeholder? {
        var f := fragments[DecimalValue(segs[0].digits) - 1];
        PlainNeighbours(tb, ob, segs, fragments, f);
        SameEndAfterPlaceholder(tb, ob + f, segs[0]);
        PlainlyDelimitedSuffices(tb + text, ob + f, segs[1..], fragments);
      } else {
        SegmentBytes(tb, segs[0]);
        SameEndAfterText(tb, ob, text);
        PlainlyDelimitedSuffices(tb + text, ob + text, segs[1..], fragments);
      }
    }
  }

  lemma {:induction false} RenderedWithoutPlaceholders(segs: seq<Segment>)
    requires forall s | s in segs :: !s.Placeholder?
    ensures Rendered(segs, []) == Ok(TextOf(segs))
  {
    if segs != [] {
      assert segs[0] in segs;
      RenderedWithoutPlaceholders(segs[1..]);
    }
  }

  lemma {:induction false} SplicedHasNoPlaceholders(segs: seq<Segment>, fs: seq<seq<Segment>>)
    requires AllBound(segs, |fs|) && Fragments(fs)
    ensures forall s | s in Spliced(segs, fs) :: !s.Placeholder?
  {
    if segs != [] {
      assert segs[0] in segs;
      SplicedHasNoPlaceholders(segs[1..], fs);
    }
  }

  /** The promise of portable queries: with plainly delimited placeholders, whatever values are
      bound, the output has the template's structure, and rendering it once more with nothing
      bound changes nothing. */
  lemma BoundValuesNeverChangeStructure(template: bytes, segs: seq<Segment>, literals: seq<Literal>)
    requires Segmentation(template, segs) && AllBound(segs, |literals|) && StructuredAll(literals)
    requires PlainlyDelimited([], segs) && NamesApart(segs, Printed(literals))
    ensures var out := RenderFrom([], template, Printed(literals));
            && out.Ok?
            && Segments([], out.value) == Ok(Spliced(segs, SegmentsOfAll(literals)))
            && RenderFrom([], out.value, []) == out
  {
    var fs := SegmentsOfAll(literals);
    PrintedFragments(literals);
    PlainlyDelimitedSuffices([], [], segs, Printed(literals));
    StructurePreserved(template, segs, fs);
    var out := RenderFrom([], template, Printed(literals)).value;
    SplicedHasNoPlaceholders(segs, fs);
    RenderedWithoutPlaceholders(Spliced(segs, fs));
    RenderFromSegments([], out, []);
  }

  /** The template `x$1`, whose placeholder comes right after an identifier byte. */
  function UndelimitedTemplate(): seq<Segment> {
    [Character([120]), Placeholder([49])]
  }

  lemma UndelimitedTemplateSegments()
    ensures TextOf(UndelimitedTemplate()) == Ascii("x$1")
    ensures Segmentation(Ascii("x$1"), UndelimitedTemplate()) && AllBound(UndelimitedTemplate(), 1)
    ensures DecimalValue([49]) == 1
  {
    var segs := UndelimitedTemplate();
    assert segs[1..] == [segs[1]] && segs[1..][1..] == [];
    assert TextOf(segs[1..]) == [DOLLAR, 49];
    assert [49][..0] == [];
    assert TextOf(segs) == [120, DOLLAR, 49];
  }

  /** An undelimited placeholder: after an identifier byte, no bound text is read back as the
      escape string it was printed as. */
  lemma UndelimitedPlaceholderChangesStructure(text: bytes)
    ensures AllBound(UndelimitedTemplate(), 1)
    ensures var out := RenderFrom([], Ascii("x$1"), [Quoted(text)]);
            out.Ok? && Segments([], out.value) != Ok(Spliced(UndelimitedTemplate(), [QuotedSegments(text)]))
  {
    hide Escaped, Grammar, TextOf, Rendered, RenderFrom, Segments;
    var segs, literals := UndelimitedTemplate(), [Text(text)];
    UndelimitedTemplateSegments();
    assert Structured(literals[0]);
    assert Printed(literals) == [Quoted(text)] && SegmentsOfAll(literals) == [QuotedSegments(text)];
    LiteralsPreserveStructureExactly(Ascii("x$1"), segs, literals);
    UndelimitedAfterLetter(Quoted(text), segs[1..]);
  }

  lemma UndelimitedAfterLetter(f: bytes, segs: seq<Segment>)
    requires segs == [Placeholder([49])] && AllBound(segs, 1)
    ensures |f| >= 2 && LetterE(f[0]) && f[1] == QUOTE ==> !DelimitedFrom([] + [120], segs, [f])
  {
    assert [49][..0] == [];
  }
}
